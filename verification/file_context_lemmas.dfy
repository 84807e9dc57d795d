/**
 What the read, write and fsync loops of a file context guarantee: which
 cache entries and dirty blocks they can change, when they fail, what a read
 returns, what a write leaves in the cache, the write-then-read round trip,
 durability across a flush and a fresh context, and the dirty-block loss that
 MRU eviction allows.

 Blocks are named by the half-open range `StartBlock(pos) .. EndBlock(pos, count)`
 a transfer visits (`Chunking`).
 */
module FileContextLemmas {
  import opened Common
  import opened MruCache
  import opened BlockStore
  import opened Chunking
  import opened FileContext

  // ---------------------------------------------------------------------------
  // One iteration
  // ---------------------------------------------------------------------------

  /** One read iteration copies out the bytes the context sees: the cached
      copy on a hit, the store's on a miss. */
  lemma ReadStepBytes(ctx: Context, d: Disk, count: nat)
    requires ContextValid(ctx)
    requires count > 0 && 0 <= ctx.cursor && ctx.cursor + count <= OFF_T_MAX
    ensures var r := ReadStep(ctx, d, count);
      r.Some? ==>
        forall i :: 0 <= i < |r.value.bytes| ==>
          r.value.bytes[i] == View(ctx.cache, d, ctx.cursor + i)
  {
    hide Put, Get, Stored, ChunkAt, NoDups, Elems;
    var r := ReadStep(ctx, d, count);
    if r.Some? {
      forall i | 0 <= i < |r.value.bytes|
        ensures r.value.bytes[i] == View(ctx.cache, d, ctx.cursor + i)
      {
        ChunkInBlock(ctx.cursor, count, i);
      }
    }
  }

  /** A read iteration that hits changes no entry; one that misses adds no key
      but the block it reads. */
  lemma ReadStepKeys(ctx: Context, d: Disk, count: nat)
    requires ContextValid(ctx)
    requires count > 0 && 0 <= ctx.cursor && ctx.cursor + count <= OFF_T_MAX
    ensures var r := ReadStep(ctx, d, count);
      var b := StartBlock(ctx.cursor) as uint64;
      && (b in ctx.cache.index ==>
            && r.Some?
            && r.value.ctx.cache.data == ctx.cache.data
            && r.value.ctx.cache.index == ctx.cache.index)
      && (r.Some? ==> forall k :: k in r.value.ctx.cache.index ==> k in ctx.cache.index || k == b)
  {
    hide Put, Get, Stored, ChunkAt, NoDups, Elems, ReadBlock;
    ChunkSpan(ctx.cursor, count);
  }

  /** One write iteration leaves in the cache, for its block, the caller's bytes
      over the chunk and the bytes the context saw before everywhere else in
      the block. */
  lemma WriteStepBytes(ctx: Context, d: Disk, data: seq<byte>)
    requires ContextValid(ctx)
    requires |data| > 0 && 0 <= ctx.cursor && ctx.cursor + |data| <= OFF_T_MAX
    ensures var r := WriteStep(ctx, d, data);
      var b := StartBlock(ctx.cursor);
      r.Some? ==>
        forall p: nat :: b * BLOCK_SIZE <= p < (b + 1) * BLOCK_SIZE ==>
          CachedByte(r.value.cache, p) ==
            Some(if ctx.cursor <= p < r.value.cursor then data[p - ctx.cursor] else View(ctx.cache, d, p))
  {
    hide Put, Splice, Stored, FetchForWrite, Get, ChunkAt, NoDups, Elems;
    var r := WriteStep(ctx, d, data);
    if r.Some? {
      ChunkSpan(ctx.cursor, |data|);
      var ch := ChunkAt(ctx.cursor, |data|);
      var b := ch.block as uint64;
      var f := FetchForWrite(ctx.cache, d, b).value;
      var blk := Splice(f.block, ch.offset, data[..ch.len]);
      assert r.value.cache.data[b] == blk;
      forall p: nat | ch.block * BLOCK_SIZE <= p < (ch.block + 1) * BLOCK_SIZE
        ensures CachedByte(r.value.cache, p) ==
          Some(if ctx.cursor <= p < r.value.cursor then data[p - ctx.cursor] else View(ctx.cache, d, p))
      {
        BlockOf(p, ch.block);
      }
    }
  }

  /** A write iteration that needs no eviction (its block is cached, or the
      cache has room) keeps every cached key, and grows the cache by one entry
      exactly when its block was not cached. */
  lemma WriteStepRoom(ctx: Context, d: Disk, data: seq<byte>)
    requires ContextValid(ctx)
    requires |data| > 0 && 0 <= ctx.cursor && ctx.cursor + |data| <= OFF_T_MAX
    ensures var r := WriteStep(ctx, d, data);
      var b := StartBlock(ctx.cursor) as uint64;
      r.Some? && (b in ctx.cache.index || |ctx.cache.order| < ctx.cache.capacity) ==>
        && (forall k :: k in ctx.cache.index ==> k in r.value.cache.index)
        && |r.value.cache.order| == |ctx.cache.order| + (if b in ctx.cache.index then 0 else 1)
  {
  }

  // ---------------------------------------------------------------------------
  // Frames and failures
  // ---------------------------------------------------------------------------

  /** A read changes only cache entries of the blocks it visits, and completes
      unless one of those blocks cannot be read from the store. */
  lemma {:induction false} ReadLoopFrame(ctx: Context, d: Disk, count: nat)
    requires ContextValid(ctx)
    requires 0 <= ctx.cursor && ctx.cursor + count <= OFF_T_MAX
    ensures var r := ReadLoop(ctx, d, count);
      var lo, hi := StartBlock(ctx.cursor), EndBlock(ctx.cursor, count);
      && UnchangedOutside(ctx.cache, r.ctx.cache, lo, hi)
      && (NoReadFault(d, lo, hi) ==> r.ok)
    decreases count
  {
    hide ReadStep, ContextValid, ChunkAt, EndBlock, StartBlock;
    if count > 0 {
      ChunkSpan(ctx.cursor, count);
      var s := ReadStep(ctx, d, count);
      if s.Some? {
        ReadLoopFrame(s.value.ctx, d, count - |s.value.bytes|);
      }
    }
  }

  /** A write changes only cache entries of the blocks it visits. */
  lemma {:induction false} WriteLoopCacheFrame(ctx: Context, d: Disk, data: seq<byte>)
    requires ContextValid(ctx)
    requires 0 <= ctx.cursor && ctx.cursor + |data| <= OFF_T_MAX
    ensures UnchangedOutside(ctx.cache, WriteLoop(ctx, d, data).ctx.cache,
                             StartBlock(ctx.cursor), EndBlock(ctx.cursor, |data|))
    decreases |data|
  {
    hide WriteStep, ContextValid, ChunkAt, EndBlock, StartBlock;
    if |data| > 0 {
      ChunkSpan(ctx.cursor, |data|);
      var s := WriteStep(ctx, d, data);
      if s.Some? {
        WriteLoopCacheFrame(s.value, d, data[s.value.cursor - ctx.cursor..]);
      }
    }
  }

  /** A write marks dirty only blocks it visits, all of them when it completes,
      and completes unless one of them cannot be read from the store. */
  lemma {:induction false} WriteLoopDirty(ctx: Context, d: Disk, data: seq<byte>)
    requires ContextValid(ctx)
    requires 0 <= ctx.cursor && ctx.cursor + |data| <= OFF_T_MAX
    ensures var r := WriteLoop(ctx, d, data);
      var lo, hi := StartBlock(ctx.cursor), EndBlock(ctx.cursor, |data|);
      && ctx.dirty <= r.ctx.dirty
      && (forall b :: b in r.ctx.dirty && b !in ctx.dirty ==> lo <= b < hi)
      && (r.ok ==> forall b: uint64 :: lo <= b < hi ==> b in r.ctx.dirty)
      && (NoReadFault(d, lo, hi) ==> r.ok)
    decreases |data|
  {
    hide WriteStep, ContextValid, ChunkAt, EndBlock, StartBlock;
    if |data| > 0 {
      ChunkSpan(ctx.cursor, |data|);
      var s := WriteStep(ctx, d, data);
      if s.Some? {
        WriteLoopDirty(s.value, d, data[s.value.cursor - ctx.cursor..]);
      }
    }
  }

  // ---------------------------------------------------------------------------
  // What a read returns
  // ---------------------------------------------------------------------------

  /** What the context sees depends on the cached blocks only, not on their order. */
  lemma SameDataSameView(c1: Cache, c2: Cache, d: Disk, p: nat)
    requires Valid(c1) && c1.blockSize == BLOCK_SIZE
    requires Valid(c2) && c2.blockSize == BLOCK_SIZE
    requires c1.data == c2.data
    ensures View(c1, d, p) == View(c2, d, p)
  {
  }

  /** For a byte whose block is not cached the context sees the store's byte. */
  lemma UncachedView(c: Cache, d: Disk, p: nat)
    requires Valid(c) && c.blockSize == BLOCK_SIZE
    requires p / BLOCK_SIZE < 0x1_0000_0000_0000_0000 && (p / BLOCK_SIZE) as uint64 !in c.index
    ensures View(c, d, p) == ByteAt(d, p)
  {
  }

  /** For a byte whose block is cached the context sees the cached copy. */
  lemma CachedView(c: Cache, d: Disk, p: nat)
    requires Valid(c) && c.blockSize == BLOCK_SIZE
    requires p / BLOCK_SIZE < 0x1_0000_0000_0000_0000 && (p / BLOCK_SIZE) as uint64 in c.index
    ensures CachedByte(c, p).Some? && View(c, d, p) == CachedByte(c, p).value
  {
  }

  /** A cached byte outside the blocks a cache change may touch was cached
      before, with the same value. */
  lemma UnchangedByte(c0: Cache, c1: Cache, lo: nat, hi: nat, p: nat)
    requires Valid(c0) && c0.blockSize == BLOCK_SIZE
    requires Valid(c1) && c1.blockSize == BLOCK_SIZE
    requires UnchangedOutside(c0, c1, lo, hi) && !(lo <= p / BLOCK_SIZE < hi)
    ensures CachedByte(c1, p).Some? ==> CachedByte(c1, p) == CachedByte(c0, p)
  {
  }

  /** A read whose blocks are all cached completes and changes no entry. */
  lemma {:induction false} ReadCachedKeeps(ctx: Context, d: Disk, count: nat)
    requires ContextValid(ctx)
    requires 0 <= ctx.cursor && ctx.cursor + count <= OFF_T_MAX
    requires forall b: uint64 ::
      StartBlock(ctx.cursor) <= b < EndBlock(ctx.cursor, count) ==> b in ctx.cache.index
    ensures var r := ReadLoop(ctx, d, count);
      && r.ok
      && r.ctx.cache.data == ctx.cache.data
      && r.ctx.cache.index == ctx.cache.index
    decreases count
  {
    hide ReadStep, Valid, View, ChunkAt, EndBlock, StartBlock;
    if count > 0 {
      ChunkSpan(ctx.cursor, count);
      ReadStepKeys(ctx, d, count);
      var s := ReadStep(ctx, d, count).value;
      ReadCachedKeeps(s.ctx, d, count - |s.bytes|);
    }
  }

  /** The `i`-th byte of a read whose blocks are all cached is the byte the
      context sees. */
  lemma {:induction false} ReadCachedAt(ctx: Context, d: Disk, count: nat, i: nat)
    requires ContextValid(ctx)
    requires 0 <= ctx.cursor && ctx.cursor + count <= OFF_T_MAX
    requires forall b: uint64 ::
      StartBlock(ctx.cursor) <= b < EndBlock(ctx.cursor, count) ==> b in ctx.cache.index
    requires i < count
    ensures var r := ReadLoop(ctx, d, count);
      r.ok && r.out[i] == View(ctx.cache, d, ctx.cursor + i)
    decreases count
  {
    hide ReadStep, Valid, View, ChunkAt, EndBlock, StartBlock;
    ChunkSpan(ctx.cursor, count);
    ReadStepBytes(ctx, d, count);
    ReadStepKeys(ctx, d, count);
    ReadCachedKeeps(ctx, d, count);
    var s := ReadStep(ctx, d, count).value;
    var n := |s.bytes|;
    if i >= n {
      ReadCachedAt(s.ctx, d, count - n, i - n);
      var rest := ReadLoop(s.ctx, d, count - n);
      var r := ReadLoop(ctx, d, count);
      assert r.out == s.bytes + rest.out;
      assert r.out[i] == rest.out[i - n];
      assert s.ctx.cursor + (i - n) == ctx.cursor + i;
      SameDataSameView(s.ctx.cache, ctx.cache, d, ctx.cursor + i);
    }
  }

  /** A read whose blocks are all cached is served from the cache alone: it
      completes, returns the bytes the context sees and changes no entry. */
  lemma ReadCachedRange(ctx: Context, d: Disk, count: nat)
    requires ContextValid(ctx)
    requires 0 <= ctx.cursor && ctx.cursor + count <= OFF_T_MAX
    requires forall b: uint64 ::
      StartBlock(ctx.cursor) <= b < EndBlock(ctx.cursor, count) ==> b in ctx.cache.index
    ensures var r := ReadLoop(ctx, d, count);
      && r.ok
      && r.ctx.cache.data == ctx.cache.data
      && r.ctx.cache.index == ctx.cache.index
      && forall i :: 0 <= i < count ==> r.out[i] == View(ctx.cache, d, ctx.cursor + i)
  {
    ReadCachedKeeps(ctx, d, count);
    forall i | 0 <= i < count
      ensures ReadLoop(ctx, d, count).out[i] == View(ctx.cache, d, ctx.cursor + i)
    {
      ReadCachedAt(ctx, d, count, i);
    }
  }

  /** The `i`-th byte of a read none of whose blocks is cached is the store's
      byte, whenever the read gets that far. */
  lemma {:induction false} ReadUncachedAt(ctx: Context, d: Disk, count: nat, i: nat)
    requires ContextValid(ctx)
    requires 0 <= ctx.cursor && ctx.cursor + count <= OFF_T_MAX
    requires forall b: uint64 ::
      StartBlock(ctx.cursor) <= b < EndBlock(ctx.cursor, count) ==> b !in ctx.cache.index
    ensures var r := ReadLoop(ctx, d, count);
      i < |r.out| ==> r.out[i] == ByteAt(d, ctx.cursor + i)
    decreases count
  {
    hide ReadStep, Valid, View, ChunkAt, EndBlock, StartBlock;
    if count > 0 {
      ChunkSpan(ctx.cursor, count);
      ReadStepBytes(ctx, d, count);
      ReadStepKeys(ctx, d, count);
      var so := ReadStep(ctx, d, count);
      if so.Some? {
        var s := so.value;
        var n := |s.bytes|;
        var rest := ReadLoop(s.ctx, d, count - n);
        var r := ReadLoop(ctx, d, count);
        assert r.out == s.bytes + rest.out;
        if i < n {
          InBlockRange(ctx.cursor, count, i);
          UncachedView(ctx.cache, d, ctx.cursor + i);
        } else if i < |r.out| {
          ReadUncachedAt(s.ctx, d, count - n, i - n);
          assert r.out[i] == rest.out[i - n];
          assert s.ctx.cursor + (i - n) == ctx.cursor + i;
        }
      }
    }
  }

  /** A read none of whose blocks is cached, and none of whose blocks is bad,
      completes and returns the store's bytes (zero past the end of the file). */
  lemma ReadUncachedRange(ctx: Context, d: Disk, count: nat)
    requires ContextValid(ctx)
    requires 0 <= ctx.cursor && ctx.cursor + count <= OFF_T_MAX
    requires forall b: uint64 ::
      StartBlock(ctx.cursor) <= b < EndBlock(ctx.cursor, count) ==> b !in ctx.cache.index
    requires NoReadFault(d, StartBlock(ctx.cursor), EndBlock(ctx.cursor, count))
    ensures var r := ReadLoop(ctx, d, count);
      && r.ok
      && forall i :: 0 <= i < count ==> r.out[i] == ByteAt(d, ctx.cursor + i)
  {
    ReadLoopFrame(ctx, d, count);
    forall i | 0 <= i < count
      ensures ReadLoop(ctx, d, count).out[i] == ByteAt(d, ctx.cursor + i)
    {
      ReadUncachedAt(ctx, d, count, i);
    }
  }

  // ---------------------------------------------------------------------------
  // What a write leaves behind
  // ---------------------------------------------------------------------------

  /** After a completed write, the `i`-th written byte, if its block is still
      cached, holds the caller's `i`-th byte. */
  lemma {:induction false} WriteLoopWrittenAt(ctx: Context, d: Disk, data: seq<byte>, i: nat)
    requires ContextValid(ctx)
    requires 0 <= ctx.cursor && ctx.cursor + |data| <= OFF_T_MAX
    requires i < |data|
    ensures var r := WriteLoop(ctx, d, data);
      r.ok && CachedByte(r.ctx.cache, ctx.cursor + i).Some? ==>
        CachedByte(r.ctx.cache, ctx.cursor + i) == Some(data[i])
    decreases |data|
  {
    hide WriteStep, Valid, View, CachedByte, UnchangedOutside, ChunkAt, EndBlock, StartBlock;
    ChunkSpan(ctx.cursor, |data|);
    var s := WriteStep(ctx, d, data);
    if s.Some? {
      var c1 := s.value;
      var n := c1.cursor - ctx.cursor;
      var rest := data[n..];
      var r := WriteLoop(ctx, d, data);
      assert r == WriteLoop(c1, d, rest);
      var p := ctx.cursor + i;
      if i < n {
        WriteStepBytes(ctx, d, data);
        WriteLoopCacheFrame(c1, d, rest);
        ChunkInBlock(ctx.cursor, |data|, i);
        BlockOf(p, StartBlock(ctx.cursor));
        UnchangedByte(c1.cache, r.ctx.cache, StartBlock(c1.cursor), EndBlock(c1.cursor, |rest|), p);
      } else {
        WriteLoopWrittenAt(c1, d, rest, i - n);
        assert c1.cursor + (i - n) == p;
        assert rest[i - n] == data[i];
      }
    }
  }

  /** After a completed write, every written byte whose block is still cached
      holds the caller's byte. */
  lemma WriteLoopWritten(ctx: Context, d: Disk, data: seq<byte>)
    requires ContextValid(ctx)
    requires 0 <= ctx.cursor && ctx.cursor + |data| <= OFF_T_MAX
    ensures var r := WriteLoop(ctx, d, data);
      r.ok ==>
        forall i :: 0 <= i < |data| && CachedByte(r.ctx.cache, ctx.cursor + i).Some? ==>
          CachedByte(r.ctx.cache, ctx.cursor + i) == Some(data[i])
  {
    forall i | 0 <= i < |data|
      ensures var r := WriteLoop(ctx, d, data);
        r.ok && CachedByte(r.ctx.cache, ctx.cursor + i).Some? ==>
          CachedByte(r.ctx.cache, ctx.cursor + i) == Some(data[i])
    {
      WriteLoopWrittenAt(ctx, d, data, i);
    }
  }

  /** A write into a cache with room for every block it visits evicts nothing:
      every key cached before stays cached and, once the write completes,
      every block it visited is cached. */
  lemma {:induction false} WriteLoopRoom(ctx: Context, d: Disk, data: seq<byte>)
    requires ContextValid(ctx)
    requires 0 <= ctx.cursor && ctx.cursor + |data| <= OFF_T_MAX
    requires |ctx.cache.order| + (EndBlock(ctx.cursor, |data|) - StartBlock(ctx.cursor)) <= ctx.cache.capacity
    ensures var r := WriteLoop(ctx, d, data);
      && (forall k :: k in ctx.cache.index ==> k in r.ctx.cache.index)
      && (r.ok ==>
            forall b: uint64 :: StartBlock(ctx.cursor) <= b < EndBlock(ctx.cursor, |data|) ==>
              b in r.ctx.cache.index)
    decreases |data|
  {
    hide WriteStep, Valid, ContextValid, ChunkAt, EndBlock, StartBlock;
    if |data| > 0 {
      ChunkSpan(ctx.cursor, |data|);
      WriteStepRoom(ctx, d, data);
      var s := WriteStep(ctx, d, data);
      if s.Some? {
        var c1 := s.value;
        var rest := data[c1.cursor - ctx.cursor..];
        WriteLoopRoom(c1, d, rest);
        var r := WriteLoop(ctx, d, data);
        assert r == WriteLoop(c1, d, rest);
        if r.ok {
          forall b: uint64 | StartBlock(ctx.cursor) <= b < EndBlock(ctx.cursor, |data|)
            ensures b in r.ctx.cache.index
          {
            if b as nat == StartBlock(ctx.cursor) {
              assert b in c1.cache.index;
            }
          }
        }
      }
    }
  }

  /** Writing bytes and then reading the same range back (after seeking back
      to where the write started) returns the bytes written, provided the write
      completed and none of the blocks it visited has been evicted since. */
  lemma WriteThenRead(ctx: Context, d: Disk, data: seq<byte>)
    requires ContextValid(ctx)
    requires 0 <= ctx.cursor && ctx.cursor + |data| <= OFF_T_MAX
    requires WriteLoop(ctx, d, data).ok
    requires forall b: uint64 :: StartBlock(ctx.cursor) <= b < EndBlock(ctx.cursor, |data|) ==>
      b in WriteLoop(ctx, d, data).ctx.cache.index
    ensures var w := WriteLoop(ctx, d, data).ctx;
      var r := ReadLoop(w.(cursor := ctx.cursor), d, |data|);
      && r.ok
      && r.out == data
      && r.ctx.cursor == w.cursor
  {
    hide ReadLoop, WriteLoop, Valid, View, CachedByte, EndBlock, StartBlock;
    var w := WriteLoop(ctx, d, data).ctx;
    var w0 := w.(cursor := ctx.cursor);
    ReadCachedRange(w0, d, |data|);
    WriteLoopWritten(ctx, d, data);
    var r := ReadLoop(w0, d, |data|);
    forall i | 0 <= i < |data|
      ensures r.out[i] == data[i]
    {
      InBlockRange(ctx.cursor, |data|, i);
      CachedView(w.cache, d, ctx.cursor + i);
    }
  }

  // ---------------------------------------------------------------------------
  // Write-back
  // ---------------------------------------------------------------------------

  /** Durability: bytes written and then flushed by `mru_fsync` are read back
      by a fresh context on the same file (as after `mru_close` and a new
      `mru_open`), provided the write completed, none of the blocks it visited
      was evicted before the flush, and the flush completed. */
  lemma WriteSyncReopenRead(ctx: Context, d: Disk, data: seq<byte>, enumeration: seq<uint64>)
    requires ContextValid(ctx)
    requires 0 <= ctx.cursor && ctx.cursor + |data| <= OFF_T_MAX
    requires WriteLoop(ctx, d, data).ok
    requires forall b: uint64 :: StartBlock(ctx.cursor) <= b < EndBlock(ctx.cursor, |data|) ==>
      b in WriteLoop(ctx, d, data).ctx.cache.index
    requires NoDups(enumeration) && Elems(enumeration) == WriteLoop(ctx, d, data).ctx.dirty
    requires Flushable(WriteLoop(ctx, d, data).ctx, d)
    requires NoReadFault(d, StartBlock(ctx.cursor), EndBlock(ctx.cursor, |data|))
    ensures var w := WriteLoop(ctx, d, data).ctx;
      var s := Fsync(w, d, enumeration);
      var r := ReadLoop(NewContext(w.file).(cursor := ctx.cursor), s.disk, |data|);
      && r.ok
      && r.out == data
  {
    hide ReadLoop, WriteLoop, Fsync, Valid, View, CachedByte, EndBlock, StartBlock;
    var w := WriteLoop(ctx, d, data).ctx;
    var s := Fsync(w, d, enumeration);
    var reopened := NewContext(w.file).(cursor := ctx.cursor);
    WriteLoopDirty(ctx, d, data);
    WriteLoopWritten(ctx, d, data);
    ReadUncachedRange(reopened, s.disk, |data|);
    var r := ReadLoop(reopened, s.disk, |data|);
    forall i | 0 <= i < |data|
      ensures r.out[i] == data[i]
    {
      var p := ctx.cursor + i;
      InBlockRange(ctx.cursor, |data|, i);
      CachedView(w.cache, d, p);
      assert ByteAt(s.disk, p) == SyncedByte(w, d, p);
    }
  }

  /** A write iteration on a block that is not cached, into a full cache,
      evicts the front (most recently used) entry and puts its own block at
      the front. */
  lemma WriteStepEvicts(ctx: Context, d: Disk, data: seq<byte>)
    requires ContextValid(ctx)
    requires |data| > 0 && 0 <= ctx.cursor && ctx.cursor + |data| <= OFF_T_MAX
    requires StartBlock(ctx.cursor) as uint64 !in ctx.cache.index
    requires |ctx.cache.order| == ctx.cache.capacity
    ensures var r := WriteStep(ctx, d, data);
      var b := StartBlock(ctx.cursor) as uint64;
      r.Some? ==>
        && r.value.cache.index == ctx.cache.index - {ctx.cache.order[0]} + {b}
        && r.value.cache.order[0] == b
        && |r.value.cache.order| == |ctx.cache.order|
  {
    hide Splice, Stored, ReadBlock, NoDups, Elems, Without, Promote;
    var r := WriteStep(ctx, d, data);
    if r.Some? {
      var ch := ChunkAt(ctx.cursor, |data|);
      var b := ch.block as uint64;
      var f := FetchForWrite(ctx.cache, d, b).value;
      assert f.cache == ctx.cache;
      PutCases(f.cache, b, Some(Splice(f.block, ch.offset, data[..ch.len])));
    }
  }

  /** The two chunks of a two-byte transfer that starts at the last byte of a block. */
  lemma StraddlingChunks(pos: nat)
    requires pos % BLOCK_SIZE == BLOCK_SIZE - 1
    ensures ChunkAt(pos, 2) == Chunk(pos / BLOCK_SIZE, BLOCK_SIZE - 1, 1)
    ensures ChunkAt(pos + 1, 1) == Chunk(pos / BLOCK_SIZE + 1, 0, 1)
    ensures StartBlock(pos) == pos / BLOCK_SIZE && StartBlock(pos + 1) == pos / BLOCK_SIZE + 1
    ensures EndBlock(pos, 2) == pos / BLOCK_SIZE + 2
  {
    BlockOf(pos + 1, pos / BLOCK_SIZE + 1);
  }

  /** One iteration of the write loop that succeeds hands the rest of the
      buffer to the next iteration. */
  lemma WriteLoopUnfold(ctx: Context, d: Disk, data: seq<byte>)
    requires ContextValid(ctx)
    requires |data| > 0 && 0 <= ctx.cursor && ctx.cursor + |data| <= OFF_T_MAX
    requires WriteStep(ctx, d, data).Some?
    ensures var c1 := WriteStep(ctx, d, data).value;
      WriteLoop(ctx, d, data) == WriteLoop(c1, d, data[c1.cursor - ctx.cursor..])
  {
    hide WriteStep, Valid, ContextValid, ChunkAt, StartBlock, EndBlock;
  }

  /** With nothing left to write the loop stops, successfully, where it is. */
  lemma WriteLoopDone(ctx: Context, d: Disk)
    requires ContextValid(ctx) && 0 <= ctx.cursor <= OFF_T_MAX
    ensures WriteLoop(ctx, d, []) == WriteResult(ctx, true)
  {
    hide WriteStep, Valid, ContextValid;
  }

  /** First iteration of the straddling write: block `pos / BLOCK_SIZE` takes
      the front of the full cache, and the next block is still not cached. */
  lemma StraddleFirstStep(ctx: Context, d: Disk, x: byte, y: byte)
    requires ContextValid(ctx)
    requires 0 <= ctx.cursor && ctx.cursor + 2 <= OFF_T_MAX
    requires ctx.cursor % BLOCK_SIZE == BLOCK_SIZE - 1
    requires |ctx.cache.order| == ctx.cache.capacity
    requires (ctx.cursor / BLOCK_SIZE) as uint64 !in ctx.cache.index
    requires (ctx.cursor / BLOCK_SIZE + 1) as uint64 !in ctx.cache.index
    requires ctx.cursor / BLOCK_SIZE !in d.readFaults
    ensures var r := WriteStep(ctx, d, [x, y]);
      && r.Some?
      && r.value.cursor == ctx.cursor + 1
      && r.value.dirty == ctx.dirty + {(ctx.cursor / BLOCK_SIZE) as uint64}
      && r.value.cache.order[0] == (ctx.cursor / BLOCK_SIZE) as uint64
      && |r.value.cache.order| == r.value.cache.capacity
      && (ctx.cursor / BLOCK_SIZE + 1) as uint64 !in r.value.cache.index
  {
    StraddlingChunks(ctx.cursor);
    WriteStepEvicts(ctx, d, [x, y]);
    hide WriteStep, Valid, ChunkAt, EndBlock;
  }

  /** Second iteration: the next block goes into the full cache and evicts the
      block the first iteration wrote. */
  lemma StraddleSecondStep(ctx: Context, d: Disk, y: byte)
    requires ContextValid(ctx)
    requires 1 <= ctx.cursor && ctx.cursor + 1 <= OFF_T_MAX
    requires ctx.cursor % BLOCK_SIZE == 0
    requires |ctx.cache.order| == ctx.cache.capacity
    requires |ctx.cache.order| > 0 && ctx.cache.order[0] == (ctx.cursor / BLOCK_SIZE - 1) as uint64
    requires (ctx.cursor / BLOCK_SIZE) as uint64 !in ctx.cache.index
    requires ctx.cursor / BLOCK_SIZE !in d.readFaults
    ensures var r := WriteStep(ctx, d, [y]);
      && r.Some?
      && r.value.cursor == ctx.cursor + 1
      && r.value.dirty == ctx.dirty + {(ctx.cursor / BLOCK_SIZE) as uint64}
      && (ctx.cursor / BLOCK_SIZE - 1) as uint64 !in r.value.cache.index
      && (ctx.cursor / BLOCK_SIZE) as uint64 in r.value.cache.index
  {
    WriteStepEvicts(ctx, d, [y]);
    hide WriteStep, Valid, ChunkAt, EndBlock;
    assert ChunkAt(ctx.cursor, 1).len == 1;
  }

  /** A two-byte write across a block boundary, into a full cache holding
      neither block, completes and marks both blocks dirty, but leaves only the
      second one cached: caching it evicted the first, the most recently used. */
  lemma StraddlingWriteEvicts(ctx: Context, d: Disk, x: byte, y: byte)
    requires ContextValid(ctx)
    requires 0 <= ctx.cursor && ctx.cursor + 2 <= OFF_T_MAX
    requires ctx.cursor % BLOCK_SIZE == BLOCK_SIZE - 1
    requires |ctx.cache.order| == ctx.cache.capacity
    requires (ctx.cursor / BLOCK_SIZE) as uint64 !in ctx.cache.index
    requires (ctx.cursor / BLOCK_SIZE + 1) as uint64 !in ctx.cache.index
    requires NoReadFault(d, ctx.cursor / BLOCK_SIZE, ctx.cursor / BLOCK_SIZE + 2)
    ensures var w := WriteLoop(ctx, d, [x, y]);
      && w.ok
      && w.ctx.dirty == ctx.dirty + {(ctx.cursor / BLOCK_SIZE) as uint64, (ctx.cursor / BLOCK_SIZE + 1) as uint64}
      && (ctx.cursor / BLOCK_SIZE) as uint64 !in w.ctx.cache.index
      && (ctx.cursor / BLOCK_SIZE + 1) as uint64 in w.ctx.cache.index
      && CachedByte(w.ctx.cache, ctx.cursor + 1) == Some(y)
  {
    hide WriteStep, WriteLoop, Valid, View, CachedByte, Put, Get, ChunkAt, StartBlock, EndBlock;
    var pos := ctx.cursor;
    var q := pos / BLOCK_SIZE;
    assert q !in d.readFaults && q + 1 !in d.readFaults;
    StraddleFirstStep(ctx, d, x, y);
    var c1 := WriteStep(ctx, d, [x, y]).value;
    assert c1.cursor / BLOCK_SIZE == q + 1 && c1.cursor % BLOCK_SIZE == 0;
    StraddleSecondStep(c1, d, y);
    var c2 := WriteStep(c1, d, [y]).value;
    WriteLoopUnfold(ctx, d, [x, y]);
    assert [x, y][1..] == [y];
    WriteLoopUnfold(c1, d, [y]);
    assert [y][1..] == [];
    WriteLoopDone(c2, d);
    var w := WriteLoop(ctx, d, [x, y]);
    assert w.ctx == c2;
    WriteLoopWrittenAt(ctx, d, [x, y], 1);
    assert (pos + 1) / BLOCK_SIZE == q + 1;
    CachedView(w.ctx.cache, d, pos + 1);
  }

  /** The same write read back at once: the first byte comes from the store,
      not from the write, because its dirty block was evicted unflushed. */
  lemma StraddlingReadBack(ctx: Context, d: Disk, x: byte, y: byte)
    requires ContextValid(ctx)
    requires 0 <= ctx.cursor && ctx.cursor + 2 <= OFF_T_MAX
    requires ctx.cursor % BLOCK_SIZE == BLOCK_SIZE - 1
    requires |ctx.cache.order| == ctx.cache.capacity
    requires (ctx.cursor / BLOCK_SIZE) as uint64 !in ctx.cache.index
    requires (ctx.cursor / BLOCK_SIZE + 1) as uint64 !in ctx.cache.index
    requires NoReadFault(d, ctx.cursor / BLOCK_SIZE, ctx.cursor / BLOCK_SIZE + 2)
    ensures var w := WriteLoop(ctx, d, [x, y]);
      var r := ReadLoop(w.ctx.(cursor := ctx.cursor), d, 1);
      && w.ok
      && r.ok
      && r.out == [ByteAt(d, ctx.cursor)]
  {
    hide WriteLoop, WriteStep, ReadLoop, ReadStep, Valid, CachedByte, View, Put, Get, ChunkAt;
    var pos := ctx.cursor;
    StraddlingWriteEvicts(ctx, d, x, y);
    var w := WriteLoop(ctx, d, [x, y]);
    var back := w.ctx.(cursor := pos);
    assert EndBlock(pos, 1) == StartBlock(pos) + 1;
    ReadUncachedRange(back, d, 1);
  }

  /** MRU eviction can lose a completed write: after the write above,
      `mru_fsync` finds only the second block cached, reports success, and
      leaves the first written byte in the store as it was. */
  lemma DirtyEvictionLoss(ctx: Context, d: Disk, x: byte, y: byte, enumeration: seq<uint64>)
    requires ContextValid(ctx)
    requires 0 <= ctx.cursor && ctx.cursor + 2 <= OFF_T_MAX
    requires ctx.cursor % BLOCK_SIZE == BLOCK_SIZE - 1
    requires |ctx.cache.order| == ctx.cache.capacity
    requires (ctx.cursor / BLOCK_SIZE) as uint64 !in ctx.cache.index
    requires (ctx.cursor / BLOCK_SIZE + 1) as uint64 !in ctx.cache.index
    requires d.readFaults == {} && d.writeFaults == {} && !d.syncFails
    requires NoDups(enumeration) && Elems(enumeration) == WriteLoop(ctx, d, [x, y]).ctx.dirty
    ensures var w := WriteLoop(ctx, d, [x, y]);
      var s := Fsync(w.ctx, d, enumeration);
      && w.ok
      && (ctx.cursor / BLOCK_SIZE) as uint64 in w.ctx.dirty
      && s.status == 0
      && ByteAt(s.disk, ctx.cursor) == ByteAt(d, ctx.cursor)
      && ByteAt(s.disk, ctx.cursor + 1) == y
  {
    hide WriteLoop, WriteStep, Fsync, Valid, CachedByte, View, ByteAt, Put, Get, NoDups, Elems,
      ChunkAt, StartBlock, EndBlock, FlushLoop;
    var pos := ctx.cursor;
    StraddlingWriteEvicts(ctx, d, x, y);
    var w := WriteLoop(ctx, d, [x, y]);
    var s := Fsync(w.ctx, d, enumeration);
    UncachedView(w.ctx.cache, d, pos);
    CachedView(w.ctx.cache, d, pos + 1);
    assert ByteAt(s.disk, pos) == SyncedByte(w.ctx, d, pos);
    assert ByteAt(s.disk, pos + 1) == SyncedByte(w.ctx, d, pos + 1);
  }
}
