/**
 The per-handle `FileContext` of `file_handler.hpp` and the block-translation
 protocol of `file_handler.cpp`: the chunking loops of `mru_read` and
 `mru_write`, and the write-back loop of `mru_fsync`.

 Each `while` / range-`for` loop of the source is a tail-recursive function
 whose recursion follows the loop's iterations; the context is threaded
 through, so a failing iteration returns the state reached so far, as the
 source does when it returns -1 from inside the loop.
 */
module FileContext {
  import opened Common
  import opened MruCache
  import opened BlockStore
  import opened Chunking

  /** A `FileContext`: the descriptor (modelled by the name of the file it was
      opened on), the cursor `offset`, the block cache and the dirty set
      (`dirty_blocks`, whose values are only ever `true`). */
  datatype Context = Context(file: string, cursor: int, cache: Cache, dirty: set<uint64>)

  predicate ContextValid(ctx: Context) {
    && Valid(ctx.cache)
    && ctx.cache.capacity > 0
    && ctx.cache.blockSize == BLOCK_SIZE
  }

  /** `FileContext(fd)`: cursor 0, an empty cache of `CACHE_CAPACITY` blocks of
      `BLOCK_SIZE` bytes, and no dirty blocks. */
  function NewContext(file: string): (ctx: Context)
    ensures ContextValid(ctx)
    ensures ctx.file == file && ctx.cursor == 0 && ctx.dirty == {}
    ensures ctx.cache.capacity == CACHE_CAPACITY == 1024
    ensures ctx.cache.blockSize == BLOCK_SIZE == 4096
    ensures |ctx.cache.data| == 0
  {
    Context(file, 0, Empty(CACHE_CAPACITY, BLOCK_SIZE), {})
  }

  /** The cached copy of the byte at position `p`, if its block is cached. */
  function CachedByte(c: Cache, p: nat): Option<byte>
    requires Valid(c) && c.blockSize == BLOCK_SIZE
  {
    var b := p / BLOCK_SIZE;
    if b < 0x1_0000_0000_0000_0000 && b as uint64 in c.data then
      Some(c.data[b as uint64][p % BLOCK_SIZE])
    else None
  }

  /** The byte at `p` as the context sees it: the cached copy, else the store's. */
  function View(c: Cache, d: Disk, p: nat): byte
    requires Valid(c) && c.blockSize == BLOCK_SIZE
  {
    match CachedByte(c, p)
    case Some(v) => v
    case None => ByteAt(d, p)
  }

  /** Every key of `c1` outside the blocks `lo .. hi - 1` was in `c0` with the same block. */
  predicate UnchangedOutside(c0: Cache, c1: Cache, lo: nat, hi: nat) {
    forall k :: k in c1.data && !(lo <= k < hi) ==> k in c0.data && c1.data[k] == c0.data[k]
  }

  /** None of the blocks `lo .. hi - 1` fails to read. */
  predicate NoReadFault(d: Disk, lo: nat, hi: nat) {
    forall b :: lo <= b < hi ==> b !in d.readFaults
  }

  /** A block obtained for a chunk, and the cache after obtaining it. */
  datatype Fetched = Fetched(cache: Cache, block: seq<byte>)

  /** The cache step of one `mru_read` iteration: on a hit the block is copied
      (and looked up a second time); on a miss it is read from the store and
      inserted clean. */
  function FetchForRead(c: Cache, d: Disk, b: uint64): (r: Option<Fetched>)
    requires Valid(c) && c.capacity > 0 && c.blockSize == BLOCK_SIZE
    ensures r.None? <==> b !in c.index && b in d.readFaults
    ensures r.Some? ==>
      && Valid(r.value.cache)
      && r.value.cache.capacity == c.capacity
      && r.value.cache.blockSize == c.blockSize
      && b in r.value.cache.index
      && r.value.cache.data[b] == r.value.block
      && |r.value.block| == BLOCK_SIZE
      && UnchangedOutside(c, r.value.cache, b as nat, b as nat + 1)
    ensures r.Some? && b in c.index ==>
      && r.value.block == c.data[b]
      && r.value.cache.data == c.data
      && r.value.cache.index == c.index
    ensures r.Some? && b !in c.index ==>
      forall i :: 0 <= i < BLOCK_SIZE ==> r.value.block[i] == ByteAt(d, b * BLOCK_SIZE + i)
  {
    var g := Get(c, b);
    if !g.hit then
      match ReadBlock(d, b)
      case None => None
      case Some(blk) => Some(Fetched(Put(c, b, Some(blk)), blk))
    else
      var g2 := Get(g.cache, b);
      Some(Fetched(g2.cache, g2.block.value))
  }

  /** The cache step of one `mru_write` iteration before the splice: on a hit
      the cached block (the key is promoted); on a miss the block read from the
      store, with the cache unchanged. */
  function FetchForWrite(c: Cache, d: Disk, b: uint64): (r: Option<Fetched>)
    requires Valid(c) && c.blockSize == BLOCK_SIZE
    ensures r.None? <==> b !in c.index && b in d.readFaults
    ensures r.Some? ==>
      && Valid(r.value.cache)
      && r.value.cache.capacity == c.capacity
      && r.value.cache.blockSize == c.blockSize
      && r.value.cache.index == c.index
      && r.value.cache.data == c.data
      && |r.value.cache.order| == |c.order|
      && |r.value.block| == BLOCK_SIZE
    ensures r.Some? && b in c.index ==> r.value.block == c.data[b]
    ensures r.Some? && b !in c.index ==>
      forall i :: 0 <= i < BLOCK_SIZE ==> r.value.block[i] == ByteAt(d, b * BLOCK_SIZE + i)
  {
    var g := Get(c, b);
    if g.hit then Some(Fetched(g.cache, g.block.value))
    else
      match ReadBlock(d, b)
      case None => None
      case Some(blk) => Some(Fetched(g.cache, blk))
  }

  /** `memcpy(block + off, bytes, |bytes|)`. */
  function Splice(blk: seq<byte>, off: nat, bytes: seq<byte>): (r: seq<byte>)
    requires off + |bytes| <= |blk|
    ensures |r| == |blk|
    ensures forall i :: 0 <= i < |blk| ==>
      r[i] == (if off <= i < off + |bytes| then bytes[i - off] else blk[i])
  {
    blk[..off] + bytes + blk[off + |bytes|..]
  }

  // ---------------------------------------------------------------------------
  // mru_read
  // ---------------------------------------------------------------------------

  /** The context after one loop iteration and the bytes it copied out. */
  datatype Step = Step(ctx: Context, bytes: seq<byte>)

  /** One iteration of the `while (count > 0)` loop of `mru_read`: obtain the
      block of the cursor (from the cache, or from the store and then cached),
      copy the chunk out of it and advance the cursor past the chunk. */
  function ReadStep(ctx: Context, d: Disk, count: nat): (r: Option<Step>)
    requires ContextValid(ctx)
    requires count > 0 && 0 <= ctx.cursor && ctx.cursor + count <= OFF_T_MAX
    ensures r.None? <==>
      StartBlock(ctx.cursor) as uint64 !in ctx.cache.index && StartBlock(ctx.cursor) in d.readFaults
    ensures r.Some? ==>
      && ContextValid(r.value.ctx)
      && r.value.ctx.file == ctx.file && r.value.ctx.dirty == ctx.dirty
      && r.value.ctx.cache.capacity == ctx.cache.capacity
      && r.value.ctx.cursor == ctx.cursor + ChunkAt(ctx.cursor, count).len
      && |r.value.bytes| == ChunkAt(ctx.cursor, count).len
      && StartBlock(ctx.cursor) as uint64 in r.value.ctx.cache.index
      && UnchangedOutside(ctx.cache, r.value.ctx.cache, StartBlock(ctx.cursor), StartBlock(ctx.cursor) + 1)
  {
    var ch := ChunkAt(ctx.cursor, count);
    var b := ch.block as uint64;
    match FetchForRead(ctx.cache, d, b)
    case None => None
    case Some(f) =>
      Some(Step(ctx.(cache := f.cache, cursor := ctx.cursor + ch.len),
                f.block[ch.offset..ch.offset + ch.len]))
  }

  /** The context after the loop, whether it ran to completion, and the bytes
      copied into the caller's buffer. */
  datatype ReadResult = ReadResult(ctx: Context, ok: bool, out: seq<byte>)

  /** The `while (count > 0)` loop of `mru_read`. */
  function ReadLoop(ctx: Context, d: Disk, count: nat): (r: ReadResult)
    requires ContextValid(ctx)
    requires 0 <= ctx.cursor && ctx.cursor + count <= OFF_T_MAX
    ensures ContextValid(r.ctx)
    ensures r.ctx.file == ctx.file && r.ctx.dirty == ctx.dirty
    ensures r.ctx.cache.capacity == ctx.cache.capacity
    ensures r.ok ==> r.ctx.cursor == ctx.cursor + count && |r.out| == count
    ensures !r.ok ==>
      && ctx.cursor <= r.ctx.cursor < ctx.cursor + count
      && |r.out| == r.ctx.cursor - ctx.cursor
    decreases count
  {
    if count == 0 then ReadResult(ctx, true, [])
    else
      match ReadStep(ctx, d, count)
      case None => ReadResult(ctx, false, [])
      case Some(s) =>
        var rest := ReadLoop(s.ctx, d, count - |s.bytes|);
        ReadResult(rest.ctx, rest.ok, s.bytes + rest.out)
  }

  // ---------------------------------------------------------------------------
  // mru_write
  // ---------------------------------------------------------------------------

  /** One iteration of the `while (count > 0)` loop of `mru_write`: obtain the
      block of the cursor (from the cache, or from the store), copy the chunk of
      the caller's bytes into it, put it back, mark it dirty and advance the
      cursor past the chunk. */
  function WriteStep(ctx: Context, d: Disk, data: seq<byte>): (r: Option<Context>)
    requires ContextValid(ctx)
    requires |data| > 0 && 0 <= ctx.cursor && ctx.cursor + |data| <= OFF_T_MAX
    ensures r.None? <==>
      StartBlock(ctx.cursor) as uint64 !in ctx.cache.index && StartBlock(ctx.cursor) in d.readFaults
    ensures r.Some? ==>
      && ContextValid(r.value)
      && r.value.file == ctx.file
      && r.value.cache.capacity == ctx.cache.capacity
      && r.value.cursor == ctx.cursor + ChunkAt(ctx.cursor, |data|).len
      && r.value.dirty == ctx.dirty + {StartBlock(ctx.cursor) as uint64}
      && StartBlock(ctx.cursor) as uint64 in r.value.cache.index
      && UnchangedOutside(ctx.cache, r.value.cache, StartBlock(ctx.cursor), StartBlock(ctx.cursor) + 1)
  {
    var ch := ChunkAt(ctx.cursor, |data|);
    var b := ch.block as uint64;
    match FetchForWrite(ctx.cache, d, b)
    case None => None
    case Some(f) =>
      var blk := Splice(f.block, ch.offset, data[..ch.len]);
      Some(ctx.(cache := Put(f.cache, b, Some(blk)),
                dirty := ctx.dirty + {b},
                cursor := ctx.cursor + ch.len))
  }

  datatype WriteResult = WriteResult(ctx: Context, ok: bool)

  /** The `while (count > 0)` loop of `mru_write`. */
  function WriteLoop(ctx: Context, d: Disk, data: seq<byte>): (r: WriteResult)
    requires ContextValid(ctx)
    requires 0 <= ctx.cursor && ctx.cursor + |data| <= OFF_T_MAX
    ensures ContextValid(r.ctx)
    ensures r.ctx.file == ctx.file
    ensures r.ctx.cache.capacity == ctx.cache.capacity
    ensures r.ok ==> r.ctx.cursor == ctx.cursor + |data|
    ensures !r.ok ==> ctx.cursor <= r.ctx.cursor < ctx.cursor + |data|
    decreases |data|
  {
    if |data| == 0 then WriteResult(ctx, true)
    else
      match WriteStep(ctx, d, data)
      case None => WriteResult(ctx, false)
      case Some(ctx1) => WriteLoop(ctx1, d, data[ctx1.cursor - ctx.cursor..])
  }

  // ---------------------------------------------------------------------------
  // mru_fsync
  // ---------------------------------------------------------------------------

  datatype FlushResult = FlushResult(cache: Cache, disk: Disk, ok: bool)

  /** Block `b` is written back by a flush over `pending`: it is pending and still cached. */
  predicate WrittenBack(c: Cache, pending: seq<uint64>, b: nat) {
    b in pending && b in c.index
  }

  /** The byte at `p` once the blocks of `pending` that are cached have been written back. */
  function FlushedByte(c: Cache, d: Disk, pending: seq<uint64>, p: nat): byte
    requires Valid(c) && c.blockSize == BLOCK_SIZE
  {
    if WrittenBack(c, pending, p / BLOCK_SIZE) then View(c, d, p) else ByteAt(d, p)
  }

  /** The loop over `dirty_blocks` in `mru_fsync`, visiting the keys in the
      order `pending`: each block still cached is looked up (and so promoted)
      and written to its place in the store; blocks no longer cached are skipped. */
  function FlushLoop(c: Cache, d: Disk, pending: seq<uint64>): (r: FlushResult)
    requires Valid(c) && c.blockSize == BLOCK_SIZE
    ensures Valid(r.cache)
    ensures r.cache.capacity == c.capacity && r.cache.blockSize == c.blockSize
    ensures r.cache.index == c.index && r.cache.data == c.data
    ensures r.disk.readFaults == d.readFaults && r.disk.writeFaults == d.writeFaults
    ensures r.disk.statFails == d.statFails && r.disk.syncFails == d.syncFails
    decreases |pending|
  {
    if pending == [] then FlushResult(c, d, true)
    else
      var b := pending[0];
      var g := Get(c, b);
      if !g.hit then
        FlushLoop(c, d, pending[1..])
      else
        match WriteBlock(d, b, g.block.value)
        case None => FlushResult(g.cache, d, false)
        case Some(d1) => FlushLoop(g.cache, d1, pending[1..])
  }

  /** No block the flush will write fails to write. */
  predicate CanFlush(c: Cache, d: Disk, pending: seq<uint64>) {
    forall i :: 0 <= i < |pending| && pending[i] in c.index ==> pending[i] !in d.writeFaults
  }

  /** The flush completes exactly when no pending, still-cached block is bad. */
  lemma {:induction false} FlushLoopOk(c: Cache, d: Disk, pending: seq<uint64>)
    requires Valid(c) && c.blockSize == BLOCK_SIZE
    ensures FlushLoop(c, d, pending).ok <==> CanFlush(c, d, pending)
    decreases |pending|
  {
    if pending != [] {
      var b := pending[0];
      var g := Get(c, b);
      var rest := pending[1..];
      assert forall i :: 1 <= i < |pending| ==> pending[i] == rest[i - 1];
      if !g.hit {
        FlushLoopOk(c, d, rest);
      } else {
        match WriteBlock(d, b, g.block.value)
        case None =>
        case Some(d1) =>
          FlushLoopOk(g.cache, d1, rest);
      }
    }
  }

  /** A completed flush leaves every pending cached block in the store as
      cached and every other byte as it was, and never shrinks the file. */
  lemma {:induction false} FlushLoopWritesBack(c: Cache, d: Disk, pending: seq<uint64>)
    requires Valid(c) && c.blockSize == BLOCK_SIZE
    ensures var r := FlushLoop(c, d, pending);
      r.ok ==> Size(r.disk) >= Size(d) && forall p: nat :: ByteAt(r.disk, p) == FlushedByte(c, d, pending, p)
    decreases |pending|
  {
    if pending != [] {
      var b := pending[0];
      var g := Get(c, b);
      var rest := pending[1..];
      assert forall x :: x in pending <==> x == b || x in rest;
      if !g.hit {
        FlushLoopWritesBack(c, d, rest);
      } else {
        match WriteBlock(d, b, g.block.value)
        case None =>
        case Some(d1) =>
          FlushLoopWritesBack(g.cache, d1, rest);
          var r := FlushLoop(g.cache, d1, rest);
          if r.ok {
            forall p: nat
              ensures ByteAt(r.disk, p) == FlushedByte(c, d, pending, p)
            {
              assert ByteAt(r.disk, p) == FlushedByte(g.cache, d1, rest, p);
              assert ByteAt(d1, p) == Overwritten(d, b, g.block.value, p);
              BlockOf(p, b);
              if p / BLOCK_SIZE == b {
                assert CachedByte(c, p) == Some(c.data[b][p % BLOCK_SIZE]);
              }
            }
          }
      }
    }
  }

  datatype SyncResult = SyncResult(ctx: Context, disk: Disk, status: int)

  /** Every dirty block that is still cached can be written to the store. */
  predicate Flushable(ctx: Context, d: Disk) {
    forall b :: b in ctx.dirty && b in ctx.cache.index ==> b !in d.writeFaults
  }

  /** The byte at `p` once the dirty blocks of `ctx` have been written back:
      the cached copy for a dirty block still cached, the store's otherwise. */
  function SyncedByte(ctx: Context, d: Disk, p: nat): byte
    requires ContextValid(ctx)
  {
    if p / BLOCK_SIZE in ctx.dirty then View(ctx.cache, d, p) else ByteAt(d, p)
  }

  /** `mru_fsync` on a context: write back the dirty blocks still cached (in the
      iteration order `enumeration` of the dirty set), clear the dirty set, then
      issue the durability barrier. A failing block write returns -1 at once,
      leaving the dirty set as it was. */
  function Fsync(ctx: Context, d: Disk, enumeration: seq<uint64>): (r: SyncResult)
    requires ContextValid(ctx)
    requires NoDups(enumeration) && Elems(enumeration) == ctx.dirty
    ensures ContextValid(r.ctx)
    ensures r.ctx.file == ctx.file && r.ctx.cursor == ctx.cursor
    ensures r.ctx.cache.data == ctx.cache.data && r.ctx.cache.index == ctx.cache.index
    ensures r.ctx.cache.capacity == ctx.cache.capacity
    ensures r.disk.readFaults == d.readFaults && r.disk.writeFaults == d.writeFaults
    ensures r.disk.statFails == d.statFails && r.disk.syncFails == d.syncFails
    ensures r.status == 0 || r.status == -1
    ensures !Flushable(ctx, d) ==> r.status == -1 && r.ctx.dirty == ctx.dirty
    ensures Flushable(ctx, d) ==> r.ctx.dirty == {} && (r.status == 0 <==> !d.syncFails)
    ensures Flushable(ctx, d) ==> forall p: nat :: ByteAt(r.disk, p) == SyncedByte(ctx, d, p)
  {
    var f := FlushLoop(ctx.cache, d, enumeration);
    FlushLoopOk(ctx.cache, d, enumeration);
    FlushLoopWritesBack(ctx.cache, d, enumeration);
    if !f.ok then
      SyncResult(ctx.(cache := f.cache), f.disk, -1)
    else
      SyncResult(ctx.(cache := f.cache, dirty := {}), f.disk, if d.syncFails then -1 else 0)
  }
}
