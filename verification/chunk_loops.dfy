/**
 The `while (count > 0)` loops of `mru_read` and `mru_write` written as the
 source writes them: a cursor, a remaining count and the bytes produced so far,
 updated once per chunk, with an early return when a block cannot be read.
 Each method is proved to compute exactly what the recursive definitions of
 `FileContext` compute, so every property proved about those holds of the loops.
 */
module ChunkLoops {
  import opened Common
  import opened MruCache
  import opened BlockStore
  import opened Chunking
  import opened FileContext

  /** One unfolding of the decomposition: the first chunk, then the rest. */
  lemma ChunksUnfold(pos: nat, count: nat)
    ensures count == 0 ==> Chunks(pos, count) == []
    ensures count > 0 ==>
      var ch := ChunkAt(pos, count);
      Chunks(pos, count) == [ch] + Chunks(pos + ch.len, count - ch.len)
  {
  }

  /** One unfolding of `ReadLoop`: stop, fail, or one step and the rest. */
  lemma ReadLoopUnfold(ctx: Context, d: Disk, count: nat)
    requires ContextValid(ctx)
    requires 0 <= ctx.cursor && ctx.cursor + count <= OFF_T_MAX
    ensures count == 0 ==> ReadLoop(ctx, d, count) == ReadResult(ctx, true, [])
    ensures count > 0 && ReadStep(ctx, d, count).None? ==> ReadLoop(ctx, d, count) == ReadResult(ctx, false, [])
    ensures count > 0 && ReadStep(ctx, d, count).Some? ==>
      var s := ReadStep(ctx, d, count).value;
      var rest := ReadLoop(s.ctx, d, count - |s.bytes|);
      ReadLoop(ctx, d, count) == ReadResult(rest.ctx, rest.ok, s.bytes + rest.out)
  {
    hide ReadStep, Valid;
  }

  /** One unfolding of `WriteLoop`: stop, fail, or one step and the rest. */
  lemma WriteLoopStep(ctx: Context, d: Disk, data: seq<byte>)
    requires ContextValid(ctx)
    requires 0 <= ctx.cursor && ctx.cursor + |data| <= OFF_T_MAX
    ensures |data| == 0 ==> WriteLoop(ctx, d, data) == WriteResult(ctx, true)
    ensures |data| > 0 && WriteStep(ctx, d, data).None? ==> WriteLoop(ctx, d, data) == WriteResult(ctx, false)
    ensures |data| > 0 && WriteStep(ctx, d, data).Some? ==>
      var c1 := WriteStep(ctx, d, data).value;
      WriteLoop(ctx, d, data) == WriteLoop(c1, d, data[c1.cursor - ctx.cursor..])
  {
    hide WriteStep, Valid;
  }

  /** Moving the next chunk from the pending decomposition to the visited ones. */
  lemma VisitNext(visited: seq<Chunk>, ch: Chunk, rest: seq<Chunk>)
    ensures visited + ([ch] + rest) == (visited + [ch]) + rest
    ensures (visited + ([ch] + rest))[|visited|] == ch
    ensures (visited + ([ch] + rest))[..|visited|] == visited
  {
  }

  /** The body of `mru_read` after the handle lookup. Besides the result it
      returns the chunks the iterations worked on, each computed from the cursor
      and the remaining count as the loop computes `block_num`, `block_offset`
      and `bytes_to_copy`: they are the decomposition `Chunks` of the whole
      transfer, or, when a block cannot be read, a proper prefix of it that
      stops just before the chunk whose block failed. */
  method ReadChunks(ctx: Context, d: Disk, count: nat) returns (r: ReadResult, visited: seq<Chunk>)
    requires ContextValid(ctx)
    requires 0 <= ctx.cursor && ctx.cursor + count <= OFF_T_MAX
    ensures r == ReadLoop(ctx, d, count)
    ensures r.ok ==> |r.out| == count && r.ctx.cursor == ctx.cursor + count
    ensures !r.ok ==> |r.out| == r.ctx.cursor - ctx.cursor < count
    ensures r.ok ==> visited == Chunks(ctx.cursor, count)
    ensures !r.ok ==>
      var cs := Chunks(ctx.cursor, count);
      && |visited| < |cs|
      && visited == cs[..|visited|]
      && Start(cs[|visited|]) == r.ctx.cursor
      && cs[|visited|].block in d.readFaults
  {
    hide ReadStep, Valid, ChunkAt, Chunks, ReadLoop;
    var cur := ctx;
    var remaining: nat := count;
    var out: seq<byte> := [];
    visited := [];
    while remaining > 0
      invariant ContextValid(cur) && 0 <= cur.cursor && cur.cursor + remaining <= OFF_T_MAX
      invariant cur.cursor == ctx.cursor + |out| && |out| + remaining == count
      invariant var rest := ReadLoop(cur, d, remaining);
        ReadLoop(ctx, d, count) == ReadResult(rest.ctx, rest.ok, out + rest.out)
      invariant Chunks(ctx.cursor, count) == visited + Chunks(cur.cursor, remaining)
      decreases remaining
    {
      var ch := ChunkAt(cur.cursor, remaining);
      ChunksUnfold(cur.cursor, remaining);
      VisitNext(visited, ch, Chunks(cur.cursor + ch.len, remaining - ch.len));
      ReadLoopUnfold(cur, d, remaining);
      match ReadStep(cur, d, remaining)
      case None =>
        ChunkSpan(cur.cursor, remaining);
        assert out + [] == out;
        return ReadResult(cur, false, out), visited;
      case Some(s) =>
        assert out + (s.bytes + ReadLoop(s.ctx, d, remaining - |s.bytes|).out)
            == (out + s.bytes) + ReadLoop(s.ctx, d, remaining - |s.bytes|).out;
        out := out + s.bytes;
        cur := s.ctx;
        remaining := remaining - |s.bytes|;
        visited := visited + [ch];
    }
    ReadLoopUnfold(cur, d, 0);
    ChunksUnfold(cur.cursor, 0);
    assert out + [] == out;
    assert visited + [] == visited;
    return ReadResult(cur, true, out), visited;
  }

  /** The body of `mru_write` after the handle lookup, returning, as
      `ReadChunks` does, the chunks its iterations worked on. */
  method WriteChunks(ctx: Context, d: Disk, data: seq<byte>) returns (r: WriteResult, visited: seq<Chunk>)
    requires ContextValid(ctx)
    requires 0 <= ctx.cursor && ctx.cursor + |data| <= OFF_T_MAX
    ensures r == WriteLoop(ctx, d, data)
    ensures r.ok ==> r.ctx.cursor == ctx.cursor + |data|
    ensures !r.ok ==> ctx.cursor <= r.ctx.cursor < ctx.cursor + |data|
    ensures r.ok ==> visited == Chunks(ctx.cursor, |data|)
    ensures !r.ok ==>
      var cs := Chunks(ctx.cursor, |data|);
      && |visited| < |cs|
      && visited == cs[..|visited|]
      && Start(cs[|visited|]) == r.ctx.cursor
      && cs[|visited|].block in d.readFaults
  {
    hide WriteStep, Valid, ChunkAt, Chunks, WriteLoop;
    var cur := ctx;
    var written := 0;
    visited := [];
    while written < |data|
      invariant written <= |data|
      invariant ContextValid(cur) && 0 <= cur.cursor && cur.cursor + (|data| - written) <= OFF_T_MAX
      invariant cur.cursor == ctx.cursor + written
      invariant WriteLoop(ctx, d, data) == WriteLoop(cur, d, data[written..])
      invariant Chunks(ctx.cursor, |data|) == visited + Chunks(cur.cursor, |data| - written)
      decreases |data| - written
    {
      var rest := data[written..];
      var ch := ChunkAt(cur.cursor, |rest|);
      ChunksUnfold(cur.cursor, |rest|);
      VisitNext(visited, ch, Chunks(cur.cursor + ch.len, |rest| - ch.len));
      WriteLoopStep(cur, d, rest);
      match WriteStep(cur, d, rest)
      case None =>
        ChunkSpan(cur.cursor, |rest|);
        return WriteResult(cur, false), visited;
      case Some(next) =>
        var n := next.cursor - cur.cursor;
        assert rest[n..] == data[written + n..];
        cur := next;
        written := written + n;
        visited := visited + [ch];
    }
    assert data[written..] == [];
    WriteLoopStep(cur, d, []);
    ChunksUnfold(cur.cursor, 0);
    assert visited + [] == visited;
    return WriteResult(cur, true), visited;
  }
}
