/**
 The block-translation arithmetic shared by `mru_read` and `mru_write`: a
 transfer of `count` bytes starting at byte `pos` is split into chunks, each
 lying inside one block, by repeating
   block_num     = pos / BLOCK_SIZE
   block_offset  = pos % BLOCK_SIZE
   bytes_to_copy = min(BLOCK_SIZE - block_offset, count)
 and advancing `pos` by `bytes_to_copy`.
 */
module Chunking {
  import opened Common

  datatype Chunk = Chunk(block: nat, offset: nat, len: nat)

  /** First byte position a chunk covers. */
  function Start(ch: Chunk): nat {
    ch.block * BLOCK_SIZE + ch.offset
  }

  /** Positions and block numbers: `p` lies in block `b` exactly when `p / BLOCK_SIZE == b`. */
  lemma BlockOf(p: nat, b: nat)
    ensures b * BLOCK_SIZE <= p < (b + 1) * BLOCK_SIZE <==> p / BLOCK_SIZE == b
    ensures p / BLOCK_SIZE == b ==> p % BLOCK_SIZE == p - b * BLOCK_SIZE
  {
  }

  /** One step of the chunking loop at cursor `pos` with `count` bytes left. */
  function ChunkAt(pos: nat, count: nat): (ch: Chunk)
    requires count > 0
    ensures Start(ch) == pos
    ensures ch.offset < BLOCK_SIZE
    ensures 0 < ch.len <= count
    ensures ch.offset + ch.len <= BLOCK_SIZE
    ensures ch.len < count ==> ch.offset + ch.len == BLOCK_SIZE
  {
    Chunk(pos / BLOCK_SIZE, pos % BLOCK_SIZE, Min(BLOCK_SIZE - pos % BLOCK_SIZE, count))
  }

  /** Every chunk lies in the block `ChunkAt` names: all its bytes have that block number. */
  lemma ChunkInBlock(pos: nat, count: nat, i: nat)
    requires count > 0 && i < ChunkAt(pos, count).len
    ensures (pos + i) / BLOCK_SIZE == ChunkAt(pos, count).block
    ensures (pos + i) % BLOCK_SIZE == ChunkAt(pos, count).offset + i
  {
    var ch := ChunkAt(pos, count);
    BlockOf(pos + i, ch.block);
  }

  /** The block holding byte `pos`: the first block a transfer at `pos` visits. */
  function StartBlock(pos: nat): nat {
    pos / BLOCK_SIZE
  }

  /** One past the last block a transfer of `count` bytes at `pos` visits (an
      empty transfer visits none). */
  function EndBlock(pos: nat, count: nat): (e: nat)
    ensures StartBlock(pos) <= e
    ensures count == 0 <==> e == StartBlock(pos)
    ensures e <= pos + count + 1
  {
    if count == 0 then pos / BLOCK_SIZE else (pos + count - 1) / BLOCK_SIZE + 1
  }

  /** One loop step visits block `pos / BLOCK_SIZE`; the rest of the loop starts
      at the next block and ends where the whole loop ends. */
  lemma ChunkSpan(pos: nat, count: nat)
    requires count > 0
    ensures var ch := ChunkAt(pos, count);
      && ch.block == StartBlock(pos)
      && ch.block < EndBlock(pos, count)
      && (ch.len == count ==> EndBlock(pos, count) == ch.block + 1)
      && (ch.len < count ==>
            && StartBlock(pos + ch.len) == ch.block + 1
            && EndBlock(pos + ch.len, count - ch.len) == EndBlock(pos, count))
  {
    var ch := ChunkAt(pos, count);
    ChunkInBlock(pos, count, ch.len - 1);
    if ch.len < count {
      BlockOf(pos + ch.len, ch.block + 1);
    }
  }

  /** Block numbers do not decrease along the file. */
  lemma BlockMonotone(p: nat, q: nat)
    requires p <= q
    ensures p / BLOCK_SIZE <= q / BLOCK_SIZE
  {
    BlockOf(p, p / BLOCK_SIZE);
    BlockOf(q, q / BLOCK_SIZE);
  }

  /** Every byte a transfer of `count` bytes at `pos` covers lies in one of the
      blocks `StartBlock(pos) .. EndBlock(pos, count) - 1`. */
  lemma InBlockRange(pos: nat, count: nat, i: nat)
    requires i < count
    ensures StartBlock(pos) <= (pos + i) / BLOCK_SIZE < EndBlock(pos, count)
  {
    BlockMonotone(pos, pos + i);
    BlockMonotone(pos + i, pos + count - 1);
  }

  /** The whole decomposition of a transfer, in loop order. */
  function Chunks(pos: nat, count: nat): seq<Chunk>
    decreases count
  {
    if count == 0 then []
    else
      var ch := ChunkAt(pos, count);
      [ch] + Chunks(pos + ch.len, count - ch.len)
  }

  function TotalLen(cs: seq<Chunk>): nat {
    if cs == [] then 0 else cs[0].len + TotalLen(cs[1..])
  }

  /** Every chunk is non-empty and stays inside its block. */
  predicate WithinBlocks(cs: seq<Chunk>) {
    forall i :: 0 <= i < |cs| ==> 0 < cs[i].len && cs[i].offset + cs[i].len <= BLOCK_SIZE
  }

  /** Each chunk starts where the previous one ends. */
  predicate Contiguous(cs: seq<Chunk>) {
    forall i :: 0 <= i < |cs| - 1 ==> Start(cs[i + 1]) == Start(cs[i]) + cs[i].len
  }

  /** Block numbers strictly increase from chunk to chunk. */
  predicate Increasing(cs: seq<Chunk>) {
    forall i :: 0 <= i < |cs| - 1 ==> cs[i].block < cs[i + 1].block
  }

  /** The chunks cover exactly `count` bytes from `pos` on: there are none for
      an empty transfer, the first starts at `pos` in block `pos / BLOCK_SIZE`,
      the last ends at `pos + count`, and their lengths add up to `count`. */
  lemma {:induction false} ChunksCover(pos: nat, count: nat)
    ensures var cs := Chunks(pos, count);
      && (|cs| == 0 <==> count == 0)
      && (|cs| > 0 ==> Start(cs[0]) == pos && cs[0].block == pos / BLOCK_SIZE)
      && (|cs| > 0 ==> Start(cs[|cs| - 1]) + cs[|cs| - 1].len == pos + count)
      && TotalLen(cs) == count
    decreases count
  {
    hide ChunkAt;
    if count > 0 {
      var ch := ChunkAt(pos, count);
      var rest := Chunks(pos + ch.len, count - ch.len);
      ChunksCover(pos + ch.len, count - ch.len);
      var cs := Chunks(pos, count);
      assert cs == [ch] + rest;
      assert cs[1..] == rest;
      BlockOf(pos, ch.block);
      if |rest| > 0 {
        assert cs[|cs| - 1] == rest[|rest| - 1];
      }
    }
  }

  /** Every chunk is non-empty and stays inside its block. */
  lemma {:induction false} ChunksWithinBlocks(pos: nat, count: nat)
    ensures WithinBlocks(Chunks(pos, count))
    decreases count
  {
    hide ChunkAt;
    if count > 0 {
      var ch := ChunkAt(pos, count);
      var rest := Chunks(pos + ch.len, count - ch.len);
      ChunksWithinBlocks(pos + ch.len, count - ch.len);
      var cs := Chunks(pos, count);
      assert cs == [ch] + rest;
      forall i | 0 <= i < |cs|
        ensures 0 < cs[i].len && cs[i].offset + cs[i].len <= BLOCK_SIZE
      {
        if i > 0 {
          assert cs[i] == rest[i - 1];
        }
      }
    }
  }

  /** Putting a chunk in front of a contiguous run keeps it contiguous when the
      run starts where the chunk ends. */
  lemma ContiguousCons(ch: Chunk, rest: seq<Chunk>)
    requires Contiguous(rest)
    requires |rest| > 0 ==> Start(rest[0]) == Start(ch) + ch.len
    ensures Contiguous([ch] + rest)
  {
    var cs := [ch] + rest;
    forall i | 0 <= i < |cs| - 1
      ensures Start(cs[i + 1]) == Start(cs[i]) + cs[i].len
    {
      if i > 0 {
        assert cs[i] == rest[i - 1] && cs[i + 1] == rest[i];
      }
    }
  }

  /** Each chunk starts where the previous one ends. */
  lemma {:induction false} ChunksContiguous(pos: nat, count: nat)
    ensures Contiguous(Chunks(pos, count))
    decreases count
  {
    hide ChunkAt, Start;
    if count > 0 {
      var ch := ChunkAt(pos, count);
      var pos', count' := pos + ch.len, count - ch.len;
      ChunksContiguous(pos', count');
      ChunksCover(pos', count');
      ContiguousCons(ch, Chunks(pos', count'));
      assert Chunks(pos, count) == [ch] + Chunks(pos', count');
    }
  }

  /** Putting a chunk in front of an increasing run keeps it increasing when
      the chunk's block comes before the run's first block. */
  lemma IncreasingCons(ch: Chunk, rest: seq<Chunk>)
    requires Increasing(rest)
    requires |rest| > 0 ==> ch.block < rest[0].block
    ensures Increasing([ch] + rest)
  {
    var cs := [ch] + rest;
    forall i | 0 <= i < |cs| - 1
      ensures cs[i].block < cs[i + 1].block
    {
      if i > 0 {
        assert cs[i] == rest[i - 1] && cs[i + 1] == rest[i];
      }
    }
  }

  /** Block numbers strictly increase from chunk to chunk. */
  lemma {:induction false} ChunksIncreasing(pos: nat, count: nat)
    ensures Increasing(Chunks(pos, count))
    decreases count
  {
    hide ChunkAt, Start, EndBlock;
    if count > 0 {
      var ch := ChunkAt(pos, count);
      var pos', count' := pos + ch.len, count - ch.len;
      ChunksIncreasing(pos', count');
      if count' > 0 {
        ChunksCover(pos', count');
        ChunkSpan(pos, count);
      }
      IncreasingCons(ch, Chunks(pos', count'));
      assert Chunks(pos, count) == [ch] + Chunks(pos', count');
    }
  }

  /** The chunks tile `[pos, pos + count)`: they are non-empty, stay within one
      block each, start at `pos`, follow one another without gap or overlap, end
      at `pos + count`, add up to `count`, and visit strictly increasing blocks
      (so no block twice). */
  lemma ChunksTile(pos: nat, count: nat)
    ensures var cs := Chunks(pos, count);
      && (|cs| == 0 <==> count == 0)
      && WithinBlocks(cs)
      && Contiguous(cs)
      && Increasing(cs)
      && (|cs| > 0 ==> Start(cs[0]) == pos && cs[0].block == pos / BLOCK_SIZE)
      && (|cs| > 0 ==> Start(cs[|cs| - 1]) + cs[|cs| - 1].len == pos + count)
      && TotalLen(cs) == count
  {
    ChunksCover(pos, count);
    ChunksWithinBlocks(pos, count);
    ChunksContiguous(pos, count);
    ChunksIncreasing(pos, count);
  }

  /** The block numbers a transfer of `count` bytes at `pos` visits, one per loop step. */
  function Touched(pos: nat, count: nat): set<nat>
    decreases count
  {
    if count == 0 then {}
    else
      var ch := ChunkAt(pos, count);
      {ch.block} + Touched(pos + ch.len, count - ch.len)
  }

  /** The visited blocks are the blocks of the chunks of the decomposition. */
  lemma {:induction false} TouchedChunkBlocks(pos: nat, count: nat, b: nat)
    ensures b in Touched(pos, count) <==>
      exists i :: 0 <= i < |Chunks(pos, count)| && Chunks(pos, count)[i].block == b
    decreases count
  {
    hide ChunkAt;
    if count > 0 {
      var ch := ChunkAt(pos, count);
      var rest := Chunks(pos + ch.len, count - ch.len);
      var cs := Chunks(pos, count);
      TouchedChunkBlocks(pos + ch.len, count - ch.len, b);
      assert cs == [ch] + rest;
      if b in Touched(pos + ch.len, count - ch.len) {
        var j :| 0 <= j < |rest| && rest[j].block == b;
        assert cs[j + 1] == rest[j];
      } else if b != ch.block {
        forall i | 0 <= i < |cs|
          ensures cs[i].block != b
        {
          if i > 0 {
            assert cs[i] == rest[i - 1];
          }
        }
      } else {
        assert cs[0].block == b;
      }
    }
  }

  /** The visited blocks are exactly those from the block of the first byte to
      the block of the last byte. */
  lemma {:induction false} TouchedRange(pos: nat, count: nat, b: nat)
    ensures b in Touched(pos, count) <==>
      count > 0 && pos / BLOCK_SIZE <= b <= (pos + count - 1) / BLOCK_SIZE
    decreases count
  {
    hide ChunkAt;
    if count > 0 {
      var ch := ChunkAt(pos, count);
      ChunkInBlock(pos, count, ch.len - 1);
      if ch.len < count {
        TouchedRange(pos + ch.len, count - ch.len, b);
        BlockOf(pos + ch.len, ch.block + 1);
      }
    }
  }

  /** One loop step visits the block of its chunk; the rest of the loop visits
      only later blocks, so the step adds exactly one block. */
  lemma TouchedSplit(pos: nat, count: nat)
    requires count > 0
    ensures var ch := ChunkAt(pos, count);
      && Touched(pos, count) == {ch.block} + Touched(pos + ch.len, count - ch.len)
      && ch.block !in Touched(pos + ch.len, count - ch.len)
      && |Touched(pos, count)| == 1 + |Touched(pos + ch.len, count - ch.len)|
  {
    var ch := ChunkAt(pos, count);
    var rest := Touched(pos + ch.len, count - ch.len);
    TouchedRange(pos + ch.len, count - ch.len, ch.block);
    BlockOf(pos + ch.len, ch.block + 1);
  }
}
