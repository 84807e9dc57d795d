/**
 The backing file behind one descriptor, reduced to what the cache layer
 observes through `pread`, `pwrite`, `fstat` and the durability barrier.

 `content` holds the file's bytes; `Size` is what `fstat` reports as
 `st_size`. A block read copies whatever part of the block lies before the end
 of the file into a zero-initialised buffer, so the tail of a short read is
 zero. A block write stores a whole block at `block * BLOCK_SIZE`, extending
 the file and zero-filling any gap. Failures of the operating system are an
 explicit fault description: blocks in `readFaults` cannot be read, blocks in
 `writeFaults` cannot be written (the two are independent, so a block may be
 writable and still fail to read back), `statFails` makes `fstat` fail and
 `syncFails` makes the barrier fail.
 */
module BlockStore {
  import opened Common

  datatype Disk = Disk(content: seq<byte>, readFaults: set<nat>, writeFaults: set<nat>, statFails: bool, syncFails: bool)

  /** `st_size` as reported by `fstat`. */
  function Size(d: Disk): nat {
    |d.content|
  }

  /** The byte at position `p`, where positions past the end of the file read as zero. */
  function ByteAt(d: Disk, p: nat): byte {
    if p < |d.content| then d.content[p] else 0
  }

  /** `pread(fd, block, BLOCK_SIZE, b * BLOCK_SIZE)` into a zeroed block buffer. */
  function ReadBlock(d: Disk, b: nat): (r: Option<seq<byte>>)
    ensures r.None? <==> b in d.readFaults
    ensures r.Some? ==> |r.value| == BLOCK_SIZE
    ensures r.Some? ==> forall i :: 0 <= i < BLOCK_SIZE ==> r.value[i] == ByteAt(d, b * BLOCK_SIZE + i)
  {
    if b in d.readFaults then None
    else
      var lo := b * BLOCK_SIZE;
      if lo >= |d.content| then Some(Zeros(BLOCK_SIZE))
      else
        var hi := Min(lo + BLOCK_SIZE, |d.content|);
        Some(d.content[lo..hi] + Zeros(BLOCK_SIZE - (hi - lo)))
  }

  /** The byte at `p` once block `b` holds `blk`. */
  function Overwritten(d: Disk, b: nat, blk: seq<byte>, p: nat): byte
    requires |blk| == BLOCK_SIZE
  {
    if b * BLOCK_SIZE <= p < (b + 1) * BLOCK_SIZE then blk[p - b * BLOCK_SIZE] else ByteAt(d, p)
  }

  /** `pwrite(fd, blk, BLOCK_SIZE, b * BLOCK_SIZE)`. */
  function WriteBlock(d: Disk, b: nat, blk: seq<byte>): (r: Option<Disk>)
    requires |blk| == BLOCK_SIZE
    ensures r.None? <==> b in d.writeFaults
    ensures r.Some? ==>
      && r.value.readFaults == d.readFaults && r.value.writeFaults == d.writeFaults
      && r.value.statFails == d.statFails
      && r.value.syncFails == d.syncFails
      && Size(r.value) == Max(Size(d), (b + 1) * BLOCK_SIZE)
    ensures r.Some? ==>
      forall p: nat :: ByteAt(r.value, p) == Overwritten(d, b, blk, p)
  {
    if b in d.writeFaults then None
    else
      var lo := b * BLOCK_SIZE;
      var pre := if lo <= |d.content| then d.content[..lo] else d.content + Zeros(lo - |d.content|);
      var post := if lo + BLOCK_SIZE < |d.content| then d.content[lo + BLOCK_SIZE..] else [];
      var content := pre + blk + post;
      assert |pre| == lo;
      assert forall p: nat :: p < lo ==> content[p] == ByteAt(d, p);
      assert forall p: nat :: lo <= p < lo + BLOCK_SIZE ==> content[p] == blk[p - lo];
      assert forall p: nat :: lo + BLOCK_SIZE <= p < |content| ==> content[p] == d.content[p];
      Some(d.(content := content))
  }

  /** Reading back a block just written yields the written block. */
  lemma ReadAfterWrite(d: Disk, b: nat, blk: seq<byte>)
    requires |blk| == BLOCK_SIZE && b !in d.writeFaults && b !in d.readFaults
    ensures ReadBlock(WriteBlock(d, b, blk).value, b) == Some(blk)
  {
    var d' := WriteBlock(d, b, blk).value;
    var r := ReadBlock(d', b).value;
    assert forall i :: 0 <= i < BLOCK_SIZE ==> r[i] == ByteAt(d', b * BLOCK_SIZE + i) == blk[i];
    assert r == blk;
  }

  /** Writing one block leaves every other block as it reads. */
  lemma ReadOtherAfterWrite(d: Disk, b: nat, blk: seq<byte>, b': nat)
    requires |blk| == BLOCK_SIZE && b !in d.writeFaults && b' != b
    ensures ReadBlock(WriteBlock(d, b, blk).value, b') == ReadBlock(d, b')
  {
    var d' := WriteBlock(d, b, blk).value;
    if b' !in d.readFaults {
      var r := ReadBlock(d', b').value;
      var r0 := ReadBlock(d, b').value;
      forall i | 0 <= i < BLOCK_SIZE
        ensures r[i] == r0[i]
      {
        var p := b' * BLOCK_SIZE + i;
        assert !(b * BLOCK_SIZE <= p < (b + 1) * BLOCK_SIZE) by {
          if b < b' {
            assert (b + 1) * BLOCK_SIZE <= b' * BLOCK_SIZE;
          } else {
            assert (b' + 1) * BLOCK_SIZE <= b * BLOCK_SIZE;
          }
        }
      }
      assert r == r0;
    }
  }
}
