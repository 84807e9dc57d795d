/**
 Properties of the MRU cache that relate several calls: the capacity bound,
 read-after-write, which key an insertion may evict, and agreement of any run
 of `get`/`put` calls with the latest values written.
 */
module MruCacheLemmas {
  import opened Common
  import opened MruCache

  /** The capacity bounds the number of entries the cache holds, and the list
      length is the entry count. */
  lemma {:induction false} EntriesBounded(c: Cache)
    requires Valid(c)
    ensures |c.data| == |c.index| == |c.order|
    ensures |c.data| <= c.capacity
  {
    NoDupsCard(c.order);
    assert c.data.Keys == c.index;
    assert |c.data| == |c.data.Keys|;
  }

  /** After `put(k, d)`, `get(k)` hits and yields the block stored by the put:
      the caller's bytes, or (null buffer) the old block of an existing key or a
      zero block for a new key. */
  lemma GetAfterPut(c: Cache, k: uint64, d: Option<seq<byte>>)
    requires Valid(c) && c.capacity > 0
    requires d.Some? ==> |d.value| >= c.blockSize
    ensures var g := Get(Put(c, k, d), k);
      && g.hit
      && g.cache.order[0] == k
      && (d.Some? ==> g.block == Some(d.value[..c.blockSize]))
      && (d.None? && k in c.index ==> g.block == Some(c.data[k]))
      && (d.None? && k !in c.index ==> g.block == Some(Zeros(c.blockSize)))
  {
  }

  /** Size accounting of `put`: an update keeps the size, an insertion below
      capacity grows it by one, an insertion at capacity keeps it at capacity. */
  lemma {:induction false} PutSize(c: Cache, k: uint64, d: Option<seq<byte>>)
    requires Valid(c) && c.capacity > 0
    requires d.Some? ==> |d.value| >= c.blockSize
    ensures var r := Put(c, k, d);
      && (k in c.index ==> |r.data| == |c.data|)
      && (k !in c.index && |c.order| < c.capacity ==> |r.data| == |c.data| + 1)
      && (k !in c.index && |c.order| >= c.capacity ==> |r.data| == |c.data| == c.capacity)
  {
    var r := Put(c, k, d);
    EntriesBounded(c);
    EntriesBounded(r);
    if k in c.index {
      assert |r.order| == 1 + |Without(c.order, k)|;
      EraseIsWithout(c.order, IndexOf(c.order, k));
    }
  }

  /** The eviction policy is Most Recently Used: once the cache is full, putting
      a new key right after a `put` of `j` evicts `j` and keeps every other entry. */
  lemma EvictsMostRecentlyPut(c: Cache, j: uint64, dj: Option<seq<byte>>,
                              k: uint64, dk: Option<seq<byte>>)
    requires Valid(c) && c.capacity > 0
    requires dj.Some? ==> |dj.value| >= c.blockSize
    requires dk.Some? ==> |dk.value| >= c.blockSize
    requires k !in Put(c, j, dj).index
    requires |Put(c, j, dj).order| >= c.capacity
    ensures var c1 := Put(c, j, dj);
            var c2 := Put(c1, k, dk);
      && j !in c2.index
      && c2.index == c1.index - {j} + {k}
  {
  }

  /** The same after a `get` hit: the key just looked up is the next victim. */
  lemma EvictsMostRecentlyGot(c: Cache, j: uint64, k: uint64, dk: Option<seq<byte>>)
    requires Valid(c) && c.capacity > 0
    requires dk.Some? ==> |dk.value| >= c.blockSize
    requires j in c.index && k !in c.index
    requires |c.order| >= c.capacity
    ensures var c1 := Get(c, j).cache;
            var c2 := Put(c1, k, dk);
      && j !in c2.index
      && c2.index == c.index - {j} + {k}
  {
  }

  /** With capacity 2, `put 1, put 2, put 3` evicts 2 (the most recently used)
      and leaves keys {1, 3}; with LRU it would have left {2, 3}. */
  lemma CapacityTwoExample(bs: nat, b1: seq<byte>, b2: seq<byte>, b3: seq<byte>)
    requires |b1| >= bs && |b2| >= bs && |b3| >= bs
    ensures var c0 := Empty(2, bs);
            var c1 := Put(c0, 1, Some(b1));
            var c2 := Put(c1, 2, Some(b2));
            var c3 := Put(c2, 3, Some(b3));
      && c3.index == {1, 3}
      && c3.order == [3, 1]
      && c3.data[1] == b1[..bs]
  {
    var c0 := Empty(2, bs);
    var c1 := Put(c0, 1, Some(b1));
    assert c1.order == [1];
    var c2 := Put(c1, 2, Some(b2));
    assert c2.order == [2, 1];
    assert c2.order[1..] == [1];
  }

  // ---------------------------------------------------------------------------
  // Runs of get/put calls
  // ---------------------------------------------------------------------------

  datatype Op = GetOp(key: uint64) | PutOp(key: uint64, block: seq<byte>)

  predicate OpsFit(ops: seq<Op>, blockSize: nat) {
    forall i :: 0 <= i < |ops| && ops[i].PutOp? ==> |ops[i].block| >= blockSize
  }

  /** Applies a sequence of `get`/`put` calls (with non-null buffers) in order. */
  function Run(c: Cache, ops: seq<Op>): (r: Cache)
    requires Valid(c) && c.capacity > 0 && OpsFit(ops, c.blockSize)
    ensures Valid(r) && r.capacity == c.capacity && r.blockSize == c.blockSize
    decreases |ops|
  {
    if ops == [] then c
    else
      var c1 := match ops[0]
        case GetOp(k) => Get(c, k).cache
        case PutOp(k, b) => Put(c, k, Some(b));
      assert OpsFit(ops[1..], c.blockSize);
      Run(c1, ops[1..])
  }

  /** Reference semantics without eviction: the latest block put for each key. */
  function Written(m: map<uint64, seq<byte>>, ops: seq<Op>, blockSize: nat): map<uint64, seq<byte>>
    requires OpsFit(ops, blockSize)
    decreases |ops|
  {
    if ops == [] then m
    else
      var m1 := match ops[0]
        case GetOp(_) => m
        case PutOp(k, b) => m[k := b[..blockSize]];
      assert OpsFit(ops[1..], blockSize);
      Written(m1, ops[1..], blockSize)
  }

  predicate Agrees(data: map<uint64, seq<byte>>, m: map<uint64, seq<byte>>) {
    forall k :: k in data ==> k in m && data[k] == m[k]
  }

  lemma {:induction false} RunAgreesWith(c: Cache, m: map<uint64, seq<byte>>, ops: seq<Op>)
    requires Valid(c) && c.capacity > 0 && OpsFit(ops, c.blockSize)
    requires Agrees(c.data, m)
    ensures Agrees(Run(c, ops).data, Written(m, ops, c.blockSize))
    decreases |ops|
  {
    if ops != [] {
      assert OpsFit(ops[1..], c.blockSize);
      match ops[0]
      case GetOp(k) =>
        RunAgreesWith(Get(c, k).cache, m, ops[1..]);
      case PutOp(k, b) =>
        var c1 := Put(c, k, Some(b));
        var m1 := m[k := b[..c.blockSize]];
        assert Agrees(c1.data, m1);
        RunAgreesWith(c1, m1, ops[1..]);
    }
  }

  /** After any run of calls, `get(k)` either misses (the key was never put or
      has been evicted) or returns the block most recently put for `k`. */
  lemma GetReturnsLatestPut(c: Cache, ops: seq<Op>, k: uint64)
    requires Valid(c) && c.capacity > 0 && OpsFit(ops, c.blockSize)
    ensures var g := Get(Run(c, ops), k);
            var w := Written(c.data, ops, c.blockSize);
      g.hit ==> k in w && g.block == Some(w[k])
  {
    RunAgreesWith(c, c.data, ops);
  }
}
