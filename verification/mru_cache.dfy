/**
 The `block_cache::MRUCache` of `mru_policy.hpp` / `mru_policy.cpp`: a bounded
 key-to-block store whose ordering list keeps the most recently touched key at
 the front, and which, when full, evicts that front key (Most Recently Used),
 not the least recently used one.

 The three private members are modelled as
   - `order`  : `mru_list`, front first;
   - `index`  : the key set of `cache_map` (its values are iterators into
                `mru_list`, which the sequence `order` already determines);
   - `data`   : `data_map`.
 */
module MruCache {
  import opened Common

  // ---------------------------------------------------------------------------
  // Sequences of keys
  // ---------------------------------------------------------------------------

  /** The keys occurring in a sequence. */
  function Elems(s: seq<uint64>): set<uint64> {
    set k | k in s
  }

  /** No key occurs twice: the head does not occur in the tail, recursively. */
  predicate NoDups(s: seq<uint64>) {
    s == [] || (s[0] !in s[1..] && NoDups(s[1..]))
  }

  /** `s` with every occurrence of `k` dropped, the other keys in their original order. */
  function Without(s: seq<uint64>, k: uint64): (r: seq<uint64>)
    ensures Elems(r) == Elems(s) - {k}
    ensures |r| <= |s|
    ensures NoDups(s) ==> NoDups(r)
    ensures k !in s ==> r == s
    ensures NoDups(s) && k in s ==> |r| == |s| - 1
  {
    if s == [] then []
    else
      assert s == [s[0]] + s[1..];
      assert Elems(s) == {s[0]} + Elems(s[1..]);
      var tail := Without(s[1..], k);
      if s[0] == k then tail
      else
        assert NoDups(s) ==> s[0] !in Elems(tail);
        assert Elems([s[0]] + tail) == {s[0]} + Elems(tail);
        [s[0]] + tail
  }

  /** Position of the (first) occurrence of `k` in `s`. */
  function IndexOf(s: seq<uint64>, k: uint64): (i: nat)
    requires k in s
    ensures i < |s| && s[i] == k
    ensures k !in s[..i]
  {
    if s[0] == k then 0
    else
      var j := IndexOf(s[1..], k);
      assert s[..j + 1] == [s[0]] + s[1..][..j];
      1 + j
  }

  /** Erasing the element at position `i` of a duplicate-free list is removing its key. */
  lemma {:induction false} EraseIsWithout(s: seq<uint64>, i: nat)
    requires NoDups(s) && i < |s|
    ensures s[..i] + s[i + 1..] == Without(s, s[i])
  {
    if i == 0 {
      assert s[0] !in s[1..];
      assert s[..0] + s[1..] == s[1..];
    } else {
      assert NoDups(s[1..]);
      EraseIsWithout(s[1..], i - 1);
      assert s[0] != s[i];
      assert s[1..][i - 1] == s[i];
      assert s[..i] + s[i + 1..] == [s[0]] + (s[1..][..i - 1] + s[1..][i..]);
    }
  }

  /** A duplicate-free list has as many keys as it has elements. */
  lemma {:induction false} NoDupsCard(s: seq<uint64>)
    requires NoDups(s)
    ensures |Elems(s)| == |s|
  {
    if s != [] {
      assert NoDups(s[1..]);
      NoDupsCard(s[1..]);
      assert s == [s[0]] + s[1..];
      assert Elems(s) == {s[0]} + Elems(s[1..]);
      assert s[0] !in Elems(s[1..]);
    }
  }

  /** Moves `k` to the front of a duplicate-free list: `erase` of its (only)
      occurrence, then `push_front`. */
  function Promote(s: seq<uint64>, k: uint64): (r: seq<uint64>)
    requires NoDups(s) && k in s
    ensures NoDups(r) && Elems(r) == Elems(s) && |r| == |s|
    ensures r[0] == k
  {
    var w := Without(s, k);
    assert Elems([k] + w) == {k} + Elems(w);
    assert ([k] + w)[1..] == w;
    [k] + w
  }

  /** `Promote` is what `mru_list.erase(it); mru_list.push_front(key)` does when
      `it` points at the occurrence of `k`. */
  lemma PromoteErasesAtIterator(s: seq<uint64>, k: uint64)
    requires NoDups(s) && k in s
    ensures var i := IndexOf(s, k);
      Promote(s, k) == [k] + (s[..i] + s[i + 1..])
  {
    EraseIsWithout(s, IndexOf(s, k));
  }

  // ---------------------------------------------------------------------------
  // The cache
  // ---------------------------------------------------------------------------

  datatype Cache = Cache(
    capacity: nat,
    blockSize: nat,
    order: seq<uint64>,
    index: set<uint64>,
    data: map<uint64, seq<byte>>)

  /** The class invariant: the list has no duplicates, the list, `cache_map` and
      `data_map` hold the same keys, the size is bounded by the capacity, and every
      stored block is exactly `blockSize` bytes. */
  predicate Valid(c: Cache) {
    && NoDups(c.order)
    && Elems(c.order) == c.index
    && c.data.Keys == c.index
    && |c.order| <= c.capacity
    && forall k :: k in c.data ==> |c.data[k]| == c.blockSize
  }

  /** `MRUCache(capacity, blockSize)`: a cache with no entries. */
  function Empty(capacity: nat, blockSize: nat): (c: Cache)
    ensures Valid(c)
    ensures c.capacity == capacity && c.blockSize == blockSize
    ensures |c.data| == 0 && |c.order| == 0
  {
    Cache(capacity, blockSize, [], {}, map[])
  }

  /** The block `put` stores for a key it inserts: the first `blockSize` bytes of
      the caller's buffer, or a zero block for a null buffer. */
  function Stored(d: Option<seq<byte>>, blockSize: nat): (b: seq<byte>)
    requires d.Some? ==> |d.value| >= blockSize
    ensures |b| == blockSize
    ensures d.Some? ==> forall i :: 0 <= i < blockSize ==> b[i] == d.value[i]
    ensures d.None? ==> forall i :: 0 <= i < blockSize ==> b[i] == 0
  {
    if d.Some? then d.value[..blockSize] else Zeros(blockSize)
  }

  /** Result of `get`: the cache afterwards, the boolean it returns, and the
      block it copies into the caller's buffer (if any). */
  datatype Lookup = Lookup(cache: Cache, hit: bool, block: Option<seq<byte>>)

  /** `MRUCache::get`. A lookup promotes the key it finds; an absent key changes nothing. */
  function Get(c: Cache, k: uint64): (r: Lookup)
    requires Valid(c)
    ensures Valid(r.cache)
    ensures r.cache.capacity == c.capacity && r.cache.blockSize == c.blockSize
    ensures r.hit <==> k in c.index
    ensures r.block.Some? <==> r.hit
    ensures !r.hit ==> r.cache == c
    ensures |r.cache.order| == |c.order|
    ensures r.hit ==>
      && r.cache.order == [k] + Without(c.order, k)
      && r.cache.index == c.index
      && r.cache.data == c.data
      && r.block.value == c.data[k]
      && |r.block.value| == c.blockSize
  {
    if k !in c.index then Lookup(c, false, None)
    else Lookup(c.(order := Promote(c.order, k)), true, Some(c.data[k]))
  }

  /** Drops the front (most recently used) entry from the list and both maps. */
  function EvictFront(c: Cache): (r: Cache)
    requires Valid(c) && |c.order| > 0
    ensures Valid(r)
    ensures r.capacity == c.capacity && r.blockSize == c.blockSize
    ensures c.order[0] !in r.index
    ensures r.order == c.order[1..]
    ensures r.index == c.index - {c.order[0]}
    ensures r.data == c.data - {c.order[0]}
  {
    var victim := c.order[0];
    assert c.order == [victim] + c.order[1..];
    assert Elems(c.order) == {victim} + Elems(c.order[1..]);
    assert victim !in Elems(c.order[1..]);
    c.(order := c.order[1..], index := c.index - {victim}, data := c.data - {victim})
  }

  /** Inserts a new key at the front of a cache that has room for it. */
  function Insert(c: Cache, k: uint64, d: Option<seq<byte>>): (r: Cache)
    requires Valid(c) && k !in c.index && |c.order| < c.capacity
    requires d.Some? ==> |d.value| >= c.blockSize
    ensures Valid(r)
    ensures r.capacity == c.capacity && r.blockSize == c.blockSize
    ensures r.order == [k] + c.order
    ensures r.index == c.index + {k}
    ensures r.data == c.data[k := Stored(d, c.blockSize)]
  {
    assert ([k] + c.order)[1..] == c.order;
    assert Elems([k] + c.order) == {k} + Elems(c.order);
    c.(order := [k] + c.order, index := c.index + {k},
       data := c.data[k := Stored(d, c.blockSize)])
  }

  /** `MRUCache::put`. The key ends up at the front holding the new block (or,
      for a null buffer on an existing key, its old block); no other key gains
      or changes data; the only key that can disappear is the front one, and
      only when a new key is put into a full cache; the size grows by one
      exactly when a new key is put below capacity. */
  function Put(c: Cache, k: uint64, d: Option<seq<byte>>): (r: Cache)
    requires Valid(c) && c.capacity > 0
    requires d.Some? ==> |d.value| >= c.blockSize
    ensures Valid(r)
    ensures r.capacity == c.capacity && r.blockSize == c.blockSize
    ensures |r.order| > 0 && r.order[0] == k && k in r.index
    ensures r.data[k] == (if d.None? && k in c.index then c.data[k] else Stored(d, c.blockSize))
    ensures forall j :: j in r.data && j != k ==> j in c.data && r.data[j] == c.data[j]
    ensures forall j :: j in c.data && j !in r.data ==>
      k !in c.index && |c.order| >= c.capacity && j == c.order[0]
    ensures |r.order| == if k !in c.index && |c.order| < c.capacity then |c.order| + 1 else |c.order|
  {
    if k in c.index then
      var data := if d.Some? then c.data[k := Stored(d, c.blockSize)] else c.data;
      c.(order := Promote(c.order, k), data := data)
    else if |c.order| >= c.capacity then
      Insert(EvictFront(c), k, d)
    else
      Insert(c, k, d)
  }

  /** Helper for proofs that follow one `put` in detail: `Put` unfolded into
      its three cases, with the list and map operations spelled out. */
  lemma PutCases(c: Cache, k: uint64, d: Option<seq<byte>>)
    requires Valid(c) && c.capacity > 0
    requires d.Some? ==> |d.value| >= c.blockSize
    ensures var r := Put(c, k, d);
      && (k in c.index ==>
            && r.order == [k] + Without(c.order, k)
            && r.index == c.index
            && r.data == (if d.Some? then c.data[k := Stored(d, c.blockSize)] else c.data))
      && (k !in c.index && |c.order| >= c.capacity ==>
            && r.order == [k] + c.order[1..]
            && r.index == c.index - {c.order[0]} + {k}
            && r.data == (c.data - {c.order[0]})[k := Stored(d, c.blockSize)])
      && (k !in c.index && |c.order| < c.capacity ==>
            && r.order == [k] + c.order
            && r.index == c.index + {k}
            && r.data == c.data[k := Stored(d, c.blockSize)])
  {
  }
}
