/** When a table that has just shrunk grows again. */
module MapLoad {
  import opened Bits
  import opened Load
  import opened Cells
  import opened InnerMaps
  import opened MapRuns

  /** An insertion of a new key, as far as the size of the table is concerned. */
  method Put<K(==,!new), V>(map_: InnerMap<K, V>, k: K, v: V)
    requires map_.Valid() && k !in map_.m
    modifies map_, map_.table, map_.trees, map_.m.Values
    ensures map_.Valid() && (map_.table == old(map_.table) || fresh(map_.table))
    ensures fresh(map_.trees - old(map_.trees)) && fresh(map_.m.Values - old(map_.m.Values))
    ensures HasMore(old(map_.m), k, map_.m)
    ensures |map_.m| == old(|map_.m|) + 1
    ensures map_.numBuckets == NextBuckets(old(|map_.m|) + 1, old(map_.numBuckets))
  {
    hide InnerMap.Valid, NextBuckets;
    var node, inserted := map_.Insert(k, v);
  }

  /** Two insertions, the first of which finds so few elements that the table shrinks: whether the second makes it grow
      again depends on the number of elements alone. */
  method InsertTwice<K(==,!new), V>(map_: InnerMap<K, V>, k: K, v: V, k': K, v': V)
    requires map_.Valid() && k !in map_.m && k' !in map_.m && k != k'
    requires map_.numBuckets > MIN_TABLE_SIZE && |map_.m| + 1 <= HiCutoff(map_.numBuckets) / 4
    modifies map_, map_.table, map_.trees, map_.m.Values
    ensures map_.Valid() && exists m :: HasMore(old(map_.m), k, m) && HasMore(m, k', map_.m)
    ensures
      var n := Reduced(old(|map_.m|) + 1, old(map_.numBuckets));
      n < old(map_.numBuckets) && map_.numBuckets == if GrowsAgain(old(|map_.m|) + 1) then 2 * n else n
  {
    hide *;
    GrowthOf(map_);
    Put(map_, k, v);
    NotIn(old(map_.m), k, map_.m, k');
    Put(map_, k', v');
  }

  /** `n` has one key more than `m`. */
  ghost predicate HasMore<K(!new), V>(m: map<K, Node<K, V>>, k: K, n: map<K, Node<K, V>>) {
    forall x :: x in n <==> x in m || x == k
  }

  lemma NotIn<K(!new), V>(m: map<K, Node<K, V>>, k: K, n: map<K, Node<K, V>>, x: K)
    requires HasMore(m, k, n) && x !in m && x != k
    ensures x !in n
  {
  }

  lemma GrowthOf<K(!new), V>(map_: InnerMap<K, V>)
    requires map_.Valid() && map_.numBuckets > MIN_TABLE_SIZE && |map_.m| + 1 <= HiCutoff(map_.numBuckets) / 4
    ensures
      var size := |map_.m| + 1;
      var n := NextBuckets(size, map_.numBuckets);
      && n == Reduced(size, map_.numBuckets) < map_.numBuckets
      && NextBuckets(size + 1, n) == if GrowsAgain(size) then 2 * n else n
  {
    assert Pow2(3) == 8;
    GrowsAgainExactly(|map_.m| + 1, map_.exponent);
  }

  /** How many buckets a growing table has after `n` insertions. */
  function Grown(n: nat): nat {
    if n < 6 then 8 else if n < 12 then 16 else if n < 24 then 32 else 64
  }

  lemma GrownStep()
    ensures Grown(0) == TableSize(0) && Grown(24) == 64
    ensures forall n: nat | n < 24 :: NextBuckets(n + 1, Grown(n)) == Grown(n + 1)
  {
  }

  /** From an empty table: 24 insertions and 13 erasures leave 64 buckets with 11 elements; the next insertion shrinks
      the table to 16 buckets and the one after that grows it to 32. */
  method ShrinkAndGrowAgain(hash: nat -> nat, seed: nat)
    returns (map_: InnerMap<nat, nat>, before: nat, shrunk: nat, grown: nat)
    ensures map_.Valid() && fresh(map_) && KeysBelow(map_.m, 13)
    ensures before == 64 && shrunk == 16 && grown == map_.numBuckets == 32
  {
    hide *;
    map_ := FillTable(hash, seed);
    for i := 24 downto 11
      invariant map_.Valid() && fresh(map_) && fresh(map_.table) && fresh(map_.trees) && fresh(map_.m.Values)
      invariant |map_.m| == i && map_.numBuckets == 64 && KeysBelow(map_.m, i)
    {
      EraseTop(map_, i);
    }
    before := map_.numBuckets;
    ShrinkCanReachTheCutoff();
    PutNext(map_, 11);
    shrunk := map_.numBuckets;
    PutNext(map_, 12);
    grown := map_.numBuckets;
  }

  /** Inserts the least key that is missing. */
  method PutNext(map_: InnerMap<nat, nat>, i: nat)
    requires map_.Valid() && KeysBelow(map_.m, i)
    modifies map_, map_.table, map_.trees, map_.m.Values
    ensures map_.Valid() && (map_.table == old(map_.table) || fresh(map_.table))
    ensures fresh(map_.trees - old(map_.trees)) && fresh(map_.m.Values - old(map_.m.Values))
    ensures KeysBelow(map_.m, i + 1) && |map_.m| == old(|map_.m|) + 1
    ensures map_.numBuckets == NextBuckets(old(|map_.m|) + 1, old(map_.numBuckets))
  {
    hide *;
    KeysAround(map_.m, i);
    ghost var m := map_.m;
    Put(map_, i, 0);
    More(m, map_.m, i);
  }

  method EraseTop(map_: InnerMap<nat, nat>, i: nat)
    requires map_.Valid() && KeysBelow(map_.m, i + 1)
    modifies map_, map_.table, map_.trees, map_.m.Values
    ensures map_.Valid() && map_.table == old(map_.table) && map_.trees == old(map_.trees)
    ensures map_.numBuckets == old(map_.numBuckets)
    ensures map_.m.Values <= old(map_.m.Values)
    ensures KeysBelow(map_.m, i) && |map_.m| == old(|map_.m|) - 1
  {
    hide *;
    Fewer(map_.m, i);
    var count := EraseKey(map_, i);
  }

  ghost predicate KeysBelow(m: map<nat, Node<nat, nat>>, n: int) {
    forall k: nat :: k in m <==> k < n
  }

  lemma KeysAround(m: map<nat, Node<nat, nat>>, n: nat)
    requires KeysBelow(m, n)
    ensures n !in m && (n > 0 ==> n - 1 in m)
  {
  }

  lemma NoKeys()
    ensures KeysBelow(map[], 0)
  {
  }

  lemma More(m: map<nat, Node<nat, nat>>, m': map<nat, Node<nat, nat>>, n: nat)
    requires KeysBelow(m, n) && HasMore(m, n, m')
    ensures KeysBelow(m', n + 1)
  {
  }

  lemma Fewer(m: map<nat, Node<nat, nat>>, n: nat)
    requires KeysBelow(m, n + 1)
    ensures n in m && KeysBelow(m - {n}, n) && |m - {n}| == |m| - 1
  {
    assert (m - {n}).Keys == m.Keys - {n};
  }

  method FillTable(hash: nat -> nat, seed: nat) returns (map_: InnerMap<nat, nat>)
    ensures map_.Valid() && fresh(map_) && fresh(map_.table) && fresh(map_.trees) && fresh(map_.m.Values)
    ensures |map_.m| == 24 && map_.numBuckets == 64 && KeysBelow(map_.m, 24)
  {
    var lt := (a: nat, b: nat) => a < b;
    assert StrictTotalOrder(lt);
    hide *;
    GrownStep();
    map_ := new InnerMap<nat, nat>(0, 0, hash, seed, lt);
    NoKeys();
    for i := 0 to 24
      invariant map_.Valid() && fresh(map_) && fresh(map_.table) && fresh(map_.trees) && fresh(map_.m.Values)
      invariant |map_.m| == i && map_.numBuckets == Grown(i) && KeysBelow(map_.m, i)
    {
      PutNext(map_, i);
    }
  }
}
