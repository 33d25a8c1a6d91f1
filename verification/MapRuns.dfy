/** Whole runs: every sequence of operations on the hash table answers as a finite map does. */
module MapRuns {
  import opened Common
  import opened Bits
  import opened Cells
  import opened InnerMaps
  import opened MapOrder
  import opened MapIterators

  /** The operations of a client, which may hold on to iterators and erase through them later. */
  datatype Op<K, V> =
    | Insert(key: K, value: V)
    | Assign(key: K, value: V)
    | Index(key: K, default: V)
    | Lookup(key: K)
    | Hold(key: K)
    | Erase(key: K)
    | EraseHeld(i: nat)
    | Size
    | Clear

  datatype Answer<V> = Done(flag: bool) | Found(value: V) | Absent | Count(n: nat)

  /** A finite map, and for each iterator held, the key of its element as long as that is in the map. */
  datatype State<K, V> = State(m: map<K, V>, held: seq<Option<K>>)

  /** An erased element takes the iterators to it along. */
  function Forget<K(==)>(held: seq<Option<K>>, k: K): (r: seq<Option<K>>)
    ensures |r| == |held| && forall i | 0 <= i < |held| :: r[i] == if held[i] == Some(k) then None else held[i]
  {
    seq(|held|, i requires 0 <= i < |held| => if held[i] == Some(k) then None else held[i])
  }

  /** Without elements no iterator stands at one. */
  function ForgetAll<K>(held: seq<Option<K>>): (r: seq<Option<K>>)
    ensures |r| == |held| && forall i | 0 <= i < |held| :: r[i] == None
  {
    seq(|held|, _ => None)
  }

  /** What the client is answered, and what becomes of the map and the iterators. */
  function Spec<K(==), V>(s: State<K, V>, op: Op<K, V>): (State<K, V>, Answer<V>) {
    var m := s.m;
    match op
    case Insert(k, v) => if k in m then (s, Done(false)) else (s.(m := m[k := v]), Done(true))
    case Assign(k, v) => (s.(m := m[k := v]), Found(v))
    case Index(k, v) => if k in m then (s, Found(m[k])) else (s.(m := m[k := v]), Found(v))
    case Lookup(k) => (s, if k in m then Found(m[k]) else Absent)
    case Hold(k) => (s.(held := s.held + [if k in m then Some(k) else None]), Done(k in m))
    case Erase(k) => (State(m - {k}, Forget(s.held, k)), Count(if k in m then 1 else 0))
    case EraseHeld(i) =>
      if i < |s.held| && s.held[i].Some? then
        var k := s.held[i].value;
        (State(m - {k}, Forget(s.held, k)), Count(1))
      else (s, Count(0))
    case Size => (s, Count(|m|))
    case Clear => (State(map[], ForgetAll(s.held)), Count(0))
  }

  function SpecRun<K(==), V>(s: State<K, V>, ops: seq<Op<K, V>>): seq<Answer<V>>
    decreases |ops|
  {
    if ops == [] then [] else
      var (s', a) := Spec(s, ops[0]);
      [a] + SpecRun(s', ops[1..])
  }

  /** The finite map a table stands for. */
  ghost function Contents<K(!new), V>(m: map<K, Node<K, V>>): map<K, V>
    reads m.Values`value
  {
    map k | k in m :: m[k].value
  }

  /** `Map::erase(key)`. */
  method EraseKey<K(==,!new), V>(map_: InnerMap<K, V>, k: K) returns (count: nat)
    requires map_.Valid()
    modifies map_, map_.table, map_.trees, map_.m.Values`next
    ensures map_.Valid() && map_.table == old(map_.table) && map_.trees == old(map_.trees)
    ensures map_.m == old(map_.m) - {k} && map_.numBuckets == old(map_.numBuckets)
    ensures count == if k in old(map_.m) then 1 else 0
  {
    hide *;
    NodesDiffer(map_);
    var node := map_.Find(k);
    if node == null {
      return 0;
    }
    var it := new Iterator<K, V>.At(map_, node, 0);
    Stands(it);
    EraseAt(it);
    return 1;
  }

  lemma Stands<K(!new), V>(it: Iterator<K, V>)
    requires it.node == null || it.node in it.map_.m.Values
    ensures it.Live()
  {
  }

  /** `Map::clear`: erases from `begin()` to `end()`. */
  method ClearAll<K(==,!new), V>(map_: InnerMap<K, V>)
    requires map_.Valid()
    modifies map_, map_.table, map_.trees, map_.m.Values`next
    ensures map_.Valid() && map_.table == old(map_.table) && map_.trees == old(map_.trees)
    ensures map_.m == map[]
  {
    hide InnerMap.ValidCells, InnerMap.FirstIsExact;
    var first := new Iterator<K, V>.Begin(map_);
    var last := new Iterator<K, V>.At(map_, null, 0);
    Splits(first);
    EraseRange(first, last);
    EmptyOrder(map_);
  }

  lemma EmptyOrder<K(!new), V>(map_: InnerMap<K, V>)
    requires map_.Valid()
    ensures Order(map_.cells, 0) == [] ==> map_.m == map[]
  {
    OrderIsExact(map_.config, map_.cells, map_.m);
  }

  lemma NodesDiffer<K(!new), V>(map_: InnerMap<K, V>)
    requires map_.Valid()
    ensures forall k | k in map_.m :: map_.m[k].key == k
  {
    map_.Facts();
    UseWf(map_.config, map_.cells, map_.m);
  }

  method InsertValue<K(==,!new), V>(map_: InnerMap<K, V>, k: K, v: V) returns (inserted: bool)
    requires map_.Valid()
    modifies map_, map_.table, map_.trees, map_.m.Values
    ensures map_.Valid() && (map_.table == old(map_.table) || fresh(map_.table))
    ensures fresh(map_.trees - old(map_.trees)) && fresh(map_.m.Values - old(map_.m.Values))
    ensures inserted <==> k !in old(Contents(map_.m))
    ensures Kept(old(map_.m), map_.m)
    ensures Contents(map_.m) == if inserted then old(Contents(map_.m))[k := v] else old(Contents(map_.m))
  {
    hide InnerMap.Valid;
    var node;
    node, inserted := map_.Insert(k, v);
  }

  /** `map[k] = v`, through the reference that `operator[]` returns. */
  method AssignValue<K(==,!new), V>(map_: InnerMap<K, V>, k: K, v: V)
    requires map_.Valid()
    modifies map_, map_.table, map_.trees, map_.m.Values
    ensures map_.Valid() && (map_.table == old(map_.table) || fresh(map_.table))
    ensures fresh(map_.trees - old(map_.trees)) && fresh(map_.m.Values - old(map_.m.Values))
    ensures Contents(map_.m) == old(Contents(map_.m))[k := v]
    ensures Kept(old(map_.m), map_.m)
  {
    hide *;
    ghost var m := map_.m;
    var node := map_.At(k, v);
    ContentsMore(m, k, node, v);
    NodesDiffer(map_);
    SetValue(map_.m, k, node, v);
    Stay(m, k, node);
  }

  method SetValue<K(!new), V>(ghost m: map<K, Node<K, V>>, ghost k: K, node: Node<K, V>, v: V)
    requires k in m && m[k] == node && forall x | x in m :: m[x].key == x
    modifies node`value
    ensures Contents(m) == old(Contents(m))[k := v]
  {
    node.value := v;
  }

  lemma ContentsMore<K(!new), V>(m: map<K, Node<K, V>>, k: K, node: Node<K, V>, v: V)
    ensures Contents(m[k := node])[k := v] == Contents(m)[k := v]
  {
  }

  lemma Stay<K(!new), V>(m: map<K, Node<K, V>>, k: K, node: Node<K, V>)
    ensures Kept(m, m) && (k !in m ==> Kept(m, m[k := node]))
  {
  }

  method LookupValue<K(==,!new), V>(map_: InnerMap<K, V>, k: K) returns (answer: Answer<V>)
    requires map_.Valid()
    ensures answer == if k in Contents(map_.m) then Found(Contents(map_.m)[k]) else Absent
  {
    hide InnerMap.Valid;
    var node := map_.Find(k);
    answer := if node == null then Absent else Found(node.value);
  }

  method EraseValue<K(==,!new), V>(map_: InnerMap<K, V>, k: K) returns (count: nat)
    requires map_.Valid()
    modifies map_, map_.table, map_.trees, map_.m.Values
    ensures map_.Valid() && (map_.table == old(map_.table) || fresh(map_.table))
    ensures fresh(map_.trees - old(map_.trees)) && fresh(map_.m.Values - old(map_.m.Values))
    ensures count == if k in old(Contents(map_.m)) then 1 else 0
    ensures map_.m == old(map_.m) - {k} && Contents(map_.m) == old(Contents(map_.m)) - {k}
  {
    hide InnerMap.Valid;
    count := EraseKey(map_, k);
  }

  method SizeOf<K(==,!new), V>(map_: InnerMap<K, V>) returns (n: nat)
    requires map_.Valid()
    ensures n == |Contents(map_.m)|
  {
    assert Contents(map_.m).Keys == map_.m.Keys;
    n := map_.numElements;
  }

  /** `operator[]` as it stands: creates the default value if the key is absent. */
  method IndexValue<K(==,!new), V>(map_: InnerMap<K, V>, k: K, default: V) returns (v: V)
    requires map_.Valid()
    modifies map_, map_.table, map_.trees, map_.m.Values
    ensures map_.Valid() && (map_.table == old(map_.table) || fresh(map_.table))
    ensures fresh(map_.trees - old(map_.trees)) && fresh(map_.m.Values - old(map_.m.Values))
    ensures Contents(map_.m) == if k in old(map_.m) then old(Contents(map_.m)) else old(Contents(map_.m))[k := default]
    ensures k in Contents(map_.m) && v == Contents(map_.m)[k]
    ensures Kept(old(map_.m), map_.m)
  {
    hide InnerMap.Valid;
    var node := map_.At(k, default);
    v := node.value;
  }

  /** An iterator as a client stores it: the node, and the bucket it was in at the time. */
  datatype Held<!K(!new), V> = End | Held(node: Node<K, V>, bucket: nat)

  /** The nodes of keys that stay are the same objects. */
  ghost predicate Kept<K(!new), V>(m: map<K, Node<K, V>>, n: map<K, Node<K, V>>) {
    forall k | k in m && k in n :: n[k] == m[k]
  }

  /** Iterators whose element is still there stand at its node, however stale their bucket is. */
  ghost predicate HeldOk<K(!new), V>(m: map<K, Node<K, V>>, keys: seq<Option<K>>, held: seq<Held<K, V>>) {
    |keys| == |held| && forall i | 0 <= i < |keys| && keys[i].Some? ::
      keys[i].value in m && held[i].Held? && held[i].node == m[keys[i].value]
  }

  lemma ContentsKeys<K(!new), V>(m: map<K, Node<K, V>>)
    ensures Contents(m).Keys == m.Keys
  {
  }

  lemma HeldStay<K(!new), V>(m: map<K, Node<K, V>>, n: map<K, Node<K, V>>, keys: seq<Option<K>>, held: seq<Held<K, V>>)
    requires HeldOk(m, keys, held) && Kept(m, n)
    ensures m.Keys <= n.Keys ==> HeldOk(n, keys, held)
    ensures HeldOk(n, ForgetAll(keys), held)
  {
  }

  lemma HeldMore<K(!new), V>(m: map<K, Node<K, V>>, keys: seq<Option<K>>, held: seq<Held<K, V>>, k: K, it: Held<K, V>)
    requires HeldOk(m, keys, held) && (it.Held? ==> k in m && it.node == m[k])
    ensures HeldOk(m, keys + [if it.Held? then Some(k) else None], held + [it])
  {
  }

  lemma HeldAt<K(!new), V>(m: map<K, Node<K, V>>, keys: seq<Option<K>>, held: seq<Held<K, V>>)
    requires HeldOk(m, keys, held)
    ensures |keys| == |held|
    ensures forall i | 0 <= i < |keys| && keys[i].Some? ::
      keys[i].value in m && held[i].Held? && held[i].node == m[keys[i].value]
  {
  }

  lemma KeptByEmpty<K(!new), V>(m: map<K, Node<K, V>>)
    ensures Kept(m, map[])
  {
  }

  lemma ForgetErased<K(!new), V>(m: map<K, Node<K, V>>, k: K, keys: seq<Option<K>>, held: seq<Held<K, V>>)
    requires HeldOk(m, keys, held)
    ensures HeldOk(m - {k}, Forget(keys, k), held)
  {
  }

  /** `find`, keeping the iterator. */
  method HoldIterator<K(==,!new), V>(map_: InnerMap<K, V>, k: K) returns (it: Held<K, V>)
    requires map_.Valid()
    ensures it == End <==> k !in map_.m
    ensures it != End ==> it.node == map_.m[k]
  {
    hide InnerMap.ValidCells, InnerMap.FirstIsExact;
    var found, b, p := map_.FindHelper(k);
    it := if found == null then End else Held(found, b);
  }

  /** `erase(iterator)` through one that was stored when the table may have looked different. */
  method EraseThrough<K(==,!new), V>(map_: InnerMap<K, V>, ghost k: K, it: Held<K, V>)
    requires map_.Valid() && k in map_.m && it.Held? && it.node == map_.m[k]
    modifies map_, map_.table, map_.trees, map_.m.Values`next
    ensures map_.Valid() && map_.table == old(map_.table) && map_.trees == old(map_.trees)
    ensures map_.m == old(map_.m) - {k}
  {
    hide *;
    NodesDiffer(map_);
    var pos := new Iterator<K, V>.At(map_, it.node, it.bucket);
    Stands(pos);
    EraseAt(pos);
  }

  method EraseHeldValue<K(==,!new), V>(map_: InnerMap<K, V>, ghost k: K, it: Held<K, V>)
    requires map_.Valid() && k in map_.m && it.Held? && it.node == map_.m[k]
    modifies map_, map_.table, map_.trees, map_.m.Values
    ensures map_.Valid() && (map_.table == old(map_.table) || fresh(map_.table))
    ensures fresh(map_.trees - old(map_.trees)) && fresh(map_.m.Values - old(map_.m.Values))
    ensures map_.m == old(map_.m) - {k} && Contents(map_.m) == old(Contents(map_.m)) - {k}
  {
    hide InnerMap.Valid;
    EraseThrough(map_, k, it);
  }

  /** One operation of the client. */
  method Perform<K(==,!new), V>(map_: InnerMap<K, V>, op: Op<K, V>, keys: seq<Option<K>>, held: seq<Held<K, V>>)
    returns (answer: Answer<V>, keys': seq<Option<K>>, held': seq<Held<K, V>>)
    requires map_.Valid() && HeldOk(map_.m, keys, held)
    modifies map_, map_.table, map_.trees, map_.m.Values
    ensures map_.Valid() && (map_.table == old(map_.table) || fresh(map_.table))
    ensures fresh(map_.trees - old(map_.trees)) && fresh(map_.m.Values - old(map_.m.Values))
    ensures HeldOk(map_.m, keys', held')
    ensures (State(Contents(map_.m), keys'), answer) == Spec(State(old(Contents(map_.m)), keys), op)
  {
    hide InnerMap.Valid, HeldOk, Kept, Contents;
    ghost var m := map_.m;
    ContentsKeys(m);
    keys', held' := keys, held;
    match op
    case Insert(k, v) =>
      var inserted := InsertValue(map_, k, v);
      answer := Done(inserted);
      ContentsKeys(map_.m);
      HeldStay(m, map_.m, keys, held);
    case Assign(k, v) =>
      AssignValue(map_, k, v);
      answer := Found(v);
      ContentsKeys(map_.m);
      HeldStay(m, map_.m, keys, held);
    case Index(k, v) =>
      var value := IndexValue(map_, k, v);
      answer := Found(value);
      ContentsKeys(map_.m);
      HeldStay(m, map_.m, keys, held);
    case Lookup(k) =>
      answer := LookupValue(map_, k);
    case Hold(k) =>
      var it := HoldIterator(map_, k);
      answer, keys', held' := Done(it.Held?), keys + [if it.Held? then Some(k) else None], held + [it];
      HeldMore(m, keys, held, k, it);
    case Erase(k) =>
      var n := EraseValue(map_, k);
      answer, keys' := Count(n), Forget(keys, k);
      ForgetErased(m, k, keys, held);
    case EraseHeld(i) =>
      HeldAt(m, keys, held);
      if i < |held| && keys[i].Some? {
        EraseHeldValue(map_, keys[i].value, held[i]);
        answer, keys' := Count(1), Forget(keys, keys[i].value);
        ForgetErased(m, keys[i].value, keys, held);
      } else {
        answer := Count(0);
      }
    case Size =>
      var n := SizeOf(map_);
      answer := Count(n);
    case Clear =>
      ClearAll(map_);
      answer, keys' := Count(0), ForgetAll(keys);
      KeptByEmpty(m);
      ContentsKeys(map_.m);
      assert map_.m.Keys == {} && Contents(map_.m) == map[];
      HeldStay(m, map_.m, keys, held);
  }

  /** From construction on, through any mix of lists, trees and rehashes, and for any hash function, seed
      and key order, the answers are those of a finite map, also to erasing through iterators of any age. */
  method Run<K(==,!new), V>(hash: K -> nat, seed: nat, lt: (K, K) -> bool, ops: seq<Op<K, V>>)
    returns (answers: seq<Answer<V>>)
    requires StrictTotalOrder(lt)
    ensures answers == SpecRun(State(map[], []), ops)
  {
    hide InnerMap.Valid, SpecRun, Spec;
    SpecRunEnds<K, V>(State(map[], []), ops);
    var map_ := new InnerMap<K, V>(0, 0, hash, seed, lt);
    answers := [];
    var keys: seq<Option<K>>, held: seq<Held<K, V>> := [], [];
    for i := 0 to |ops|
      invariant map_.Valid() && fresh(map_) && fresh(map_.table) && fresh(map_.trees) && fresh(map_.m.Values)
      invariant HeldOk(map_.m, keys, held)
      invariant SpecRun(State(map[], []), ops) == answers + SpecRun(State(Contents(map_.m), keys), ops[i..])
    {
      SpecRunStep(State(Contents(map_.m), keys), ops, i, answers);
      var answer;
      answer, keys, held := Perform(map_, ops[i], keys, held);
      answers := answers + [answer];
    }
    SpecRunEnds(State(Contents(map_.m), keys), ops);
  }

  lemma SpecRunStep<K, V>(s: State<K, V>, ops: seq<Op<K, V>>, i: nat, answers: seq<Answer<V>>)
    requires i < |ops|
    ensures
      var (s', a) := Spec(s, ops[i]);
      answers + SpecRun(s, ops[i..]) == answers + [a] + SpecRun(s', ops[i + 1..])
  {
    assert ops[i..][1..] == ops[i + 1..];
  }

  lemma SpecRunEnds<K, V>(s: State<K, V>, ops: seq<Op<K, V>>)
    ensures ops[0..] == ops && SpecRun(s, ops[|ops|..]) == []
  {
  }
}
