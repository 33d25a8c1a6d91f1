/** Iterators over the hash table, and the operations of the public map that go through them. */
module MapIterators {
  import opened Bits
  import opened Cells
  import opened InnerMaps
  import opened MapOrder

  /** `iterator_base`: the node is always right; the bucket index may be stale. */
  class Iterator<K(==,!new), V> {
    const map_: InnerMap<K, V>
    var node: Node?<K, V>
    var bucketIndex: nat

    /** The nodes this iterator has still to visit, its own first. */
    ghost function Remaining(): seq<Node<K, V>>
      reads this, map_
    {
      if node == null then [] else From<Node<K, V>>(Order(map_.cells, 0), node)
    }

    ghost predicate Live()
      reads this, map_
    {
      node != null ==> node in map_.m.Values
    }

    constructor Begin(map_: InnerMap<K, V>)
      requires map_.Valid()
      ensures this.map_ == map_ && Live()
      ensures Remaining() == Order(map_.cells, 0)
    {
      this.map_ := map_;
      node, bucketIndex := null, 0;
      new;
      ProgressStart(map_.config, map_.cells, map_.m, map_.firstNonNull);
      EmptyPrefix(map_.config, map_.cells, map_.m, 0, map_.firstNonNull);
      SearchFrom(map_.firstNonNull);
    }

    constructor At(map_: InnerMap<K, V>, node: Node?<K, V>, hint: nat)
      ensures this.map_ == map_ && this.node == node && bucketIndex == hint
    {
      this.map_, this.node, bucketIndex := map_, node, hint;
    }

    /** Advances through the slots to the first that is not empty. */
    method SearchFrom(start: nat)
      requires map_.ValidCells() && Start(map_.cells, start)
      modifies this
      ensures Live() && Remaining() == Order(map_.cells, start)
    {
      hide *;
      map_.Facts();
      node, bucketIndex := null, start;
      while bucketIndex < map_.numBuckets
        invariant node == null && Start(map_.cells, bucketIndex)
        invariant Order(map_.cells, bucketIndex) == Order(map_.cells, start)
        decreases map_.numBuckets - bucketIndex
      {
        var t, b := map_.table, bucketIndex;
        InnerMap.SlotKind(t, map_.config, map_.cells, map_.m, b);
        SlotContents(b);
        if InnerMap.TableEntryIsNonEmptyList(t, b) {
          node := t[b].node;
          FirstOf(b);
          Reached(start);
          return;
        } else if InnerMap.TableEntryIsTree(t, b) {
          FirstOf(b);
          node := t[b].tree.nodes[0];
          Reached(start);
          return;
        }
        bucketIndex := bucketIndex + 1;
      }
      Exhausted(start);
    }

    lemma SlotContents(b: nat)
      requires map_.ValidCells() && b < map_.numBuckets && Start(map_.cells, b)
      ensures b < map_.table.Length && b < |map_.cells|
      ensures var cell := map_.cells[b];
        match cell
        case Empty => Start(map_.cells, b + 1) && Order(map_.cells, b) == Order(map_.cells, b + 1)
        case Chain(s) => cell.Seq() == s && |s| > 0 && map_.table[b] == ToNode(s[0])
        case Shared(tree, s) => cell.Seq() == s == tree.nodes && |s| > 0 && map_.table[b] == ToTree(tree)
    {
      map_.Facts();
      InnerMap.SlotKind(map_.table, map_.config, map_.cells, map_.m, b);
      map_.SlotOkAt(b);
      StartAfter(map_.config, map_.cells, map_.m, b);
      assert SlotOk(map_.config, map_.cells, map_.m, b);
    }

    lemma Reached(start: nat)
      requires node != null && node in map_.m.Values
      requires From<Node<K, V>>(Order(map_.cells, 0), node) == Order(map_.cells, start)
      ensures Live() && Remaining() == Order(map_.cells, start)
    {
    }

    lemma Exhausted(start: nat)
      requires node == null && |map_.cells| <= bucketIndex && Order(map_.cells, bucketIndex) == Order(map_.cells, start)
      ensures Live() && Remaining() == Order(map_.cells, start)
    {
    }

    lemma FirstOf(b: nat)
      requires map_.ValidCells() && b < map_.numBuckets && Start(map_.cells, b) && !map_.cells[b].Empty?
      ensures var s := map_.cells[b].Seq();
        |s| > 0 && s[0] in map_.m.Values && From(Order(map_.cells, 0), s[0]) == Order(map_.cells, b)
    {
      var s := map_.cells[b].Seq();
      assert SlotOk(map_.config, map_.cells, map_.m, b);
      assert s[0] in s && s[0..] == s;
      NodesAreValues(map_.config, map_.cells, map_.m);
      HalvesAgree(map_.config, map_.cells, map_.m, 0);
      RemainingAt(map_.config, map_.cells, map_.m, 0, b, 0);
    }

    /** `operator++`. */
    method Advance()
      requires map_.ValidCells() && Live() && node != null
      modifies this
      ensures Live()
      ensures |old(Remaining())| > 0 && old(Remaining())[0] == old(node)
      ensures Remaining() == old(Remaining())[1..]
    {
      if node.next != null {
        InsideList(node);
        node := node.next;
      } else {
        var isList, b, pos := map_.Revalidate(node, bucketIndex);
        bucketIndex := b;
        StartAfter(map_.config, map_.cells, map_.m, b);
        map_.SlotOkAt(b);
        if isList {
          EndOfList(node, b);
          SearchFrom(b + 1);
        } else {
          InsideTree(b, pos);
          InnerMap.SlotKind(map_.table, map_.config, map_.cells, map_.m, b);
          var tree := map_.table[b].tree;
          pos := pos + 1;
          if pos == |tree.nodes| {
            SearchFrom(b + 2);
          } else {
            node := tree.nodes[pos];
          }
        }
      }
    }

    /** A node with a successor is in a list, and its successor is visited next. */
    lemma InsideList(x: Node<K, V>)
      requires map_.ValidCells() && x in map_.m.Values && x.next != null
      ensures x.next in map_.m.Values
      ensures From<Node<K, V>>(Order(map_.cells, 0), x) == [x] + From<Node<K, V>>(Order(map_.cells, 0), x.next)
    {
      var c, cells, m := map_.config, map_.cells, map_.m;
      map_.Facts();
      ValuesAreByKey(c, cells, m);
      var h := Home(c, |cells|, x.key);
      assert KeyOk(c, cells, m, x.key);
      map_.SlotOkAt(h);
      hide InnerMap.ValidCells, Wf, Order, From;
      var s := cells[h].Seq();
      var i :| 0 <= i < |s| && s[i] == x;
      assert cells[h].Chain? && s[i].next == (if i + 1 < |s| then s[i + 1] else null);
      NextInSlot(c, cells, m, h, i);
    }

    lemma EndOfList(x: Node<K, V>, b: nat)
      requires map_.ValidCells() && b < map_.numBuckets && map_.cells[b].Chain? && x in map_.cells[b].Seq()
      requires x.next == null
      ensures From(Order(map_.cells, 0), x) == [x] + Order(map_.cells, b + 1)
    {
      var s := map_.cells[b].Seq();
      map_.SlotOkAt(b);
      LastInList(s, x);
      HalvesAgree(map_.config, map_.cells, map_.m, 0);
      RemainingAt(map_.config, map_.cells, map_.m, 0, b, |s| - 1);
      assert s[|s| - 1..] == [x];
    }

    lemma InsideTree(b: nat, i: nat)
      requires map_.ValidCells() && b < map_.numBuckets && map_.cells[b].Shared? && b % 2 == 0
      requires i < |map_.cells[b].nodes|
      ensures
        var s := map_.cells[b].nodes;
        var rest := From(Order(map_.cells, 0), s[i]);
        if i + 1 < |s| then
          s[i + 1] in map_.m.Values && rest == [s[i]] + From(Order(map_.cells, 0), s[i + 1])
        else
          rest == [s[i]] + Order(map_.cells, b + 2)
    {
      var s := map_.cells[b].Seq();
      if i + 1 < |s| {
        NextInSlot(map_.config, map_.cells, map_.m, b, i);
      } else {
        HalvesAgree(map_.config, map_.cells, map_.m, 0);
        RemainingAt(map_.config, map_.cells, map_.m, 0, b, i);
        assert s[i..] == [s[i]];
      }
    }
  }

  lemma {:induction false} EmptyPrefix<K(!new), V>(c: Config<K>, cells: seq<Cell<K, V>>, m: map<K, Node<K, V>>, a: nat,
      b: nat)
    requires a <= b <= |cells| && forall d | a <= d < b :: cells[d].Empty?
    ensures Order(cells, a) == Order(cells, b)
    decreases b - a
  {
    if a < b {
      EmptyPrefix(c, cells, m, a + 1, b);
    }
  }

  lemma LastInList<K(!new), V>(s: seq<Node<K, V>>, x: Node<K, V>)
    requires Linked(s) && x in s && x.next == null
    ensures s[|s| - 1] == x
  {
    var i :| 0 <= i < |s| && s[i] == x;
    assert s[i].next == if i + 1 < |s| then s[i + 1] else null;
  }

  lemma SplitFirst<T>(before: seq<T>, rest: seq<T>)
    requires rest != []
    ensures before + rest == before + [rest[0]] + rest[1..]
  {
  }

  /** Iterating from `begin()` to `end()` terminates and meets exactly the nodes of the map, once each. */
  method VisitAll<K(==,!new), V>(map_: InnerMap<K, V>) returns (visited: seq<Node<K, V>>)
    requires map_.Valid()
    ensures visited == Order(map_.cells, 0)
    ensures Distinct(visited) && |visited| == |map_.m|
    ensures forall x | x in visited :: x.key in map_.m && map_.m[x.key] == x
    ensures forall k | k in map_.m :: map_.m[k] in visited
  {
    hide InnerMap.ValidCells, InnerMap.FirstIsExact, Order, From;
    visited := [];
    map_.Facts();
    var it := new Iterator<K, V>.Begin(map_);
    while it.node != null
      invariant it.map_ == map_ && it.Live() && fresh(it)
      invariant visited + it.Remaining() == Order(map_.cells, 0)
      decreases |it.Remaining()|
    {
      ghost var rest := it.Remaining();
      ghost var before := visited;
      visited := visited + [it.node];
      it.Advance();
      SplitFirst<Node<K, V>>(before, rest);
    }
    OrderIsExact(map_.config, map_.cells, map_.m);
  }

  /** What precedes an iterator's node in the order. */
  ghost function Before<K(!new), V>(it: Iterator<K, V>): seq<Node<K, V>>
    reads it, it.map_
  {
    var order, rest := Order(it.map_.cells, 0), it.Remaining();
    if |rest| <= |order| then order[..|order| - |rest|] else []
  }

  lemma Splits<K(!new), V>(it: Iterator<K, V>)
    requires it.map_.ValidCells() && it.Live()
    ensures Order(it.map_.cells, 0) == Before(it) + it.Remaining() && Distinct(Order(it.map_.cells, 0))
    ensures it.node != null ==> it.Remaining() != [] && it.Remaining()[0] == it.node
  {
    var c, cells, m := it.map_.config, it.map_.cells, it.map_.m;
    OrderIsExact(c, cells, m);
    ValuesAreByKey(c, cells, m);
    if it.node != null {
      FromSplits<Node<K, V>>(Order(cells, 0), it.node);
    }
  }

  lemma InOrderIsLive<K(!new), V>(map_: InnerMap<K, V>, x: Node<K, V>)
    requires map_.Valid() && x in Order(map_.cells, 0)
    ensures x in map_.m.Values
  {
    OrderIsExact(map_.config, map_.cells, map_.m);
  }

  /** `Map::erase(iterator)`: advances the iterator, then erases the node it was at. The iterator ends at
      the old successor, and the order of the other nodes does not change. */
  method EraseAt<K(==,!new), V>(it: Iterator<K, V>)
    requires it.map_.Valid() && it.Live() && it.node != null
    modifies it, it.map_`numElements, it.map_`firstNonNull, it.map_`m, it.map_`cells, it.map_.table, it.map_.trees
    modifies it.map_.m.Values`next
    ensures it.map_.Valid() && it.Live()
    ensures it.map_.m == old(it.map_.m) - {old(it.node).key}
    ensures old(it.Remaining()) != [] && old(it.Remaining())[0] == old(it.node)
    ensures it.Remaining() == old(it.Remaining())[1..]
    ensures Order(it.map_.cells, 0) == old(Before(it)) + it.Remaining()
  {
    var map_: InnerMap<K, V>, item: Node<K, V> := it.map_, it.node;
    hide InnerMap.ValidCells, InnerMap.FirstIsExact, Order, From, Minus;
    ghost var p, r := Before(it), it.Remaining();
    Splits(it);
    EraseFront(Order(map_.cells, 0), p, r);
    var hint := it.bucketIndex;
    it.Advance();
    Splits(it);
    EraseNode(map_, item, hint);
    if it.node != null {
      var next: Node<K, V> := it.node;
      EraseFrontThen(p, r, 1);
      InOrderIsLive(map_, next);
    }
  }

  /** Erasing a node takes it out of the order. */
  method EraseNode<K(==,!new), V>(map_: InnerMap<K, V>, item: Node<K, V>, hint: nat)
    requires map_.Valid() && item in map_.m.Values
    modifies map_`numElements, map_`firstNonNull, map_`m, map_`cells, map_.table, map_.trees, map_.m.Values`next
    ensures map_.Valid() && map_.m == old(map_.m) - {item.key}
    ensures Order(map_.cells, 0) == Minus(old(Order(map_.cells, 0)), item)
  {
    ghost var c, cells, m := map_.config, map_.cells, map_.m;
    map_.Facts();
    HalvesAgree(c, cells, m, 0);
    hide InnerMap.ValidCells, InnerMap.FirstIsExact, Order, Minus, Wf;
    ghost var b, i := map_.Erase(item, hint);
    OrderRemoved(c, cells, m, 0, b, i, item);
  }

  /** `Map::erase(first, last)` removes exactly the nodes from `first` up to `last`. */
  method EraseRange<K(==,!new), V>(first: Iterator<K, V>, last: Iterator<K, V>)
    requires first != last && first.map_ == last.map_ && first.map_.Valid() && first.Live() && last.Live()
    requires IsSuffix(last.Remaining(), first.Remaining())
    modifies first, first.map_`numElements, first.map_`firstNonNull, first.map_`m, first.map_`cells, first.map_.table
    modifies first.map_.trees, first.map_.m.Values`next
    ensures first.map_.Valid()
    ensures Order(first.map_.cells, 0) == old(Before(first)) + old(last.Remaining())
    ensures PartOf(first.map_.m, old(first.map_.m))
  {
    hide *;
    ghost var p, r, m0 := Before(first), last.Remaining(), first.map_.m;
    ErasingBegins(first, last);
    while first.node != last.node
      invariant Erasing(first, last, p, r, m0)
      decreases |first.Remaining()|
    {
      EraseStep(first, last, p, r, m0);
    }
    Erased(first, last, p, r, m0);
  }

  lemma ErasingBegins<K(!new), V>(first: Iterator<K, V>, last: Iterator<K, V>)
    requires first != last && first.map_ == last.map_ && first.map_.Valid() && first.Live() && last.Live()
    requires IsSuffix(last.Remaining(), first.Remaining())
    ensures Erasing(first, last, Before(first), last.Remaining(), first.map_.m)
  {
    Splits(first);
  }

  /** What holds while a range is being erased: `p` stays before it, `r` behind it. */
  ghost predicate Erasing<K(!new), V>(first: Iterator<K, V>, last: Iterator<K, V>, p: seq<Node<K, V>>,
      r: seq<Node<K, V>>, m0: map<K, Node<K, V>>)
    reads first, last, first.map_, first.map_.table, first.map_.m.Values`next, first.map_.trees, last.map_
  {
    && first != last && first.map_ == last.map_ && first.map_.Valid() && first.Live() && last.Live()
    && Order(first.map_.cells, 0) == p + first.Remaining()
    && last.Remaining() == r && IsSuffix(r, first.Remaining())
    && PartOf(first.map_.m, m0) && first.map_.m.Values <= m0.Values
  }

  lemma Erased<K(!new), V>(first: Iterator<K, V>, last: Iterator<K, V>, p: seq<Node<K, V>>, r: seq<Node<K, V>>,
      m0: map<K, Node<K, V>>)
    requires Erasing(first, last, p, r, m0) && first.node == last.node
    ensures first.map_.Valid() && Order(first.map_.cells, 0) == p + r && PartOf(first.map_.m, m0)
  {
  }

  /** `n` has the elements of `m` under some of its keys. */
  ghost predicate PartOf<K(!new), V>(n: map<K, Node<K, V>>, m: map<K, Node<K, V>>) {
    forall k | k in n :: k in m && n[k] == m[k]
  }

  method EraseStep<K(==,!new), V>(first: Iterator<K, V>, last: Iterator<K, V>, ghost p: seq<Node<K, V>>,
      ghost r: seq<Node<K, V>>, ghost m0: map<K, Node<K, V>>)
    requires Erasing(first, last, p, r, m0) && first.node != last.node
    modifies first, first.map_`numElements, first.map_`firstNonNull, first.map_`m, first.map_`cells, first.map_.table
    modifies first.map_.trees, m0.Values`next
    ensures Erasing(first, last, p, r, m0)
    ensures |first.Remaining()| < |old(first.Remaining())|
  {
    hide InnerMap.Valid, Order, From, IsSuffix;
    EraseOne(first, last, p, m0);
  }

  method EraseOne<K(==,!new), V>(first: Iterator<K, V>, last: Iterator<K, V>, ghost p: seq<Node<K, V>>,
      ghost m0: map<K, Node<K, V>>)
    requires first != last && first.map_ == last.map_ && first.map_.Valid() && first.Live() && last.Live()
    requires IsSuffix(last.Remaining(), first.Remaining()) && first.node != last.node
    requires Order(first.map_.cells, 0) == p + first.Remaining()
    requires PartOf(first.map_.m, m0) && first.map_.m.Values <= m0.Values
    modifies first, first.map_`numElements, first.map_`firstNonNull, first.map_`m, first.map_`cells, first.map_.table
    modifies first.map_.trees, m0.Values`next
    ensures first.map_.Valid() && first.Live() && last.Live()
    ensures Order(first.map_.cells, 0) == p + first.Remaining()
    ensures |first.Remaining()| < |old(first.Remaining())|
    ensures last.Remaining() == old(last.Remaining()) && IsSuffix(last.Remaining(), first.Remaining())
    ensures PartOf(first.map_.m, m0) && first.map_.m.Values <= m0.Values
  {
    var map_: InnerMap<K, V> := first.map_;
    ghost var f, r := first.Remaining(), last.Remaining();
    Splits(first);
    Splits(last);
    EraseFront(Order(map_.cells, 0), p, f);
    ValuesAreByKey(map_.config, map_.cells, map_.m);
    EraseAt(first);
    if last.node != null {
      var x: Node<K, V> := last.node;
      LaterSurvives(p, f, r, x);
      OrderIsExact(map_.config, map_.cells, map_.m);
    }
  }

  ghost predicate IsSuffix<T>(r: seq<T>, f: seq<T>) {
    |r| <= |f| && f[|f| - |r|..] == r
  }

  lemma LaterSurvives<T>(p: seq<T>, f: seq<T>, r: seq<T>, x: T)
    requires f != [] && Distinct(p + f) && IsSuffix(r, f) && r != [] && r[0] == x && f[0] != x
    ensures x in p + f[1..] && From(p + f[1..], x) == r && IsSuffix(r, f[1..])
  {
    var j := |f| - |r|;
    assert f[j] == r[0];
    EraseFrontThen(p, f, j);
    SuffixOfTail(r, f);
  }

  lemma SuffixOfTail<T>(r: seq<T>, f: seq<T>)
    requires IsSuffix(r, f) && |r| < |f|
    ensures IsSuffix(r, f[1..])
  {
    var j := |f| - |r|;
    assert f[1..][j - 1..] == f[j..];
  }
}
