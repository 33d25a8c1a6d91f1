/** `InnerMap::clear`, which destroys the nodes without going through iterators. */
module MapClear {
  import opened Bits
  import opened Cells
  import opened InnerMaps
  import opened MapOrder

  /** Slots below `b` of the table `t` have been emptied. */
  ghost predicate Emptied<K(!new), V>(t0: seq<Ptr<K, V>>, t: seq<Ptr<K, V>>, b: nat) {
    && |t| == |t0|
    && (forall d | 0 <= d < |t| && d < b :: t[d] == Null)
    && (forall d | b <= d < |t| :: t[d] == t0[d])
  }

  /** Comparing a slot with its buddy still tells lists from trees while the table is being emptied. */
  lemma KindWhileEmptied<K(!new), V>(c: Config<K>, cells: seq<Cell<K, V>>, m: map<K, Node<K, V>>, t0: seq<Ptr<K, V>>,
      t: array<Ptr<K, V>>, b: nat)
    requires Wf(c, cells, m) && Points(t0, cells) && Emptied(t0, t[..], b)
    requires b < |cells| && Start(cells, b)
    ensures t.Length % 2 == 0 && t.Length == |cells| && t[b] == cells[b].Ptr()
    ensures InnerMap.TableEntryIsNonEmptyList(t, b) <==> cells[b].Chain?
    ensures InnerMap.TableEntryIsTree(t, b) <==> cells[b].Shared?
    ensures cells[b].Chain? ==> |cells[b].nodes| > 0
    ensures cells[b].Shared? ==> b + 1 < t.Length && t[b + 1] == t[b] && |cells[b].nodes| > 0
  {
    KindOf(c, t0, cells, m, b);
    HalvesAgree(c, cells, m, b);
    XorOneIsBuddy(b);
    UseWf(c, cells, m);
    assert CellOk(c, |cells|, b, cells[b]);
    assert t[..][b] == t0[b];
    var b' := Buddy(b);
    assert t[..][b'] == if b' < b then Null else t0[b'];
  }

  /** Walks a list, destroying its nodes. */
  method DestroyList<K(==,!new), V>(head: Node<K, V>, ghost s: seq<Node<K, V>>) returns (destroyed: seq<Node<K, V>>)
    requires s != [] && s[0] == head && Linked(s)
    ensures destroyed == s
  {
    var node: Node?<K, V> := head;
    destroyed := [];
    while node != null
      invariant |destroyed| <= |s| && destroyed == s[..|destroyed|]
      invariant node == (if |destroyed| < |s| then s[|destroyed|] else null)
      decreases |s| - |destroyed|
    {
      var next := node.next;
      destroyed := destroyed + [node];
      node := next;
    }
  }

  /** Erases and destroys the elements of a tree one by one. */
  method DestroyTree<K(==,!new), V>(tree: Tree<K, V>) returns (destroyed: seq<Node<K, V>>)
    modifies tree
    ensures destroyed == old(tree.nodes) && tree.nodes == []
  {
    destroyed := [];
    while tree.nodes != []
      invariant destroyed + tree.nodes == old(tree.nodes)
      decreases |tree.nodes|
    {
      destroyed := destroyed + [tree.nodes[0]];
      tree.Erase(0);
    }
  }

  /** One round of the loop of clear. */
  method ClearSlot<K(==,!new), V>(map_: InnerMap<K, V>, t: array<Ptr<K, V>>, ghost t0: seq<Ptr<K, V>>, b: nat)
    returns (destroyed: seq<Node<K, V>>, next: nat)
    requires t == map_.table && StrictTotalOrder(map_.config.lt)
    requires Wf(map_.config, map_.cells, map_.m) && Points(t0, map_.cells) && Emptied(t0, t[..], b)
    requires b < |map_.cells| && Start(map_.cells, b)
    requires forall d | b <= d < |map_.cells| :: CellLinked(map_.cells[d])
    requires forall d | b <= d < |map_.cells| && map_.cells[d].Shared? :: map_.cells[d].tree in map_.trees
    modifies t, if map_.cells[b].Shared? then {map_.cells[b].tree} else {}
    ensures destroyed == map_.cells[b].Seq()
    ensures next == After(map_.cells, b) && Start(map_.cells, next) && Emptied(t0, t[..], next)
    ensures forall d | next <= d < |map_.cells| :: CellLinked(map_.cells[d])
  {
    ghost var c, cells, m := map_.config, map_.cells, map_.m;
    KindWhileEmptied(c, cells, m, t0, t, b);
    StartAfter(c, cells, m, b);
    assert CellLinked(cells[b]);
    forall d | After(cells, b) <= d < |cells| && cells[d].Shared? && cells[b].Shared?
      ensures cells[d].tree != cells[b].tree
    {
      LaterTree(c, cells, m, b, d);
    }
    destroyed, next := [], b + 1;
    if InnerMap.TableEntryIsNonEmptyList(t, b) {
      var head := t[b].node;
      t[b] := Null;
      destroyed := DestroyList(head, cells[b].nodes);
    } else if InnerMap.TableEntryIsTree(t, b) {
      var tree := t[b].tree;
      t[b], t[b + 1] := Null, Null;
      destroyed := DestroyTree(tree);
      next := b + 2;
    }
    forall d | next <= d < |cells| ensures CellLinked(cells[d]) {
      Untouched(cells[d]);
    }
  }

  lemma LaterTree<K(!new), V>(c: Config<K>, cells: seq<Cell<K, V>>, m: map<K, Node<K, V>>, b: nat, d: nat)
    requires Wf(c, cells, m) && b < |cells| && Start(cells, b) && After(cells, b) <= d < |cells|
    requires cells[b].Shared? && cells[d].Shared? && CellLinked(cells[b]) && CellLinked(cells[d])
    ensures cells[b].tree != cells[d].tree
  {
    UseWf(c, cells, m);
    PairsApart(c, cells, m, b);
    assert CellOk(c, |cells|, b, cells[b]);
    var x := cells[b].nodes[0];
    assert x in cells[b].Seq() && x !in cells[d].Seq();
    assert cells[b].tree.nodes == cells[b].nodes && cells[d].tree.nodes == cells[d].nodes;
  }

  /** The loop of clear. */
  method ClearSlots<K(==,!new), V>(map_: InnerMap<K, V>) returns (destroyed: seq<Node<K, V>>)
    requires map_.ValidCells()
    modifies map_.table, map_.trees
    ensures destroyed == Order(map_.cells, 0)
    ensures Emptied(old(map_.table[..]), map_.table[..], map_.table.Length)
  {
    ghost var c, cells, m, t0 := map_.config, map_.cells, map_.m, map_.table[..];
    map_.Facts();
    HalvesAgree(c, cells, m, 0);
    forall d | 0 <= d < |cells| ensures CellLinked(cells[d]) {
      map_.SlotOkAt(d);
    }
    OrderEnds(cells);
    hide InnerMap.ValidCells, Wf, Points, Order, CellLinked, Emptied;
    EmptiedNone(t0);
    var t := map_.table;
    destroyed := [];
    var b := 0;
    while b < map_.numBuckets
      invariant Start(cells, b) && Emptied(t0, t[..], b)
      invariant destroyed + Order(cells, b) == Order(cells, 0)
      invariant forall d | b <= d < |cells| :: CellLinked(cells[d])
      decreases |cells| - b
    {
      OrderNext(cells, b, destroyed);
      var some;
      some, b := ClearSlot(map_, t, t0, b);
      destroyed := destroyed + some;
    }
    EmptiedAll(t0, t[..], b);
  }

  lemma OrderNext<K(!new), V>(cells: seq<Cell<K, V>>, b: nat, before: seq<Node<K, V>>)
    requires b < |cells|
    ensures before + Order(cells, b) == before + cells[b].Seq() + Order(cells, After(cells, b))
  {
    assert Order(cells, b) == cells[b].Seq() + Order(cells, After(cells, b));
  }

  lemma OrderEnds<K(!new), V>(cells: seq<Cell<K, V>>)
    ensures forall b: nat | b >= |cells| :: Order(cells, b) == []
  {
  }

  lemma EmptiedNone<K(!new), V>(t: seq<Ptr<K, V>>)
    ensures Emptied(t, t, 0)
  {
  }

  lemma EmptiedAll<K(!new), V>(t0: seq<Ptr<K, V>>, t: seq<Ptr<K, V>>, b: nat)
    requires Emptied(t0, t, b) && b >= |t|
    ensures Emptied(t0, t, |t|)
  {
  }

  /** Every node is destroyed, exactly once, and the table is that of an empty map. */
  method Clear<K(==,!new), V>(map_: InnerMap<K, V>) returns (destroyed: seq<Node<K, V>>)
    requires map_.Valid()
    modifies map_, map_.table, map_.trees
    ensures map_.Valid() && map_.m == map[] && map_.table == old(map_.table) && map_.numElements == 0
    ensures forall b | 0 <= b < map_.table.Length :: map_.table[b] == Null
    ensures Distinct(destroyed) && |destroyed| == old(|map_.m|)
    ensures forall k | k in old(map_.m) :: old(map_.m)[k] in destroyed
  {
    map_.Facts();
    HalvesAgree(map_.config, map_.cells, map_.m, 0);
    UseWf(map_.config, map_.cells, map_.m);
    OrderIsExact(map_.config, map_.cells, map_.m);
    hide InnerMap.ValidCells,  Order, Wf, Distinct;
    destroyed := ClearSlots(map_);
    assert forall b | 0 <= b < map_.table.Length :: map_.table[..][b] == Null;
    Reset(map_);
  }

  /** An empty table is that of an empty map. */
  method Reset<K(==,!new), V>(map_: InnerMap<K, V>)
    requires StrictTotalOrder(map_.config.lt) && map_.table.Length == map_.numBuckets == Pow2(map_.exponent)
    requires 3 <= map_.exponent <= 60
    requires map_.numBuckets % 2 == 0 && forall b | 0 <= b < map_.table.Length :: map_.table[b] == Null
    modifies map_
    ensures map_.Valid() && map_.m == map[] && map_.table == old(map_.table) && map_.numElements == 0
  {
    map_.numElements, map_.firstNonNull := 0, map_.numBuckets;
    map_.m, map_.trees := map[], {};
    map_.cells := seq(map_.numBuckets, _ => Empty);
    WfEmpty(map_.config, map_.cells);
  }
}
