/** The hash table behind protobuf's map: chained buckets, some of which share an ordered tree in pairs. */
module InnerMaps {
  import opened Common
  import opened Bits
  import opened Cells
  import opened Load

  ghost predicate Linked<K(!new), V>(s: seq<Node<K, V>>)
    reads s`next
  {
    forall i {:trigger s[i].next} | 0 <= i < |s| :: s[i].next == (if i + 1 < |s| then s[i + 1] else null)
  }

  /** The links of `s` from position `i` on. */
  ghost predicate LinkedFrom<K(!new), V>(s: seq<Node<K, V>>, i: nat)
    reads s`next
  {
    forall j {:trigger s[j].next} | i <= j < |s| :: s[j].next == (if j + 1 < |s| then s[j + 1] else null)
  }

  lemma LinkedAll<K(!new), V>(s: seq<Node<K, V>>)
    requires Linked(s)
    ensures LinkedFrom(s, 0)
  {
  }

  lemma NextLink<K(!new), V>(s: seq<Node<K, V>>, i: nat)
    requires LinkedFrom(s, i) && i < |s|
    ensures s[i].next == if i + 1 < |s| then s[i + 1] else null
  {
  }

  lemma LinkedPush<K(!new), V>(x: Node<K, V>, s: seq<Node<K, V>>)
    requires Linked(s) && x.next == if s == [] then null else s[0]
    ensures Linked([x] + s)
  {
  }

  /** The heap agrees with a cell: list nodes are chained in order, tree nodes have null `next`. */
  ghost predicate CellLinked<K(!new), V>(cell: Cell<K, V>)
    reads cell.Seq()`next, if cell.Shared? then {cell.tree} else {}
  {
    match cell
    case Empty => true
    case Chain(s) => Linked(s)
    case Shared(t, s) => t.nodes == s && forall x | x in s :: x.next == null
  }

  lemma ListOfSlot<K(!new), V>(cell: Cell<K, V>)
    requires CellLinked(cell) && (cell.Chain? ==> |cell.nodes| > 0)
    ensures cell.Chain? ==> Linked(cell.nodes) && cell.Ptr() == ToNode(cell.nodes[0])
    ensures (cell.Empty? ==> cell.Seq() == []) && (!cell.Empty? ==> cell.Seq() == cell.nodes)
  {
  }

  /** A cell whose nodes and tree were not written is as linked as before. */
  twostate lemma Untouched<K(!new), V>(cell: Cell<K, V>)
    requires old(CellLinked(cell))
    requires forall x | x in cell.Seq() :: x.next == old(x.next)
    requires cell.Shared? ==> cell.tree.nodes == old(cell.tree.nodes)
    ensures CellLinked(cell)
  {
    if cell.Chain? {
      assert forall i | 0 <= i < |cell.nodes| :: cell.nodes[i] in cell.nodes;
    }
  }

  class InnerMap<K(==,!new), V> {
    const config: Config<K>
    var numElements: nat
    var numBuckets: nat
    var firstNonNull: nat
    var table: array<Ptr<K, V>>

    ghost var m: map<K, Node<K, V>>       // the abstract map, from keys to the nodes that hold them
    ghost var cells: seq<Cell<K, V>>      // the meaning of the table
    ghost var trees: set<Tree<K, V>>      // the trees in use
    ghost var exponent: nat

    ghost predicate ValidCells()
      reads this`numBuckets, this`table, this`m, this`cells, this`trees, this`exponent, table, m.Values`next, trees
    {
      && StrictTotalOrder(config.lt)
      && numBuckets == Pow2(exponent) && 3 <= exponent <= 60
      && |cells| == numBuckets
      && Wf(config, cells, m)
      && Points(table[..], cells)
      && (forall b | 0 <= b < |cells| && cells[b].Shared? :: cells[b].tree in trees)
      && (NodesAreValues(config, cells, m);
          forall b {:trigger CellLinked(cells[b])} | 0 <= b < |cells| :: CellLinked(cells[b]))
    }

    /** `firstNonNull` is exactly the least non-empty slot, or the number of slots. */
    ghost predicate FirstIsExact()
      reads this`firstNonNull, this`cells
    {
      && firstNonNull <= |cells|
      && (forall b | 0 <= b < firstNonNull :: cells[b].Empty?)
      && (firstNonNull < |cells| ==> !cells[firstNonNull].Empty?)
    }

    ghost predicate ValidTable()
      reads this`numBuckets, this`table, this`m, this`cells, this`trees, this`exponent, this`firstNonNull
      reads table, m.Values`next, trees
    {
      ValidCells() && FirstIsExact()
    }

    ghost predicate Valid()
      reads this, table, m.Values`next, trees
    {
      ValidTable() && numElements == |m| && LoadOk(numElements, numBuckets)
    }

    // ------------------------------------------------------------ slots

    static predicate TableEntryIsEmpty(t: array<Ptr<K, V>>, b: nat)
      requires b < t.Length
      reads t
    {
      t[b] == Null
    }

    static predicate TableEntryIsNonEmptyList(t: array<Ptr<K, V>>, b: nat)
      requires b < t.Length && t.Length % 2 == 0
      reads t
    {
      XorOneIsBuddy(b);
      t[b] != Null && t[b] != t[Xor(b, 1)]
    }

    static predicate TableEntryIsTree(t: array<Ptr<K, V>>, b: nat)
      requires b < t.Length && t.Length % 2 == 0
      reads t
    {
      !TableEntryIsEmpty(t, b) && !TableEntryIsNonEmptyList(t, b)
    }

    static lemma SlotKind(t: array<Ptr<K, V>>, c: Config<K>, cells: seq<Cell<K, V>>, m: map<K, Node<K, V>>, b: nat)
      requires Wf(c, cells, m) && Points(t[..], cells) && b < t.Length
      ensures t.Length % 2 == 0 && Buddy(b) < t.Length
      ensures TableEntryIsEmpty(t, b) <==> cells[b].Empty?
      ensures TableEntryIsNonEmptyList(t, b) <==> cells[b].Chain?
      ensures TableEntryIsTree(t, b) <==> cells[b].Shared?
      ensures cells[b].Chain? ==> |cells[b].nodes| > 0
      ensures t[b] == cells[b].Ptr()
    {
      KindOf(c, t[..], cells, m, b);
      XorOneIsBuddy(b);
    }

    /** What `ValidCells` says about values, without the links of the heap. */
    lemma Facts()
      requires ValidCells()
      ensures StrictTotalOrder(config.lt) && Wf(config, cells, m) && Points(table[..], cells)
      ensures |cells| == numBuckets == table.Length && numBuckets == Pow2(exponent) && 3 <= exponent <= 60
    {
    }

    lemma ValidFacts()
      requires Valid()
      ensures ValidTable() && ValidCells() && numElements == |m| && LoadOk(numElements, numBuckets)
      ensures firstNonNull <= |cells| && forall b | 0 <= b < firstNonNull :: cells[b].Empty?
      ensures firstNonNull < |cells| ==> !cells[firstNonNull].Empty?
    {
    }

    lemma TableFacts()
      requires ValidTable()
      ensures ValidCells() && numBuckets == Pow2(exponent) && 3 <= exponent <= 60
      ensures firstNonNull <= |cells| && forall b | 0 <= b < firstNonNull :: cells[b].Empty?
      ensures firstNonNull < |cells| ==> !cells[firstNonNull].Empty?
    {
    }

    lemma AssembleTable()
      requires ValidCells() && firstNonNull <= |cells| && forall b | 0 <= b < firstNonNull :: cells[b].Empty?
      requires firstNonNull < |cells| ==> !cells[firstNonNull].Empty?
      ensures ValidTable()
    {
    }

    lemma AssembleValid()
      requires ValidTable() && numElements == |m| && LoadOk(numElements, numBuckets)
      ensures Valid()
    {
    }

    lemma Links()
      requires ValidCells()
      ensures forall b | 0 <= b < |cells| && cells[b].Shared? :: cells[b].tree in trees
      ensures forall b {:trigger CellLinked(cells[b])} | 0 <= b < |cells| :: CellLinked(cells[b])
    {
    }

    lemma Assemble()
      requires StrictTotalOrder(config.lt) && numBuckets == Pow2(exponent) && 3 <= exponent <= 60
      requires |cells| == numBuckets
      requires Wf(config, cells, m) && Points(table[..], cells)
      requires forall b | 0 <= b < |cells| && cells[b].Shared? :: cells[b].tree in trees
      requires forall b {:trigger CellLinked(cells[b])} | 0 <= b < |cells| :: CellLinked(cells[b])
      ensures ValidCells()
    {
    }

    /** No list is ever longer than eight. */
    lemma ListsAreShort()
      requires ValidCells()
      ensures forall b | 0 <= b < |cells| && cells[b].Chain? :: 1 <= |cells[b].nodes| <= 8
    {
      UseWf(config, cells, m);
    }

    /** Below six elements for five buckets as long as the table may still grow. */
    lemma LoadInNumbers()
      requires Valid()
      ensures numBuckets <= 0x0800_0000_0000_0000 ==> 5 * |m| < 6 * numBuckets
      ensures 8 <= numBuckets <= 0x1000_0000_0000_0000
    {
      MaxSizeIsPow2();
      Pow2Monotone(3, exponent);
      Pow2Monotone(exponent, 60);
      assert Pow2(3) == 8;
    }

    lemma SlotOkAt(b: nat)
      requires ValidCells() && b < |cells|
      ensures CellLinked(cells[b])
      ensures cells[b].Chain? ==> |cells[b].nodes| > 0 && Distinct(cells[b].nodes)
      ensures cells[b].Shared? ==> cells[b].tree in trees
    {
      assert SlotOk(config, cells, m, b);
    }

    /** The bucket mask is reduction modulo the number of buckets. */
    function BucketNumber(k: K): (b: nat)
      requires exponent <= 60 && numBuckets == Pow2(exponent)
      reads this
      ensures b == Home(config, numBuckets, k) && b < numBuckets
    {
      MaskIsModulo((config.hash(k) + config.seed) % TWO64, exponent);
      And((config.hash(k) + config.seed) % TWO64, numBuckets - 1)
    }

    // ------------------------------------------------------------ lookup

    /** Walks a list from its head. */
    static method FindInList(head: Node<K, V>, k: K, ghost s: seq<Node<K, V>>) returns (node: Node?<K, V>)
      requires |s| > 0 && s[0] == head && Linked(s)
      ensures node == null ==> forall x | x in s :: x.key != k
      ensures node != null ==> node in s && node.key == k
    {
      node := head;
      ghost var i := 0;
      while node != null
        invariant 0 <= i <= |s| && node == (if i < |s| then s[i] else null)
        invariant forall j | 0 <= j < i :: s[j].key != k
        decreases |s| - i
      {
        assert s[i] == node;
        if node.key == k {
          return;
        }
        node, i := node.next, i + 1;
      }
    }

    /** The slot of a key that is to be looked up or inserted: its home, or the even half of its tree. */
    ghost predicate SlotFor(k: K, b: nat)
      requires numBuckets > 0
      reads this
    {
      && |cells| == numBuckets && b < numBuckets
      && var h := Home(config, numBuckets, k);
         b == if cells[h].Shared? then Even(h) else h
    }

    /** The node with key `k`, if any, and the slot to look in or insert at. */
    method FindHelper(k: K) returns (node: Node?<K, V>, b: nat, treePos: nat)
      requires ValidCells()
      ensures SlotFor(k, b)
      ensures node != null <==> k in m
      ensures node != null ==> node == m[k] && node in cells[b].Seq()
      ensures node != null && cells[b].Shared? ==> treePos < |cells[b].nodes| && cells[b].nodes[treePos] == node
    {
      b, node, treePos := BucketNumber(k), null, 0;
      SlotKind(table, config, cells, m, b);
      assert CellLinked(cells[b]);
      PairContents(config, cells, m, b);
      assert KeyOk(config, cells, m, k);
      if TableEntryIsNonEmptyList(table, b) {
        node := FindInList(table[b].node, k, cells[b].nodes);
      } else if TableEntryIsTree(table, b) {
        b := Even(b);
        var tree := table[b].tree;
        treePos := tree.Find(config.lt, k);
        if treePos < |tree.nodes| {
          node := tree.nodes[treePos];
        }
      }
    }

    // ------------------------------------------------------------ insertion

    /** `b` is the bucket of key `k`, or either half of the tree that serves it. */
    ghost predicate GoodSlot(k: K, b: nat)
      requires numBuckets > 0
      reads this
    {
      && |cells| == numBuckets && b < numBuckets
      && (b == Home(config, numBuckets, k) || (cells[b].Shared? && b / 2 == Home(config, numBuckets, k) / 2))
    }

    /** No two pairs use the same tree. */
    lemma TreesApart(b: nat, d: nat)
      requires ValidCells() && b < numBuckets && d < numBuckets && cells[b].Shared? && cells[d].Shared?
      requires cells[b].tree == cells[d].tree
      ensures b / 2 == d / 2
    {
      assert CellLinked(cells[b]) && CellLinked(cells[d]);
      UseWf(config, cells, m);
      PairsApart(config, cells, m, b);
      assert CellOk(config, numBuckets, b, cells[b]);
      assert cells[b].nodes[0] in cells[d].Seq();
    }

    method InsertUniqueInList(b: nat, node: Node<K, V>)
      requires ValidCells() && node.key !in m
      requires b < numBuckets && b == Home(config, numBuckets, node.key)
      requires cells[b].Empty? || (cells[b].Chain? && |cells[b].nodes| < 8)
      modifies table, node`next, this`cells, this`m
      ensures ValidCells()
      ensures m == old(m)[node.key := node]
      ensures cells == old(cells[b := Chain([node] + cells[b].Seq())])
    {
      ghost var s, cells0 := cells[b].Seq(), cells;
      SlotKind(table, config, cells, m, b);
      assert CellLinked(cells[b]);
      WfPushChain(config, cells, m, b, node);
      NewKeyIsNowhere(config, cells, m, node.key);
      node.next := if table[b] == Null then null else table[b].node;
      table[b] := ToNode(node);
      LinkedPush(node, s);
      cells := cells[b := Chain([node] + s)];
      m := m[node.key := node];
      forall d | 0 <= d < |cells| ensures CellLinked(cells[d]) {
        if d != b {
          Untouched(cells[d]);
        }
      }
    }

    method InsertUniqueInTree(b: nat, node: Node<K, V>)
      requires ValidCells() && node.key !in m
      requires b < numBuckets && cells[b].Shared? && b / 2 == Home(config, numBuckets, node.key) / 2
      modifies cells[b].tree, node`next, this`cells, this`m
      ensures ValidCells()
      ensures m == old(m)[node.key := node]
      ensures Buddy(b) < numBuckets
      ensures
        var cell := old(Shared(cells[b].tree, SetInsert(config.lt, cells[b].nodes, node)));
        cells == old(cells)[b := cell][Buddy(b) := cell]
    {
      hide ValidCells, Wf;
      Facts();
      Links();
      SlotKind(table, config, cells, m, b);
      assert CellLinked(cells[b]);
      HalvesAgree(config, cells, m, b);
      WfInsertShared(config, cells, m, b, node);
      NewKeyIsNowhere(config, cells, m, node.key);
      forall d | 0 <= d < numBuckets && cells[d].Shared? && cells[d].tree == cells[b].tree ensures d / 2 == b / 2 {
        TreesApart(b, d);
      }
      node.next := null;
      var tree := table[b].tree;
      tree.Insert(config.lt, node);
      ghost var cell := Shared(tree, tree.nodes);
      SetInsertMembers(config.lt, cells[b].nodes, node);
      cells := cells[b := cell][Buddy(b) := cell];
      m := m[node.key := node];
      forall d | 0 <= d < |cells| ensures CellLinked(cells[d]) {
        if d / 2 != b / 2 {
          Untouched(cells[d]);
        }
      }
      Assemble();
    }

    /** Whether the non-empty list `s` is at its maximum length, by counting. */
    static method TableEntryIsTooLong(head: Node<K, V>, ghost s: seq<Node<K, V>>) returns (r: bool)
      requires |s| > 0 && s[0] == head && Linked(s)
      ensures r <==> |s| >= 8
    {
      var count := 0;
      var node: Node?<K, V> := head;
      while node != null
        invariant 0 <= count <= |s| && node == (if count < |s| then s[count] else null)
        decreases |s| - count
      {
        count := count + 1;
        node := node.next;
      }
      return count >= MAX_LENGTH;
    }

    /** Puts the nodes of a list into a tree, cutting their links. */
    method CopyListToTree(head: Node?<K, V>, tree: Tree<K, V>, ghost s: seq<Node<K, V>>) returns (count: nat)
      requires Linked(s) && Distinct(s)
      requires head == if s == [] then null else s[0]
      modifies tree, s`next
      ensures tree.nodes == SetInsertAll(config.lt, old(tree.nodes), s)
      ensures forall x | x in s :: x.next == null
      ensures count == |s|
    {
      count := 0;
      var node := head;
      while node != null
        invariant 0 <= count <= |s| && node == (if count < |s| then s[count] else null)
        invariant forall i {:trigger s[i].next} | count <= i < |s| ::
          s[i].next == (if i + 1 < |s| then s[i + 1] else null)
        invariant forall i | 0 <= i < count :: s[i].next == null
        invariant SetInsertAll(config.lt, tree.nodes, s[count..]) == SetInsertAll(config.lt, old(tree.nodes), s)
        decreases |s| - count
      {
        assert s[count] == node && s[count..][1..] == s[count + 1..];
        tree.Insert(config.lt, node);
        count := count + 1;
        var next := node.next;
        node.next := null;
        node := next;
      }
    }

    /** A new tree with the nodes of slot `b` and its partner, whose links it cuts. */
    method BuildTree(b: nat) returns (tree: Tree<K, V>)
      requires ValidCells() && b < numBuckets && cells[b].Chain?
      requires Buddy(b) < numBuckets
      modifies m.Values`next
      ensures fresh(tree)
      ensures tree.nodes == Merged(config.lt, cells[b].Seq(), cells[Buddy(b)].Seq())
      ensures forall x | x in cells[b].Seq() || x in cells[Buddy(b)].Seq() :: x.next == null
      ensures forall d | 0 <= d < numBuckets && d / 2 != b / 2 :: CellLinked(cells[d])
    {
      hide ValidCells, Wf;
      Facts();
      ghost var b', cells0 := Buddy(b), cells;
      ghost var s, s' := cells0[b].Seq(), cells0[b'].Seq();
      SlotKind(table, config, cells, m, b);
      SlotKind(table, config, cells, m, b');
      XorOneIsBuddy(b);
      forall d | 0 <= d < numBuckets ensures CellLinked(cells0[d]) {
        SlotOkAt(d);
      }
      ChainsApart(config, cells0, m, b);
      PairsApart(config, cells0, m, b);
      NodesAreValues(config, cells0, m);
      assert forall i | 0 <= i < |s'| :: s'[i] in s' && s'[i] !in s;
      tree := new Tree<K, V>();
      var count := CopyListToTree(table[b].node, tree, s);
      assert Linked(s');
      var other := table[Xor(b, 1)];
      var count' := CopyListToTree(if other == Null then null else other.node, tree, s');
      forall d | 0 <= d < numBuckets && d / 2 != b / 2 ensures CellLinked(cells0[d]) {
        assert forall x | x in cells0[d].Seq() :: x !in s && x !in s';
        Untouched(cells0[d]);
      }
    }

    method TreeConvert(b: nat)
      requires ValidCells() && b < numBuckets && cells[b].Chain?
      modifies table, m.Values`next, this`cells, this`trees
      ensures ValidCells()
      ensures Buddy(b) < numBuckets && cells[b].Shared?
      ensures fresh(cells[b].tree) && trees == old(trees) + {cells[b].tree}
      ensures cells == old(cells)[b := cells[b]][Buddy(b) := cells[b]]
      ensures cells[b].nodes == Merged(config.lt, old(cells[b].Seq()), old(cells)[Buddy(b)].Seq())
      ensures |cells[b].nodes| == |old(cells[b].Seq())| + |old(cells)[Buddy(b)].Seq()|
      ensures SameElements(cells[b].nodes, old(cells[b].Seq()) + old(cells)[Buddy(b)].Seq())
    {
      hide *;
      Facts();
      Links();
      ghost var b', t0 := Buddy(b), table[..];
      HalvesAgree(config, cells, m, b);
      XorOneIsBuddy(b);
      var tree := BuildTree(b);
      WfTreeConvert(config, cells, m, b, tree);
      ghost var cell := Shared(tree, tree.nodes);
      TreePoints(t0, cells, b, b', cell);
      TreeIsLinked(cell, cells[b], cells[b']);
      BothLists(tree.nodes, cells[b].Seq(), cells[b'].Seq());
      table[b], table[Xor(b, 1)] := ToTree(tree), ToTree(tree);
      cells := cells[b := cell][b' := cell];
      trees := trees + {tree};
      assert table[..] == t0[b := ToTree(tree)][b' := ToTree(tree)];
      Assemble();
    }

    /** The insertion that overflows a list: the pair of `b` becomes a tree first. */
    method ConvertAndInsert(b: nat, node: Node<K, V>)
      requires ValidCells() && node.key !in m
      requires b < numBuckets && b == Home(config, numBuckets, node.key) && cells[b].Chain?
      modifies table, m.Values`next, node`next, this`cells, this`m, this`trees
      ensures ValidCells()
      ensures m == old(m)[node.key := node]
      ensures old(trees) <= trees && fresh(trees - old(trees))
      ensures Buddy(b) < numBuckets && cells[b].Shared? && cells[Buddy(b)].Shared?
      ensures forall d | 0 <= d < numBuckets && d / 2 != b / 2 :: cells[d] == old(cells)[d]
      ensures Converted(old(cells), cells, b, node)
    {
      hide *;
      Facts();
      ghost var cells0 := cells;
      TreeConvert(b);
      Facts();
      ghost var u := cells[b].nodes;
      IntoTree(b, node);
      InsertUniqueInTree(b, node);
      NowConverted(config.lt, cells0, cells, b, node, u);
    }

    /** What a new node does to the tree of its pair. */
    lemma IntoTree(b: nat, node: Node<K, V>)
      requires ValidCells() && node.key !in m && b < numBuckets && cells[b].Shared?
      ensures
        var s, u := cells[b].nodes, SetInsert(config.lt, cells[b].nodes, node);
        |u| == |s| + 1 && SameElements(u, s + [node])
    {
      UseWf(config, cells, m);
      assert CellOk(config, numBuckets, b, cells[b]);
      NewKeyIsNowhere(config, cells, m, node.key);
      assert forall y | y in cells[b].nodes :: y in cells[b].Seq();
      SetInsertSorted(config.lt, cells[b].nodes, node);
    }

    /** The four ways to insert. `grew` tells that an empty slot may have become non-empty, in which
        case `at` is the first of them. */
    method Place(b: nat, node: Node<K, V>) returns (at: nat, grew: bool)
      requires ValidCells() && node.key !in m && GoodSlot(node.key, b)
      modifies table, m.Values`next, node`next, trees, this`cells, this`m, this`trees
      ensures ValidCells()
      ensures m == old(m)[node.key := node]
      ensures old(trees) <= trees && fresh(trees - old(trees))
      ensures at < numBuckets && at / 2 == b / 2 && at == if cells[b].Shared? then Even(b) else b
      ensures !cells[at].Empty? && (old(cells[b].Shared?) ==> cells[b].Shared?)
      ensures forall d | 0 <= d < numBuckets && d / 2 != b / 2 :: cells[d] == old(cells)[d]
      ensures forall d | 0 <= d < numBuckets && d / 2 == b / 2 ::
                (grew && at <= d) || (cells[d].Empty? <==> old(cells)[d].Empty?)
      ensures PlacedIn(old(cells), cells, b, node)
    {
      hide *;
      ghost var cells0 := cells;
      Facts();
      GoodSlotFacts(node.key, b);
      SlotOkAt(b);
      ListOfSlot(cells[b]);
      SlotKind(table, config, cells, m, b);
      HalvesAgree(config, cells, m, b);
      at, grew := b, true;
      if TableEntryIsEmpty(table, b) {
        InsertUniqueInList(b, node);
        PlacedInList(cells0, cells, b, node);
      } else if TableEntryIsNonEmptyList(table, b) {
        var long := TableEntryIsTooLong(table[b].node, cells[b].nodes);
        if long {
          ConvertAndInsert(b, node);
          PlacedByConverting(cells0, cells, b, node);
          at := Even(b);
        } else {
          InsertUniqueInList(b, node);
          PlacedInList(cells0, cells, b, node);
          grew := false;
        }
      } else {
        IntoTree(b, node);
        InsertUniqueInTree(b, node);
        PlacedInTree(config.lt, cells0, cells, b, node);
        at, grew := Even(b), false;
      }
    }

    /** Inserts a node whose key is not present into slot `b`; a full list first becomes a tree.
        The result is the slot of the iterator that the code returns. */
    method InsertUnique(b: nat, node: Node<K, V>) returns (at: nat)
      requires ValidTable() && node.key !in m && GoodSlot(node.key, b)
      modifies table, m.Values`next, node`next, trees, this`cells, this`m, this`trees, this`firstNonNull
      ensures ValidTable()
      ensures m == old(m)[node.key := node]
      ensures old(trees) <= trees && fresh(trees - old(trees))
      ensures SlotFor(node.key, at) && node in cells[at].Seq()
      ensures PlacedIn(old(cells), cells, b, node)
      ensures forall d | 0 <= d < numBuckets && d / 2 != b / 2 :: cells[d] == old(cells)[d]
    {
      hide *;
      TableFacts();
      Facts();
      GoodSlotFacts(node.key, b);
      ghost var cells0 := cells;
      var grew;
      at, grew := Place(b, node);
      Facts();
      FirstAfterPlace(cells0, cells, firstNonNull, b, at, grew);
      if grew {
        firstNonNull := if at < firstNonNull then at else firstNonNull;
      }
      SlotAfterPlace(node.key, b, at);
      AssembleTable();
    }

    lemma GoodSlotFacts(k: K, b: nat)
      requires numBuckets > 0 && GoodSlot(k, b)
      ensures |cells| == numBuckets && b < numBuckets
      ensures b == Home(config, numBuckets, k) || (cells[b].Shared? && b / 2 == Home(config, numBuckets, k) / 2)
    {
    }

    lemma SlotAfterPlace(k: K, b: nat, at: nat)
      requires ValidCells() && k in m && b < numBuckets && at == if cells[b].Shared? then Even(b) else b
      requires b == Home(config, numBuckets, k) || (cells[b].Shared? && b / 2 == Home(config, numBuckets, k) / 2)
      ensures SlotFor(k, at) && m[k] in cells[at].Seq()
    {
      HalvesAgree(config, cells, m, b);
      HomeSlot(k);
    }

    lemma SlotForIsGood(k: K, b: nat)
      requires ValidCells() && SlotFor(k, b)
      ensures GoodSlot(k, b)
    {
      HalvesAgree(config, cells, m, Home(config, numBuckets, k));
    }

    /** The slot that lookup reports for a key that is present holds its node. */
    lemma HomeSlot(k: K)
      requires ValidCells() && k in m
      ensures var h := Home(config, numBuckets, k); m[k] in cells[if cells[h].Shared? then Even(h) else h].Seq()
    {
      assert KeyOk(config, cells, m, k);
      HalvesAgree(config, cells, m, Home(config, numBuckets, k));
    }

    // ------------------------------------------------------------ resizing

    /** Moves the nodes of a list of the old table into this one, relinking them as it goes. */
    method TransferList(head: Node<K, V>, ghost s: seq<Node<K, V>>)
      requires ValidTable()
      requires |s| > 0 && s[0] == head && Linked(s) && DistinctKeys(s)
      requires forall x | x in s :: x.key !in m
      modifies table, m.Values`next, s`next, trees, this`cells, this`m, this`trees, this`firstNonNull
      ensures ValidTable()
      ensures Added(old(m), s, m)
      ensures old(trees) <= trees && fresh(trees - old(trees))
    {
      hide *;
      ghost var m0, nodes := m, m.Values + (set x | x in s);
      var node: Node?<K, V> := head;
      ghost var i := 0;
      LinkedAll(s);
      AddedNone(m0);
      assert s[..0] == [];
      while node != null
        invariant ValidTable() && m.Values <= nodes
        invariant 0 <= i <= |s| && node == (if i < |s| then s[i] else null)
        invariant Added(m0, s[..i], m) && LinkedFrom(s, i)
        invariant old(trees) <= trees && fresh(trees - old(trees))
        decreases |s| - i
      {
        NextLink(s, i);
        var next := node.next;
        TransferNode(node, s, i, m0, nodes);
        node, i := next, i + 1;
      }
      assert s[..i] == s;
    }

    /** Moves the next node of a list; the rest of the list is still linked. */
    method TransferNode(node: Node<K, V>, ghost s: seq<Node<K, V>>, ghost i: nat, ghost m0: map<K, Node<K, V>>,
        ghost nodes: set<Node<K, V>>)
      requires ValidTable() && i < |s| && node == s[i] && DistinctKeys(s) && LinkedFrom(s, i)
      requires Added(m0, s[..i], m) && forall x | x in s :: x.key !in m0
      requires m.Values <= nodes && forall x | x in s :: x in nodes
      modifies table, nodes`next, trees, this`cells, this`m, this`trees, this`firstNonNull
      ensures ValidTable() && m.Values <= nodes
      ensures Added(m0, s[..i + 1], m) && LinkedFrom(s, i + 1)
      ensures old(trees) <= trees && fresh(trees - old(trees))
    {
      Facts();
      AddedNext(m0, s, i, m);
      ValuesAreByKey(config, cells, m);
      assert forall j | i < j < |s| :: s[j].key !in m && s[j].key != s[i].key;
      assert forall j | i < j < |s| :: s[j] !in m.Values && s[j] != s[i];
      hide ValidCells, FirstIsExact, DistinctKeys, Added, Wf;
      var _ := InsertUnique(BucketNumber(node.key), node);
    }

    /** Moves the nodes of a tree of the old table into this one while iterating over the tree. */
    method TransferTree(tree: Tree<K, V>, ghost s: seq<Node<K, V>>)
      requires ValidTable() && tree !in trees
      requires tree.nodes == s && DistinctKeys(s)
      requires forall x | x in s :: x.key !in m
      modifies table, m.Values`next, s`next, trees, this`cells, this`m, this`trees, this`firstNonNull
      ensures ValidTable()
      ensures Added(old(m), s, m)
      ensures old(trees) <= trees && fresh(trees - old(trees))
    {
      var i := 0;
      while i < |tree.nodes|
        invariant ValidTable()
        invariant 0 <= i <= |s| && tree.nodes == s && tree !in trees
        invariant Added(old(m), s[..i], m)
        invariant forall x | x in m.Values :: x in old(m).Values || x in s
        invariant old(trees) <= trees && fresh(trees - old(trees))
      {
        var node := tree.nodes[i];
        AddedNext(old(m), s, i, m);
        var _ := InsertUnique(BucketNumber(node.key), node);
        i := i + 1;
      }
      assert s[..i] == s;
    }

    /** Moves slot `i` of the old table, whose content is `cell`, into this one. */
    method TransferSlot(t: array<Ptr<K, V>>, ghost c: seq<Cell<K, V>>, ghost m0: map<K, Node<K, V>>, i: nat)
      requires ValidTable() && t != table
      requires Wf(config, c, m0) && Points(t[..], c) && i < |c| && Start(c, i)
      requires forall d | i <= d < |c| :: CellLinked(c[d])
      requires forall d | i <= d < |c| && c[d].Shared? :: c[d].tree !in trees
      requires Progress(config, c, m0, i, m)
      modifies table, m.Values`next, c[i].Seq()`next, trees, this`cells, this`m, this`trees, this`firstNonNull
      ensures ValidTable()
      ensures Added(old(m), c[i].Seq(), m)
      ensures old(trees) <= trees && fresh(trees - old(trees))
      ensures forall d | After(c, i) <= d < |c| :: CellLinked(c[d])
    {
      hide ValidCells, FirstIsExact, Wf, Points, Progress, Added, DistinctKeys;
      hide TableEntryIsNonEmptyList, TableEntryIsTree, After, Start;
      ReadyToTransfer(t, c, m0, i);
      TransferCell(t, i, c[i]);
      forall d | After(c, i) <= d < |c| ensures CellLinked(c[d]) {
        Untouched(c[d]);
      }
    }

    lemma ReadyToTransfer(t: array<Ptr<K, V>>, c: seq<Cell<K, V>>, m0: map<K, Node<K, V>>, i: nat)
      requires ValidTable() && t != table
      requires Wf(config, c, m0) && Points(t[..], c) && i < |c| && Start(c, i)
      requires Progress(config, c, m0, i, m)
      ensures i < t.Length && t.Length % 2 == 0 && i < After(c, i)
      ensures TableEntryIsNonEmptyList(t, i) <==> c[i].Chain?
      ensures TableEntryIsTree(t, i) <==> c[i].Shared?
      ensures (c[i].Chain? ==> |c[i].nodes| > 0) && t[i] == c[i].Ptr()
      ensures DistinctKeys(c[i].Seq()) && forall x | x in c[i].Seq() :: x.key !in m
      ensures forall d, x | After(c, i) <= d < |c| && x in c[d].Seq() :: x !in c[i].Seq() && x !in m.Values
    {
      Facts();
      SlotKind(t, config, c, m0, i);
      CellKeysDistinct(config, c, m0, i);
      RestApart(config, c, m0, i, m);
    }

    /** Moves what a slot holds, which is a list, a tree or nothing. */
    method TransferCell(t: array<Ptr<K, V>>, i: nat, ghost cell: Cell<K, V>)
      requires ValidTable() && t != table && i < t.Length && t.Length % 2 == 0
      requires TableEntryIsNonEmptyList(t, i) <==> cell.Chain?
      requires TableEntryIsTree(t, i) <==> cell.Shared?
      requires (cell.Chain? ==> |cell.nodes| > 0) && t[i] == cell.Ptr() && CellLinked(cell)
      requires cell.Shared? ==> cell.tree !in trees
      requires DistinctKeys(cell.Seq()) && forall x | x in cell.Seq() :: x.key !in m
      modifies table, m.Values`next, cell.Seq()`next, trees, this`cells, this`m, this`trees, this`firstNonNull
      ensures ValidTable()
      ensures Added(old(m), cell.Seq(), m)
      ensures old(trees) <= trees && fresh(trees - old(trees))
    {
      hide ValidCells, FirstIsExact, TableEntryIsNonEmptyList, TableEntryIsTree, DistinctKeys;
      if TableEntryIsNonEmptyList(t, i) {
        TransferList(t[i].node, cell.nodes);
      } else if TableEntryIsTree(t, i) {
        TransferTree(t[i].tree, cell.nodes);
      }
    }

    /** Rehashes into a new table of `size` slots. The node set is exactly conserved. */
    method Resize(size: nat, ghost e: nat)
      requires ValidTable() && size == Pow2(e) && 3 <= e <= 60
      modifies this`table, this`numBuckets, this`firstNonNull, this`m, this`cells, this`trees, this`exponent
      modifies m.Values`next
      ensures ValidTable() && numBuckets == size && m == old(m)
      ensures fresh(table) && fresh(trees)
    {
      hide ValidCells;
      ghost var m0, cells0 := m, cells;
      var oldTable, i := table, firstNonNull;
      Facts();
      NodesAreValues(config, cells0, m0);
      ProgressStart(config, cells0, m0, firstNonNull);
      forall d | 0 <= d < |cells0| ensures CellLinked(cells0[d]) && (cells0[d].Shared? ==> cells0[d].tree in trees) {
        SlotOkAt(d);
      }
      StartEmpty(size, e);
      forall d | 0 <= d < |cells0| ensures CellLinked(cells0[d]) {
        Untouched(cells0[d]);
      }
      while i < oldTable.Length
        invariant ValidTable() && numBuckets == size && fresh(table) && fresh(trees)
        invariant oldTable[..] == old(table[..])
        invariant i <= oldTable.Length + 1 && Start(cells0, i)
        invariant Progress(config, cells0, m0, i, m)
        invariant forall d | i <= d < |cells0| :: CellLinked(cells0[d])
      {
        i := TransferFrom(oldTable, cells0, m0, i);
      }
      assert m == m0;
    }

    /** One round of the loop of Resize. */
    method TransferFrom(t: array<Ptr<K, V>>, ghost c: seq<Cell<K, V>>, ghost m0: map<K, Node<K, V>>, i: nat)
      returns (i': nat)
      requires ValidTable() && t != table
      requires Wf(config, c, m0) && Points(t[..], c) && i < |c| && Start(c, i)
      requires forall d | i <= d < |c| :: CellLinked(c[d])
      requires forall d | i <= d < |c| && c[d].Shared? :: c[d].tree !in trees
      requires Progress(config, c, m0, i, m)
      modifies table, m.Values`next, c[i].Seq()`next, trees, this`cells, this`m, this`trees, this`firstNonNull
      ensures ValidTable()
      ensures old(trees) <= trees && fresh(trees - old(trees))
      ensures i' == After(c, i) && Start(c, i') && Progress(config, c, m0, i', m)
      ensures forall d | i' <= d < |c| :: CellLinked(c[d])
    {
      hide ValidCells;
      SlotKind(t, config, c, m0, i);
      HalvesAgree(config, c, m0, i);
      TransferSlot(t, c, m0, i);
      ProgressStep(config, c, m0, i, old(m), m);
      StartAfter(config, c, m0, i);
      i' := if TableEntryIsTree(t, i) then i + 2 else i + 1;
    }

    /** The table of a map with `size` empty slots. */
    method StartEmpty(size: nat, ghost e: nat)
      requires StrictTotalOrder(config.lt)
      requires size == Pow2(e) && 3 <= e <= 60
      modifies this`table, this`numBuckets, this`firstNonNull, this`m, this`cells, this`trees, this`exponent
      ensures ValidTable() && numBuckets == size && m == map[] && trees == {} && fresh(table)
    {
      assert size % 2 == 0;
      numBuckets, firstNonNull := size, size;
      table := new Ptr<K, V>[size](_ => Null);
      m, trees, exponent := map[], {}, e;
      cells := seq(size, _ => Empty);
      WfEmpty(config, cells);
    }

    /** Called before the `size`-th element goes in. Returns whether it rehashed. */
    method ResizeIfLoadIsOutOfRange(size: nat) returns (resized: bool)
      requires Valid() && size == numElements + 1
      modifies this`table, this`numBuckets, this`firstNonNull, this`m, this`cells, this`trees, this`exponent
      modifies m.Values`next
      ensures ValidTable() && m == old(m)
      ensures resized ==> fresh(table) && fresh(trees)
      ensures !resized ==>
        table == old(table) && trees == old(trees) && cells == old(cells) && numBuckets == old(numBuckets)
      ensures LoadOk(size, numBuckets) && numBuckets == NextBuckets(size, old(numBuckets))
    {
      var hi := HiCutoff(numBuckets);
      var lo := hi / 4;
      MaxSizeIsPow2();
      if size >= hi {
        if numBuckets <= MAX_SIZE / 2 {
          Pow2Monotone(exponent, 60);
          GrowKeepsLoad(numElements, exponent);
          Resize(numBuckets * 2, exponent + 1);
          return true;
        }
      } else if size <= lo && numBuckets > MIN_TABLE_SIZE {
        ghost var e;
        var n;
        n, e := ReducedBuckets(size, numBuckets, exponent);
        if n != numBuckets {
          Resize(n, e);
          return true;
        }
      }
      return false;
    }

    // ------------------------------------------------------------ the public operations

    /** A table for a requested size that is below the minimum or a power of two. */
    constructor (size: nat, ghost e: nat, hash: K -> nat, seed: nat, lt: (K, K) -> bool)
      requires StrictTotalOrder(lt)
      requires size < MIN_TABLE_SIZE || (size == Pow2(e) && 3 <= e <= 60)
      ensures Valid() && m == map[] && fresh(table) && trees == {}
      ensures config == Config(hash, seed, lt) && numBuckets == TableSize(size) == if size < 8 then 8 else size
    {
      config := Config(hash, seed, lt);
      numElements := 0;
      new;
      assert Pow2(3) == MIN_TABLE_SIZE;
      StartEmpty(TableSize(size), if size < MIN_TABLE_SIZE then 3 else e);
    }

    /** Inserts if not present. */
    method Insert(k: K, v: V) returns (node: Node<K, V>, inserted: bool)
      requires Valid()
      modifies this, table, trees, m.Values`next
      ensures Valid() && (table == old(table) || fresh(table)) && fresh(trees - old(trees))
      ensures inserted <==> k !in old(m)
      ensures m == if inserted then old(m)[k := node] else old(m)
      ensures node == m[k]
      ensures inserted ==> fresh(node) && node.value == v
      ensures numBuckets == if inserted then NextBuckets(|old(m)| + 1, old(numBuckets)) else old(numBuckets)
    {
      hide *;
      ValidFacts();
      var found, b, p := FindHelper(k);
      if found != null {
        return found, false;
      }
      b := MakeRoom(k, b);
      node := InsertNew(k, v, b);
      inserted := true;
    }

    /** Rehashes if need be, after which the slot is looked up again. */
    method MakeRoom(k: K, b: nat) returns (b': nat)
      requires Valid() && k !in m && SlotFor(k, b)
      modifies this`table, this`numBuckets, this`firstNonNull, this`m, this`cells, this`trees, this`exponent
      modifies m.Values`next
      ensures ValidTable() && m == old(m) && SlotFor(k, b')
      ensures (table == old(table) || fresh(table)) && fresh(trees - old(trees))
      ensures LoadOk(|m| + 1, numBuckets) && numBuckets == NextBuckets(|m| + 1, old(numBuckets))
    {
      hide Valid, ValidTable, ValidCells, LoadOk, NextBuckets;
      ValidFacts();
      b' := b;
      var resized := ResizeIfLoadIsOutOfRange(numElements + 1);
      if resized {
        TableFacts();
        var found, p;
        found, b', p := FindHelper(k);
      }
    }

    /** Case 2 of insertion, when there is room. */
    method InsertNew(k: K, v: V, b: nat) returns (node: Node<K, V>)
      requires ValidTable() && numElements == |m| && LoadOk(numElements + 1, numBuckets)
      requires k !in m && SlotFor(k, b)
      modifies this, table, trees, m.Values`next
      ensures Valid() && table == old(table) && numBuckets == old(numBuckets) && fresh(trees - old(trees))
      ensures m == old(m)[k := node] && fresh(node) && node.value == v && node.key == k
    {
      hide Valid, ValidTable, ValidCells, SlotFor, GoodSlot, LoadOk;
      TableFacts();
      SlotForIsGood(k, b);
      node := new Node(k, v);
      OneMore(m, k, node);
      var at := InsertUnique(b, node);
      numElements := numElements + 1;
      AssembleValid();
    }

    /** `operator[]`: the node whose value the code returns a reference to. */
    method At(k: K, default: V) returns (node: Node<K, V>)
      requires Valid()
      modifies this, table, trees, m.Values`next
      ensures Valid() && (table == old(table) || fresh(table)) && fresh(trees - old(trees))
      ensures k in old(m) ==> m == old(m)
      ensures k !in old(m) ==> m == old(m)[k := node] && fresh(node) && node.value == default
      ensures node == m[k]
    {
      var inserted;
      node, inserted := Insert(k, default);
    }

    method Find(k: K) returns (node: Node?<K, V>)
      requires Valid()
      ensures node == if k in m then m[k] else null
    {
      var b, p;
      node, b, p := FindHelper(k);
    }

    /** Given a node that is in the map and a bucket index that may be stale, finds the node's bucket and
        whether it is in a list; otherwise `pos` is its position in the tree. */
    method Revalidate(node: Node<K, V>, hint: nat) returns (isList: bool, b: nat, pos: nat)
      requires ValidCells() && node in m.Values
      ensures b < numBuckets && node in cells[b].Seq()
      ensures isList <==> cells[b].Chain?
      ensures isList ==> b == Home(config, numBuckets, node.key)
      ensures !isList ==> cells[b].Shared? && b % 2 == 0 && pos < |cells[b].nodes| && cells[b].nodes[pos] == node
    {
      ValuesAreByKey(config, cells, m);
      MaskIsModulo(hint, exponent);
      b, pos := And(hint, numBuckets - 1), 0;
      SlotKind(table, config, cells, m, b);
      if table[b] == ToNode(node) {
        OnlyAtHome(config, cells, m, b, node);
        return true, b, 0;
      }
      if TableEntryIsNonEmptyList(table, b) {
        assert CellLinked(cells[b]);
        var found := NodeInList(table[b].node, node, cells[b].nodes);
        if found {
          OnlyAtHome(config, cells, m, b, node);
          return true, b, 0;
        }
      }
      var n;
      n, b, pos := FindHelper(node.key);
      OnlyAtHome(config, cells, m, b, node);
      HalvesAgree(config, cells, m, Home(config, numBuckets, node.key));
      SlotKind(table, config, cells, m, b);
      isList := !TableEntryIsTree(table, b);
    }

    /** Whether `item` is in a list, by walking it. */
    static method NodeInList(head: Node<K, V>, item: Node<K, V>, ghost s: seq<Node<K, V>>) returns (found: bool)
      requires |s| > 0 && s[0] == head && Linked(s)
      ensures found ==> item in s
    {
      var l: Node?<K, V> := head.next;
      ghost var i := 1;
      while l != null
        invariant 1 <= i <= |s| && l == (if i < |s| then s[i] else null)
        decreases |s| - i
      {
        assert s[i] == l;
        if l == item {
          return true;
        }
        l, i := l.next, i + 1;
      }
      return false;
    }

    // ------------------------------------------------------------ erasure

    /** The list `s` without its element `i`, by relinking the predecessors on the way back. */
    static method EraseFromLinkedList(item: Node<K, V>, head: Node<K, V>, ghost s: seq<Node<K, V>>, ghost i: nat)
      returns (r: Node?<K, V>)
      requires i < |s| && s[0] == head && s[i] == item && Linked(s) && Distinct(s)
      modifies s`next
      ensures Linked(Without(s, i))
      ensures r == if Without(s, i) == [] then null else Without(s, i)[0]
      decreases i
    {
      hide *;
      FirstLink(s);
      if head == item {
        WithoutFirst(s, i);
        r := head.next;
      } else {
        WithoutLater(s, i);
        var rest := EraseFromLinkedList(item, head.next, s[1..], i - 1);
        Relink(head, rest, Without(s[1..], i - 1));
        r := head;
      }
    }

    /** Puts a node in front of a list. */
    static method Relink(head: Node<K, V>, rest: Node?<K, V>, ghost s: seq<Node<K, V>>)
      requires Linked(s) && head !in s && rest == if s == [] then null else s[0]
      modifies head`next
      ensures Linked([head] + s)
    {
      head.next := rest;
      assert forall i | 0 <= i < |s| :: s[i] in s;
      LinkedPush(head, s);
    }

    method EraseFromList(b: nat, item: Node<K, V>, ghost i: nat)
      requires ValidCells() && b < numBuckets && cells[b].Chain?
      requires i < |cells[b].nodes| && cells[b].nodes[i] == item
      modifies table, m.Values`next, this`cells, this`m
      ensures ValidCells() && m == old(m) - {item.key}
      ensures cells == Removed(old(cells), b, i)
    {
      hide *;
      Facts();
      Links();
      ChainFacts(b);
      ghost var s, cells0, t0 := cells[b].nodes, cells, table[..];
      ChainRemoved(config, cells, m, b, i);
      RemovedPoints(t0, cells, b, i);
      var head := EraseFromLinkedList(item, table[b].node, s, i);
      forall d | 0 <= d < numBuckets && d != b ensures CellLinked(cells0[d]) {
        assert forall x | x in cells0[d].Seq() :: x !in s;
        assert forall x | x in cells0[d].Seq() :: x in m.Values;
        assert forall x | x in m.Values && x !in s :: x.next == old(x.next);
        Untouched(cells0[d]);
      }
      ListIsLinked(Without(s, i));
      table[b] := if head == null then Null else ToNode(head);
      cells := Removed(cells, b, i);
      m := m - {item.key};
      assert table[..] == t0[b := table[b]];
      Assemble();
    }

    /** A list, its nodes and the other slots. */
    lemma ChainFacts(b: nat)
      requires ValidCells() && b < numBuckets && cells[b].Chain?
      ensures |cells[b].nodes| > 0 && Distinct(cells[b].nodes) && Linked(cells[b].nodes)
      ensures b < table.Length && table[b] == ToNode(cells[b].nodes[0]) && Buddy(b) < |cells|
      ensures forall x | x in cells[b].nodes :: x in m.Values
      ensures forall d, x | 0 <= d < numBuckets && d != b && x in cells[d].Seq() ::
        x in m.Values && x !in cells[b].nodes
    {
      SlotOkAt(b);
      HalvesAgree(config, cells, m, b);
      NodesAreValues(config, cells, m);
      assert forall x | x in cells[b].nodes :: x in cells[b].Seq();
      forall d | 0 <= d < numBuckets && d != b ensures forall x | x in cells[d].Seq() :: x !in cells[b].nodes {
        OtherSlot(b, d);
      }
    }

    method EraseFromTree(b: nat, i: nat)
      requires ValidCells() && b < numBuckets && cells[b].Shared? && b % 2 == 0
      requires i < |cells[b].nodes|
      modifies table, cells[b].tree, this`cells, this`m
      ensures ValidCells() && m == old(m) - {old(cells[b].nodes[i].key)}
      ensures cells == Removed(old(cells), b, i)
    {
      hide ValidCells, Wf, Removed;
      Facts();
      Links();
      ghost var s, cells0 := cells[b].nodes, cells;
      SlotKind(table, config, cells, m, b);
      HalvesAgree(config, cells, m, b);
      SlotOkAt(b);
      WfRemoved(config, cells, m, b, i);
      RemovedAt(cells, b, i);
      forall d | 0 <= d < numBuckets && cells[d].Shared? && cells[d].tree == cells[b].tree ensures d / 2 == b / 2 {
        TreesApart(b, d);
      }
      var tree := table[b].tree;
      tree.Erase(i);
      if |tree.nodes| == 0 {
        table[b], table[b + 1] := Null, Null;
      }
      cells := Removed(cells, b, i);
      m := m - {s[i].key};
      forall d | 0 <= d < |cells| ensures CellLinked(cells[d]) {
        if d / 2 != b / 2 {
          Untouched(cells0[d]);
        }
      }
      Assemble();
    }

    lemma OtherSlot(b: nat, d: nat)
      requires ValidCells() && b < numBuckets && d < numBuckets && d != b && cells[b].Chain?
      ensures forall x | x in cells[d].Seq() :: x !in cells[b].nodes
    {
      HalvesAgree(config, cells, m, b);
      forall x | x in cells[d].Seq() ensures x !in cells[b].Seq() {
        OnlyAtHome(config, cells, m, d, x);
        if x in cells[b].Seq() {
          OnlyAtHome(config, cells, m, b, x);
        }
      }
    }

    /** Erases the node of an iterator whose bucket index may be stale. `at` and `i` tell where it was. */
    method Erase(item: Node<K, V>, hint: nat) returns (ghost at: nat, ghost i: nat)
      requires Valid() && item in m.Values
      modifies this`numElements, this`firstNonNull, this`m, this`cells, table, trees, m.Values`next
      ensures Valid() && m == old(m) - {item.key}
      ensures WasAt(old(cells), at, i, item) && cells == Removed(old(cells), at, i)
    {
      hide *;
      ValidFacts();
      ghost var cells0, m0 := cells, m;
      var b;
      b, i := Detach(item, hint);
      at := b;
      numElements := numElements - 1;
      OneLess(m0, item.key, numBuckets);
      FirstAfterRemoval(cells0, b, i, firstNonNull);
      Facts();
      if b == firstNonNull {
        AdvanceFirst();
      } else {
        AssembleTable();
      }
      AssembleValid();
    }

    /** Unlinks a node from its list or tree. */
    method Detach(item: Node<K, V>, hint: nat) returns (b: nat, ghost i: nat)
      requires ValidCells() && item in m.Values
      modifies this`m, this`cells, table, trees, m.Values`next
      ensures ValidCells() && m == old(m) - {item.key} && item.key in old(m)
      ensures WasAt(old(cells), b, i, item) && cells == Removed(old(cells), b, i)
    {
      ValuesAreByKey(config, cells, m);
      var isList, pos;
      isList, b, pos := Revalidate(item, hint);
      HalvesAgree(config, cells, m, b);
      if isList {
        i :| 0 <= i < |cells[b].nodes| && cells[b].nodes[i] == item;
        EraseFromList(b, item, i);
      } else {
        i := pos;
        EraseFromTree(b, pos);
      }
    }

    /** Moves the cached index up to the next non-empty slot. */
    method AdvanceFirst()
      requires ValidCells() && firstNonNull <= numBuckets
      requires forall b | 0 <= b < firstNonNull :: cells[b].Empty?
      modifies this`firstNonNull
      ensures ValidTable()
    {
      while firstNonNull < numBuckets && table[firstNonNull] == Null
        invariant ValidCells() && firstNonNull <= numBuckets
        invariant forall b | 0 <= b < firstNonNull :: cells[b].Empty?
        decreases numBuckets - firstNonNull
      {
        SlotKind(table, config, cells, m, firstNonNull);
        firstNonNull := firstNonNull + 1;
      }
      if firstNonNull < numBuckets {
        SlotKind(table, config, cells, m, firstNonNull);
      }
    }
  }

  /** `item` is element `i` of slot `b`, the even one if the slot shares a tree. */
  ghost predicate WasAt<K(!new), V>(cells: seq<Cell<K, V>>, b: nat, i: nat, item: Node<K, V>) {
    && b < |cells| && Buddy(b) < |cells| && i < |cells[b].Seq()| && cells[b].Seq()[i] == item
    && (cells[b].Shared? ==> b % 2 == 0 && cells[Buddy(b)] == cells[b])
  }

  /** Both slots of the pair share one tree, with the nodes of both lists and the new one. */
  ghost predicate Converted<K(!new), V>(cells: seq<Cell<K, V>>, cells': seq<Cell<K, V>>, b: nat, node: Node<K, V>) {
    && |cells'| == |cells| && b < |cells| && Buddy(b) < |cells|
    && cells'[b].Shared? && cells'[Buddy(b)] == cells'[b]
    && |cells'[b].nodes| == |cells[b].Seq()| + |cells[Buddy(b)].Seq()| + 1
    && SameElements(cells'[b].nodes, cells[b].Seq() + cells[Buddy(b)].Seq() + [node])
  }

  /** How a node goes into slot `b`: into its tree, by making a tree of a list of eight, or to the head of a shorter
      list. */
  ghost predicate PlacedIn<K(!new), V>(cells: seq<Cell<K, V>>, cells': seq<Cell<K, V>>, b: nat, node: Node<K, V>) {
    && b < |cells| && Buddy(b) < |cells| && |cells'| == |cells|
    && (cells[b].Shared? ==>
          && cells'[b].Shared? && cells'[b].tree == cells[b].tree && cells'[Buddy(b)] == cells'[b]
          && |cells'[b].nodes| == |cells[b].nodes| + 1
          && SameElements(cells'[b].nodes, cells[b].nodes + [node]))
    && (cells[b].Chain? && |cells[b].nodes| == 8 ==> Converted(cells, cells', b, node))
    && (cells[b].Chain? && |cells[b].nodes| < 8 ==> cells' == cells[b := Chain([node] + cells[b].nodes)])
    && (cells[b].Empty? ==> cells' == cells[b := Chain([node])])
  }

  lemma NowConverted<K(!new), V>(lt: (K, K) -> bool, cells: seq<Cell<K, V>>, cells': seq<Cell<K, V>>, b: nat,
      node: Node<K, V>, s: seq<Node<K, V>>)
    requires b < |cells| && Buddy(b) < |cells| && |cells'| == |cells|
    requires |s| == |cells[b].Seq()| + |cells[Buddy(b)].Seq()|
    requires SameElements(s, cells[b].Seq() + cells[Buddy(b)].Seq())
    requires
      var u := SetInsert(lt, s, node);
      && |u| == |s| + 1 && SameElements(u, s + [node])
      && cells'[b].Shared? && cells'[b].nodes == u && cells'[Buddy(b)] == cells'[b]
    ensures Converted(cells, cells', b, node)
  {
  }

  lemma PlacedInTree<K(!new), V>(lt: (K,
      K) -> bool, cells: seq<Cell<K, V>>, cells': seq<Cell<K, V>>, b: nat, node: Node<K, V>)
    requires b < |cells| && Buddy(b) < |cells| && cells[b].Shared?
    requires
      var u := SetInsert(lt, cells[b].nodes, node);
      && |u| == |cells[b].nodes| + 1 && SameElements(u, cells[b].nodes + [node])
      && cells' == cells[b := Shared(cells[b].tree, u)][Buddy(b) := Shared(cells[b].tree, u)]
    ensures PlacedIn(cells, cells', b, node)
  {
  }

  lemma PlacedInList<K(!new), V>(cells: seq<Cell<K, V>>, cells': seq<Cell<K, V>>, b: nat, node: Node<K, V>)
    requires b < |cells| && Buddy(b) < |cells| && !cells[b].Shared? && |cells[b].Seq()| < 8
    requires cells' == cells[b := Chain([node] + cells[b].Seq())]
    ensures PlacedIn(cells, cells', b, node)
  {
    assert [node] + [] == [node];
  }

  lemma PlacedByConverting<K(!new), V>(cells: seq<Cell<K, V>>, cells': seq<Cell<K, V>>, b: nat, node: Node<K, V>)
    requires b < |cells| && cells[b].Chain? && |cells[b].nodes| >= 8 && Converted(cells, cells', b, node)
    ensures PlacedIn(cells, cells', b, node)
  {
  }

  /** `at` is the first slot of the pair of `b` that may have become non-empty. */
  lemma FirstAfterPlace<K(!new), V>(cells: seq<Cell<K, V>>, cells': seq<Cell<K, V>>, first: nat, b: nat, at: nat,
      grew: bool)
    requires |cells'| == |cells| && first <= |cells| && at < |cells| && at / 2 == b / 2
    requires (forall d | 0 <= d < first :: cells[d].Empty?) && (first < |cells| ==> !cells[first].Empty?)
    requires !cells'[at].Empty? && forall d | 0 <= d < |cells| && d / 2 != b / 2 :: cells'[d] == cells[d]
    requires forall d | 0 <= d < |cells| && d / 2 == b / 2 ::
      (grew && at <= d) || (cells'[d].Empty? <==> cells[d].Empty?)
    ensures
      var first' := if grew && at < first then at else first;
      (forall d | 0 <= d < first' :: cells'[d].Empty?) && (first' < |cells'| ==> !cells'[first'].Empty?)
  {
  }

  lemma FirstAfterRemoval<K(!new), V>(cells: seq<Cell<K, V>>, b: nat, i: nat, first: nat)
    requires b < |cells| && i < |cells[b].Seq()| && WasAt(cells, b, i, cells[b].Seq()[i])
    requires first <= |cells| && (forall d | 0 <= d < first :: cells[d].Empty?)
    requires first < |cells| ==> !cells[first].Empty?
    ensures first <= b && |Removed(cells, b, i)| == |cells|
    ensures forall d | 0 <= d < first :: Removed(cells, b, i)[d].Empty?
    ensures b != first ==> !Removed(cells, b, i)[first].Empty?
  {
  }

  lemma OneMore<K(!new), V>(m: map<K, Node<K, V>>, k: K, node: Node<K, V>)
    requires k !in m
    ensures |m[k := node]| == |m| + 1
  {
    assert m[k := node].Keys == m.Keys + {k};
  }

  lemma OneLess<K(!new), V>(m: map<K, Node<K, V>>, k: K, buckets: nat)
    requires k in m && LoadOk(|m|, buckets)
    ensures |m - {k}| == |m| - 1 && LoadOk(|m| - 1, buckets)
  {
    assert (m - {k}).Keys == m.Keys - {k};
  }

  /** The table without element `i` of slot `b`. */
  ghost function Removed<K(!new), V>(cells: seq<Cell<K, V>>, b: nat, i: nat): seq<Cell<K, V>>
    requires b < |cells| && Buddy(b) < |cells| && i < |cells[b].Seq()|
  {
    var s := Without(cells[b].Seq(), i);
    match cells[b]
    case Chain(_) => cells[b := if s == [] then Empty else Chain(s)]
    case Shared(t, _) =>
      var cell := if s == [] then Empty else Shared(t, s);
      cells[b := cell][Buddy(b) := cell]
  }

  lemma WfRemoved<K(!new), V>(c: Config<K>, cells: seq<Cell<K, V>>, m: map<K, Node<K, V>>, b: nat, i: nat)
    requires StrictTotalOrder(c.lt) && Wf(c, cells, m) && b < |cells| && i < |cells[b].Seq()|
    ensures Buddy(b) < |cells|
    ensures var k := cells[b].Seq()[i].key; k in m && Wf(c, Removed(cells, b, i), m - {k})
  {
    HalvesAgree(c, cells, m, b);
    if cells[b].Chain? {
      WfRemoveChain(c, cells, m, b, i);
    } else {
      WfRemoveShared(c, cells, m, b, i);
    }
  }

  lemma RemovedAt<K(!new), V>(cells: seq<Cell<K, V>>, b: nat, i: nat)
    requires b < |cells| && Buddy(b) < |cells| && i < |cells[b].Seq()|
    ensures
      var r, s := Removed(cells, b, i), Without(cells[b].Seq(), i);
      && |r| == |cells|
      && (forall d | 0 <= d < |cells| && d != b && (cells[b].Chain? || d != Buddy(b)) :: r[d] == cells[d])
      && r[b] == (if s == [] then Empty else if cells[b].Chain? then Chain(s) else Shared(cells[b].tree, s))
      && (cells[b].Shared? ==> r[Buddy(b)] == r[b])
  {
  }

  /** The list of slot `b` without element `i`, which leaves the slot empty or a shorter list. */
  lemma ChainRemoved<K(!new), V>(c: Config<K>, cells: seq<Cell<K, V>>, m: map<K, Node<K, V>>, b: nat, i: nat)
    requires StrictTotalOrder(c.lt) && Wf(c, cells, m) && b < |cells| && cells[b].Chain? && i < |cells[b].nodes|
    ensures Buddy(b) < |cells| && i < |cells[b].Seq()| && |Removed(cells, b, i)| == |cells|
    ensures var k := cells[b].nodes[i].key; k in m && Wf(c, Removed(cells, b, i), m - {k})
    ensures
      var r, u := Removed(cells, b, i), Without(cells[b].nodes, i);
      (forall d | 0 <= d < |r| && d != b :: r[d] == cells[d]) && r[b] == if u == [] then Empty else Chain(u)
  {
    hide Without, Wf;
    WfRemoved(c, cells, m, b, i);
    RemovedAt(cells, b, i);
  }

  /** The pointer to that slot is to the first node that is left. */
  lemma RemovedPoints<K(!new), V>(t: seq<Ptr<K, V>>, cells: seq<Cell<K, V>>, b: nat, i: nat)
    requires Points(t, cells) && b < |cells| && Buddy(b) < |cells| && cells[b].Chain? && i < |cells[b].nodes|
    ensures
      var u := Without(cells[b].nodes, i);
      Points(t[b := if u == [] then Null else ToNode(u[0])], Removed(cells, b, i))
  {
    hide Without;
    RemovedAt(cells, b, i);
  }

  /** Both slots of a pair point to one tree. */
  lemma TreePoints<K(!new), V>(t: seq<Ptr<K, V>>, cells: seq<Cell<K, V>>, b: nat, b': nat, cell: Cell<K, V>)
    requires Points(t, cells) && b < |cells| && b' < |cells| && cell.Shared?
    ensures Points(t[b := ToTree(cell.tree)][b' := ToTree(cell.tree)], cells[b := cell][b' := cell])
  {
  }

  lemma TreeIsLinked<K(!new), V>(cell: Cell<K, V>, c: Cell<K, V>, d: Cell<K, V>)
    requires cell.Shared? && cell.tree.nodes == cell.nodes && forall x | x in cell.nodes :: x in c.Seq() || x in d.Seq()
    requires forall x | x in c.Seq() || x in d.Seq() :: x.next == null
    ensures CellLinked(cell)
  {
  }

  lemma BothLists<T>(u: seq<T>, s: seq<T>, t: seq<T>)
    requires forall x | x in u :: x in s || x in t
    requires forall x | x in s || x in t :: x in u
    ensures SameElements(u, s + t)
  {
  }

  lemma ListIsLinked<K(!new), V>(s: seq<Node<K, V>>)
    requires Linked(s)
    ensures CellLinked(if s == [] then Empty else Chain(s))
  {
  }

  lemma FirstLink<K(!new), V>(s: seq<Node<K, V>>)
    requires |s| > 0 && Linked(s)
    ensures Linked(s[1..]) && s[0].next == if |s| > 1 then s[1] else null
  {
    var u := s[1..];
    assert forall i | 0 <= i < |u| :: u[i].next == s[i + 1].next;
  }

  lemma WithoutFirst<K(!new), V>(s: seq<Node<K, V>>, i: nat)
    requires i < |s| && Distinct(s) && s[i] == s[0]
    ensures Without(s, i) == s[1..]
  {
    assert i == 0;
  }

  lemma WithoutLater<K(!new), V>(s: seq<Node<K, V>>, i: nat)
    requires 0 < i < |s| && Distinct(s)
    ensures Without(s, i) == [s[0]] + Without(s[1..], i - 1)
    ensures Distinct(s[1..]) && s[0] !in Without(s[1..], i - 1)
  {
    var u := s[1..];
    assert forall j | 0 <= j < |u| :: u[j] == s[j + 1] != s[0];
  }

  /** What remains to be moved while slots below `i` of the old table are already in `m`. */
  ghost predicate Progress<K(!new), V>(c: Config<K>, cells0: seq<Cell<K, V>>, m0: map<K, Node<K, V>>, i: nat,
      m: map<K, Node<K, V>>) {
    && |cells0| > 0
    && (forall k | k in m :: k in m0 && m[k] == m0[k])
    && (forall k | k in m0 && k !in m :: i <= Home(c, |cells0|, k))
    && (forall d, x | i <= d < |cells0| && x in cells0[d].Seq() :: x.key !in m)
  }

  /** The slot that follows slot `i` when a tree takes up two. */
  function After<K(!new), V>(cells: seq<Cell<K, V>>, i: nat): nat
    requires i < |cells|
  {
    if cells[i].Shared? then i + 2 else i + 1
  }

  /** Slots from which iteration may proceed: not the odd half of a tree. */
  ghost predicate Start<K(!new), V>(cells: seq<Cell<K, V>>, b: nat) {
    b < |cells| && cells[b].Shared? ==> b % 2 == 0
  }

  lemma StartAfter<K(!new), V>(c: Config<K>, cells: seq<Cell<K, V>>, m: map<K, Node<K, V>>, b: nat)
    requires Wf(c, cells, m) && b < |cells| && Start(cells, b)
    ensures Start(cells, After(cells, b))
  {
    HalvesAgree(c, cells, m, b);
  }

  lemma RestApart<K(!new), V>(c: Config<K>, cells0: seq<Cell<K, V>>, m0: map<K, Node<K, V>>, i: nat,
      m: map<K, Node<K, V>>)
    requires Wf(c, cells0, m0) && Progress(c, cells0, m0, i, m) && i < |cells0|
    requires Start(cells0, i)
    ensures forall d, x | After(cells0, i) <= d < |cells0| && x in cells0[d].Seq() ::
              x !in cells0[i].Seq() && x !in m.Values
  {
    forall d, x | After(cells0, i) <= d < |cells0| && x in cells0[d].Seq()
      ensures x !in cells0[i].Seq() && x !in m.Values
    {
      OnlyAtHome(c, cells0, m0, d, x);
      HalvesAgree(c, cells0, m0, i);
      if x in cells0[i].Seq() {
        OnlyAtHome(c, cells0, m0, i, x);
      }
      forall k | k in m ensures m[k].key == k {
        assert KeyOk(c, cells0, m0, k);
      }
    }
  }

  lemma ProgressStart<K(!new), V>(c: Config<K>, cells0: seq<Cell<K, V>>, m0: map<K, Node<K, V>>, start: nat)
    requires Wf(c, cells0, m0) && start <= |cells0|
    requires forall b | 0 <= b < start :: cells0[b].Empty?
    ensures Progress(c, cells0, m0, start, map[])
    ensures Start(cells0, start)
  {
    forall k | k in m0 ensures start <= Home(c, |cells0|, k) {
      assert KeyOk(c, cells0, m0, k);
    }
    if start < |cells0| {
      HalvesAgree(c, cells0, m0, start);
    }
  }

  /** Moving the nodes of slot `i` makes the progress the loop of Resize counts on. */
  lemma ProgressStep<K(!new), V>(c: Config<K>, cells0: seq<Cell<K, V>>, m0: map<K, Node<K, V>>, i: nat,
                                 m: map<K, Node<K, V>>, m': map<K, Node<K, V>>)
    requires Wf(c, cells0, m0) && Progress(c, cells0, m0, i, m) && i < |cells0|
    requires Start(cells0, i)
    requires Added(m, cells0[i].Seq(), m')
    ensures Progress(c, cells0, m0, After(cells0, i), m')
  {
    var s, i' := cells0[i].Seq(), After(cells0, i);
    HalvesAgree(c, cells0, m0, i);
    forall k | k in m0 && k !in m' ensures i' <= Home(c, |cells0|, k) {
      assert KeyOk(c, cells0, m0, k);
    }
    RestApart(c, cells0, m0, i, m);
    forall d, x | i' <= d < |cells0| && x in cells0[d].Seq() ensures x.key !in m' {
      OnlyAtHome(c, cells0, m0, d, x);
      forall y | y in s ensures y.key != x.key {
        OnlyAtHome(c, cells0, m0, i, y);
      }
    }
    forall k | k in m' ensures k in m0 && m'[k] == m0[k] {
      if k in Keys(s) {
        var y :| y in s && y.key == k;
        OnlyAtHome(c, cells0, m0, i, y);
      }
    }
  }

  lemma CellKeysDistinct<K(!new), V>(c: Config<K>, cells: seq<Cell<K, V>>, m: map<K, Node<K, V>>, b: nat)
    requires Wf(c, cells, m) && StrictTotalOrder(c.lt) && b < |cells|
    ensures DistinctKeys(cells[b].Seq())
  {
    UseWf(c, cells, m);
    var s := cells[b].Seq();
    assert CellOk(c, |cells|, b, cells[b]);
    if cells[b].Shared? {
      SortedIsDistinct(c.lt, s);
    }
    forall i, j | 0 <= i < j < |s| ensures s[i].key != s[j].key {
      assert s[i] in s && s[j] in s;
    }
  }

  /** `m'` is `m` with the nodes of `s` added under their keys. */
  ghost predicate Added<K(!new), V>(m: map<K, Node<K, V>>, s: seq<Node<K, V>>, m': map<K, Node<K, V>>) {
    && m'.Keys == m.Keys + Keys(s)
    && (forall x | x in s :: x.key in m' && m'[x.key] == x)
    && (forall k | k in m :: k in m' && m'[k] == m[k])
  }

  ghost function Keys<K(!new), V>(s: seq<Node<K, V>>): set<K> {
    set x | x in s :: x.key
  }

  lemma AddedNone<K(!new), V>(m: map<K, Node<K, V>>)
    ensures Added(m, [], m)
  {
  }

  lemma AddedNext<K(!new), V>(m: map<K, Node<K, V>>, s: seq<Node<K, V>>, i: nat, m': map<K, Node<K, V>>)
    requires i < |s| && DistinctKeys(s) && Added(m, s[..i], m') && (forall x | x in s :: x.key !in m)
    ensures forall j | i <= j < |s| :: s[j].key !in m'
    ensures Added(m, s[..i + 1], m'[s[i].key := s[i]])
  {
    forall j | i <= j < |s| ensures s[j].key !in m' {
      assert s[j] in s && forall x | x in s[..i] :: x.key != s[j].key;
    }
    assert s[..i + 1] == s[..i] + [s[i]];
  }
}
