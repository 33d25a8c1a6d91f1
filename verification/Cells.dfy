/** The linked nodes and shared trees of protobuf's map, and what a table of buckets means as a value:
    every slot is empty, a chain of nodes, or half of a pair that shares an ordered tree. */
module Cells {
  import opened Common
  import opened Bits

  class Node<K, V> {
    const key: K
    var value: V
    var next: Node?<K, V>

    constructor (key: K, value: V)
      ensures this.key == key && this.value == value && next == null
    {
      this.key, this.value, next := key, value, null;
    }
  }

  /** What a `void*` slot may hold. The code never asks which constructor it is: it compares slots. */
  datatype Ptr<K(!new), V> = Null | ToNode(node: Node<K, V>) | ToTree(tree: Tree<K, V>)

  datatype Cell<K(!new), V> =
    | Empty
    | Chain(nodes: seq<Node<K, V>>)
    | Shared(tree: Tree<K, V>, nodes: seq<Node<K, V>>)
  {
    function Seq(): seq<Node<K, V>> {
      if Empty? then [] else nodes
    }

    function Ptr(): Ptr<K, V>
      requires Chain? ==> |nodes| > 0
    {
      match this
      case Empty => Null
      case Chain(s) => ToNode(s[0])
      case Shared(t, _) => ToTree(t)
    }
  }

  const MAX_LENGTH := 8

  datatype Config<!K> = Config(hash: K -> nat, seed: nat, lt: (K, K) -> bool)

  /** A strict total order, as `KeyCompare` promises `std::set`. The quantifiers are instantiated only
      where `At` is mentioned; `UseOrder` restates them plainly. */
  ghost predicate StrictTotalOrder<K(!new)>(lt: (K, K) -> bool) {
    forall a, b, c {:trigger At(a, b, c)} :: At(a, b, c) ==>
      && !lt(a, a)
      && (lt(a, b) || lt(b, a) || a == b)
      && (lt(a, b) && lt(b, c) ==> lt(a, c))
  }

  ghost predicate At<K>(a: K, b: K, c: K) {
    true
  }

  lemma UseOrder<K(!new)>(lt: (K, K) -> bool)
    requires StrictTotalOrder(lt)
    ensures forall a :: !lt(a, a)
    ensures forall a, b :: lt(a, b) || lt(b, a) || a == b
    ensures forall a, b, c :: lt(a, b) && lt(b, c) ==> lt(a, c)
  {
    forall a, b, c
      ensures !lt(a, a)
      ensures lt(a, b) || lt(b, a) || a == b
      ensures lt(a, b) && lt(b, c) ==> lt(a, c)
    {
      assert At(a, b, c);
    }
  }

  /** The bucket of a key in a table of `n` slots, by arithmetic rather than by masking. */
  function Home<K>(c: Config<K>, n: nat, k: K): (b: nat)
    requires n > 0
    ensures b < n
  {
    (c.hash(k) + c.seed) % TWO64 % n
  }

  ghost predicate Distinct<T>(s: seq<T>) {
    forall i, j | 0 <= i < j < |s| :: s[i] != s[j]
  }

  ghost predicate Sorted<K(!new), V>(lt: (K, K) -> bool, s: seq<Node<K, V>>) {
    forall i, j | 0 <= i < j < |s| :: lt(s[i].key, s[j].key)
  }

  /** Each slot by itself. */
  ghost predicate CellOk<K(!new), V>(c: Config<K>, n: nat, b: nat, cell: Cell<K, V>)
    requires n > 0
  {
    match cell
    case Empty => true
    case Chain(s) =>
      && 1 <= |s| <= MAX_LENGTH && Distinct(s)
      && forall x | x in s :: Home(c, n, x.key) == b
    case Shared(_, s) =>
      && 1 <= |s| && Sorted(c.lt, s)
      && forall x | x in s :: Home(c, n, x.key) / 2 == b / 2
  }

  /** A slot by itself and against its partner and the map. */
  ghost predicate SlotOk<K(!new), V>(c: Config<K>, cells: seq<Cell<K, V>>, m: map<K, Node<K, V>>, b: nat)
    requires b < |cells| && |cells| % 2 == 0
  {
    && CellOk(c, |cells|, b, cells[b])
    && (cells[b].Shared? ==> cells[Buddy(b)] == cells[b])
    && forall x | x in cells[b].Seq() :: x.key in m && m[x.key] == x
  }

  ghost predicate KeyOk<K(!new), V>(c: Config<K>, cells: seq<Cell<K, V>>, m: map<K, Node<K, V>>, k: K)
    requires |cells| > 0
  {
    k in m ==> m[k].key == k && m[k] in cells[Home(c, |cells|, k)].Seq()
  }

  /** The documented structure of the table: `cells` holds exactly the nodes of `m`, each in the bucket
      its hash selects (or in the tree of that bucket's pair), no list is longer than eight, and the
      two slots of a pair share a tree or neither does. `UseWf` restates it without indirection. */
  ghost predicate Wf<K(!new), V>(c: Config<K>, cells: seq<Cell<K, V>>, m: map<K, Node<K, V>>) {
    && |cells| > 0 && |cells| % 2 == 0
    && (forall b {:trigger SlotOk(c, cells, m, b)} | 0 <= b < |cells| :: SlotOk(c, cells, m, b))
    && (forall k {:trigger KeyOk(c, cells, m, k)} :: KeyOk(c, cells, m, k))
  }

  lemma UseWf<K(!new), V>(c: Config<K>, cells: seq<Cell<K, V>>, m: map<K, Node<K, V>>)
    requires Wf(c, cells, m)
    ensures forall b | 0 <= b < |cells| :: CellOk(c, |cells|, b, cells[b])
    ensures forall b | 0 <= b < |cells| && cells[b].Shared? :: cells[Buddy(b)] == cells[b]
    ensures forall b, x | 0 <= b < |cells| && x in cells[b].Seq() :: x.key in m && m[x.key] == x
    ensures forall k | k in m :: m[k].key == k && m[k] in cells[Home(c, |cells|, k)].Seq()
  {
    forall b | 0 <= b < |cells|
      ensures CellOk(c, |cells|, b, cells[b])
      ensures cells[b].Shared? ==> cells[Buddy(b)] == cells[b]
      ensures forall x | x in cells[b].Seq() :: x.key in m && m[x.key] == x
    {
      assert SlotOk(c, cells, m, b);
    }
    forall k | k in m ensures m[k].key == k && m[k] in cells[Home(c, |cells|, k)].Seq() {
      assert KeyOk(c, cells, m, k);
    }
  }

  /** Slots hold what the cells say. */
  ghost predicate Points<K(!new), V>(t: seq<Ptr<K, V>>, cells: seq<Cell<K, V>>) {
    && |t| == |cells|
    && forall b | 0 <= b < |t| :: (cells[b].Chain? ==> |cells[b].nodes| > 0) && t[b] == cells[b].Ptr()
  }

  /** Pointer comparison alone tells lists from trees. */
  lemma KindOf<K(!new), V>(c: Config<K>, t: seq<Ptr<K, V>>, cells: seq<Cell<K, V>>, m: map<K, Node<K, V>>, b: nat)
    requires Wf(c, cells, m) && Points(t, cells) && b < |t|
    ensures Buddy(b) < |t|
    ensures t[b] == Null <==> cells[b].Empty?
    ensures t[b] != Null && t[b] != t[Buddy(b)] <==> cells[b].Chain?
    ensures t[b] != Null && t[b] == t[Buddy(b)] <==> cells[b].Shared?
  {
    UseWf(c, cells, m);
    var b' := Buddy(b);
    assert CellOk(c, |t|, b, cells[b]) && CellOk(c, |t|, b', cells[b']);
    if cells[b].Chain? && cells[b'].Chain? {
      assert cells[b].nodes[0] in cells[b].nodes && cells[b'].nodes[0] in cells[b'].nodes;
    }
  }

  /** A node is in its home slot, and in no slot outside its home pair. */
  lemma OnlyAtHome<K(!new), V>(c: Config<K>, cells: seq<Cell<K, V>>, m: map<K, Node<K, V>>, b: nat, x: Node<K, V>)
    requires Wf(c, cells, m) && b < |cells| && x in cells[b].Seq()
    ensures Home(c, |cells|, x.key) / 2 == b / 2
    ensures cells[b].Chain? ==> Home(c, |cells|, x.key) == b
    ensures x.key in m && m[x.key] == x
  {
    assert SlotOk(c, cells, m, b);
  }

  lemma WfEmpty<K(!new), V>(c: Config<K>, cells: seq<Cell<K, V>>)
    requires |cells| > 0 && |cells| % 2 == 0
    requires forall b | 0 <= b < |cells| :: cells[b] == Empty
    ensures Wf(c, cells, map[])
  {
    var m: map<K, Node<K, V>> := map[];
    assert forall b {:trigger SlotOk(c, cells, m, b)} | 0 <= b < |cells| :: SlotOk(c, cells, m, b);
    assert forall k {:trigger KeyOk(c, cells, m, k)} :: KeyOk(c, cells, m, k);
  }

  lemma NewKeyIsNowhere<K(!new), V>(c: Config<K>, cells: seq<Cell<K, V>>, m: map<K, Node<K, V>>, k: K)
    requires Wf(c, cells, m) && k !in m
    ensures forall b, x | 0 <= b < |cells| && x in cells[b].Seq() :: x.key != k
  {
    UseWf(c, cells, m);
  }

  lemma NodesAreValues<K(!new), V>(c: Config<K>, cells: seq<Cell<K, V>>, m: map<K, Node<K, V>>)
    requires Wf(c, cells, m)
    ensures forall b, x | 0 <= b < |cells| && x in cells[b].Seq() :: x in m.Values
  {
    UseWf(c, cells, m);
  }

  lemma ValuesAreByKey<K(!new), V>(c: Config<K>, cells: seq<Cell<K, V>>, m: map<K, Node<K, V>>)
    requires Wf(c, cells, m)
    ensures forall x | x in m.Values :: x.key in m && m[x.key] == x
  {
    UseWf(c, cells, m);
  }

  /** Different pairs have no node in common. */
  lemma PairsApart<K(!new), V>(c: Config<K>, cells: seq<Cell<K, V>>, m: map<K, Node<K, V>>, b: nat)
    requires Wf(c, cells, m) && b < |cells|
    ensures Buddy(b) < |cells|
    ensures forall d, x | 0 <= d < |cells| && d / 2 != b / 2 && x in cells[d].Seq() ::
              x !in cells[b].Seq() && x !in cells[Buddy(b)].Seq()
  {
    UseWf(c, cells, m);
    forall d, x | 0 <= d < |cells| && d / 2 != b / 2 && x in cells[d].Seq()
      ensures x !in cells[b].Seq() && x !in cells[Buddy(b)].Seq()
    {
      OnlyAtHome(c, cells, m, d, x);
      PairContents(c, cells, m, b);
    }
  }

  /** Changing one pair of slots, and the entries of the map that belong to it, keeps the structure
      when the pair is sound afterwards. */
  lemma WfRebuild<K(!new), V>(c: Config<K>, cells: seq<Cell<K, V>>, m: map<K, Node<K, V>>,
                        cells': seq<Cell<K, V>>, m': map<K, Node<K, V>>, b: nat)
    requires Wf(c, cells, m) && b < |cells| && |cells'| == |cells|
    requires forall d | 0 <= d < |cells| && d / 2 != b / 2 :: cells'[d] == cells[d]
    requires Buddy(b) < |cells|
    requires CellOk(c, |cells|, b, cells'[b]) && CellOk(c, |cells|, Buddy(b), cells'[Buddy(b)])
    requires cells'[b].Shared? || cells'[Buddy(b)].Shared? ==> cells'[b] == cells'[Buddy(b)]
    requires forall x | x in cells'[b].Seq() || x in cells'[Buddy(b)].Seq() :: x.key in m' && m'[x.key] == x
    requires forall k | k in m' && Home(c, |cells|, k) / 2 == b / 2 ::
      m'[k].key == k && m'[k] in cells'[Home(c, |cells|, k)].Seq()
    requires forall k | k in m + m' && Home(c, |cells|, k) / 2 != b / 2 :: k in m' && k in m && m'[k] == m[k]
    ensures Wf(c, cells', m')
  {
    UseWf(c, cells, m);
    var n := |cells|;
    forall d {:trigger SlotOk(c, cells', m', d)} | 0 <= d < n
      ensures SlotOk(c, cells', m', d)
    {
      if d / 2 != b / 2 {
        assert SlotOk(c, cells, m, d);
        forall x | x in cells[d].Seq() ensures x.key in m' && m'[x.key] == x {
          OnlyAtHome(c, cells, m, d, x);
        }
      }
    }
    forall k
      ensures KeyOk(c, cells', m', k)
    {
      assert KeyOk(c, cells, m, k);
    }
  }

  /** The same for a pair that becomes the sorted sequence `u`, or empty, as halves of one tree. */
  lemma WfReplacePair<K(!new), V>(c: Config<K>, cells: seq<Cell<K, V>>, m: map<K, Node<K, V>>,
                            b: nat, t: Tree<K, V>, u: seq<Node<K, V>>, m': map<K, Node<K, V>>)
    requires Wf(c, cells, m) && b < |cells| && Sorted(c.lt, u)
    requires forall x | x in u :: x.key in m' && m'[x.key] == x && Home(c, |cells|, x.key) / 2 == b / 2
    requires forall k | k in m' && Home(c, |cells|, k) / 2 == b / 2 :: m'[k].key == k && m'[k] in u
    requires forall k | k in m + m' && Home(c, |cells|, k) / 2 != b / 2 :: k in m' && k in m && m'[k] == m[k]
    ensures Buddy(b) < |cells|
    ensures
      var cell := if u == [] then Empty else Shared(t, u);
      Wf(c, cells[b := cell][Buddy(b) := cell], m')
  {
    var cell := if u == [] then Empty else Shared(t, u);
    WfRebuild(c, cells, m, cells[b := cell][Buddy(b) := cell], m', b);
  }

  // ---------------------------------------------------------------- insertion

  lemma WfPushChain<K(!new), V>(c: Config<K>, cells: seq<Cell<K, V>>, m: map<K, Node<K, V>>, b: nat, x: Node<K, V>)
    requires Wf(c, cells, m) && b < |cells| && x.key !in m && Home(c, |cells|, x.key) == b
    requires cells[b].Empty? || (cells[b].Chain? && |cells[b].nodes| < MAX_LENGTH)
    ensures Wf(c, cells[b := Chain([x] + cells[b].Seq())], m[x.key := x])
  {
    UseWf(c, cells, m);
    var b' := Buddy(b);
    var cells', m' := cells[b := Chain([x] + cells[b].Seq())], m[x.key := x];
    assert CellOk(c, |cells|, b, cells[b]) && CellOk(c, |cells|, b', cells[b']);
    assert x !in cells[b].Seq();
    WfRebuild(c, cells, m, cells', m', b);
  }

  lemma WfInsertShared<K(!new), V>(c: Config<K>, cells: seq<Cell<K, V>>, m: map<K, Node<K, V>>, b: nat, x: Node<K, V>)
    requires StrictTotalOrder(c.lt)
    requires Wf(c, cells, m) && b < |cells| && x.key !in m && Home(c, |cells|, x.key) / 2 == b / 2
    requires cells[b].Shared?
    ensures Buddy(b) < |cells|
    ensures
      var cell := Shared(cells[b].tree, SetInsert(c.lt, cells[b].nodes, x));
      Wf(c, cells[b := cell][Buddy(b) := cell], m[x.key := x])
  {
    var s := cells[b].nodes;
    PairContents(c, cells, m, b);
    SetInsertSorted(c.lt, s, x);
    WfReplacePair(c, cells, m, b, cells[b].tree, SetInsert(c.lt, s, x), m[x.key := x]);
  }

  /** What TreeConvert leaves in the tree of a pair. */
  function Merged<K(==,!new), V>(lt: (K, K) -> bool, s: seq<Node<K, V>>, s': seq<Node<K, V>>): seq<Node<K, V>> {
    SetInsertAll(lt, SetInsertAll(lt, [], s), s')
  }

  lemma WfTreeConvert<K(!new), V>(c: Config<K>, cells: seq<Cell<K, V>>, m: map<K, Node<K, V>>, b: nat, t: Tree<K, V>)
    requires StrictTotalOrder(c.lt)
    requires Wf(c, cells, m) && b < |cells| && cells[b].Chain?
    ensures Buddy(b) < |cells| && !cells[Buddy(b)].Shared?
    ensures
      var u := Merged(c.lt, cells[b].Seq(), cells[Buddy(b)].Seq());
      && |u| == |cells[b].Seq()| + |cells[Buddy(b)].Seq()|
      && (forall y | y in u :: y in cells[b].Seq() || y in cells[Buddy(b)].Seq())
      && (forall y | y in cells[b].Seq() || y in cells[Buddy(b)].Seq() :: y in u)
      && Wf(c, cells[b := Shared(t, u)][Buddy(b) := Shared(t, u)], m)
  {
    PairContents(c, cells, m, b);
    ChainKeysDistinct(c, cells, m, b);
    var u := Merged(c.lt, cells[b].Seq(), cells[Buddy(b)].Seq());
    TwoChainsToSet(c.lt, cells[b].Seq(), cells[Buddy(b)].Seq());
    WfConvertPair(c, cells, m, b, t, u);
  }

  lemma WfConvertPair<K(!new), V>(c: Config<K>, cells: seq<Cell<K, V>>, m: map<K, Node<K, V>>, b: nat, t: Tree<K, V>,
      u: seq<Node<K, V>>)
    requires Wf(c, cells, m) && b < |cells| && cells[b].Chain? && Buddy(b) < |cells|
    requires Sorted(c.lt, u)
    requires forall y | y in u :: y in cells[b].Seq() || y in cells[Buddy(b)].Seq()
    requires forall y | y in cells[b].Seq() || y in cells[Buddy(b)].Seq() :: y in u
    ensures Wf(c, cells[b := Shared(t, u)][Buddy(b) := Shared(t, u)], m)
  {
    UseWf(c, cells, m);
    PairContents(c, cells, m, b);
    assert CellOk(c, |cells|, b, cells[b]);
    assert cells[b].Seq()[0] in u;
    WfReplacePair(c, cells, m, b, t, u, m);
  }

  lemma TwoChainsToSet<K(!new), V>(lt: (K, K) -> bool, s: seq<Node<K, V>>, s': seq<Node<K, V>>)
    requires StrictTotalOrder(lt) && DistinctKeys(s + s')
    ensures
      var u := Merged(lt, s, s');
      && Sorted(lt, u) && |u| == |s| + |s'|
      && (forall y | y in u :: y in s || y in s')
      && (forall y | y in s || y in s' :: y in u)
  {
    var z := s + s';
    assert forall i | 0 <= i < |s| :: s[i] == z[i];
    assert forall i | 0 <= i < |s'| :: s'[i] == z[|s| + i];
    var e: seq<Node<K, V>> := [];
    SetInsertAllSorted(lt, e, s);
    var u0 := SetInsertAll(lt, e, s);
    forall x, y | x in u0 && y in s' ensures x.key != y.key {
      assert x in e || x in s;
      var i :| 0 <= i < |s| && s[i] == x;
      var j :| 0 <= j < |s'| && s'[j] == y;
      assert z[i] == x && z[|s| + j] == y;
    }
    SetInsertAllSorted(lt, u0, s');
  }

  lemma PairContents<K(!new), V>(c: Config<K>, cells: seq<Cell<K, V>>, m: map<K, Node<K, V>>, b: nat)
    requires Wf(c, cells, m) && b < |cells|
    ensures Buddy(b) < |cells|
    ensures cells[b].Shared? ==> Sorted(c.lt, cells[b].nodes)
    ensures forall x | x in cells[b].Seq() || x in cells[Buddy(b)].Seq() ::
              x.key in m && m[x.key] == x && Home(c, |cells|, x.key) / 2 == b / 2
    ensures forall k | k in m && Home(c, |cells|, k) / 2 == b / 2 ::
              m[k].key == k && (m[k] in cells[b].Seq() || m[k] in cells[Buddy(b)].Seq())
    ensures cells[b].Shared? ==> cells[Buddy(b)] == cells[b]
  {
    UseWf(c, cells, m);
    var b' := Buddy(b);
    assert CellOk(c, |cells|, b, cells[b]) && CellOk(c, |cells|, b', cells[b']);
  }

  lemma WithoutIsSorted<K(!new), V>(lt: (K, K) -> bool, s: seq<Node<K, V>>, i: nat)
    requires Sorted(lt, s) && i < |s|
    ensures Sorted(lt, Without(s, i))
  {
  }

  lemma HalvesAgree<K(!new), V>(c: Config<K>, cells: seq<Cell<K, V>>, m: map<K, Node<K, V>>, b: nat)
    requires Wf(c, cells, m) && b < |cells|
    ensures Buddy(b) < |cells|
    ensures cells[b].Shared? ==> cells[Buddy(b)] == cells[b]
    ensures cells[Buddy(b)].Shared? ==> cells[b].Shared?
  {
    UseWf(c, cells, m);
  }

  lemma ChainsApart<K(!new), V>(c: Config<K>, cells: seq<Cell<K, V>>, m: map<K, Node<K, V>>, b: nat)
    requires Wf(c, cells, m) && b < |cells| && cells[b].Chain?
    ensures Buddy(b) < |cells| && !cells[Buddy(b)].Shared?
    ensures Distinct(cells[b].Seq()) && Distinct(cells[Buddy(b)].Seq())
    ensures forall x | x in cells[Buddy(b)].Seq() :: x !in cells[b].Seq()
  {
    UseWf(c, cells, m);
    var b' := Buddy(b);
    assert CellOk(c, |cells|, b, cells[b]) && CellOk(c, |cells|, b', cells[b']);
  }

  lemma ChainKeysDistinct<K(!new), V>(c: Config<K>, cells: seq<Cell<K, V>>, m: map<K, Node<K, V>>, b: nat)
    requires Wf(c, cells, m) && b < |cells| && cells[b].Chain?
    ensures Buddy(b) < |cells| && !cells[Buddy(b)].Shared?
    ensures DistinctKeys(cells[b].Seq() + cells[Buddy(b)].Seq())
  {
    UseWf(c, cells, m);
    var b' := Buddy(b);
    var s, s' := cells[b].Seq(), cells[b'].Seq();
    assert CellOk(c, |cells|, b, cells[b]) && CellOk(c, |cells|, b', cells[b']);
    var z := s + s';
    forall i, j | 0 <= i < j < |z|
      ensures z[i].key != z[j].key
    {
      var x, y := z[i], z[j];
      assert if i < |s| then x in cells[b].Seq() else x in cells[b'].Seq();
      assert if j < |s| then y in cells[b].Seq() else y in cells[b'].Seq();
    }
  }

  // ---------------------------------------------------------------- removal

  lemma WithoutIsRemoval<T>(s: seq<T>, i: nat)
    requires i < |s| && Distinct(s)
    ensures Distinct(Without(s, i))
    ensures forall y | y in Without(s, i) :: y in s && y != s[i]
    ensures forall y | y in s && y != s[i] :: y in Without(s, i)
  {
    var s' := Without(s, i);
    assert forall j | 0 <= j < |s'| :: s'[j] == s[if j < i then j else j + 1];
    forall y | y in s && y != s[i] ensures y in s' {
      var j :| 0 <= j < |s| && s[j] == y;
      assert s'[if j < i then j else j - 1] == y;
    }
  }

  lemma WfRemoveChain<K(!new), V>(c: Config<K>, cells: seq<Cell<K, V>>, m: map<K, Node<K, V>>, b: nat, i: nat)
    requires Wf(c, cells, m) && b < |cells| && cells[b].Chain? && i < |cells[b].nodes|
    ensures
      var s := cells[b].nodes;
      var s' := Without(s, i);
      && s[i].key in m
      && Wf(c, cells[b := if s' == [] then Empty else Chain(s')], m - {s[i].key})
  {
    UseWf(c, cells, m);
    var n, s := |cells|, cells[b].nodes;
    var s' := Without(s, i);
    assert CellOk(c, n, b, cells[b]) && CellOk(c, n, Buddy(b), cells[Buddy(b)]);
    WithoutIsRemoval(s, i);
    hide Without, Wf;
    assert s[i] in cells[b].Seq();
    var cell := if s' == [] then Empty else Chain(s');
    WfRebuild(c, cells, m, cells[b := cell], m - {s[i].key}, b);
  }

  lemma WfRemoveShared<K(!new), V>(c: Config<K>, cells: seq<Cell<K, V>>, m: map<K, Node<K, V>>, b: nat, i: nat)
    requires StrictTotalOrder(c.lt)
    requires Wf(c, cells, m) && b < |cells| && cells[b].Shared? && i < |cells[b].nodes|
    ensures Buddy(b) < |cells|
    ensures
      var s := cells[b].nodes;
      var s' := Without(s, i);
      var cell := if s' == [] then Empty else Shared(cells[b].tree, s');
      && s[i].key in m
      && Wf(c, cells[b := cell][Buddy(b) := cell], m - {s[i].key})
  {
    var s := cells[b].nodes;
    PairContents(c, cells, m, b);
    SortedIsDistinct(c.lt, s);
    WithoutIsRemoval(s, i);
    WithoutIsSorted(c.lt, s, i);
    assert s[i] in cells[b].Seq();
    WfReplacePair(c, cells, m, b, cells[b].tree, Without(s, i), m - {s[i].key});
  }

  lemma SortedIsDistinct<K(!new), V>(lt: (K, K) -> bool, s: seq<Node<K, V>>)
    requires StrictTotalOrder(lt) && Sorted(lt, s)
    ensures Distinct(s)
  {
    UseOrder(lt);
    forall i, j | 0 <= i < j < |s| ensures s[i] != s[j] {
      assert lt(s[i].key, s[j].key);
    }
  }

  // ---------------------------------------------------------------- ordered sets

  ghost predicate DistinctKeys<K(!new), V>(s: seq<Node<K, V>>) {
    forall i, j | 0 <= i < j < |s| :: s[i].key != s[j].key
  }

  /** How many leading elements are smaller than `k`. */
  function LowerBound<K(!new), V>(lt: (K, K) -> bool, s: seq<Node<K, V>>, k: K): (i: nat)
    ensures i <= |s|
    ensures forall j | 0 <= j < i :: lt(s[j].key, k)
    ensures i < |s| ==> !lt(s[i].key, k)
  {
    if s == [] || !lt(s[0].key, k) then 0 else 1 + LowerBound(lt, s[1..], k)
  }

  /** `std::set::insert`: nothing happens when an equal key is present. */
  function SetInsert<K(==,!new), V>(lt: (K, K) -> bool, s: seq<Node<K, V>>, x: Node<K, V>): seq<Node<K, V>> {
    var i := LowerBound(lt, s, x.key);
    if i < |s| && !lt(x.key, s[i].key) then s else s[..i] + [x] + s[i..]
  }

  function SetInsertAll<K(==,!new), V>(lt: (K, K) -> bool, s: seq<Node<K, V>>, xs: seq<Node<K, V>>): seq<Node<K, V>>
    decreases |xs|
  {
    if xs == [] then s else SetInsertAll(lt, SetInsert(lt, s, xs[0]), xs[1..])
  }

  lemma SetInsertMembers<K(!new), V>(lt: (K, K) -> bool, s: seq<Node<K, V>>, x: Node<K, V>)
    ensures forall y | y in SetInsert(lt, s, x) :: y in s || y == x
    ensures forall y | y in s :: y in SetInsert(lt, s, x)
  {
    var i := LowerBound(lt, s, x.key);
    assert s == s[..i] + s[i..];
  }

  lemma SetInsertSorted<K(!new), V>(lt: (K, K) -> bool, s: seq<Node<K, V>>, x: Node<K, V>)
    requires StrictTotalOrder(lt) && Sorted(lt, s)
    requires forall y | y in s :: y.key != x.key
    ensures Sorted(lt, SetInsert(lt, s, x))
    ensures |SetInsert(lt, s, x)| == |s| + 1
    ensures forall y | y in SetInsert(lt, s, x) :: y in s || y == x
    ensures x in SetInsert(lt, s, x) && forall y | y in s :: y in SetInsert(lt, s, x)
  {
    var i := LowerBound(lt, s, x.key);
    if i < |s| {
      assert s[i] in s && At(x.key, s[i].key, s[i].key);
    }
    forall j | i < j < |s| ensures lt(x.key, s[j].key) {
      assert At(x.key, s[i].key, s[j].key);
    }
    InsertAtSorted(lt, s, i, x);
    assert SetInsert(lt, s, x)[i] == x;
    SetInsertMembers(lt, s, x);
  }

  lemma InsertAtSorted<K(!new), V>(lt: (K, K) -> bool, s: seq<Node<K, V>>, i: nat, x: Node<K, V>)
    requires Sorted(lt, s) && i <= |s|
    requires forall j | 0 <= j < i :: lt(s[j].key, x.key)
    requires forall j | i <= j < |s| :: lt(x.key, s[j].key)
    ensures Sorted(lt, s[..i] + [x] + s[i..])
  {
    var s' := s[..i] + [x] + s[i..];
    assert forall p | 0 <= p < |s'| :: s'[p] == if p < i then s[p] else if p == i then x else s[p - 1];
  }

  lemma {:induction false} SetInsertAllSorted<K(!new), V>(lt: (K, K) -> bool, s: seq<Node<K, V>>, xs: seq<Node<K, V>>)
    requires StrictTotalOrder(lt) && Sorted(lt, s) && DistinctKeys(xs)
    requires forall y, z | y in s && z in xs :: y.key != z.key
    ensures Sorted(lt, SetInsertAll(lt, s, xs))
    ensures |SetInsertAll(lt, s, xs)| == |s| + |xs|
    ensures forall y | y in SetInsertAll(lt, s, xs) :: y in s || y in xs
    ensures forall y | y in s || y in xs :: y in SetInsertAll(lt, s, xs)
    decreases |xs|
  {
    if xs != [] {
      assert xs[0] in xs;
      SetInsertSorted(lt, s, xs[0]);
      var s' := SetInsert(lt, s, xs[0]);
      forall y, z | y in s' && z in xs[1..]
        ensures y.key != z.key
      {
        assert z in xs;
        var j :| 1 <= j < |xs| && xs[j] == z;
      }
      SetInsertAllSorted(lt, s', xs[1..]);
      assert forall y :: y in xs <==> y == xs[0] || y in xs[1..];
    }
  }

  /** `std::set<Key*, KeyCompare>`: its elements in iteration order. */
  class Tree<K(==,!new), V> {
    var nodes: seq<Node<K, V>>

    constructor ()
      ensures nodes == []
    {
      nodes := [];
    }

    method Insert(lt: (K, K) -> bool, x: Node<K, V>)
      modifies this
      ensures nodes == SetInsert(lt, old(nodes), x)
    {
      var i := LowerBound(lt, nodes, x.key);
      if !(i < |nodes| && !lt(x.key, nodes[i].key)) {
        nodes := nodes[..i] + [x] + nodes[i..];
      }
    }

    /** The position of the element with key `k`, or `end()`. */
    method Find(lt: (K, K) -> bool, k: K) returns (i: nat)
      requires StrictTotalOrder(lt) && Sorted(lt, nodes)
      ensures i <= |nodes|
      ensures i < |nodes| ==> nodes[i].key == k
      ensures i == |nodes| ==> forall x | x in nodes :: x.key != k
    {
      i := LowerBound(lt, nodes, k);
      if i < |nodes| && lt(k, nodes[i].key) {
        i := |nodes|;
      }
      LowerBoundFinds(lt, nodes, k);
    }

    method Erase(i: nat)
      requires i < |nodes|
      modifies this
      ensures nodes == old(nodes[..i] + nodes[i + 1..])
    {
      nodes := nodes[..i] + nodes[i + 1..];
    }
  }

  /** Searching a sorted set finds the key exactly when it is there. */
  lemma LowerBoundFinds<K(!new), V>(lt: (K, K) -> bool, s: seq<Node<K, V>>, k: K)
    requires StrictTotalOrder(lt) && Sorted(lt, s)
    ensures forall j | 0 <= j < |s| && s[j].key == k :: j == LowerBound(lt, s, k)
    ensures var i := LowerBound(lt, s, k); i < |s| ==> (lt(k, s[i].key) <==> s[i].key != k)
  {
    UseOrder(lt);
    var i := LowerBound(lt, s, k);
    assert forall j | 0 <= j < |s| && s[j].key == k :: i == j;
  }
}
