/** The order in which iterators visit a table, and how erasing one node changes it. */
module MapOrder {
  import opened Common
  import opened Bits
  import opened Cells
  import opened InnerMaps

  /** The nodes visited from slot `b` on: lists advance by one slot, trees by two. */
  ghost function Order<K(!new), V>(cells: seq<Cell<K, V>>, b: nat): seq<Node<K, V>>
    decreases |cells| - b
  {
    if b >= |cells| then [] else cells[b].Seq() + Order(cells, After(cells, b))
  }

  lemma {:induction false} OrderContents<K(!new), V>(c: Config<K>, cells: seq<Cell<K, V>>, m: map<K, Node<K, V>>,
      b: nat)
    requires Wf(c, cells, m) && Start(cells, b)
    ensures forall x | x in Order(cells, b) :: x.key in m && m[x.key] == x && b <= Home(c, |cells|, x.key)
    ensures forall k | k in m && b <= Home(c, |cells|, k) :: m[k] in Order(cells, b)
    decreases |cells| - b
  {
    hide SlotOk, KeyOk, Start, After;
    if b < |cells| {
      StartAfter(c, cells, m, b);
      FirstContents(c, cells, m, b);
      OrderContents(c, cells, m, After(cells, b));
    } else {
      forall k | k in m ensures Home(c, |cells|, k) < b {
      }
    }
  }

  /** The nodes of the first slot belong to it, and every node that belongs to it is there. */
  lemma FirstContents<K(!new), V>(c: Config<K>, cells: seq<Cell<K, V>>, m: map<K, Node<K, V>>, b: nat)
    requires Wf(c, cells, m) && b < |cells| && Start(cells, b)
    ensures forall x | x in cells[b].Seq() :: x.key in m && m[x.key] == x && b <= Home(c, |cells|, x.key)
    ensures forall k | k in m && b <= Home(c, |cells|, k) < After(cells, b) :: m[k] in cells[b].Seq()
    ensures b < After(cells, b)
  {
    hide Home;
    HalvesAgree(c, cells, m, b);
    forall x | x in cells[b].Seq() ensures x.key in m && m[x.key] == x && b <= Home(c, |cells|, x.key) {
      OnlyAtHome(c, cells, m, b, x);
    }
    forall k | k in m && b <= Home(c, |cells|, k) < After(cells, b) ensures m[k] in cells[b].Seq() {
      assert KeyOk(c, cells, m, k);
    }
  }

  lemma {:induction false} OrderDistinct<K(!new), V>(c: Config<K>, cells: seq<Cell<K, V>>, m: map<K, Node<K, V>>,
      b: nat)
    requires Wf(c, cells, m) && StrictTotalOrder(c.lt) && Start(cells, b)
    ensures Distinct(Order(cells, b))
    decreases |cells| - b
  {
    if b < |cells| {
      var s, t := cells[b].Seq(), Order(cells, After(cells, b));
      StartAfter(c, cells, m, b);
      OrderDistinct(c, cells, m, After(cells, b));
      CellKeysDistinct(c, cells, m, b);
      HeadApart(c, cells, m, b);
      forall i, j | 0 <= i < j < |s + t| ensures (s + t)[i] != (s + t)[j] {
        if i < |s| <= j {
          assert s[i] in s && t[j - |s|] in t;
        }
      }
    }
  }

  /** The nodes of a slot do not come up again later. */
  lemma HeadApart<K(!new), V>(c: Config<K>, cells: seq<Cell<K, V>>, m: map<K, Node<K, V>>, b: nat)
    requires Wf(c, cells, m) && b < |cells| && Start(cells, b)
    ensures forall x | x in cells[b].Seq() :: x !in Order(cells, After(cells, b))
  {
    StartAfter(c, cells, m, b);
    OrderContents(c, cells, m, After(cells, b));
    forall x | x in cells[b].Seq() ensures x !in Order(cells, After(cells, b)) {
      OnlyAtHome(c, cells, m, b, x);
    }
  }

  /** Iteration visits every element of the map exactly once. */
  lemma OrderIsExact<K(!new), V>(c: Config<K>, cells: seq<Cell<K, V>>, m: map<K, Node<K, V>>)
    requires Wf(c, cells, m) && StrictTotalOrder(c.lt)
    ensures Distinct(Order(cells, 0)) && |Order(cells, 0)| == |m|
    ensures forall x | x in Order(cells, 0) :: x.key in m && m[x.key] == x
    ensures forall k | k in m :: m[k] in Order(cells, 0)
  {
    OrderContents(c, cells, m, 0);
    OrderDistinct(c, cells, m, 0);
    var s := Order(cells, 0);
    assert m.Keys == Keys(s) by {
      forall k | k in m ensures k in Keys(s) {
        assert KeyOk(c, cells, m, k) && m[k] in s;
      }
    }
    assert DistinctKeys(s) by {
      forall i, j | 0 <= i < j < |s| ensures s[i].key != s[j].key {
        assert s[i] in s && s[j] in s;
      }
    }
    KeysCount(s);
  }

  lemma {:induction false} KeysCount<K(!new), V>(s: seq<Node<K, V>>)
    requires DistinctKeys(s)
    ensures |Keys(s)| == |s|
  {
    if s == [] {
      assert Keys(s) == {};
    } else {
      var n := |s| - 1;
      KeysCount(s[..n]);
      assert s[n].key !in Keys(s[..n]);
      assert Keys(s) == Keys(s[..n]) + {s[n].key} by {
        forall x | x in s ensures x in s[..n] || x == s[n] {
        }
      }
    }
  }

  // ---------------------------------------------------------------- positions

  /** `s` from the first occurrence of `x` on. */
  ghost function From<T>(s: seq<T>, x: T): seq<T> {
    if s == [] || s[0] == x then s else From(s[1..], x)
  }

  lemma {:induction false} FromSkips<T>(s: seq<T>, t: seq<T>, x: T)
    requires x !in s
    ensures From(s + t, x) == From(t, x)
  {
    if s == [] {
      assert s + t == t;
    } else {
      assert s[0] in s && (s + t)[1..] == s[1..] + t;
      FromSkips(s[1..], t, x);
    }
  }

  lemma FromAt<T>(s: seq<T>, i: nat)
    requires i < |s| && Distinct(s)
    ensures From(s, s[i]) == s[i..]
  {
    assert s == s[..i] + s[i..];
    assert s[i] !in s[..i];
    FromSkips(s[..i], s[i..], s[i]);
  }

  /** What is still to be visited when an iterator is at element `i` of slot `b`. */
  lemma {:induction false} RemainingAt<K(!new), V>(c: Config<K>, cells: seq<Cell<K, V>>, m: map<K, Node<K, V>>, a: nat,
      b: nat, i: nat)
    requires Wf(c, cells, m) && StrictTotalOrder(c.lt) && Start(cells, a)
    requires a <= b < |cells| && Start(cells, b) && i < |cells[b].Seq()|
    ensures From(Order(cells, a), cells[b].Seq()[i]) == cells[b].Seq()[i..] + Order(cells, After(cells, b))
    decreases |cells| - a
  {
    var s, x := cells[a].Seq(), cells[b].Seq()[i];
    if a == b {
      OrderDistinct(c, cells, m, a);
      assert Order(cells, a)[i] == x;
      FromAt(Order(cells, a), i);
    } else {
      assert x in cells[b].Seq();
      OnlyAtHome(c, cells, m, b, x);
      HalvesAgree(c, cells, m, a);
      StartAfter(c, cells, m, a);
      if x in s {
        OnlyAtHome(c, cells, m, a, x);
      }
      FromSkips(s, Order(cells, After(cells, a)), x);
      RemainingAt(c, cells, m, After(cells, a), b, i);
    }
  }

  /** Within a slot, the order goes on with the next node of the slot. */
  lemma NextInSlot<K(!new), V>(c: Config<K>, cells: seq<Cell<K, V>>, m: map<K, Node<K, V>>, b: nat, i: nat)
    requires Wf(c, cells, m) && StrictTotalOrder(c.lt) && b < |cells| && Start(cells, b) && i + 1 < |cells[b].Seq()|
    ensures var s := cells[b].Seq();
      s[i + 1] in m.Values && From(Order(cells, 0), s[i]) == [s[i]] + From(Order(cells, 0), s[i + 1])
  {
    var s := cells[b].Seq();
    assert s[i + 1] in s;
    OnlyAtHome(c, cells, m, b, s[i + 1]);
    HalvesAgree(c, cells, m, 0);
    RemainingAt(c, cells, m, 0, b, i);
    RemainingAt(c, cells, m, 0, b, i + 1);
    assert s[i..] == [s[i]] + s[i + 1..];
  }

  // ---------------------------------------------------------------- erasing

  /** `s` without the first occurrence of `x`. */
  ghost function Minus<T>(s: seq<T>, x: T): seq<T> {
    if s == [] then [] else if s[0] == x then s[1..] else [s[0]] + Minus(s[1..], x)
  }

  lemma {:induction false} MinusSkips<T>(s: seq<T>, t: seq<T>, x: T)
    requires x !in s
    ensures Minus(s + t, x) == s + Minus(t, x)
  {
    if s == [] {
      assert s + t == t;
    } else {
      assert s[0] in s && (s + t)[1..] == s[1..] + t;
      MinusSkips(s[1..], t, x);
    }
  }

  lemma MinusAt<T>(s: seq<T>, i: nat, t: seq<T>)
    requires i < |s| && s[i] !in s[..i]
    ensures Minus(s + t, s[i]) == Without(s, i) + t
  {
    assert s + t == s[..i] + ([s[i]] + (s[i + 1..] + t));
    MinusSkips(s[..i], [s[i]] + (s[i + 1..] + t), s[i]);
    assert ([s[i]] + (s[i + 1..] + t))[1..] == s[i + 1..] + t;
  }

  /** Erasing the first element of a suffix leaves the rest of it as the suffix from each of its elements. */
  lemma EraseFront<T>(s: seq<T>, p: seq<T>, r: seq<T>)
    requires s == p + r && r != [] && Distinct(s)
    ensures From(s, r[0]) == r
    ensures Minus(s, r[0]) == p + r[1..] && Distinct(p + r[1..])
  {
    var n := |p|;
    assert s[n..] == r && s + [] == s;
    FromAt(s, n);
    WithoutIsRemoval(s, n);
    assert s[n] !in s[..n];
    MinusAt(s, n, []);
    assert Without(s, n) == p + r[1..];
  }

  lemma EraseFrontThen<T>(p: seq<T>, r: seq<T>, j: nat)
    requires 1 <= j < |r| && Distinct(p + r)
    ensures r[j] in p + r[1..] && From(p + r[1..], r[j]) == r[j..]
  {
    var s, s', n := p + r, p + r[1..], |p|;
    EraseFront(s, p, r);
    assert s'[n + j - 1] == r[j] && s'[n + j - 1..] == r[j..];
    FromAt(s', n + j - 1);
  }

  /** Every element starts some suffix. */
  lemma FromSplits<T>(s: seq<T>, x: T)
    requires x in s && Distinct(s)
    ensures |From(s, x)| <= |s| && From(s, x) != [] && From(s, x)[0] == x
    ensures s == s[..|s| - |From(s, x)|] + From(s, x)
  {
    var i :| 0 <= i < |s| && s[i] == x;
    FromAt(s, i);
  }

  /** Erasing removes the node from the order and leaves the order of the others unchanged. */
  lemma {:induction false} OrderRemoved<K(!new), V>(c: Config<K>, cells: seq<Cell<K, V>>, m: map<K, Node<K, V>>,
      a: nat, b: nat, i: nat, x: Node<K, V>)
    requires Wf(c, cells, m) && StrictTotalOrder(c.lt) && Start(cells, a)
    requires WasAt(cells, b, i, x) && Start(cells, b)
    ensures a <= b ==> Order(Removed(cells, b, i), a) == Minus(Order(cells, a), x)
    ensures a > b && (cells[b].Shared? ==> a > b + 1) ==> Order(Removed(cells, b, i), a) == Order(cells, a)
    decreases |cells| - a
  {
    var cells' := Removed(cells, b, i);
    hide Wf;
    if a < |cells| {
      var s, a' := cells[a].Seq(), After(cells, a);
      StartAfter(c, cells, m, a);
      HalvesAgree(c, cells, m, a);
      OrderRemoved(c, cells, m, a', b, i, x);
      assert x in cells[b].Seq();
      OnlyAtHome(c, cells, m, b, x);
      if a == b {
        CellKeysDistinct(c, cells, m, b);
        assert x !in s[..i];
        MinusAt(s, i, Order(cells, a'));
        if cells[b].Shared? && cells'[b].Empty? {
          assert Order(cells', b) == Order(cells', b + 1) == Order(cells', b + 2);
        }
      } else if a < b {
        if x in s {
          OnlyAtHome(c, cells, m, a, x);
        }
        MinusSkips(s, Order(cells, a'), x);
        assert a' <= b;
      }
    }
  }
}
