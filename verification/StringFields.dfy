/** Many string fields that share one default: who owns which string after every run of operations. */
module StringFields {
  import opened Common
  import opened ArenaString
  import opened StringState

  /** Who points where: no string on the heap has two owners or none, and the default is not on the heap. */
  ghost predicate Owned(ptrs: seq<StdString>, pool: seq<StdString?>, live: set<StdString>, default: StdString) {
    && default !in live
    && (forall i | 0 <= i < |ptrs| :: ptrs[i] == default || ptrs[i] in live)
    && (forall i, j | 0 <= i < j < |ptrs| :: ptrs[i] == ptrs[j] ==> ptrs[i] == default)
    && (forall k | 0 <= k < |pool| && pool[k] != null :: pool[k] in live)
    && (forall k, l | 0 <= k < l < |pool| :: pool[k] == pool[l] ==> pool[k] == null)
    && (forall i, k | 0 <= i < |ptrs| && 0 <= k < |pool| :: ptrs[i] != pool[k])
    && (forall s | s in live :: s in ptrs || s in pool)
  }

  ghost function Slots(ptrs: seq<StdString>, default: StdString): (r: seq<Slot>)
    reads ptrs
    ensures |r| == |ptrs| && forall i | 0 <= i < |ptrs| :: r[i] == Slot(ptrs[i].text, ptrs[i] != default)
  {
    seq(|ptrs|, i requires 0 <= i < |ptrs| reads ptrs => Slot(ptrs[i].text, ptrs[i] != default))
  }

  ghost function Texts(pool: seq<StdString?>): (r: seq<Option<string>>)
    reads pool
    ensures |r| == |pool| && forall i | 0 <= i < |pool| :: r[i] == if pool[i] == null then None else Some(pool[i].text)
  {
    seq(|pool|, i requires 0 <= i < |pool| reads pool => if pool[i] == null then None else Some(pool[i].text))
  }

  class Strings {
    const heap: Heap
    const default: StdString
    const initial: string
    var fields: seq<ArenaStringPtr>
    var pool: seq<StdString?>
    ghost var ptrs: seq<StdString>    // where the fields point

    ghost predicate Valid()
      reads this, heap, default, fields
    {
      && default.text == initial
      && (forall i, j | 0 <= i < j < |fields| :: fields[i] != fields[j])
      && |ptrs| == |fields| && (forall i | 0 <= i < |fields| :: fields[i].ptr == ptrs[i])
      && Owned(ptrs, pool, heap.live, default)
    }

    ghost function View(): State
      reads this, ptrs, pool
    {
      State(Slots(ptrs, default), Texts(pool))
    }

    /** Everything that operations may change: not the default. */
    ghost function Repr(): set<object>
      reads this
    {
      {this, heap} + (set f | f in fields) + Targets() + (set s: StdString | s in pool)
    }

    /** The strings that fields own. */
    ghost function Targets(): set<StdString>
      reads this
    {
      set s | s in ptrs && s != default
    }

    /** Every object in use is new or was in use. */
    twostate predicate Closed()
      reads this
    {
      && (forall f | f in fields :: f in old(fields) || fresh(f))
      && (forall s | s in ptrs :: s == default || s in old(ptrs) || s in old(pool) || fresh(s))
      && (forall s | s in pool && s != null :: s in old(ptrs) || s in old(pool) || fresh(s))
    }

    constructor (initial: string)
      ensures Valid() && View() == State([], []) && this.initial == initial
      ensures fresh(heap) && fresh(default)
    {
      this.initial := initial;
      heap := new Heap();
      default := new StdString(initial);
      fields, pool := [], [];
      ptrs := [];
    }

    method SetField(i: nat, text: string)
      requires Valid() && OpOk(View(), Set(i, text))
      modifies this`ptrs, heap, fields[i], if ptrs[i] == default then {} else {ptrs[i]}
      ensures Valid() && View() == Step(old(View()), Set(i, text), initial, false) && Closed()
    {
      hide Owned;
      Alone(ptrs, pool, heap.live, default, i);
      ghost var live := heap.live;
      fields[i].SetNoArena(heap, default, text);
      Repoint(i, live, old(View()).slots, Slot(text, true), old(View()).pool);
    }

    /** The caller may write through the pointer it gets: it is the field's own string. */
    method MutableField(i: nat) returns (s: StdString)
      requires Valid() && i < |fields|
      modifies this`ptrs, fields[i], if ptrs[i] == default then {heap} else {}
      ensures Valid() && View() == old(View()).(slots := old(View()).slots[i := Slot(old(View()).slots[i].text, true)])
      ensures Closed()
      ensures fields == old(fields) && pool == old(pool) && s == ptrs[i] != default
      ensures s == old(ptrs)[i] || fresh(s)
    {
      hide Owned;
      Alone(ptrs, pool, heap.live, default, i);
      ghost var before, live := View(), heap.live;
      s := fields[i].MutableNoArena(heap, default);
      Repoint(i, live, before.slots, Slot(before.slots[i].text, true), before.pool);
    }

    method AppendToField(i: nat, text: string)
      requires Valid() && OpOk(View(), Append(i, text))
      modifies this`ptrs, heap, fields[i], if ptrs[i] == default then {} else {ptrs[i]}
      ensures Valid() && View() == Step(old(View()), Append(i, text), initial, false) && Closed()
    {
      hide Owned;
      var s := MutableField(i);
      ghost var before := View();
      Alone(ptrs, pool, heap.live, default, i);
      s.text := s.text + text;
      assert View().slots == before.slots[i := Slot(before.slots[i].text + text, true)];
      assert View().pool == before.pool;
    }

    method ClearFieldToEmpty(i: nat)
      requires Valid() && OpOk(View(), ClearToEmpty(i))
      modifies this`ptrs, if ptrs[i] == default then {} else {ptrs[i]}
      ensures Valid() && View() == Step(old(View()), ClearToEmpty(i), initial, false) && Closed()
    {
      hide Owned;
      Alone(ptrs, pool, heap.live, default, i);
      ghost var slot := old(View()).slots[i];
      fields[i].ClearToEmptyNoArena(default);
      assert View().slots == old(View()).slots[i := if slot.isSet then Slot("", true) else slot];
      assert View().pool == old(View()).pool;
    }

    method ClearFieldToDefault(i: nat)
      requires Valid() && OpOk(View(), ClearToDefault(i))
      modifies this`ptrs, if ptrs[i] == default then {} else {ptrs[i]}
      ensures Valid() && View() == Step(old(View()), ClearToDefault(i), initial, false) && Closed()
    {
      hide Owned;
      Alone(ptrs, pool, heap.live, default, i);
      ghost var slot := old(View()).slots[i];
      fields[i].ClearToDefaultNoArena(default);
      assert View().slots == old(View()).slots[i := if slot.isSet then Slot(initial, true) else slot];
      assert View().pool == old(View()).pool;
    }

    method AssignField(i: nat, j: nat)
      requires Valid() && OpOk(View(), Assign(i, j))
      modifies this`ptrs, heap, fields[i], if ptrs[i] == default then {} else {ptrs[i]}
      ensures Valid() && View() == Step(old(View()), Assign(i, j), initial, false) && Closed()
    {
      hide Owned;
      Alone(ptrs, pool, heap.live, default, i);
      ghost var live, a, b := heap.live, old(View()).slots[i], old(View()).slots[j];
      fields[i].AssignWithDefault(heap, default, fields[j].ptr);
      ghost var slot := if i == j || (!a.isSet && !b.isSet) then a else Slot(b.text, true);
      Repoint(i, live, old(View()).slots, slot, old(View()).pool);
    }

    /** The string that the caller gets is the one the field had. */
    method ReleaseField(i: nat) returns (s: StdString?)
      requires Valid() && OpOk(View(), Release(i))
      modifies this`ptrs, this`pool, fields[i]
      ensures Valid() && View() == Step(old(View()), Release(i), initial, false) && Closed()
      ensures s == (if old(View()).slots[i].isSet then old(ptrs)[i] else null) && pool == old(pool) + [s]
    {
      hide Owned;
      ReleasedOwned(ptrs, pool, heap.live, default, i);
      ghost var before := View();
      s := fields[i].ReleaseNoArena(default);
      pool, ptrs := pool + [s], ptrs[i := default];
      assert View().slots == if before.slots[i].isSet then before.slots[i := Slot(initial, false)] else before.slots;
      assert View().pool == before.pool + [if before.slots[i].isSet then Some(before.slots[i].text) else None];
    }

    method SetAllocatedField(i: nat, k: nat)
      requires Valid() && OpOk(View(), SetAllocated(i, k))
      modifies this`ptrs, this`pool, heap, fields[i]
      ensures Valid() && View() == Step(old(View()), SetAllocated(i, k), initial, false) && Closed()
    {
      hide Owned, Without;
      MovedOwned(ptrs, pool, heap.live, default, i, k);
      StillInOnly(pool, k);
      ghost var before, p := View(), OrDefault(pool[k], default);
      ghost var slot := Slot(p.text, p != default);
      AllocatedStep(before, i, k, slot, initial);
      hide Step;
      fields[i].SetAllocatedNoArena(heap, default, pool[k]);
      TextsWithout(pool, k);
      pool := Without(pool, k);
      Point(ptrs[i := p], before.slots[i := slot], Without(before.pool, k));
    }

    method SetAllocatedNullField(i: nat)
      requires Valid() && OpOk(View(), SetAllocatedNull(i))
      modifies this`ptrs, heap, fields[i]
      ensures Valid() && View() == Step(old(View()), SetAllocatedNull(i), initial, false) && Closed()
    {
      hide Owned;
      FreedOwned(ptrs, pool, heap.live, default, i);
      ghost var before := View();
      fields[i].SetAllocatedNoArena(heap, default, null);
      Point(ptrs[i := default], before.slots[i := Slot(initial, false)], before.pool);
    }

    method DestroyField(i: nat)
      requires Valid() && OpOk(View(), Destroy(i))
      modifies this`ptrs, this`fields, heap
      ensures Valid() && View() == Step(old(View()), Destroy(i), initial, false) && Closed()
    {
      hide Owned;
      DroppedOwned(ptrs, pool, heap.live, default, i);
      SlotsWithout(ptrs, default, i);
      StillInOnly(ptrs, i);
      ghost var before := View();
      fields[i].DestroyNoArena(heap, default);
      assert View() == before;
      fields, ptrs := Without(fields, i), Without(ptrs, i);
    }

    method NewField()
      requires Valid()
      modifies this`ptrs, this`fields
      ensures Valid() && View() == Step(old(View()), AddField, initial, false) && Closed()
    {
      hide Owned;
      AddedOwned(ptrs, pool, heap.live, default);
      var f := new ArenaStringPtr(default);
      fields, ptrs := fields + [f], ptrs + [default];
      assert View().slots == old(View()).slots + [Slot(initial, false)];
      assert View().pool == old(View()).pool;
    }

    method NewPoolString(text: string)
      requires Valid()
      modifies this`pool, heap
      ensures Valid() && View() == Step(old(View()), NewString(text), initial, false) && Closed()
    {
      hide Owned;
      ghost var live := heap.live;
      var s := heap.New(text);
      PooledOwned(ptrs, pool, live, default, s);
      pool := pool + [s];
      assert View().slots == old(View()).slots;
      assert View().pool == old(View()).pool + [Some(text)];
    }

    method DeletePoolString(k: nat)
      requires Valid() && OpOk(View(), DeleteString(k))
      modifies this`pool, heap
      ensures Valid() && View() == Step(old(View()), DeleteString(k), initial, false) && Closed()
    {
      hide Owned;
      DeletedOwned(ptrs, pool, heap.live, default, k);
      if pool[k] != null {
        heap.Delete(pool[k]);
      }
      pool := Without(pool, k);
      assert View().slots == old(View()).slots;
      assert View().pool == Without(old(View()).pool, k);
    }

    /** Both builds exchange the same texts; they differ in which fields are set afterwards. */
    method SwapFields(i: nat, j: nat, debug: bool)
      requires Valid() && OpOk(View(), Swap(i, j))
      modifies this`ptrs, fields[i], fields[j]
      modifies if debug then {heap} else {}
      modifies if debug && ptrs[i] != default then {ptrs[i]} else {}
      modifies if debug && ptrs[j] != default then {ptrs[j]} else {}
      ensures Valid() && View() == Step(old(View()), Swap(i, j), initial, debug) && Closed()
    {
      if debug {
        SwapFieldsDebug(i, j);
      } else {
        SwapFieldsRelease(i, j);
      }
    }

    method SwapFieldsRelease(i: nat, j: nat)
      requires Valid() && OpOk(View(), Swap(i, j))
      modifies this`ptrs, fields[i], fields[j]
      ensures Valid() && View() == Step(old(View()), Swap(i, j), initial, false) && Closed()
    {
      hide Owned;
      SwappedOwned(ptrs, pool, heap.live, default, i, j);
      ghost var before := View();
      fields[i].SwapRelease(fields[j]);
      Point(ptrs[i := ptrs[j]][j := ptrs[i]], before.slots[i := before.slots[j]][j := before.slots[i]], before.pool);
    }

    method SwapFieldsDebug(i: nat, j: nat)
      requires Valid() && OpOk(View(), Swap(i, j))
      modifies this`ptrs, fields[i], fields[j], heap
      modifies if ptrs[i] == default then {} else {ptrs[i]}, if ptrs[j] == default then {} else {ptrs[j]}
      ensures Valid() && View() == Step(old(View()), Swap(i, j), initial, true) && Closed()
    {
      hide Owned;
      Alone(ptrs, pool, heap.live, default, i);
      Alone(ptrs, pool, heap.live, default, j);
      ghost var before, live := View(), heap.live;
      ghost var a, b := before.slots[i], before.slots[j];
      SwapStep(before, i, j, initial);
      ghost var after := Step(before, Swap(i, j), initial, true);
      hide Step;
      fields[i].SwapDebug(heap, default, fields[j]);
      BothPointed(ptrs, pool, live, default, i, j, fields[i].ptr, fields[j].ptr, heap.live);
      Point(ptrs[i := fields[i].ptr][j := fields[j].ptr], after.slots, before.pool);
    }

    method Perform(op: Op, debug: bool)
      requires Valid() && OpOk(View(), op)
      modifies Repr()
      ensures Valid() && View() == Step(old(View()), op, initial, debug)
      ensures fresh(Repr() - old(Repr()))
    {
      hide Owned, Step;
      assert forall i | 0 <= i < |fields| :: fields[i] in Repr();
      assert forall s | s in Targets() :: s in Repr();
      PerformClosed(op, debug);
      NotPooled(ptrs, pool, heap.live, default);
    }

    method PerformClosed(op: Op, debug: bool)
      requires Valid() && OpOk(View(), op)
      modifies this, heap, fields, Targets()
      ensures Valid() && View() == Step(old(View()), op, initial, debug) && Closed()
    {
      hide Owned;
      match op
      case AddField => NewField();
      case Destroy(i) => DestroyField(i);
      case Set(i, t) => SetField(i, t);
      case Append(i, t) => AppendToField(i, t);
      case Release(i) => var s := ReleaseField(i);
      case SetAllocated(i, k) => SetAllocatedField(i, k);
      case SetAllocatedNull(i) => SetAllocatedNullField(i);
      case ClearToEmpty(i) => ClearFieldToEmpty(i);
      case ClearToDefault(i) => ClearFieldToDefault(i);
      case Assign(i, j) => AssignField(i, j);
      case Swap(i, j) => SwapFields(i, j, debug);
      case NewString(t) => NewPoolString(t);
      case DeleteString(k) => DeletePoolString(k);
    }

    /** Any run: every string keeps its one owner and is freed once, and the shared default is never changed. */
    method Run(ops: seq<Op>, debug: bool)
      requires Valid() && RunOk(View(), ops, initial, debug)
      modifies Repr()
      ensures Valid() && View() == Exec(old(View()), ops, initial, debug)
      ensures fresh(Repr() - old(Repr()))
    {
      hide Valid, View, RunOk, Exec, Step, OpOk;
      assert ops[0..] == ops;
      for n := 0 to |ops|
        invariant Valid() && fresh(Repr() - old(Repr()))
        invariant RunOk(View(), ops[n..], initial, debug)
        invariant Exec(View(), ops[n..], initial, debug) == Exec(old(View()), ops, initial, debug)
      {
        RunStep(View(), ops, n, initial, debug);
        Perform(ops[n], debug);
      }
      assert ops[|ops|..] == [];
      RunEnds(View(), initial, debug);
    }

    ghost method Point(now: seq<StdString>, slots: seq<Slot>, texts: seq<Option<string>>)
      requires (forall i, j | 0 <= i < j < |fields| :: fields[i] != fields[j]) && default.text == initial
      requires |now| == |slots| == |fields| && forall j | 0 <= j < |fields| :: fields[j].ptr == now[j]
      requires Owned(now, pool, heap.live, default) && Texts(pool) == texts
      requires forall j | 0 <= j < |fields| :: Slot(fields[j].ptr.text, fields[j].ptr != default) == slots[j]
      modifies this`ptrs
      ensures Valid() && View() == State(slots, texts) && ptrs == now
    {
      hide Owned;
      ptrs := now;
      assert View().slots == slots;
    }

    /** The field may have got a string of its own, of which it is the one owner; nothing else was changed. */
    ghost method Repoint(i: nat, live: set<StdString>, slots: seq<Slot>, slot: Slot, texts: seq<Option<string>>)
      requires i < |ptrs| == |fields| && (forall i, j | 0 <= i < j < |fields| :: fields[i] != fields[j])
      requires default.text == initial
      requires forall j | 0 <= j < |fields| && j != i :: fields[j].ptr == ptrs[j]
      requires Owned(ptrs, pool, live, default)
      requires if fields[i].ptr == ptrs[i] then heap.live == live
               else
                 && ptrs[i] == default && fields[i].ptr != default && fields[i].ptr !in live
                 && heap.live == live + {fields[i].ptr}
      requires |slots| == |fields| && Texts(pool) == texts
      requires forall j | 0 <= j < |fields| :: Slot(fields[j].ptr.text, fields[j].ptr != default) == slots[i := slot][j]
      modifies this`ptrs
      ensures Valid() && View() == State(slots[i := slot], texts)
    {
      hide Owned;
      if fields[i].ptr != ptrs[i] {
        FreshPtr(ptrs, pool, live, default, i, fields[i].ptr);
      } else {
        assert ptrs[i := fields[i].ptr] == ptrs;
      }
      ptrs := ptrs[i := fields[i].ptr];
      assert View().slots == slots[i := slot];
    }
  }

  lemma AllocatedStep(s: State, i: nat, k: nat, slot: Slot, initial: string)
    requires i < |s.slots| && k < |s.pool|
    requires slot == if s.pool[k].None? then Slot(initial, false) else Slot(s.pool[k].value, true)
    ensures Step(s, SetAllocated(i, k), initial, false) == State(s.slots[i := slot], Without(s.pool, k))
  {
  }

  lemma SwapStep(s: State, i: nat, j: nat, initial: string)
    requires i < |s.slots| && j < |s.slots|
    ensures
      var a, b := s.slots[i], s.slots[j];
      Step(s, Swap(i, j), initial, true) ==
        if a.isSet || b.isSet then State(s.slots[i := Slot(b.text, true)][j := Slot(a.text, true)], s.pool) else s
  {
  }

  lemma RunStep(s: State, ops: seq<Op>, n: nat, default: string, debug: bool)
    requires n < |ops| && RunOk(s, ops[n..], default, debug)
    ensures OpOk(s, ops[n]) && RunOk(Step(s, ops[n], default, debug), ops[n + 1..], default, debug)
    ensures Exec(s, ops[n..], default, debug) == Exec(Step(s, ops[n], default, debug), ops[n + 1..], default, debug)
  {
    assert ops[n..][0] == ops[n] && ops[n..][1..] == ops[n + 1..];
  }

  lemma RunEnds(s: State, default: string, debug: bool)
    ensures RunOk(s, [], default, debug) && Exec(s, [], default, debug) == s
  {
  }

  lemma Alone(ptrs: seq<StdString>, pool: seq<StdString?>, live: set<StdString>, default: StdString, i: nat)
    requires Owned(ptrs, pool, live, default) && i < |ptrs|
    ensures default !in live && (ptrs[i] == default || ptrs[i] in live)
    ensures ptrs[i] != default ==> ptrs[i] !in pool && forall j | 0 <= j < |ptrs| && j != i :: ptrs[j] != ptrs[i]
  {
  }

  lemma NotPooled(ptrs: seq<StdString>, pool: seq<StdString?>, live: set<StdString>, default: StdString)
    requires Owned(ptrs, pool, live, default)
    ensures default !in pool
  {
  }

  lemma FreshPtr(ptrs: seq<StdString>, pool: seq<StdString?>, live: set<StdString>, default: StdString, i: nat,
      p: StdString)
    requires Owned(ptrs, pool, live, default) && i < |ptrs| && ptrs[i] == default && p != default && p !in live
    ensures Owned(ptrs[i := p], pool, live + {p}, default)
  {
    forall s | s in live + {p} ensures s in ptrs[i := p] || s in pool {
      if s != p && s in ptrs {
        var j :| 0 <= j < |ptrs| && ptrs[j] == s;
        assert ptrs[i := p][j] == s;
      } else if s == p {
        assert ptrs[i := p][i] == s;
      }
    }
  }

  /** Of two fields at most one gets a new string. */
  lemma BothPointed(ptrs: seq<StdString>, pool: seq<StdString?>, live: set<StdString>, default: StdString, i: nat,
      j: nat, p: StdString, q: StdString, after: set<StdString>)
    requires Owned(ptrs, pool, live, default) && i < |ptrs| && j < |ptrs| && (i == j ==> p == q)
    requires (p == ptrs[i] && q == ptrs[j] && after == live)
      || (p != ptrs[i] == default && p != default && p !in live && q == ptrs[j] != default && after == live + {p})
      || (q != ptrs[j] == default && q != default && q !in live && p == ptrs[i] != default && after == live + {q})
    ensures Owned(ptrs[i := p][j := q], pool, after, default)
  {
    if p != ptrs[i] {
      FreshPtr(ptrs, pool, live, default, i, p);
      assert ptrs[i := p][j := q] == ptrs[i := p];
    } else if q != ptrs[j] {
      FreshPtr(ptrs, pool, live, default, j, q);
      assert ptrs[i := p][j := q] == ptrs[j := q];
    } else {
      assert ptrs[i := p][j := q] == ptrs;
    }
  }

  lemma ReleasedOwned(ptrs: seq<StdString>, pool: seq<StdString?>, live: set<StdString>, default: StdString, i: nat)
    requires Owned(ptrs, pool, live, default) && i < |ptrs|
    ensures Owned(ptrs[i := default], pool + [if ptrs[i] == default then null else ptrs[i]], live, default)
  {
    StillPointed(ptrs, default, i);
  }

  lemma FreedOwned(ptrs: seq<StdString>, pool: seq<StdString?>, live: set<StdString>, default: StdString, i: nat)
    requires Owned(ptrs, pool, live, default) && i < |ptrs|
    ensures default !in live && (ptrs[i] == default || ptrs[i] in live)
    ensures Owned(ptrs[i := default], pool, live - {ptrs[i]}, default)
  {
    StillPointed(ptrs, default, i);
  }

  lemma MovedOwned(ptrs: seq<StdString>, pool: seq<StdString?>, live: set<StdString>, default: StdString, i: nat,
      k: nat)
    requires Owned(ptrs, pool, live, default) && i < |ptrs| && k < |pool|
    ensures default !in live && (ptrs[i] == default || ptrs[i] in live) && pool[k] != default
    ensures Owned(ptrs[i := OrDefault(pool[k], default)], Without(pool, k), live - {ptrs[i]}, default)
  {
    var p := OrDefault(pool[k], default);
    FreedOwned(ptrs, pool, live, default, i);
    AdoptedOwned(ptrs[i := default], pool, live - {ptrs[i]}, default, i, k);
    assert ptrs[i := default][i := p] == ptrs[i := p];
  }

  function OrDefault(s: StdString?, default: StdString): StdString {
    if s == null then default else s
  }

  lemma DroppedOwned(ptrs: seq<StdString>, pool: seq<StdString?>, live: set<StdString>, default: StdString, i: nat)
    requires Owned(ptrs, pool, live, default) && i < |ptrs|
    ensures default !in live && (ptrs[i] == default || ptrs[i] in live)
    ensures Owned(Without(ptrs, i), pool, live - {ptrs[i]}, default)
  {
    FreedOwned(ptrs, pool, live, default, i);
    RemovedOwned(ptrs[i := default], pool, live - {ptrs[i]}, default, i);
    assert Without(ptrs[i := default], i) == Without(ptrs, i);
  }

  lemma TextsWithout(pool: seq<StdString?>, k: nat)
    requires k < |pool|
    ensures Texts(Without(pool, k)) == Without(Texts(pool), k)
  {
  }

  lemma SlotsWithout(ptrs: seq<StdString>, default: StdString, i: nat)
    requires i < |ptrs|
    ensures Slots(Without(ptrs, i), default) == Without(Slots(ptrs, default), i)
  {
  }

  lemma StillInOnly(pool: seq<StdString?>, k: nat)
    requires k < |pool|
    ensures forall s | s in Without(pool, k) :: s in pool
  {
  }

  lemma StillPointed(ptrs: seq<StdString>, p: StdString, i: nat)
    requires i < |ptrs|
    ensures forall s | s in ptrs && s != ptrs[i] :: s in ptrs[i := p]
  {
    forall s | s in ptrs && s != ptrs[i] ensures s in ptrs[i := p] {
      var j :| 0 <= j < |ptrs| && ptrs[j] == s;
      assert ptrs[i := p][j] == s;
    }
  }

  lemma AdoptedOwned(ptrs: seq<StdString>, pool: seq<StdString?>, live: set<StdString>, default: StdString, i: nat,
      k: nat)
    requires Owned(ptrs, pool, live, default) && i < |ptrs| && ptrs[i] == default && k < |pool|
    ensures Owned(ptrs[i := OrDefault(pool[k], default)], Without(pool, k), live, default)
  {
    var p := OrDefault(pool[k], default);
    StillPointed(ptrs, p, i);
    StillIn(pool, k);
    assert ptrs[i := p][i] == p;
  }

  lemma StillIn(pool: seq<StdString?>, k: nat)
    requires k < |pool|
    ensures forall s | s in pool && s != pool[k] :: s in Without(pool, k)
  {
    forall s | s in pool && s != pool[k] ensures s in Without(pool, k) {
      var l :| 0 <= l < |pool| && pool[l] == s;
      assert Without(pool, k)[if l < k then l else l - 1] == s;
    }
  }

  lemma RemovedOwned(ptrs: seq<StdString>, pool: seq<StdString?>, live: set<StdString>, default: StdString, i: nat)
    requires Owned(ptrs, pool, live, default) && i < |ptrs| && ptrs[i] == default
    ensures Owned(Without(ptrs, i), pool, live, default)
  {
    StillIn(ptrs, i);
  }

  lemma AddedOwned(ptrs: seq<StdString>, pool: seq<StdString?>, live: set<StdString>, default: StdString)
    requires Owned(ptrs, pool, live, default)
    ensures Owned(ptrs + [default], pool, live, default)
  {
  }

  lemma PooledOwned(ptrs: seq<StdString>, pool: seq<StdString?>, live: set<StdString>, default: StdString, s: StdString)
    requires Owned(ptrs, pool, live, default) && s != default && s !in live
    ensures Owned(ptrs, pool + [s], live + {s}, default)
  {
  }

  lemma DeletedOwned(ptrs: seq<StdString>, pool: seq<StdString?>, live: set<StdString>, default: StdString, k: nat)
    requires Owned(ptrs, pool, live, default) && k < |pool|
    ensures pool[k] != null ==> pool[k] in live
    ensures Owned(ptrs, Without(pool, k), if pool[k] == null then live else live - {pool[k]}, default)
  {
    StillIn(pool, k);
  }

  lemma SwappedOwned(ptrs: seq<StdString>, pool: seq<StdString?>, live: set<StdString>, default: StdString, i: nat,
      j: nat)
    requires Owned(ptrs, pool, live, default) && i < |ptrs| && j < |ptrs|
    ensures Owned(ptrs[i := ptrs[j]][j := ptrs[i]], pool, live, default)
  {
    var swapped := ptrs[i := ptrs[j]][j := ptrs[i]];
    assert swapped[i] == ptrs[j] && swapped[j] == ptrs[i];
    forall s | s in ptrs ensures s in swapped {
      var n :| 0 <= n < |ptrs| && ptrs[n] == s;
      assert n == i || n == j || swapped[n] == s;
    }
  }
}
