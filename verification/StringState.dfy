/** What can be seen of many string fields that share one default, and how the two builds compare. */
module StringState {
  import opened Common

  datatype Slot = Slot(text: string, isSet: bool)

  /** The fields, and what the callers hold: strings that they own, or null. */
  datatype State = State(slots: seq<Slot>, pool: seq<Option<string>>)

  datatype Op =
    | AddField
    | Destroy(i: nat)
    | Set(i: nat, text: string)
    | Append(i: nat, text: string)
    | Release(i: nat)
    | SetAllocated(i: nat, k: nat)
    | SetAllocatedNull(i: nat)
    | ClearToEmpty(i: nat)
    | ClearToDefault(i: nat)
    | Assign(i: nat, j: nat)
    | Swap(i: nat, j: nat)
    | NewString(text: string)
    | DeleteString(k: nat)

  predicate OpOk(s: State, op: Op) {
    match op
    case AddField => true
    case NewString(_) => true
    case DeleteString(k) => k < |s.pool|
    case SetAllocated(i, k) => i < |s.slots| && k < |s.pool|
    case Assign(i, j) => i < |s.slots| && j < |s.slots|
    case Swap(i, j) => i < |s.slots| && j < |s.slots|
    case _ => op.i < |s.slots|
  }

  function Step(s: State, op: Op, default: string, debug: bool): State
    requires OpOk(s, op)
  {
    match op
    case AddField => s.(slots := s.slots + [Slot(default, false)])
    case Destroy(i) => s.(slots := Without(s.slots, i))
    case Set(i, t) => s.(slots := s.slots[i := Slot(t, true)])
    case Append(i, t) => s.(slots := s.slots[i := Slot(s.slots[i].text + t, true)])
    case Release(i) =>
      if s.slots[i].isSet then State(s.slots[i := Slot(default, false)], s.pool + [Some(s.slots[i].text)])
      else s.(pool := s.pool + [None])
    case SetAllocated(i, k) =>
      var slot := if s.pool[k].None? then Slot(default, false) else Slot(s.pool[k].value, true);
      State(s.slots[i := slot], Without(s.pool, k))
    case SetAllocatedNull(i) => s.(slots := s.slots[i := Slot(default, false)])
    case ClearToEmpty(i) => if s.slots[i].isSet then s.(slots := s.slots[i := Slot("", true)]) else s
    case ClearToDefault(i) => if s.slots[i].isSet then s.(slots := s.slots[i := Slot(default, true)]) else s
    case Assign(i, j) =>
      if i == j || (!s.slots[i].isSet && !s.slots[j].isSet) then s
      else s.(slots := s.slots[i := Slot(s.slots[j].text, true)])
    case Swap(i, j) =>
      var a, b := s.slots[i], s.slots[j];
      if !debug then s.(slots := s.slots[i := b][j := a])
      else if a.isSet || b.isSet then s.(slots := s.slots[i := Slot(b.text, true)][j := Slot(a.text, true)])
      else s
    case NewString(t) => s.(pool := s.pool + [Some(t)])
    case DeleteString(k) => s.(pool := Without(s.pool, k))
  }

  predicate RunOk(s: State, ops: seq<Op>, default: string, debug: bool)
    decreases ops
  {
    ops == [] || (OpOk(s, ops[0]) && RunOk(Step(s, ops[0], default, debug), ops[1..], default, debug))
  }

  function Exec(s: State, ops: seq<Op>, default: string, debug: bool): State
    requires RunOk(s, ops, default, debug)
    decreases ops
  {
    if ops == [] then s else Exec(Step(s, ops[0], default, debug), ops[1..], default, debug)
  }

  // ---------------------------------------------------------------- the two builds

  function Values(s: State): (r: seq<string>)
    ensures |r| == |s.slots| && forall i | 0 <= i < |s.slots| :: r[i] == s.slots[i].text
  {
    seq(|s.slots|, i requires 0 <= i < |s.slots| => s.slots[i].text)
  }

  /** What a release handed out and is given back leaves everything as it was, even null for an unset field. */
  lemma ReleaseAndGiveBack(s: State, i: nat, default: string, debug: bool)
    requires i < |s.slots| && Coherent(s, default)
    ensures
      var released := Step(s, Release(i), default, debug);
      Step(released, SetAllocated(i, |s.pool|), default, debug) == s
  {
    var released := Step(s, Release(i), default, debug);
    assert released.slots[i := s.slots[i]] == s.slots;
    assert Without(released.pool, |s.pool|) == s.pool;
  }

  /** An unset field shows the default. */
  predicate Coherent(s: State, default: string) {
    forall i | 0 <= i < |s.slots| && !s.slots[i].isSet :: s.slots[i].text == default
  }

  /** What a caller's string would show in a field: null shows the default. */
  function Shown(t: Option<string>, default: string): string {
    if t.None? then default else t.value
  }

  function PoolValues(s: State, default: string): (r: seq<string>)
    ensures |r| == |s.pool| && forall k | 0 <= k < |s.pool| :: r[k] == Shown(s.pool[k], default)
  {
    seq(|s.pool|, k requires 0 <= k < |s.pool| => Shown(s.pool[k], default))
  }

  /** The values that the fields show, and those that the callers' strings would show. */
  datatype Visible = Visible(fields: seq<string>, pool: seq<string>)

  function VisibleOf(s: State, default: string): Visible {
    Visible(Values(s), PoolValues(s, default))
  }

  predicate VisibleOk(v: Visible, op: Op) {
    match op
    case AddField => true
    case NewString(_) => true
    case DeleteString(k) => k < |v.pool|
    case SetAllocated(i, k) => i < |v.fields| && k < |v.pool|
    case Assign(i, j) => i < |v.fields| && j < |v.fields|
    case Swap(i, j) => i < |v.fields| && j < |v.fields|
    case _ => op.i < |v.fields|
  }

  /** What one operation does to them, whichever fields are set. */
  function StepVisible(v: Visible, op: Op, default: string): Visible
    requires VisibleOk(v, op)
  {
    var f := v.fields;
    match op
    case AddField => v.(fields := f + [default])
    case Destroy(i) => v.(fields := Without(f, i))
    case Set(i, t) => v.(fields := f[i := t])
    case Append(i, t) => v.(fields := f[i := f[i] + t])
    case Assign(i, j) => v.(fields := f[i := f[j]])
    case Swap(i, j) => v.(fields := f[i := f[j]][j := f[i]])
    case Release(i) => Visible(f[i := default], v.pool + [f[i]])
    case SetAllocated(i, k) => Visible(f[i := v.pool[k]], Without(v.pool, k))
    case SetAllocatedNull(i) => v.(fields := f[i := default])
    case ClearToEmpty(i) => v.(fields := f[i := ""])
    case ClearToDefault(i) => v.(fields := f[i := default])
    case NewString(t) => v.(pool := v.pool + [t])
    case DeleteString(k) => v.(pool := Without(v.pool, k))
  }

  /** Clearing to empty shows the same whether the field is set or not only if the default is empty. */
  predicate Blind(op: Op, default: string) {
    op.ClearToEmpty? ==> default == ""
  }

  lemma StepShows(s: State, op: Op, default: string, debug: bool)
    requires OpOk(s, op) && Blind(op, default) && Coherent(s, default)
    ensures Coherent(Step(s, op, default, debug), default) && VisibleOk(VisibleOf(s, default), op)
    ensures VisibleOf(Step(s, op, default, debug), default) == StepVisible(VisibleOf(s, default), op, default)
  {
    var t := Step(s, op, default, debug);
    StepKeepsCoherent(s, op, default, debug);
    var want := StepVisible(VisibleOf(s, default), op, default);
    StepShowsFields(s, op, default, debug);
    assert PoolValues(t, default) == want.pool;
  }

  lemma StepKeepsCoherent(s: State, op: Op, default: string, debug: bool)
    requires OpOk(s, op) && Coherent(s, default)
    ensures Coherent(Step(s, op, default, debug), default)
  {
  }

  lemma StepShowsFields(s: State, op: Op, default: string, debug: bool)
    requires OpOk(s, op) && Blind(op, default) && Coherent(s, default)
    ensures Values(Step(s, op, default, debug)) == StepVisible(VisibleOf(s, default), op, default).fields
  {
    var t, v := Step(s, op, default, debug), Values(s);
    match op
    case Destroy(i) => assert Values(t) == Without(v, i);
    case Swap(i, j) => assert Values(t) == v[i := v[j]][j := v[i]];
    case Assign(i, j) => assert Values(t) == v[i := v[j]];
    case _ =>
  }

  /** From states that show the same, both builds accept the same operations and show the same after every run: in
      the fields, and in what the callers were handed, where null counts as the default. This holds for any
      default as long as nothing is cleared to empty, and for the empty default without that restriction. */
  lemma {:induction false} BuildsShowTheSame(s: State, t: State, ops: seq<Op>, default: string)
    requires Coherent(s, default) && Coherent(t, default) && VisibleOf(s, default) == VisibleOf(t, default)
    requires default == "" || forall k | 0 <= k < |ops| :: !ops[k].ClearToEmpty?
    requires RunOk(s, ops, default, true)
    ensures RunOk(t, ops, default, false)
    ensures VisibleOf(Exec(s, ops, default, true), default) == VisibleOf(Exec(t, ops, default, false), default)
    decreases ops
  {
    if ops != [] {
      assert VisibleOf(t, default).fields == Values(t);
      assert |Values(t)| == |t.slots| && |PoolValues(t, default)| == |t.pool|;
      StepShows(s, ops[0], default, true);
      assert OpOk(t, ops[0]);
      StepShows(t, ops[0], default, false);
      BuildsShowTheSame(Step(s, ops[0], default, true), Step(t, ops[0], default, false), ops[1..], default);
    }
  }

  /** With any other default, clearing to empty after a swap tells the builds apart. */
  lemma ClearToEmptyTellsBuildsApart(default: string)
    requires default != ""
    ensures
      var ops := [Set(0, "x"), Swap(0, 1), ClearToEmpty(0)];
      var s := State([Slot(default, false), Slot(default, false)], []);
      && RunOk(s, ops, default, true) && RunOk(s, ops, default, false)
      && Values(Exec(s, ops, default, true))[0] == "" && Values(Exec(s, ops, default, false))[0] == default
  {
    var ops := [Set(0, "x"), Swap(0, 1), ClearToEmpty(0)];
    assert ops[1..] == [Swap(0, 1), ClearToEmpty(0)] && ops[1..][1..] == [ClearToEmpty(0)] && ops[1..][1..][1..] == [];
  }

  /** But after a swap of a set and an unset field, and only then, the builds differ in which of the two is set,
      and so in which of them a release finds a string. */
  lemma BuildsSetTheSame(s: State, i: nat, j: nat, default: string)
    requires OpOk(s, Swap(i, j)) && Coherent(s, default)
    ensures Step(s, Swap(i, j), default, true) == Step(s, Swap(i, j), default, false) <==>
      s.slots[i].isSet == s.slots[j].isSet
  {
    var a, b := s.slots[i], s.slots[j];
    var debug, release := Step(s, Swap(i, j), default, true), Step(s, Swap(i, j), default, false);
    if a.isSet == b.isSet {
      assert debug.slots == release.slots;
    } else {
      assert debug.slots[i].isSet && debug.slots[j].isSet;
      assert !release.slots[if a.isSet then i else j].isSet;
    }
  }
}
