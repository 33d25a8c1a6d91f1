/** The stream map over whole runs: which handler an entry names, whom a signal reaches, and what a handler
    leaves behind. */
module SessionStreams {
  import opened Session

  predicate Touches(a: Action, k: string) {
    (a.Register? || a.Deregister?) && a.key == k
  }

  /** Step `i` is the last that touches the key. */
  ghost predicate LastAt(run: seq<Action>, k: string, i: nat) {
    i < |run| && Touches(run[i], k) && forall j | i < j < |run| :: !Touches(run[j], k)
  }

  ghost predicate Names(s: State, k: string, h: Handle) {
    k in s.streams && s.streams[k] == h
  }

  /** An entry names the handler whose registration was the last step to touch its key. */
  lemma {:induction false} EntryIff(run: seq<Action>, k: string, h: Handle)
    ensures Names(Exec(INIT, run), k, h) <==> exists i: nat :: LastAt(run, k, i) && run[i] == Register(h, k)
  {
    if run != [] {
      var n := |run| - 1;
      var before, a := run[..n], run[n];
      EntryIff(before, k, h);
      if Touches(a, k) {
        assert LastAt(run, k, n);
        forall i: nat | LastAt(run, k, i) ensures i == n {
        }
      } else {
        forall i: nat ensures LastAt(run, k, i) <==> LastAt(before, k, i) {
          assert i < n ==> run[i] == before[i];
        }
        if i: nat :| LastAt(before, k, i) && before[i] == Register(h, k) {
          assert LastAt(run, k, i) && run[i] == Register(h, k);
        }
      }
    }
  }

  /** A signal is written to the handler that was the last to register the key, and to nobody if the key was erased
      since or never registered. */
  lemma SignalReaches(run: seq<Action>, k: string)
    ensures
      var s := Exec(INIT, run);
      var t := Apply(s, Signal(k));
      && (forall i: nat | LastAt(run, k, i) && run[i].Register? :: t.written == s.written + [run[i].h])
      && ((forall i: nat | LastAt(run, k, i) :: run[i].Deregister?) ==> t.written == s.written)
  {
    var s := Exec(INIT, run);
    forall i: nat | LastAt(run, k, i) && run[i].Register? ensures Names(s, k, run[i].h) {
      EntryIff(run, k, run[i].h);
    }
    if k in s.streams {
      EntryIff(run, k, s.streams[k]);
    }
  }

  /** A registered handler is reached as long as nobody registers or erases its key. */
  lemma RegisteredIsReached(before: seq<Action>, h: Handle, k: string, after: seq<Action>)
    requires forall j | 0 <= j < |after| :: !Touches(after[j], k)
    ensures
      var s := Exec(INIT, before + [Register(h, k)] + after);
      Apply(s, Signal(k)).written == s.written + [h]
  {
    var run := before + [Register(h, k)] + after;
    assert LastAt(run, k, |before|);
    SignalReaches(run, k);
  }

  /** Two streams with one key: when the first ends, it erases the entry of the second, which no signal reaches any
      more although its handler is waiting. */
  lemma FirstOfTwoTakesTheEntry(k: string)
    ensures
      var run := [Register(1, k), Register(2, k), Deregister(1, k), Finish(1)];
      var s := Exec(INIT, run);
      LegalRun(INIT, run) && 2 !in s.finished && KeysOf(s, 2) == [k] && Apply(s, Signal(k)).written == s.written == []
  {
    var r1 := [Register(1, k)];
    var r2 := r1 + [Register(2, k)];
    var r3 := r2 + [Deregister(1, k)];
    var r4 := r3 + [Finish(1)];
    assert r1[..0] == [] && r2[..1] == r1 && r3[..2] == r2 && r4[..3] == r3;
    assert Exec(INIT, r1) == Apply(INIT, Register(1, k));
    assert Exec(INIT, r2) == Apply(Exec(INIT, r1), Register(2, k));
    assert Exec(INIT, r3) == Apply(Exec(INIT, r2), Deregister(1, k));
    assert Exec(INIT, r4) == Apply(Exec(INIT, r3), Finish(1));
    assert LegalRun(INIT, r1);
    assert LegalRun(INIT, r2);
    assert LegalRun(INIT, r3);
    assert LegalRun(INIT, r4);
    assert r4 == [Register(1, k), Register(2, k), Deregister(1, k), Finish(1)];
  }

  // ---------------------------------------------------------------- what a handler leaves behind

  lemma {:induction false} OnlyOwnTouches(run: seq<Action>, i: nat, h: Handle, k: string)
    requires i < |run| && run[i] == Register(h, k)
    requires forall j | i < j < |run| && Touches(run[j], k) :: run[j] == run[i]
    ensures Names(Exec(INIT, run), k, h)
  {
    if i < |run| - 1 {
      var before := run[..|run| - 1];
      assert forall j | 0 <= j < |before| :: before[j] == run[j];
      OnlyOwnTouches(before, i, h, k);
    }
  }

  /** After step `i`, which registers a key, another handler registers the key, or it is erased. */
  ghost predicate Taken(run: seq<Action>, i: nat)
    requires i < |run| && run[i].Register?
  {
    exists j :: i < j < |run| && Touches(run[j], run[i].key) && run[j] != run[i]
  }

  /** No entry names `h` exactly if every key it registered was afterwards registered by another handler or erased. */
  lemma NothingLeftIff(run: seq<Action>, h: Handle)
    ensures
      (forall k :: !Names(Exec(INIT, run), k, h)) <==>
      forall i | 0 <= i < |run| && run[i].Register? && run[i].h == h :: Taken(run, i)
  {
    var s := Exec(INIT, run);
    hide Exec;
    forall i | 0 <= i < |run| && run[i].Register? && run[i].h == h ensures Taken(run, i) || Names(s, run[i].key, h) {
      if !Taken(run, i) {
        OnlyOwnTouches(run, i, h, run[i].key);
      }
    }
    if k :| Names(s, k, h) {
      EntryIff(run, k, h);
      var i: nat :| LastAt(run, k, i) && run[i] == Register(h, k);
      assert run[i].Register? && run[i].h == h && !Taken(run, i);
    }
  }

  /** Step `j` registers or erases the key for another handler. */
  predicate ByAnother(a: Action, h: Handle, k: string) {
    Touches(a, k) && a.h != h
  }

  ghost predicate TakenByAnother(run: seq<Action>, i: nat, h: Handle)
    requires i < |run| && run[i].Register?
  {
    exists j :: i < j < |run| && ByAnother(run[j], h, run[i].key)
  }

  /** The steps of one handler as the code takes them: registrations, and one erasure of `key` at the end. */
  ghost predicate HandlerSteps(before: seq<Action>, h: Handle, key: string, after: seq<Action>) {
    && (forall j | 0 <= j < |before| && before[j].Deregister? :: before[j].h != h)
    && (forall j | 0 <= j < |after| && (after[j].Register? || after[j].Deregister?) :: after[j].h != h)
  }

  /** A handler that erases `key` and returns leaves no entry behind exactly if every other key it registered was since
      registered or erased by another handler. */
  lemma NothingLeftIffOthersTookTheRest(before: seq<Action>, h: Handle, key: string, after: seq<Action>)
    requires HandlerSteps(before, h, key, after)
    ensures
      var run := before + [Deregister(h, key)] + after;
      (forall k :: !Names(Exec(INIT, run), k, h)) <==>
      forall i | 0 <= i < |before| && run[i].Register? && run[i].h == h && run[i].key != key ::
        TakenByAnother(run, i, h)
  {
    var n := |before|;
    var run := before + [Deregister(h, key)] + after;
    assert run[n] == Deregister(h, key);
    assert forall j | 0 <= j < n :: run[j] == before[j];
    assert forall j | n < j < |run| :: run[j] == after[j - n - 1];
    NothingLeftIff(run, h);
    forall i | 0 <= i < |run| && run[i].Register? && run[i].h == h
      ensures i < n
      ensures Taken(run, i) <==> run[i].key == key || TakenByAnother(run, i, h)
    {
      if run[i].key == key {
        assert Touches(run[n], key) && run[n] != run[i];
      }
    }
  }

  // ---------------------------------------------------------------- a handler that nobody disturbs

  function Registered(ks: seq<string>, h: Handle): seq<Action> {
    if ks == [] then [] else Registered(ks[..|ks| - 1], h) + [Register(h, ks[|ks| - 1])]
  }

  lemma {:induction false} RegisteredAt(ks: seq<string>, h: Handle)
    ensures |Registered(ks, h)| == |ks| && forall i | 0 <= i < |ks| :: Registered(ks, h)[i] == Register(h, ks[i])
  {
    if ks != [] {
      RegisteredAt(ks[..|ks| - 1], h);
    }
  }

  /** Alone, it leaves nothing behind exactly if every key it registered is its last one. */
  lemma NoDanglingIffOneKey(ks: seq<string>, h: Handle)
    requires ks != []
    ensures
      var s := Exec(INIT, Registered(ks, h) + [Deregister(h, ks[|ks| - 1])] + [Finish(h)]);
      (forall k :: !Names(s, k, h)) <==> (forall i | 0 <= i < |ks| :: ks[i] == ks[|ks| - 1])
  {
    var key := ks[|ks| - 1];
    var before := Registered(ks, h);
    var run := before + [Deregister(h, key)] + [Finish(h)];
    RegisteredAt(ks, h);
    assert HandlerSteps(before, h, key, [Finish(h)]);
    NothingLeftIffOthersTookTheRest(before, h, key, [Finish(h)]);
    forall j | 0 <= j < |run| ensures run[j].Finish? || run[j].h == h {
    }
    forall i | 0 <= i < |ks| ensures run[i] == Register(h, ks[i]) {
    }
  }
}
