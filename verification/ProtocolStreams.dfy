/** The stream map in the runs of the protocol: what a handler leaves behind, whom a signal reaches, and the runs in
    which an entry is left dangling or lost. */
module ProtocolStreams {
  import opened Common
  import opened Session
  import opened SessionStreams
  import opened Protocol

  // ---------------------------------------------------------------- what a handler leaves behind

  predicate HasErased(y: System, t: nat) {
    t in y.at && (y.at[t].Left? || y.at[t].Gone?)
  }

  lemma {:induction false} ActionAt(moves: seq<Move>, n: nat)
    requires n < |moves|
    ensures Actions(moves)[n] == moves[n].action && Actions(moves[..n]) == Actions(moves)[..n]
  {
    if n < |moves| - 1 {
      ActionAt(moves[..|moves| - 1], n);
      assert moves[..|moves| - 1][..n] == moves[..n];
    }
  }

  /** A handler erases no key before its end. */
  lemma {:induction false} NothingErasedYet(moves: seq<Move>, t: nat)
    requires CanRun(START, moves) && !HasErased(Run(START, moves), t)
    ensures forall j | 0 <= j < |moves| && Actions(moves)[j].Deregister? :: Actions(moves)[j].h != t
  {
    if moves != [] {
      var n := |moves| - 1;
      var before, m := moves[..n], moves[n];
      var y := Run(START, before);
      NothingErasedYet(before, t);
      MoveOfHandler(y, m, t);
    }
  }

  /** One move, as far as the stream map and the thread `t` are concerned. */
  lemma MoveOfHandler(y: System, m: Move, t: nat)
    requires CanMove(y, m)
    ensures HasErased(y, t) ==> HasErased(Next(y, m), t) && NotOnMap(m.action, t)
    ensures !HasErased(y, t) && !HasErased(Next(y, m), t) ==> !m.action.Deregister? || m.action.h != t
    ensures !HasErased(y, t) && HasErased(Next(y, m), t) ==>
      m.thread == t && t in y.at && y.at[t].Leaving? && m.action == Deregister(t, y.at[t].key)
  {
    if m.thread in y.at {
      OwnAction(y.s, m.thread, y.at[m.thread], m.to, m.action);
    }
  }

  predicate NotOnMap(a: Action, t: nat) {
    a.Register? || a.Deregister? ==> a.h != t
  }

  /** Every handler that is about to return, or has, erased one key once, and registered nothing after that. */
  lemma {:induction false} ErasedOnce(moves: seq<Move>, t: nat) returns (n: nat, key: string)
    requires CanRun(START, moves) && HasErased(Run(START, moves), t)
    ensures n < |moves| && Actions(moves)[n] == Deregister(t, key)
    ensures HandlerSteps(Actions(moves)[..n], t, key, Actions(moves)[n + 1..])
  {
    hide *;
    LastMove(moves, t);
    var before, m := moves[..|moves| - 1], moves[|moves| - 1];
    var y := Run(START, before);
    MoveOfHandler(y, m, t);
    if HasErased(y, t) {
      n, key := ErasedOnce(before, t);
      StepsGoOn(Actions(before), n, t, key, m.action);
    } else {
      NothingErasedYet(before, t);
      n, key := |moves| - 1, y.at[t].key;
      StepsEnd(Actions(before), t, key);
    }
  }

  lemma LastMove(moves: seq<Move>, t: nat)
    requires CanRun(START, moves) && HasErased(Run(START, moves), t)
    ensures moves != []
    ensures
      var before, m := moves[..|moves| - 1], moves[|moves| - 1];
      && CanRun(START, before) && CanMove(Run(START, before), m) && Run(START, moves) == Next(Run(START, before), m)
      && Actions(moves) == Actions(before) + [m.action]
  {
    hide CanMove, Next;
  }

  lemma StepsGoOn(run: seq<Action>, n: nat, t: nat, key: string, a: Action)
    requires n < |run| && HandlerSteps(run[..n], t, key, run[n + 1..]) && NotOnMap(a, t)
    ensures (run + [a])[n] == run[n] && HandlerSteps((run + [a])[..n], t, key, (run + [a])[n + 1..])
  {
    assert (run + [a])[..n] == run[..n] && (run + [a])[n + 1..] == run[n + 1..] + [a];
  }

  lemma StepsEnd(run: seq<Action>, t: nat, key: string)
    requires forall j | 0 <= j < |run| && run[j].Deregister? :: run[j].h != t
    ensures
      var all := run + [Deregister(t, key)];
      HandlerSteps(all[..|run|], t, key, all[|run| + 1..])
  {
    assert (run + [Deregister(t, key)])[..|run|] == run;
  }

  lemma MoveAt(moves: seq<Move>, n: nat)
    requires CanRun(START, moves) && n < |moves|
    ensures CanRun(START, moves[..n]) && CanMove(Run(START, moves[..n]), moves[n])
  {
    Prefix(moves, n);
    Prefix(moves, n + 1);
    assert moves[..n + 1][..n] == moves[..n];
    hide Run, CanMove;
  }

  lemma OnlyLeavingErases(y: System, m: Move, t: nat, key: string)
    requires Inv(y) && CanMove(y, m) && m.action == Deregister(t, key)
    ensures var ks := KeysOf(y.s, t); ks != [] ==> key == ks[|ks| - 1]
  {
    assert t in y.at && y.at[t] == Leaving(key) && PointOk(y.s, t, y.at[t]);
  }

  /** The key that a handler erases is the last one it registered. */
  lemma ErasedIsLast(moves: seq<Move>, t: nat, n: nat, key: string)
    requires CanRun(START, moves) && n < |moves| && Actions(moves)[n] == Deregister(t, key)
    requires HandlerSteps(Actions(moves)[..n], t, key, Actions(moves)[n + 1..])
    ensures var ks := KeysOf(Run(START, moves).s, t); ks != [] ==> key == ks[|ks| - 1]
  {
    hide *;
    RunIsLegal(moves);
    ActionAt(moves, n);
    MoveAt(moves, n);
    RunIsLegal(moves[..n]);
    OnlyLeavingErases(Run(START, moves[..n]), moves[n], t, key);
    OwnRegistrations(Actions(moves), n, t, key);
  }

  lemma {:induction false} KeysStay(run: seq<Action>, n: nat, t: nat)
    requires n <= |run| && forall j | n <= j < |run| && run[j].Register? :: run[j].h != t
    ensures KeysOf(Exec(INIT, run), t) == KeysOf(Exec(INIT, run[..n]), t)
  {
    if n < |run| {
      KeysStay(run[..|run| - 1], n, t);
      assert run[..|run| - 1][..n] == run[..n];
    } else {
      assert run[..n] == run;
    }
  }

  /** In every run of the protocol, nothing names a handler that has returned exactly if every key it registered, other
      than the one it erased, was since registered or erased by another handler. */
  lemma GoneLeavesNothingIff(moves: seq<Move>, t: nat) returns (n: nat, key: string)
    requires CanRun(START, moves) && HasErased(Run(START, moves), t)
    ensures n < |moves| && Actions(moves)[n] == Deregister(t, key)
    ensures
      var run := Actions(moves);
      (forall k :: !Names(Run(START, moves).s, k, t)) <==>
      forall i | 0 <= i < n && run[i].Register? && run[i].h == t && run[i].key != key :: TakenByAnother(run, i, t)
    ensures HandlerSteps(Actions(moves)[..n], t, key, Actions(moves)[n + 1..])
  {
    hide *;
    n, key := ErasedOnce(moves, t);
    var run := Actions(moves);
    RunIsLegal(moves);
    assert run == run[..n] + [Deregister(t, key)] + run[n + 1..];
    NothingLeftIffOthersTookTheRest(run[..n], t, key, run[n + 1..]);
  }

  /** The keys of a handler are those it registered. */
  lemma {:induction false} KeysAreRegistered(run: seq<Action>, t: nat, k: string)
    ensures k in KeysOf(Exec(INIT, run), t) <==> exists i | 0 <= i < |run| :: run[i] == Register(t, k)
  {
    if run != [] {
      var n := |run| - 1;
      KeysAreRegistered(run[..n], t, k);
      assert forall i | 0 <= i < n :: run[..n][i] == run[i];
      assert run[n] == Register(t, k) ==> k in KeysOf(Exec(INIT, run), t);
    }
  }

  /** If no other handler touches its keys, nothing names a handler that has returned exactly if they are all the
      same. */
  lemma AloneLeavesNothingIff(moves: seq<Move>, t: nat)
    requires CanRun(START, moves) && HasErased(Run(START, moves), t)
    requires
      var run, ks := Actions(moves), KeysOf(Run(START, moves).s, t);
      forall j, k | 0 <= j < |run| && k in ks :: !ByAnother(run[j], t, k)
    ensures
      var s := Run(START, moves).s;
      (forall k :: !Names(s, k, t)) <==> Steady(KeysOf(s, t))
  {
    hide *;
    RunIsLegal(moves);
    var n, key := GoneLeavesNothingIff(moves, t);
    ErasedIsLast(moves, t, n, key);
    OwnRegistrations(Actions(moves), n, t, key);
    NobodyTakes(Actions(moves), n, t, key, KeysOf(Run(START, moves).s, t));
  }

  lemma NobodyTakes(run: seq<Action>, n: nat, t: nat, key: string, ks: seq<string>)
    requires n < |run| && (ks != [] ==> key == ks[|ks| - 1])
    requires forall i | 0 <= i < n && run[i].Register? && run[i].h == t :: run[i].key in ks
    requires forall k | k in ks :: exists i | 0 <= i < n :: run[i] == Register(t, k)
    requires forall j, k | 0 <= j < |run| && k in ks :: !ByAnother(run[j], t, k)
    ensures Steady(ks) <==>
      forall i | 0 <= i < n && run[i].Register? && run[i].h == t && run[i].key != key :: TakenByAnother(run, i, t)
  {
    hide ByAnother;
    SteadyIff(ks, key);
  }

  lemma OwnRegistrations(run: seq<Action>, n: nat, t: nat, key: string)
    requires n < |run| && run[n] == Deregister(t, key) && HandlerSteps(run[..n], t, key, run[n + 1..])
    ensures
      var ks := KeysOf(Exec(INIT, run), t);
      && ks == KeysOf(Exec(INIT, run[..n]), t)
      && (forall i | 0 <= i < n && run[i].Register? && run[i].h == t :: run[i].key in ks)
      && (forall k | k in ks :: exists i | 0 <= i < n :: run[i] == Register(t, k))
  {
    hide Exec;
    forall j | n <= j < |run| && run[j].Register? ensures run[j].h != t {
      assert run[j] == run[n + 1..][j - n - 1];
    }
    KeysStay(run, n, t);
    forall i | 0 <= i < n && run[i].Register? && run[i].h == t ensures run[i].key in KeysOf(Exec(INIT, run), t) {
      KeysAreRegistered(run, t, run[i].key);
    }
    forall k | k in KeysOf(Exec(INIT, run), t) ensures exists i | 0 <= i < n :: run[i] == Register(t, k) {
      KeysAreRegistered(run, t, k);
    }
  }

  lemma SteadyIff(ks: seq<string>, key: string)
    requires ks != [] ==> key == ks[|ks| - 1]
    ensures Steady(ks) <==> forall k | k in ks :: k == key
  {
    assert forall i | 0 <= i < |ks| :: ks[i] in ks;
    if Steady(ks) {
      assert forall i | 0 <= i < |ks| - 1 :: ks[i] == ks[|ks| - 1];
    }
  }

  // ---------------------------------------------------------------- whom a signal reaches

  /** Move `n` signals the key, and the handler that it names by then has been written to. */
  ghost predicate SignalAt(log: seq<Move>, n: nat, key: string, s: State) {
    && n < |log| && log[n].action == Signal(key)
    && var before := Run(START, log[..n]).s;
       forall h | Names(before, key, h) :: |before.written| < |s.written| && s.written[|before.written|] == h
  }

  /** Some move from `from` on does so. */
  ghost predicate Signalled(log: seq<Move>, from: nat, key: string, s: State) {
    exists n: nat :: from <= n && SignalAt(log, n, key, s)
  }

  /** A handler whose registration nobody touched is the one that is named, and so the one that is written to. */
  lemma UntouchedIsNamed(log: seq<Move>, i: nat, n: nat, h: Handle, key: string)
    requires CanRun(START, log) && i < n <= |log| && log[i].action == Register(h, key)
    requires forall j | i < j < n :: !Touches(log[j].action, key)
    ensures Names(Run(START, log[..n]).s, key, h)
  {
    Prefix(log, n);
    var moves := log[..n];
    RunIsLegal(moves);
    forall j | 0 <= j < n ensures Actions(moves)[j] == log[j].action {
      ActionAt(moves, j);
    }
    assert LastAt(Actions(moves), key, i);
    EntryIff(Actions(moves), key, h);
  }

  lemma {:induction false} Prefix(log: seq<Move>, n: nat)
    requires CanRun(START, log) && n <= |log|
    ensures CanRun(START, log[..n])
  {
    if n == |log| {
      assert log[..n] == log;
    } else {
      Prefix(log[..|log| - 1], n);
      assert log[..|log| - 1][..n] == log[..n];
    }
  }

  lemma SignalStays(log: seq<Move>, from: nat, key: string, s: State, log': seq<Move>, from': nat, s': State)
    requires Signalled(log, from, key, s) && log <= log' && from' <= from && Evolves(s, s')
    ensures Signalled(log', from', key, s')
  {
    var n: nat :| from <= n && SignalAt(log, n, key, s);
    assert log'[..n] == log[..n];
    assert SignalAt(log', n, key, s');
  }

  lemma SignalNow(log: seq<Move>, m: Move, key: string)
    requires m.action == Signal(key)
    ensures Signalled(log + [m], |log|, key, Apply(Run(START, log).s, m.action))
  {
    assert (log + [m])[..|log|] == log;
    assert SignalAt(log + [m], |log|, key, Apply(Run(START, log).s, m.action));
  }

  /** So when the signal comes, it is written to that handler's stream. */
  lemma UntouchedIsReached(log: seq<Move>, i: nat, from: nat, h: Handle, key: string)
    requires CanRun(START, log) && i < from <= |log| && log[i].action == Register(h, key)
    requires forall j | i < j < |log| :: !Touches(log[j].action, key)
    requires Signalled(log, from, key, Run(START, log).s)
    ensures
      var sent, written := |Run(START, log[..from]).s.written|, Run(START, log).s.written;
      exists w | sent <= w < |written| :: written[w] == h
  {
    hide Run, CanRun, Touches;
    var s := Run(START, log).s;
    var n: nat :| from <= n && SignalAt(log, n, key, s);
    UntouchedIsNamed(log, i, n, h, key);
    WrittenGrows(log, from, n);
    var w := |Run(START, log[..n]).s.written|;
    assert w < |s.written| && s.written[w] == h;
  }

  lemma {:induction false} WrittenGrows(log: seq<Move>, m: nat, n: nat)
    requires m <= n <= |log|
    ensures Run(START, log[..m]).s.written <= Run(START, log[..n]).s.written
  {
    if m < n {
      WrittenGrows(log, m, n - 1);
      assert log[..n][..n - 1] == log[..n - 1];
    }
  }

  // ---------------------------------------------------------------- two runs that go wrong

  /** A stream begins and its first message is read. */
  lemma Opens(y: System, t: nat, ip: Text, m: Params) returns (moves: seq<Move>)
    requires t !in y.at && m.mode != "-1"
    ensures CanRun(y, moves) && (var k := StreamKey(m.user, ip, m.ltime);
      Run(y, moves) == System(Apply(y.s, Register(t, k)), y.lock, y.at[t := Reading(ip, k, m, ip)]))
  {
    var k := StreamKey(m.user, ip, m.ltime);
    var m1, m2 := Move(t, Reading(ip, "", NOBODY, ""), Nothing), Move(t, Reading(ip, k, m, ip), Register(t, k));
    hide Run, CanRun;
    NoMoves(y);
    OneMoreMove(y, [], m1);
    OneMoreMove(y, [] + [m1], m2);
    moves := [] + [m1] + [m2];
    assert y.at[t := m1.to][t := m2.to] == y.at[t := m2.to];
  }

  /** Another message of the stream is read. */
  lemma Reads(y: System, t: nat, m: Params) returns (moves: seq<Move>)
    requires t in y.at && y.at[t].Reading? && m.mode != "-1"
    ensures CanRun(y, moves) && (var ip := y.at[t].ip;
      var k := StreamKey(m.user, ip, m.ltime);
      Run(y, moves) == System(Apply(y.s, Register(t, k)), y.lock, y.at[t := Reading(ip, k, m, ip)]))
  {
    var ip := y.at[t].ip;
    var k := StreamKey(m.user, ip, m.ltime);
    var m1 := Move(t, Reading(ip, k, m, ip), Register(t, k));
    hide Run, CanRun;
    NoMoves(y);
    OneMoreMove(y, [], m1);
    moves := [] + [m1];
  }

  /** The stream ends without a session to take offline. */
  lemma Closes(y: System, t: nat) returns (moves: seq<Move>)
    requires t in y.at && y.at[t].Reading? && y.s.db == []
    ensures CanRun(y, moves) && (var k := y.at[t].key;
      Run(y, moves) == System(Apply(Apply(y.s, Deregister(t, k)), Finish(t)), y.lock, y.at[t := Gone]))
  {
    var k := y.at[t].key;
    var m1, m2 := Move(t, Dying(k, y.at[t].info, y.at[t].infoIp), Nothing), Move(t, Leaving(k), Nothing);
    hide Run, CanRun;
    NoMoves(y);
    OneMoreMove(y, [], m1);
    OneMoreMove(y, [] + [m1], m2);
    moves := [] + [m1] + [m2];
    var z := Run(y, moves);
    assert z == System(y.s, y.lock, y.at[t := Leaving(k)]);
    var more := Erases(z, t);
    RunAppend(y, moves, more);
    moves := moves + more;
    assert y.at[t := Leaving(k)][t := Gone] == y.at[t := Gone];
  }

  lemma Erases(y: System, t: nat) returns (moves: seq<Move>)
    requires t in y.at && y.at[t].Leaving?
    ensures CanRun(y, moves) && (var k := y.at[t].key;
      Run(y, moves) == System(Apply(Apply(y.s, Deregister(t, k)), Finish(t)), y.lock, y.at[t := Gone]))
  {
    var k := y.at[t].key;
    var m1, m2 := Move(t, Left(k), Deregister(t, k)), Move(t, Gone, Finish(t));
    hide Run, CanRun;
    NoMoves(y);
    OneMoreMove(y, [], m1);
    OneMoreMove(y, [] + [m1], m2);
    moves := [] + [m1] + [m2];
    assert y.at[t := Left(k)][t := Gone] == y.at[t := Gone];
  }

  lemma RecordsStay(s: State, a: Action)
    requires a.Register? || a.Deregister? || a.Finish?
    ensures Apply(s, a).db == s.db
  {
  }

  /** A stream that sends two messages with different keys leaves an entry that names it after it has returned. */
  lemma ChangedKeyDangles(ip: Text, m: Params, m': Params) returns (moves: seq<Move>)
    requires m.mode != "-1" && m'.mode != "-1"
    requires StreamKey(m.user, ip, m.ltime) != StreamKey(m'.user, ip, m'.ltime)
    ensures CanRun(START, moves)
    ensures
      var s := Run(START, moves).s;
      0 in s.finished && Names(s, StreamKey(m.user, ip, m.ltime), 0)
  {
    hide Run, CanRun, Apply, StreamKey;
    var k, k' := StreamKey(m.user, ip, m.ltime), StreamKey(m'.user, ip, m'.ltime);
    moves := Opens(START, 0, ip, m);
    var y := Run(START, moves);
    RecordsStay(INIT, Register(0, k));
    var more := Reads(y, 0, m');
    RunAppend(START, moves, more);
    RecordsStay(y.s, Register(0, k'));
    moves, y := moves + more, Run(y, more);
    more := Closes(y, 0);
    RunAppend(START, moves, more);
    moves := moves + more;
    ChangedKeyState(k, k');
  }

  lemma ChangedKeyState(k: string, k': string)
    requires k != k'
    ensures
      var s := Apply(Apply(Apply(Apply(INIT, Register(0, k)), Register(0, k')), Deregister(0, k')), Finish(0));
      0 in s.finished && Names(s, k, 0)
  {
  }

  /** Two streams with one key: when the first has ended, the second still waits, but a signal reaches nobody. */
  lemma FirstToEndTakesTheEntry(ip: Text, m: Params) returns (moves: seq<Move>)
    requires m.mode != "-1"
    ensures CanRun(START, moves)
    ensures
      var y, k := Run(START, moves), StreamKey(m.user, ip, m.ltime);
      && 1 in y.at && y.at[1] == Reading(ip, k, m, ip) && KeysOf(y.s, 1) == [k]
      && Apply(y.s, Signal(k)).written == y.s.written
  {
    hide Run, CanRun, Apply, StreamKey;
    var k := StreamKey(m.user, ip, m.ltime);
    moves := Opens(START, 0, ip, m);
    var y := Run(START, moves);
    RecordsStay(INIT, Register(0, k));
    var more := Opens(y, 1, ip, m);
    RunAppend(START, moves, more);
    RecordsStay(y.s, Register(1, k));
    moves, y := moves + more, Run(y, more);
    more := Closes(y, 0);
    RunAppend(START, moves, more);
    moves := moves + more;
    LostEntryState(k);
  }

  lemma LostEntryState(k: string)
    ensures
      var s := Apply(Apply(Apply(Apply(INIT, Register(0, k)), Register(1, k)), Deregister(0, k)), Finish(0));
      KeysOf(s, 1) == [k] && Apply(s, Signal(k)).written == s.written
  {
  }
}
