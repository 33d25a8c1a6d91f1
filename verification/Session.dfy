/** The state of the login service and the atomic steps on it: single database calls, single operations on the
    stream map, and sending a signal. */
module Session {
  import opened Common
  import Hits
  import HitList

  type Handle = nat    // identifies one call of waitForOffLine

  /** A value that can stand between quotes in a record. */
  type Text = s: string | Hits.Plain(s) witness ""

  datatype Record = Record(user: Text, ip: Text, ltime: Text, online: bool)

  datatype State = State(
    db: seq<Record>,               // the login records, in the order they were added
    users: map<string, string>,    // the stored password of each user
    streams: map<string, Handle>,  // m_userStreamHandles
    finished: set<Handle>,         // stream handlers that have returned
    written: seq<Handle>,          // the streams that were sent an off-line signal, in order
    stale: set<Handle>,            // streams that were written to after their handler had returned
    keys: map<Handle, seq<string>>)    // the keys that each handler has registered, in order

  const INIT := State([], map[], map[], {}, [], {}, map[])

  datatype Action =
    | Nothing
    | PutUser(name: string, passwd: string)
    | AddLogin(user: Text, ip: Text, ltime: Text)
    | PutOffline(id: nat)
    | Register(h: Handle, key: string)
    | Deregister(h: Handle, key: string)
    | Finish(h: Handle)
    | Signal(key: string)

  /** The key of a stream: the three parts without separators. */
  function StreamKey(user: string, ip: string, ltime: string): string {
    user + ip + ltime
  }

  function KeyOf(r: Record): string {
    StreamKey(r.user, r.ip, r.ltime)
  }

  predicate IsTriple(r: Record, user: string, ip: string, ltime: string) {
    r.user == user && r.ip == ip && r.ltime == ltime
  }

  predicate SignedUp(s: State, user: string) {
    user in s.users && s.users[user] != ""
  }

  function KeysOf(s: State, h: Handle): seq<string> {
    if h in s.keys then s.keys[h] else []
  }

  function Apply(s: State, a: Action): State {
    match a
    case Nothing => s
    case PutUser(u, p) => s.(users := s.users[u := p])
    case AddLogin(u, ip, t) => s.(db := s.db + [Record(u, ip, t, true)])
    case PutOffline(i) => if i < |s.db| then s.(db := s.db[i := s.db[i].(online := false)]) else s
    case Register(h, k) => s.(streams := s.streams[k := h], keys := s.keys[h := KeysOf(s, h) + [k]])
    case Deregister(_, k) => s.(streams := s.streams - {k})
    case Finish(h) => s.(finished := s.finished + {h})
    case Signal(k) =>
      if k !in s.streams then s
      else
        var h := s.streams[k];
        s.(written := s.written + [h], stale := s.stale + if h in s.finished then {h} else {})
  }

  // ---------------------------------------------------------------- what the code can write back

  /** Whether kickOffOldUser and a dying stream can write a record back as offline. */
  predicate Writable(r: Record) {
    HitList.Braceless(r.user, r.ip, r.ltime)
  }

  /** The text of the record, copied and overwritten as they do, is the record offline or nothing. */
  lemma WritableIsOverwritten(r: Record, more: string)
    ensures HitList.Overwritten(Hits.Source(r.user, r.ip, r.ltime, "1") + more) ==
      if Writable(r) then Some(Hits.Source(r.user, r.ip, r.ltime, "0")) else None
  {
    HitList.OverwrittenIffBraceless(r.user, r.ip, r.ltime, more);
  }

  predicate AllWritable(s: State, user: string) {
    forall i | 0 <= i < |s.db| && s.db[i].user == user :: Writable(s.db[i])
  }

  predicate NoneOnline(s: State, user: string) {
    forall i | 0 <= i < |s.db| && s.db[i].user == user :: !s.db[i].online
  }

  // ---------------------------------------------------------------- legal steps

  predicate Steady(keys: seq<string>) {
    forall i, j | 0 <= i < j < |keys| :: keys[i] == keys[j]
  }

  /** What must hold for a step to keep the service safe. */
  predicate Legal(s: State, a: Action) {
    match a
    case Nothing => true
    case PutUser(u, _) => !SignedUp(s, u)
    case AddLogin(u, ip, t) =>
      && SignedUp(s, u)
      && (forall i | 0 <= i < |s.db| :: !IsTriple(s.db[i], u, ip, t))
      && (AllWritable(s, u) ==> NoneOnline(s, u))
    case PutOffline(i) => i < |s.db|
    case Register(h, _) => h !in s.finished
    case Deregister(h, _) => h !in s.finished
    case Finish(h) => h !in s.finished && (Steady(KeysOf(s, h)) ==> forall k | k in s.streams :: s.streams[k] != h)
    case Signal(_) => true
  }

  function Exec(s: State, run: seq<Action>): State {
    if run == [] then s else Apply(Exec(s, run[..|run| - 1]), run[|run| - 1])
  }

  predicate LegalRun(s: State, run: seq<Action>) {
    run != [] ==>
      var before := run[..|run| - 1];
      LegalRun(s, before) && Legal(Exec(s, before), run[|run| - 1])
  }

  lemma {:induction false} ExecAppend(s: State, a: seq<Action>, b: seq<Action>)
    ensures Exec(s, a + b) == Exec(Exec(s, a), b)
    decreases |b|
  {
    if b == [] {
      assert a + b == a;
    } else {
      var n := |b| - 1;
      assert (a + b)[..|a + b| - 1] == a + b[..n];
      ExecAppend(s, a, b[..n]);
    }
  }

  // ---------------------------------------------------------------- safety

  /** At most one online record for each user whose records can all be written back. */
  ghost predicate SingleLogin(s: State) {
    forall i, j | 0 <= i < j < |s.db| && s.db[i].user == s.db[j].user && AllWritable(s, s.db[i].user) ::
      !s.db[i].online || !s.db[j].online
  }

  /** At most one record for each user, address and time. */
  ghost predicate UniqueTriples(s: State) {
    forall i, j | 0 <= i < j < |s.db| :: !IsTriple(s.db[j], s.db[i].user, s.db[i].ip, s.db[i].ltime)
  }

  /** Every record belongs to a user with a password. */
  ghost predicate RegisteredUsers(s: State) {
    forall i | 0 <= i < |s.db| :: SignedUp(s, s.db[i].user)
  }

  /** An entry of the stream map names a handler that has registered its key, and has not returned unless it
      registered different keys. */
  ghost predicate RegistryLive(s: State) {
    forall k | k in s.streams ::
      var h := s.streams[k];
      k in KeysOf(s, h) && (h in s.finished ==> !Steady(KeysOf(s, h)))
  }

  /** No stream was written to after its handler had returned, unless it registered different keys. */
  ghost predicate StaleAreUnsteady(s: State) {
    forall h | h in s.stale :: h in s.finished && !Steady(KeysOf(s, h))
  }

  ghost predicate Safe(s: State) {
    SingleLogin(s) && UniqueTriples(s) && RegisteredUsers(s) && RegistryLive(s) && StaleAreUnsteady(s)
  }

  /** Records are only added, and only ever change from online to offline; stored non-empty passwords stay. */
  ghost predicate Evolves(s: State, t: State) {
    && |s.db| <= |t.db|
    && (forall i | 0 <= i < |s.db| :: t.db[i] == s.db[i] || t.db[i] == s.db[i].(online := false))
    && (forall u | u in s.users :: u in t.users && (s.users[u] != "" ==> t.users[u] == s.users[u]))
    && s.finished <= t.finished && s.written <= t.written
  }

  lemma StepEvolves(s: State, a: Action)
    requires Legal(s, a)
    ensures Evolves(s, Apply(s, a))
  {
  }

  lemma StepIsSafe(s: State, a: Action)
    requires Safe(s) && Legal(s, a)
    ensures Safe(Apply(s, a)) && Evolves(s, Apply(s, a))
  {
    var t := Apply(s, a);
    StepEvolves(s, a);
    StepKeepsRecords(s, a);
    StepKeepsStreams(s, a);
  }

  lemma StepKeepsRecords(s: State, a: Action)
    requires Safe(s) && Legal(s, a)
    ensures SingleLogin(Apply(s, a)) && UniqueTriples(Apply(s, a)) && RegisteredUsers(Apply(s, a))
  {
    var t := Apply(s, a);
    forall u | AllWritable(t, u) ensures AllWritable(s, u) {
      assert forall i | 0 <= i < |s.db| :: t.db[i].user == s.db[i].user && (Writable(t.db[i]) <==> Writable(s.db[i]));
    }
    hide AllWritable, Writable;
  }

  lemma StepKeepsStreams(s: State, a: Action)
    requires Safe(s) && Legal(s, a)
    ensures RegistryLive(Apply(s, a)) && StaleAreUnsteady(Apply(s, a))
  {
    var t := Apply(s, a);
    if a.Register? {
      assert forall i | 0 <= i < |KeysOf(s, a.h)| :: KeysOf(t, a.h)[i] == KeysOf(s, a.h)[i];
      assert KeysOf(t, a.h)[|KeysOf(s, a.h)|] == a.key;
    }
  }

  lemma EvolvesTrans(s: State, t: State, u: State)
    requires Evolves(s, t) && Evolves(t, u)
    ensures Evolves(s, u)
  {
  }

  /** Every state that a legal run from a safe state passes through is safe. */
  lemma {:induction false} RunEvolves(s: State, run: seq<Action>)
    requires Safe(s) && LegalRun(s, run)
    ensures Safe(Exec(s, run)) && Evolves(s, Exec(s, run))
  {
    if run != [] {
      var before := run[..|run| - 1];
      RunEvolves(s, before);
      StepIsSafe(Exec(s, before), run[|run| - 1]);
      EvolvesTrans(s, Exec(s, before), Exec(s, run));
    }
  }

  /** Every state that any legal run from the empty service reaches is safe, and what came later only evolved. */
  lemma {:induction false} EveryRunIsSafe(run: seq<Action>)
    requires LegalRun(INIT, run)
    ensures Safe(Exec(INIT, run))
    ensures forall n | 0 <= n <= |run| :: Safe(Exec(INIT, run[..n])) && Evolves(Exec(INIT, run[..n]), Exec(INIT, run))
  {
    if run != [] {
      var before := run[..|run| - 1];
      EveryRunIsSafe(before);
      StepIsSafe(Exec(INIT, before), run[|run| - 1]);
      forall n | 0 <= n <= |run|
        ensures Safe(Exec(INIT, run[..n])) && Evolves(Exec(INIT, run[..n]), Exec(INIT, run))
      {
        if n < |run| {
          assert run[..n] == before[..n];
          EvolvesTrans(Exec(INIT, run[..n]), Exec(INIT, before), Exec(INIT, run));
        } else {
          assert run[..n] == run;
        }
      }
    } else {
      assert run[..0] == run;
    }
  }

  /** A record that is offline stays offline and stays the only one of its triple, in every continuation. */
  lemma OfflineIsFinal(s: State, run: seq<Action>, i: nat)
    requires Safe(s) && LegalRun(s, run)
    requires i < |s.db| && !s.db[i].online
    ensures
      var t := Exec(s, run);
      && Safe(t) && i < |t.db| && t.db[i] == s.db[i]
      && forall j | 0 <= j < |t.db| && IsTriple(t.db[j], s.db[i].user, s.db[i].ip, s.db[i].ltime) :: j == i
  {
    RunEvolves(s, run);
    var t := Exec(s, run);
    assert t.db[i] == s.db[i];
    forall j | 0 <= j < |t.db| && j != i ensures !IsTriple(t.db[j], s.db[i].user, s.db[i].ip, s.db[i].ltime) {
      if j < i {
        assert !IsTriple(t.db[i], t.db[j].user, t.db[j].ip, t.db[j].ltime);
      }
    }
  }

  /** When all values are free of closing braces, no user is ever online twice. */
  lemma SingleLoginOfPlainValues(run: seq<Action>)
    requires LegalRun(INIT, run)
    requires forall i | 0 <= i < |Exec(INIT, run).db| :: Writable(Exec(INIT, run).db[i])
    ensures
      var s := Exec(INIT, run);
      forall i, j | 0 <= i < j < |s.db| && s.db[i].user == s.db[j].user :: !s.db[i].online || !s.db[j].online
  {
    EveryRunIsSafe(run);
  }
}
