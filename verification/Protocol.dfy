/** The threads of the service and how they interleave: the calls, which hold the lock from their first database
    call to their answer, the sweeps of the background thread and the console, which hold it too, and the
    stream handlers, which do not. Each move of a thread is one atomic step of the session state. */
module Protocol {
  import opened Common
  import opened Session

  datatype Params = Params(user: Text, passwd: string, mode: string, ltime: Text)

  datatype Call = SignUpCall | LoginCall | StatusCall | LogoutCall

  /** Which online sessions a sweep takes: all, those that logged in up to some time, or those of one user. */
  datatype Selection = Everyone | Until(ltime: string) | Named(user: string)

  /** The record that a search found and the key of its stream. */
  datatype Found = Found(id: nat, key: string)

  /** Where a thread stands: what it is about to do next. */
  datatype Point =
    | Calling(call: Call, c: Params, ip: Text)          // take the lock
    | Passwd(call: Call, c: Params, ip: Text)           // look up the password
    | NewUser(c: Params)                                // store the password
    | SeenBefore(call: Call, c: Params, ip: Text)       // search for the triple
    | KickSearch(c: Params, ip: Text, add: bool)        // search for the user's online record
    | KickWrite(c: Params, ip: Text, add: bool, found: Found)    // write it back offline
    | KickSignal(c: Params, ip: Text, add: bool, found: Found)   // signal its stream
    | Adding(c: Params, ip: Text)                       // add the new record
    | Answered(res: nat)                                // release the lock
    | Returned(res: nat)
    | Sweeping(f: Selection)                             // take the lock
    | SweepSearch(f: Selection)                          // search for the online records it selects
    | SweepWrite(todo: seq<Found>)                      // write the first back offline, or release the lock
    | SweepSignal(todo: seq<Found>)                     // signal the stream of the first
    | Swept
    | Reading(ip: Text, key: string, info: Params, infoIp: Text)   // read the next message of the stream
    | Dying(key: string, info: Params, infoIp: Text)    // search for the session of the last message
    | DyingWrite(key: string, id: nat)                  // write it back offline
    | Leaving(key: string)                              // erase the key from the stream map
    | Left(key: string)                                 // return
    | Gone

  datatype System = System(s: State, lock: Option<nat>, at: map<nat, Point>)

  datatype Move = Move(thread: nat, to: Point, action: Action)

  const NOBODY := Params("", "", "", "")
  const START := System(INIT, None, map[])

  predicate SameTriple(r: Record, c: Params, ip: Text) {
    IsTriple(r, c.user, ip, c.ltime)
  }

  predicate Unseen(s: State, c: Params, ip: Text) {
    forall i | 0 <= i < |s.db| :: !SameTriple(s.db[i], c, ip)
  }

  predicate Accepted(s: State, c: Params) {
    SignedUp(s, c.user) && s.users[c.user] == c.passwd
  }

  predicate OnlineOf(r: Record, user: string) {
    r.user == user && r.online
  }

  predicate OnlineTriple(r: Record, c: Params, ip: Text) {
    SameTriple(r, c, ip) && r.online
  }

  predicate Matches(r: Record, f: Selection) {
    match f
    case Everyone => true
    case Until(ltime) => AtMost(r.ltime, ltime)
    case Named(user) => r.user == user
  }

  /** The search for the user's online record may find nothing that can be written back. */
  predicate MayFindNoKick(s: State, user: string) {
    NoneOnline(s, user) || exists i | 0 <= i < |s.db| && OnlineOf(s.db[i], user) :: !Writable(s.db[i])
  }

  /** So may the search for the session of a triple. */
  predicate MayFindNoSession(s: State, c: Params, ip: Text) {
    || (forall i | 0 <= i < |s.db| :: !OnlineTriple(s.db[i], c, ip))
    || exists i | 0 <= i < |s.db| && OnlineTriple(s.db[i], c, ip) :: !Writable(s.db[i])
  }

  predicate Selected(r: Record, f: Selection) {
    r.online && Matches(r, f)
  }

  // ---------------------------------------------------------------- moves

  /** Between taking the lock and releasing it. */
  predicate Inside(p: Point) {
    match p
    case Passwd(_, _, _) => true
    case NewUser(_) => true
    case SeenBefore(_, _, _) => true
    case KickSearch(_, _, _) => true
    case KickWrite(_, _, _, _) => true
    case KickSignal(_, _, _, _) => true
    case Adding(_, _) => true
    case Answered(_) => true
    case SweepSearch(_) => true
    case SweepWrite(_) => true
    case SweepSignal(_) => true
    case _ => false
  }

  /** A point of a stream handler before it returns. */
  predicate Waiting(p: Point) {
    p.Reading? || p.Dying? || p.DyingWrite? || p.Leaving? || p.Left?
  }

  predicate IsStart(p: Point) {
    p.Calling? || p.Sweeping? || (p.Reading? && p == Reading(p.ip, "", NOBODY, ""))
  }

  /** What follows the kick: in a login the new record, in a logout the answer. */
  function AfterKick(c: Params, ip: Text, add: bool): Point {
    if add then Adding(c, ip) else Answered(0)
  }

  /** The result of a search: all records that are selected, with their keys. */
  predicate AreHits(s: State, f: Selection, todo: seq<Found>) {
    && (forall n | 0 <= n < |todo| ::
          todo[n].id < |s.db| && Selected(s.db[todo[n].id], f) && todo[n].key == KeyOf(s.db[todo[n].id]))
    && (forall i | 0 <= i < |s.db| && Selected(s.db[i], f) :: Found(i, KeyOf(s.db[i])) in todo)
  }

  /** The moves of the code, except for what the lock allows. */
  predicate CanGo(s: State, t: nat, p: Point, to: Point, a: Action) {
    match p
    case Calling(call, c, ip) => to == Passwd(call, c, ip) && a == Nothing
    case Passwd(call, c, ip) =>
      && a == Nothing
      && to == (if call.SignUpCall? then (if SignedUp(s, c.user) then Answered(2) else NewUser(c))
                else if !Accepted(s, c) then Answered(3)
                else if call.LogoutCall? then KickSearch(c, ip, false)
                else SeenBefore(call, c, ip))
    case NewUser(c) => to == Answered(1) && a == PutUser(c.user, c.passwd)
    case SeenBefore(call, c, ip) =>
      && a == Nothing
      && (if Unseen(s, c, ip) then to == (if call.LoginCall? then KickSearch(c, ip, true) else Answered(0))
          else exists i | 0 <= i < |s.db| && SameTriple(s.db[i], c, ip) ::
            to == Answered(if s.db[i].online then 4 else 0))
    case KickSearch(c, ip, add) =>
      && a == Nothing
      && (if to.KickWrite? then
            var id := to.found.id;
            && id < |s.db| && OnlineOf(s.db[id], c.user) && Writable(s.db[id])
            && to == KickWrite(c, ip, add, Found(id, KeyOf(s.db[id])))
          else
            to == AfterKick(c, ip, add) && MayFindNoKick(s, c.user))
    case KickWrite(c, ip, add, found) => to == KickSignal(c, ip, add, found) && a == PutOffline(found.id)
    case KickSignal(c, ip, add, found) => to == AfterKick(c, ip, add) && a == Signal(found.key)
    case Adding(c, ip) => to == Answered(4) && a == AddLogin(c.user, ip, c.ltime)
    case Answered(r) => to == Returned(r) && a == Nothing
    case Returned(_) => false
    case Sweeping(f) => to == SweepSearch(f) && a == Nothing
    case SweepSearch(f) => a == Nothing && to.SweepWrite? && AreHits(s, f, to.todo)
    case SweepWrite(todo) =>
      if todo == [] then to == Swept && a == Nothing
      else to == SweepSignal(todo) && a == PutOffline(todo[0].id)
    case SweepSignal(todo) => todo != [] && to == SweepWrite(todo[1..]) && a == Signal(todo[0].key)
    case Swept => false
    case Reading(ip, key, info, infoIp) =>
      if to.Reading? then
        && to.ip == to.infoIp == ip
        && (if to.info.mode == "-1" then to.key == key && a == Nothing
            else to.key == StreamKey(to.info.user, ip, to.info.ltime) && a == Register(t, to.key))
      else to == Dying(key, info, infoIp) && a == Nothing
    case Dying(key, c, ip) =>
      && a == Nothing
      && (if to.DyingWrite? then
            to.key == key && to.id < |s.db| && OnlineTriple(s.db[to.id], c, ip) && Writable(s.db[to.id])
          else
            to == Leaving(key) && MayFindNoSession(s, c, ip))
    case DyingWrite(key, id) => to == Leaving(key) && a == PutOffline(id)
    case Leaving(key) => to == Left(key) && a == Deregister(t, key)
    case Left(_) => to == Gone && a == Finish(t)
    case Gone => false
  }

  predicate CanMove(y: System, m: Move) {
    if m.thread in y.at then
      && CanGo(y.s, m.thread, y.at[m.thread], m.to, m.action)
      && (!Inside(y.at[m.thread]) && Inside(m.to) ==> y.lock.None?)
    else IsStart(m.to) && m.action == Nothing
  }

  function Next(y: System, m: Move): System {
    var inside := m.thread in y.at && Inside(y.at[m.thread]);
    System(Apply(y.s, m.action),
           if inside == Inside(m.to) then y.lock else if Inside(m.to) then Some(m.thread) else None,
           y.at[m.thread := m.to])
  }

  function Run(y: System, moves: seq<Move>): System {
    if moves == [] then y else Next(Run(y, moves[..|moves| - 1]), moves[|moves| - 1])
  }

  predicate CanRun(y: System, moves: seq<Move>) {
    moves != [] ==>
      var before := moves[..|moves| - 1];
      CanRun(y, before) && CanMove(Run(y, before), moves[|moves| - 1])
  }

  /** The steps of the session state that a run takes. */
  function Actions(moves: seq<Move>): (r: seq<Action>)
    ensures |r| == |moves|
  {
    if moves == [] then [] else Actions(moves[..|moves| - 1]) + [moves[|moves| - 1].action]
  }

  /** One more move of a run. */
  lemma OneMoreMove(y: System, moves: seq<Move>, m: Move)
    requires CanRun(y, moves) && CanMove(Run(y, moves), m)
    ensures CanRun(y, moves + [m]) && Run(y, moves + [m]) == Next(Run(y, moves), m)
  {
    assert (moves + [m])[..|moves|] == moves;
  }

  lemma NoMoves(y: System)
    ensures CanRun(y, []) && Run(y, []) == y
  {
  }

  // ---------------------------------------------------------------- what is known at each point

  /** The key a handler holds is the last one it registered. */
  ghost predicate HoldsKey(s: State, t: nat, key: string) {
    t !in s.finished && (KeysOf(s, t) != [] ==> key == KeysOf(s, t)[|KeysOf(s, t)| - 1])
  }

  ghost predicate Admitted(s: State, c: Params, ip: Text, add: bool) {
    SignedUp(s, c.user) && (add ==> Unseen(s, c, ip))
  }

  ghost predicate PointOk(s: State, t: nat, p: Point) {
    match p
    case NewUser(c) => !SignedUp(s, c.user)
    case SeenBefore(_, c, _) => SignedUp(s, c.user)
    case KickSearch(c, ip, add) => Admitted(s, c, ip, add)
    case KickWrite(c, ip, add, found) =>
      && Admitted(s, c, ip, add)
      && found.id < |s.db| && s.db[found.id].user == c.user && found.key == KeyOf(s.db[found.id])
      && (AllWritable(s, c.user) ==> forall i | 0 <= i < |s.db| && i != found.id :: !OnlineOf(s.db[i], c.user))
    case KickSignal(c, ip, add, found) => Admitted(s, c, ip, add) && (AllWritable(s, c.user) ==> NoneOnline(s, c.user))
    case Adding(c, ip) => Admitted(s, c, ip, true) && (AllWritable(s, c.user) ==> NoneOnline(s, c.user))
    case SweepWrite(todo) => forall n | 0 <= n < |todo| :: todo[n].id < |s.db|
    case SweepSignal(todo) => forall n | 0 <= n < |todo| :: todo[n].id < |s.db|
    case Reading(_, key, _, _) => HoldsKey(s, t, key)
    case Dying(key, _, _) => HoldsKey(s, t, key)
    case DyingWrite(key, id) => HoldsKey(s, t, key) && id < |s.db| && Writable(s.db[id])
    case Leaving(key) => HoldsKey(s, t, key)
    case Left(key) => HoldsKey(s, t, key) && (key in s.streams ==> s.streams[key] != t)
    case _ => true
  }

  ghost predicate LockOk(y: System) {
    && (forall t | t in y.at :: Inside(y.at[t]) <==> y.lock == Some(t))
    && (y.lock.Some? ==> y.lock.value in y.at)
  }

  ghost predicate Inv(y: System) {
    && LockOk(y) && Safe(y.s)
    && (forall t | t in y.at :: PointOk(y.s, t, y.at[t]))
    && y.s.finished <= y.at.Keys && y.s.keys.Keys <= y.at.Keys
  }

  /** A handler acts on the stream map under its own name. */
  predicate NotBy(t: nat, a: Action) {
    (a.Register? || a.Deregister? || a.Finish?) ==> a.h != t
  }

  /** What a thread outside the lock can do: it changes records only by taking writable ones offline. */
  predicate OutsideAction(a: Action) {
    !a.PutUser? && !a.AddLogin? && !a.Signal?
  }

  lemma OwnAction(s: State, t: nat, p: Point, to: Point, a: Action)
    requires CanGo(s, t, p, to, a)
    ensures forall u | u != t :: NotBy(u, a)
    ensures !Inside(p) ==> OutsideAction(a)
    ensures Inside(p) ==> !a.Register? && !a.Deregister? && !a.Finish?
  {
  }

  /** What the others do does not disturb a thread: with the lock, all may; beside it, only those outside do. */
  lemma OthersKeepPoint(s: State, a: Action, t: nat, p: Point)
    requires Legal(s, a) && PointOk(s, t, p) && NotBy(t, a) && (Inside(p) ==> OutsideAction(a))
    ensures PointOk(Apply(s, a), t, p)
  {
    if Inside(p) {
      OthersKeepInside(s, a, t, p);
    } else {
      assert KeysOf(Apply(s, a), t) == KeysOf(s, t);
    }
  }

  lemma OthersKeepInside(s: State, a: Action, t: nat, p: Point)
    requires Legal(s, a) && PointOk(s, t, p) && Inside(p) && OutsideAction(a)
    ensures PointOk(Apply(s, a), t, p)
  {
    var s' := Apply(s, a);
    assert s'.users == s.users && |s'.db| == |s.db|;
    assert forall i | 0 <= i < |s.db| :: s'.db[i] == s.db[i] || s'.db[i] == s.db[i].(online := false);
    hide Apply, Legal;
  }

  lemma OwnStepIsLegal(s: State, t: nat, p: Point, to: Point, a: Action)
    requires Safe(s) && PointOk(s, t, p) && CanGo(s, t, p, to, a)
    ensures Legal(s, a)
  {
  }

  lemma OwnStepKeepsPoint(s: State, t: nat, p: Point, to: Point, a: Action)
    requires Safe(s) && PointOk(s, t, p) && CanGo(s, t, p, to, a)
    ensures PointOk(Apply(s, a), t, to)
  {
    hide Safe;
    if Waiting(p) {
      StreamKeepsPoint(s, t, p, to, a);
    } else if p.Sweeping? || p.SweepSearch? || p.SweepWrite? || p.SweepSignal? {
      SweepKeepsPoint(s, t, p, to, a);
    } else {
      CallKeepsPoint(s, t, p, to, a);
    }
  }

  lemma StreamKeepsPoint(s: State, t: nat, p: Point, to: Point, a: Action)
    requires Waiting(p) && PointOk(s, t, p) && CanGo(s, t, p, to, a)
    ensures PointOk(Apply(s, a), t, to)
  {
  }

  lemma SweepKeepsPoint(s: State, t: nat, p: Point, to: Point, a: Action)
    requires p.Sweeping? || p.SweepSearch? || p.SweepWrite? || p.SweepSignal?
    requires PointOk(s, t, p) && CanGo(s, t, p, to, a)
    ensures PointOk(Apply(s, a), t, to)
  {
  }

  lemma CallKeepsPoint(s: State, t: nat, p: Point, to: Point, a: Action)
    requires !Waiting(p) && !p.Sweeping? && !p.SweepSearch? && !p.SweepWrite? && !p.SweepSignal?
    requires Safe(s) && PointOk(s, t, p) && CanGo(s, t, p, to, a)
    ensures PointOk(Apply(s, a), t, to)
  {
    if p.KickSearch? {
      SearchKeepsPoint(s, t, p, to, a);
    } else if p.KickWrite? {
      WriteKeepsPoint(s, t, p, to, a);
    }
  }

  lemma SearchKeepsPoint(s: State, t: nat, p: Point, to: Point, a: Action)
    requires p.KickSearch? && Safe(s) && PointOk(s, t, p) && CanGo(s, t, p, to, a)
    ensures PointOk(Apply(s, a), t, to)
  {
    if to.KickWrite? && AllWritable(s, p.c.user) {
      forall i | 0 <= i < |s.db| && i != to.found.id ensures !OnlineOf(s.db[i], p.c.user) {
        OneOnline(s, i, to.found.id);
      }
    }
  }

  lemma WriteKeepsPoint(s: State, t: nat, p: Point, to: Point, a: Action)
    requires p.KickWrite? && PointOk(s, t, p) && CanGo(s, t, p, to, a)
    ensures PointOk(Apply(s, a), t, to)
  {
    var s' := Apply(s, a);
    assert forall i | 0 <= i < |s.db| :: s'.db[i] == s.db[i] || s'.db[i] == s.db[i].(online := false);
    assert AllWritable(s', p.c.user) ==> AllWritable(s, p.c.user);
  }

  lemma OneOnline(s: State, i: nat, j: nat)
    requires Safe(s) && i < |s.db| && j < |s.db| && i != j && s.db[j].online && AllWritable(s, s.db[j].user)
    ensures !OnlineOf(s.db[i], s.db[j].user)
  {
    assert s.db[i].user == s.db[j].user ==> !s.db[i].online;
  }

  // ---------------------------------------------------------------- every run

  /** The next move is legal and keeps the invariant. */
  lemma MoveKeepsInv(y: System, m: Move)
    requires Inv(y) && CanMove(y, m)
    ensures Inv(Next(y, m)) && Legal(y.s, m.action)
  {
    var y' := Next(y, m);
    var t := m.thread;
    hide Safe, PointOk, CanGo, Legal, Apply;
    if t in y.at {
      OwnStepIsLegal(y.s, t, y.at[t], m.to, m.action);
      OwnStepKeepsPoint(y.s, t, y.at[t], m.to, m.action);
      OwnAction(y.s, t, y.at[t], m.to, m.action);
    } else {
      NewThread(y, t, m.to);
    }
    StepIsSafe(y.s, m.action);
    StepOwners(y.s, t, m.action);
    forall u | u in y'.at ensures PointOk(y'.s, u, y'.at[u]) {
      if u != t {
        OthersKeepPoint(y.s, m.action, u, y.at[u]);
      }
    }
  }

  lemma NewThread(y: System, t: nat, p: Point)
    requires Inv(y) && t !in y.at && IsStart(p)
    ensures PointOk(y.s, t, p) && Legal(y.s, Nothing) && Apply(y.s, Nothing) == y.s && !Inside(p)
    ensures forall u :: NotBy(u, Nothing)
  {
  }

  /** Only the thread that moves becomes the owner of a stream. */
  lemma StepOwners(s: State, t: nat, a: Action)
    requires forall u | u != t :: NotBy(u, a)
    ensures Apply(s, a).finished <= s.finished + {t} && Apply(s, a).keys.Keys <= s.keys.Keys + {t}
  {
    if a.Finish? || a.Register? {
      assert NotBy(a.h, a) ==> false;
    }
  }

  /** Every run of the threads is, step by step, a legal run of the session state. */
  lemma {:induction false} RunIsLegal(moves: seq<Move>)
    requires CanRun(START, moves)
    ensures Inv(Run(START, moves))
    ensures LegalRun(INIT, Actions(moves)) && Run(START, moves).s == Exec(INIT, Actions(moves))
  {
    if moves == [] {
    } else {
      var n := |moves| - 1;
      var before := moves[..n];
      RunIsLegal(before);
      MoveKeepsInv(Run(START, before), moves[n]);
      assert Actions(moves)[..n] == Actions(before);
    }
  }

  /** In every state that the threads can reach: no user whose records can all be written back is online twice, no two
      records share a triple, the stream map names only handlers that have not returned unless they changed their
      key, and at most one thread is between taking the lock and releasing it. */
  lemma EveryReachableStateIsSafe(moves: seq<Move>)
    requires CanRun(START, moves)
    ensures
      var y := Run(START, moves);
      && SingleLogin(y.s) && UniqueTriples(y.s) && RegisteredUsers(y.s) && RegistryLive(y.s) && StaleAreUnsteady(y.s)
      && forall t, u | t in y.at && u in y.at && Inside(y.at[t]) && Inside(y.at[u]) :: t == u
  {
    RunIsLegal(moves);
  }

  /** In particular, if no value contains a closing brace, no user is ever online twice. */
  lemma SingleLoginWithoutBraces(moves: seq<Move>)
    requires CanRun(START, moves)
    requires forall i | 0 <= i < |Run(START, moves).s.db| :: Writable(Run(START, moves).s.db[i])
    ensures
      var s := Run(START, moves).s;
      forall i, j | 0 <= i < j < |s.db| && s.db[i].user == s.db[j].user :: !s.db[i].online || !s.db[j].online
  {
    RunIsLegal(moves);
    SingleLoginOfPlainValues(Actions(moves));
  }

  // ---------------------------------------------------------------- one thread among the others

  /** Nothing was added, and no record was taken offline that kickOffOldUser and dying streams cannot write. */
  ghost predicate Steadfast(s: State, t: State) {
    && t.users == s.users && |t.db| == |s.db|
    && forall i | 0 <= i < |s.db| && i < |t.db| && s.db[i].online && !Writable(s.db[i]) :: t.db[i].online
  }

  /** What is certain about the state while a thread holds the lock and others move: only stream handlers do. */
  ghost predicate Guarded(s: State, t: State) {
    Steadfast(s, t) && t.written == s.written
  }

  /** What is certain about a thread while others move. */
  ghost predicate Undisturbed(t: nat, y: System, z: System) {
    && t in y.at && t in z.at && z.at[t] == y.at[t]
    && Evolves(y.s, z.s)
    && KeysOf(z.s, t) == KeysOf(y.s, t) && (t in z.s.finished <==> t in y.s.finished)
    && (forall k | k in z.s.streams && z.s.streams[k] == t :: k in y.s.streams && y.s.streams[k] == t)
    && (Inside(y.at[t]) ==> z.lock == y.lock && Guarded(y.s, z.s))
  }

  lemma OtherMove(t: nat, y: System, m: Move)
    requires Inv(y) && CanMove(y, m) && t in y.at && m.thread != t
    ensures Undisturbed(t, y, Next(y, m))
  {
    var z := Next(y, m);
    var u := m.thread;
    MoveKeepsInv(y, m);
    StepEvolves(y.s, m.action);
    hide Safe, Legal;
    if u in y.at {
      assert Inside(y.at[t]) ==> !Inside(y.at[u]);
      OwnAction(y.s, u, y.at[u], m.to, m.action);
      if !Inside(y.at[u]) && m.action.PutOffline? {
        OutsideWrites(y.s, u, y.at[u], m.to, m.action);
      }
    } else {
      NewThread(y, u, m.to);
    }
    OtherKeepsStreams(y.s, m.action, t);
  }

  lemma OutsideWrites(s: State, u: nat, p: Point, to: Point, a: Action)
    requires CanGo(s, u, p, to, a) && PointOk(s, u, p) && !Inside(p) && a.PutOffline?
    ensures a.id < |s.db| && Writable(s.db[a.id])
  {
  }

  lemma OtherKeepsStreams(s: State, a: Action, t: nat)
    requires NotBy(t, a)
    ensures var z := Apply(s, a);
      && KeysOf(z, t) == KeysOf(s, t) && (t in z.finished <==> t in s.finished)
      && forall k | k in z.streams && z.streams[k] == t :: k in s.streams && s.streams[k] == t
  {
  }

  lemma UndisturbedTrans(t: nat, x: System, y: System, z: System)
    requires Undisturbed(t, x, y) && Undisturbed(t, y, z)
    ensures Undisturbed(t, x, z)
  {
    EvolvesTrans(x.s, y.s, z.s);
  }

  /** Any moves of the others. */
  lemma {:induction false} OthersLeaveUndisturbed(t: nat, y: System, moves: seq<Move>)
    requires Inv(y) && t in y.at && CanRun(y, moves) && forall m | m in moves :: m.thread != t
    ensures Inv(Run(y, moves)) && Undisturbed(t, y, Run(y, moves))
  {
    if moves == [] {
      EvolvesSelf(y.s);
    } else {
      var n := |moves| - 1;
      var before := moves[..n];
      assert moves[n] in moves;
      OthersLeaveUndisturbed(t, y, before);
      OtherMove(t, Run(y, before), moves[n]);
      MoveKeepsInv(Run(y, before), moves[n]);
      UndisturbedTrans(t, y, Run(y, before), Run(y, moves));
    }
  }

  lemma EvolvesSelf(s: State)
    ensures Evolves(s, s)
  {
  }

  lemma {:induction false} AllEvolves(y: System, moves: seq<Move>)
    requires Inv(y) && CanRun(y, moves)
    ensures Inv(Run(y, moves)) && Evolves(y.s, Run(y, moves).s)
  {
    if moves == [] {
      EvolvesSelf(y.s);
    } else {
      var n := |moves| - 1;
      var before := moves[..n];
      AllEvolves(y, before);
      MoveKeepsInv(Run(y, before), moves[n]);
      StepEvolves(Run(y, before).s, moves[n].action);
      EvolvesTrans(y.s, Run(y, before).s, Run(y, moves).s);
    }
  }

  lemma {:induction false} RunAppend(y: System, a: seq<Move>, b: seq<Move>)
    requires CanRun(y, a) && CanRun(Run(y, a), b)
    ensures CanRun(y, a + b) && Run(y, a + b) == Run(Run(y, a), b)
    decreases |b|
  {
    if b == [] {
      assert a + b == a;
    } else {
      var n := |b| - 1;
      assert (a + b)[..|a + b| - 1] == a + b[..n];
      RunAppend(y, a, b[..n]);
    }
  }
}
