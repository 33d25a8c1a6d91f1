/** What the calls of the service rely on: how the state changes along the steps of one thread, and which moves a
    thread may make at its point. */
module SessionFacts {
  import opened Common
  import opened StringOrder
  import opened Session
  import opened SessionStreams
  import opened Protocol
  import opened ProtocolStreams
  import opened Replies

  predicate AtMostOneOnline(s: State, user: string) {
    forall i, j | 0 <= i < j < |s.db| && OnlineOf(s.db[i], user) :: !OnlineOf(s.db[j], user)
  }

  /** Every online record of the user can be written back. */
  predicate OnlineAreWritable(s: State, user: string) {
    forall i | 0 <= i < |s.db| && OnlineOf(s.db[i], user) :: Writable(s.db[i])
  }

  /** `ids` are writable records of `user` that were online in `s`, at most one. */
  predicate OneKicked(s: State, user: string, ids: seq<nat>) {
    && |ids| <= 1
    && forall k | 0 <= k < |ids| :: ids[k] < |s.db| && OnlineOf(s.db[ids[k]], user) && Writable(s.db[ids[k]])
  }

  /** The steps that take the records `ids` offline one by one, each followed by its signal. */
  function Kicks(db: seq<Record>, ids: seq<nat>): seq<Action>
    requires AllBelow(ids, |db|)
  {
    if ids == [] then []
    else
      var id := ids[|ids| - 1];
      Kicks(db, ids[..|ids| - 1]) + [PutOffline(id), Signal(KeyOf(db[id]))]
  }

  /** The keys that the messages of one stream register. */
  function KeysToRegister(ip: string, messages: seq<Params>): seq<string> {
    if messages == [] then []
    else
      var m := messages[|messages| - 1];
      KeysToRegister(ip, messages[..|messages| - 1]) + if m.mode == "-1" then [] else [StreamKey(m.user, ip, m.ltime)]
  }

  /** The last of them, or the empty string. */
  function LastKey(ip: string, messages: seq<Params>): string {
    var keys := KeysToRegister(ip, messages);
    if keys == [] then "" else keys[|keys| - 1]
  }

  /** From `s` to `t` the handler `h` has neither returned nor registered. */
  predicate SameHandler(h: Handle, s: State, t: State) {
    (h in t.finished <==> h in s.finished) && KeysOf(t, h) == KeysOf(s, h)
  }

  /** The new session is the last record, and the user's only online one exactly if those that were online could be
      written back, provided that they were at most one. */
  ghost predicate Replaced(s: State, t: State, c: Params, ip: Text) {
    var n := |s.db|;
    && |t.db| == n + 1 && t.db[n] == Record(c.user, ip, c.ltime, true)
    && (OnlyOnline(t, n) ==> OnlineAreWritable(s, c.user))
    && (AtMostOneOnline(s, c.user) && OnlineAreWritable(s, c.user) ==> OnlyOnline(t, n))
  }

  /** Record `n` is the only one of its user that is online. */
  predicate OnlyOnline(s: State, n: nat)
    requires n < |s.db|
  {
    forall i | 0 <= i < |s.db| && s.db[i].user == s.db[n].user :: s.db[i].online <==> i == n
  }

  /** What an answer says of the triple's record: 4 that it was online, 0 that it is not any more. */
  ghost predicate AnswerFits(s: State, t: State, c: Params, ip: Text, res: nat) {
    forall i | 0 <= i < |s.db| && i < |t.db| && SameTriple(s.db[i], c, ip) ::
      (res == 4 ==> s.db[i].online) && (res == 0 ==> !t.db[i].online)
  }

  // ---------------------------------------------------------------- in terms of what is stored

  /** The record of a session. */
  function SessionOf(c: Params, ip: Text, online: bool): Record {
    Record(c.user, ip, c.ltime, online)
  }

  lemma AcceptedMeans(s: State, c: Params)
    ensures SignedUp(s, c.user) <==> c.user in s.users && s.users[c.user] != ""
    ensures Accepted(s, c) <==> c.user in s.users && s.users[c.user] != "" && s.users[c.user] == c.passwd
  {
  }

  lemma UnseenMeans(s: State, c: Params, ip: Text)
    ensures Unseen(s, c, ip) <==> SessionOf(c, ip, true) !in s.db && SessionOf(c, ip, false) !in s.db
  {
    forall i | 0 <= i < |s.db| ensures SameTriple(s.db[i], c, ip) <==> s.db[i] == SessionOf(c, ip, s.db[i].online) {
    }
    if r :| r in s.db && (r == SessionOf(c, ip, true) || r == SessionOf(c, ip, false)) {
      var i :| 0 <= i < |s.db| && s.db[i] == r;
      assert SameTriple(s.db[i], c, ip);
    }
    forall i | 0 <= i < |s.db| && SameTriple(s.db[i], c, ip)
      ensures SessionOf(c, ip, true) in s.db || SessionOf(c, ip, false) in s.db
    {
      assert s.db[i] in s.db;
    }
  }

  lemma AnswerMeans(s: State, t: State, c: Params, ip: Text, res: nat)
    requires Evolves(s, t) && AnswerFits(s, t, c, ip, res)
    ensures res == 4 && !Unseen(s, c, ip) ==> SessionOf(c, ip, true) in s.db
    ensures res == 0 && |t.db| == |s.db| ==> SessionOf(c, ip, true) !in t.db
  {
    if res == 4 && !Unseen(s, c, ip) {
      var i :| 0 <= i < |s.db| && SameTriple(s.db[i], c, ip);
      assert s.db[i] == SessionOf(c, ip, true) && s.db[i] in s.db;
    }
    if res == 0 && |t.db| == |s.db| {
      forall i | 0 <= i < |t.db| ensures t.db[i] != SessionOf(c, ip, true) {
        assert SameTriple(s.db[i], c, ip) ==> !t.db[i].online;
      }
    }
  }

  /** What was kicked was the user's and online. */
  lemma KickedMeans(s: State, user: string, ids: seq<nat>)
    requires OneKicked(s, user, ids)
    ensures |ids| <= 1 && forall k | 0 <= k < |ids| ::
      ids[k] < |s.db| && s.db[ids[k]].user == user && s.db[ids[k]].online && Writable(s.db[ids[k]])
  {
  }

  /** Whom a sweep takes offline and whom it leaves, by the time, the user or without a condition. */
  lemma SweptMeans(s: State, t: State, f: Selection, ids: seq<nat>)
    requires SelectedOnce(s, f, ids) && |t.db| == |s.db|
    requires forall i | 0 <= i < |s.db| && Matches(s.db[i], f) :: !t.db[i].online
    ensures forall k | 0 <= k < |ids| :: ids[k] < |s.db| && s.db[ids[k]].online
    ensures f == Everyone ==> forall i | 0 <= i < |t.db| :: !t.db[i].online
    ensures f.Named? ==> forall i | 0 <= i < |t.db| && s.db[i].user == f.user :: !t.db[i].online
    ensures f.Named? ==> forall k | 0 <= k < |ids| :: s.db[ids[k]].user == f.user
    ensures f.Until? ==>
      forall i | 0 <= i < |t.db| && (s.db[i].ltime == f.ltime || SortsBefore(s.db[i].ltime, f.ltime)) ::
      !t.db[i].online
    ensures f.Until? ==> forall k | 0 <= k < |ids| :: !SortsBefore(f.ltime, s.db[ids[k]].ltime)
  {
    if f.Until? {
      forall i | 0 <= i < |s.db| {
        AtMostIff(s.db[i].ltime, f.ltime);
      }
    }
  }

  // ---------------------------------------------------------------- single steps

  /** With the lock, users and passwords stay. */
  lemma GuardedAnswers(s: State, t: State, c: Params)
    requires Guarded(s, t)
    ensures t.users == s.users && |t.db| == |s.db| && Steadfast(s, t)
    ensures (Accepted(t, c) <==> Accepted(s, c)) && (SignedUp(t, c.user) <==> SignedUp(s, c.user))
  {
  }

  lemma SteadfastTrans(s: State, t: State, u: State)
    requires Evolves(s, t) && Steadfast(s, t) && Steadfast(t, u)
    ensures Steadfast(s, u)
  {
  }

  lemma SteadfastFacts(s: State, t: State)
    requires Steadfast(s, t)
    ensures t.users == s.users && |t.db| == |s.db|
  {
  }

  lemma PasswordStored(s: State, c: Params)
    ensures
      var t := Apply(s, PutUser(c.user, c.passwd));
      t.users == s.users[c.user := c.passwd] && t.db == s.db
  {
  }

  lemma LoginAdded(s: State, c: Params, ip: Text)
    ensures
      Apply(s, AddLogin(c.user, ip, c.ltime)) == s.(db := s.db + [Record(c.user, ip, c.ltime, true)])
  {
  }

  lemma AfterTheKick(c: Params, ip: Text)
    ensures AfterKick(c, ip, true) == Adding(c, ip) && AfterKick(c, ip, false) == Answered(0)
  {
  }

  // ---------------------------------------------------------------- getStatus

  /** A triple has one record. */
  lemma OnlyOne(s: State, id: nat, c: Params, ip: Text)
    requires UniqueTriples(s) && id < |s.db| && SameTriple(s.db[id], c, ip)
    ensures forall i | 0 <= i < |s.db| && i != id :: !SameTriple(s.db[i], c, ip)
  {
    forall i | 0 <= i < |s.db| && i != id ensures !SameTriple(s.db[i], c, ip) {
      if i < id {
        assert !IsTriple(s.db[id], s.db[i].user, s.db[i].ip, s.db[i].ltime);
      } else {
        assert !IsTriple(s.db[i], s.db[id].user, s.db[id].ip, s.db[id].ltime);
      }
    }
  }

  lemma SeenEarlier(s: State, t: State, c: Params, ip: Text)
    requires Evolves(s, t) && |t.db| == |s.db|
    ensures Unseen(s, c, ip) <==> Unseen(t, c, ip)
  {
    forall i | 0 <= i < |s.db| ensures SameTriple(s.db[i], c, ip) <==> SameTriple(t.db[i], c, ip) {
    }
  }

  /** The one record of the triple decides the answer. */
  lemma StatusFits(s: State, t: State, c: Params, ip: Text, id: nat)
    requires UniqueTriples(s) && Evolves(s, t) && |t.db| == |s.db| && id < |t.db| && SameTriple(t.db[id], c, ip)
    ensures AnswerFits(s, t, c, ip, if t.db[id].online then 4 else 0) && !Unseen(s, c, ip)
  {
    assert SameTriple(s.db[id], c, ip);
    OnlyOne(s, id, c, ip);
  }

  lemma OtherFits(s: State, t: State, c: Params, ip: Text, res: nat)
    requires res != 0 && res != 4
    ensures AnswerFits(s, t, c, ip, res)
  {
  }

  lemma UnseenFits(s: State, t: State, c: Params, ip: Text, res: nat)
    requires Unseen(s, c, ip)
    ensures AnswerFits(s, t, c, ip, res)
  {
  }

  lemma FitsEarlier(s: State, t: State, u: State, c: Params, ip: Text, res: nat)
    requires Evolves(s, t) && Evolves(t, u) && AnswerFits(t, u, c, ip, res)
    ensures AnswerFits(s, u, c, ip, res)
  {
    forall i | 0 <= i < |s.db| && SameTriple(s.db[i], c, ip)
      ensures (res == 4 ==> s.db[i].online) && (res == 0 ==> !u.db[i].online)
    {
      assert SameTriple(t.db[i], c, ip);
    }
  }

  /** What a login's answer says afterwards. */
  lemma AnswerSeen(s: State, t: State, c: Params, ip: Text, res: nat)
    requires Evolves(s, t) && AnswerFits(s, t, c, ip, res)
    requires Unseen(s, c, ip) ==> res != 0 && (res == 4 ==> Replaced(s, t, c, ip))
    ensures res == 0 ==> exists i | 0 <= i < |t.db| && SameTriple(t.db[i], c, ip) :: !t.db[i].online
    ensures res == 4 ==> !Unseen(t, c, ip)
  {
    if Unseen(s, c, ip) {
      assert res == 4 ==> SameTriple(t.db[|s.db|], c, ip);
    } else {
      var i :| 0 <= i < |s.db| && SameTriple(s.db[i], c, ip);
      assert SameTriple(t.db[i], c, ip);
    }
  }

  // ---------------------------------------------------------------- kicks

  lemma NoKicks(db: seq<Record>)
    ensures Kicks(db, []) == []
  {
  }

  lemma NoneKicked(s: State, user: string)
    ensures OneKicked(s, user, [])
  {
  }

  lemma KickedBelow(s: State, t: State, user: string, kicked: seq<nat>)
    requires OneKicked(s, user, kicked) && Evolves(s, t)
    ensures AllBelow(kicked, |s.db|) && AllBelow(kicked, |t.db|)
  {
  }

  lemma OneKick(db: seq<Record>, id: nat)
    requires id < |db|
    ensures AllBelow([id], |db|) && Kicks(db, [id]) == [PutOffline(id), Signal(KeyOf(db[id]))]
  {
    assert [id][..0] == [];
  }

  lemma {:induction false} SameKicks(db: seq<Record>, db2: seq<Record>, ids: seq<nat>)
    requires |db| <= |db2| && forall i | 0 <= i < |db| :: KeyOf(db[i]) == KeyOf(db2[i])
    requires AllBelow(ids, |db|)
    ensures Kicks(db, ids) == Kicks(db2, ids)
  {
    if ids != [] {
      SameKicks(db, db2, ids[..|ids| - 1]);
    }
  }

  lemma KicksLater(s: State, t: State, ids: seq<nat>)
    requires Evolves(s, t) && AllBelow(ids, |s.db|)
    ensures AllBelow(ids, |t.db|) && Kicks(s.db, ids) == Kicks(t.db, ids)
  {
    SameKicks(s.db, t.db, ids);
  }

  /** A search that finds nothing to kick: records that cannot be written back stay online. */
  lemma NotKicked(s: State, t: State, user: string)
    requires Evolves(s, t) && Steadfast(s, t) && MayFindNoKick(t, user)
    ensures NoneOnline(t, user) ==> OnlineAreWritable(s, user)
    ensures OnlineAreWritable(s, user) ==> NoneOnline(t, user)
    ensures OneKicked(s, user, [])
  {
    forall i | 0 <= i < |s.db| && OnlineOf(s.db[i], user) && !Writable(s.db[i]) ensures OnlineOf(t.db[i], user) {
    }
    forall i | 0 <= i < |t.db| && OnlineOf(t.db[i], user) && !Writable(t.db[i])
      ensures OnlineOf(s.db[i], user) && !Writable(s.db[i])
    {
    }
  }

  /** A kick of the record that was found: a single one that can be written back is not left. */
  lemma Kicked(s0: State, s1: State, s2: State, user: string, id: nat)
    requires Evolves(s0, s1) && Evolves(s1, s2) && Steadfast(s0, s1) && Steadfast(s1, s2)
    requires id < |s1.db| && OnlineOf(s1.db[id], user) && Writable(s1.db[id]) && id < |s2.db| && !s2.db[id].online
    ensures NoneOnline(s2, user) ==> OnlineAreWritable(s0, user)
    ensures AtMostOneOnline(s0, user) ==> NoneOnline(s2, user)
    ensures OneKicked(s0, user, [id])
  {
    forall i | 0 <= i < |s0.db| && OnlineOf(s0.db[i], user) && !Writable(s0.db[i]) ensures OnlineOf(s2.db[i], user) {
      assert OnlineOf(s1.db[i], user) && !Writable(s1.db[i]);
    }
    assert OnlineOf(s0.db[id], user);
    if AtMostOneOnline(s0, user) {
      forall i | 0 <= i < |s2.db| && s2.db[i].user == user ensures !s2.db[i].online {
        assert i != id ==> !OnlineOf(s0.db[i], user);
      }
    }
  }

  /** A write and a signal, with stream handlers in between. */
  lemma KickChain(s0: State, s1: State, s2: State, s3: State, s4: State, id: nat, key: string)
    requires Evolves(s0, s1) && Guarded(s0, s1) && s2 == Apply(s1, PutOffline(id))
    requires Evolves(s2, s3) && Guarded(s2, s3) && s4 == Apply(s3, Signal(key))
    requires id < |s0.db|
    ensures Evolves(s0, s4) && s4.users == s0.users && |s4.db| == |s0.db|
    ensures !s4.db[id].online && KeyOf(s4.db[id]) == KeyOf(s0.db[id])
    ensures Writable(s0.db[id]) ==> Steadfast(s0, s4)
  {
  }

  /** While only stream handlers move, what is said of the user's online records does not depend on when it is said. */
  lemma EarlierToo(s: State, t: State, user: string, kicked: seq<nat>)
    requires Evolves(s, t) && Steadfast(s, t)
    ensures OnlineAreWritable(s, user) <==> OnlineAreWritable(t, user)
    ensures AtMostOneOnline(s, user) ==> AtMostOneOnline(t, user)
    ensures OneKicked(t, user, kicked) ==> OneKicked(s, user, kicked)
  {
    forall i | 0 <= i < |s.db| && OnlineOf(s.db[i], user) && !Writable(s.db[i])
      ensures OnlineOf(t.db[i], user) && !Writable(t.db[i])
    {
    }
    forall i | 0 <= i < |t.db| && OnlineOf(t.db[i], user)
      ensures OnlineOf(s.db[i], user) && (Writable(t.db[i]) <==> Writable(s.db[i]))
    {
    }
  }

  /** Each of the records was signalled under its key from move `from` on. */
  ghost predicate AllSignalled(log: seq<Move>, from: nat, s: State, ids: seq<nat>) {
    forall k | 0 <= k < |ids| :: ids[k] < |s.db| && Signalled(log, from, KeyOf(s.db[ids[k]]), s)
  }

  lemma NoneSignalled(log: seq<Move>, from: nat, s: State)
    ensures AllSignalled(log, from, s, [])
  {
  }

  lemma OneSignalled(log: seq<Move>, from: nat, s: State, id: nat, from': nat)
    requires id < |s.db| && Signalled(log, from, KeyOf(s.db[id]), s) && from' <= from
    ensures AllSignalled(log, from', s, [id])
  {
    EvolvesSelf(s);
    SignalStays(log, from, KeyOf(s.db[id]), s, log, from', s);
  }

  lemma OneMoreSignalled(log: seq<Move>, from: nat, s: State, ids: seq<nat>, n: nat)
    requires n < |ids| && AllSignalled(log, from, s, ids[..n])
    requires ids[n] < |s.db| && Signalled(log, from, KeyOf(s.db[ids[n]]), s)
    ensures AllSignalled(log, from, s, ids[..n + 1])
  {
    hide Signalled, KeyOf;
  }

  lemma StaySignalled(log: seq<Move>, from: nat, s: State, ids: seq<nat>, log': seq<Move>, from': nat, s': State)
    requires AllSignalled(log, from, s, ids) && log <= log' && from' <= from && Evolves(s, s')
    ensures AllSignalled(log', from', s', ids)
  {
    forall k | 0 <= k < |ids| ensures ids[k] < |s'.db| && Signalled(log', from', KeyOf(s'.db[ids[k]]), s') {
      SignalStays(log, from, KeyOf(s.db[ids[k]]), s, log', from', s');
    }
  }

  /** If nobody touched the key of such a record since a handler registered it, that handler's stream was written to. */
  lemma KickedIsReached(log: seq<Move>, from: nat, ids: seq<nat>, k: nat, i: nat, h: Handle)
    requires CanRun(START, log) && i < from <= |log| && k < |ids|
    requires AllSignalled(log, from, Run(START, log).s, ids)
    requires log[i].action == Register(h, KeyOf(Run(START, log).s.db[ids[k]]))
    requires forall j | i < j < |log| :: !Touches(log[j].action, KeyOf(Run(START, log).s.db[ids[k]]))
    ensures
      var sent, written := |Run(START, log[..from]).s.written|, Run(START, log).s.written;
      exists w | sent <= w < |written| :: written[w] == h
  {
    UntouchedIsReached(log, i, from, h, KeyOf(Run(START, log).s.db[ids[k]]));
  }

  /** After the kick the new record is added. */
  lemma AddedReplaces(s0: State, s1: State, s2: State, s3: State, c: Params, ip: Text)
    requires Evolves(s0, s1) && Evolves(s1, s2) && Steadfast(s0, s1) && Steadfast(s1, s2)
    requires s3 == Apply(s2, AddLogin(c.user, ip, c.ltime))
    requires AtMostOneOnline(s0, c.user) && OnlineAreWritable(s0, c.user) ==> NoneOnline(s1, c.user)
    ensures Replaced(s0, s3, c, ip) && s3.users == s0.users
  {
    forall i | 0 <= i < |s0.db| && OnlineOf(s0.db[i], c.user) && !Writable(s0.db[i])
      ensures OnlineOf(s3.db[i], c.user)
    {
      assert OnlineOf(s1.db[i], c.user) && !Writable(s1.db[i]);
      assert OnlineOf(s2.db[i], c.user);
    }
    forall i | 0 <= i < |s2.db| && OnlineOf(s2.db[i], c.user) ensures OnlineOf(s1.db[i], c.user) {
    }
  }

  lemma ReplacedAfter(s0: State, s1: State, t: State, c: Params, ip: Text, kicked: seq<nat>)
    requires Evolves(s0, s1) && Steadfast(s0, s1) && Replaced(s1, t, c, ip) && OneKicked(s1, c.user, kicked)
    ensures Replaced(s0, t, c, ip) && OneKicked(s0, c.user, kicked)
  {
    EarlierToo(s0, s1, c.user, kicked);
  }

  // ---------------------------------------------------------------- sweeps

  lemma AllInTodo(s: State, f: Selection, ids: seq<nat>, todo: seq<Found>)
    requires AllBelow(ids, |s.db|) && forall k | 0 <= k < |ids| :: Selected(s.db[ids[k]], f)
    requires forall i | 0 <= i < |s.db| && Selected(s.db[i], f) :: i in ids
    requires |todo| == |ids| && forall k | 0 <= k < |ids| :: todo[k] == Found(ids[k], KeyOf(s.db[ids[k]]))
    ensures AreHits(s, f, todo)
  {
    forall i | 0 <= i < |s.db| && Selected(s.db[i], f) ensures Found(i, KeyOf(s.db[i])) in todo {
      var k :| 0 <= k < |ids| && ids[k] == i;
      assert todo[k] == Found(i, KeyOf(s.db[i]));
    }
  }

  /** `ids` are the records that `f` selected in `s`, each once. */
  ghost predicate SelectedOnce(s: State, f: Selection, ids: seq<nat>) {
    && AllBelow(ids, |s.db|) && (forall k | 0 <= k < |ids| :: Selected(s.db[ids[k]], f))
    && forall j, k | 0 <= j < k < |ids| :: ids[j] != ids[k]
  }

  ghost predicate AllOffline(s: State, ids: seq<nat>) {
    forall i | i in ids :: i < |s.db| && !s.db[i].online
  }

  /** What was selected when the sweep got the lock is offline at its end. */
  lemma SweptAll(s0: State, s1: State, s2: State, f: Selection, ids: seq<nat>)
    requires Evolves(s0, s1) && Evolves(s1, s2) && Guarded(s0, s1) && SelectedOnce(s1, f, ids)
    requires s2.users == s1.users && |s2.db| == |s1.db| && AllOffline(s2, ids)
    requires forall i | 0 <= i < |s1.db| && Selected(s1.db[i], f) :: i in ids
    ensures Evolves(s0, s2) && s2.users == s0.users && |s2.db| == |s0.db|
    ensures SelectedOnce(s0, f, ids)
    ensures forall i | 0 <= i < |s0.db| && Matches(s0.db[i], f) :: !s2.db[i].online
  {
    forall i | 0 <= i < |s0.db| && Matches(s0.db[i], f) ensures !s2.db[i].online {
      assert Matches(s1.db[i], f);
    }
  }

  /** The first `n` hits of a sweep are offline and signalled; `steps` are the steps that did it. */
  ghost predicate SweptSoFar(s0: State, s: State, log: seq<Move>, from: nat, ids: seq<nat>, n: nat,
      steps: seq<Action>) {
    && n <= |ids| && AllBelow(ids, |s0.db|)
    && Evolves(s0, s) && s.users == s0.users && |s.db| == |s0.db|
    && AllOffline(s, ids[..n]) && AllSignalled(log, from, s, ids[..n])
    && steps == Kicks(s0.db, ids[..n])
  }

  lemma SweepBegins(s0: State, log: seq<Move>, ids: seq<nat>)
    requires AllBelow(ids, |s0.db|)
    ensures SweptSoFar(s0, s0, log, |log|, ids, 0, [])
    ensures forall k | 0 <= k < |ids| :: ids[k] < |s0.db|
  {
  }

  lemma SweepGoesOn(s0: State, s1: State, s2: State, log1: seq<Move>, log2: seq<Move>, from: nat, ids: seq<nat>, n: nat,
                    steps: seq<Action>, key: string)
    requires SweptSoFar(s0, s1, log1, from, ids, n, steps) && n < |ids| && log1 <= log2
    requires Evolves(s1, s2) && s2.users == s1.users && |s2.db| == |s1.db|
    requires ids[n] < |s2.db| && !s2.db[ids[n]].online
    requires ids[n] < |s0.db| && key == KeyOf(s0.db[ids[n]])
    requires Signalled(log2, from, key, s2)
    ensures SweptSoFar(s0, s2, log2, from, ids, n + 1, steps + [PutOffline(ids[n]), Signal(key)])
  {
    EvolvesTrans(s0, s1, s2);
    StaySignalled(log1, from, s1, ids[..n], log2, from, s2);
    assert KeyOf(s2.db[ids[n]]) == key;
    hide Evolves, Signalled, AllSignalled;
    OneMoreSignalled(log2, from, s2, ids, n);
    OneMoreOffline(s1, s2, ids, n);
    assert ids[..n + 1][..n] == ids[..n];
  }

  lemma OneMoreOffline(s: State, t: State, ids: seq<nat>, n: nat)
    requires Evolves(s, t) && |t.db| == |s.db| && n < |ids| && AllOffline(s, ids[..n])
    requires ids[n] < |t.db| && !t.db[ids[n]].online
    ensures AllOffline(t, ids[..n + 1])
  {
    assert ids[..n + 1] == ids[..n] + [ids[n]];
  }

  lemma SweepEnds(s0: State, s: State, log: seq<Move>, from: nat, ids: seq<nat>, steps: seq<Action>)
    requires SweptSoFar(s0, s, log, from, ids, |ids|, steps)
    ensures Evolves(s0, s) && s.users == s0.users && |s.db| == |s0.db|
    ensures AllOffline(s, ids) && AllSignalled(log, from, s, ids)
    ensures AllBelow(ids, |s.db|) && steps == Kicks(s.db, ids)
  {
    assert ids[..|ids|] == ids;
    KicksLater(s0, s, ids);
  }

  lemma SelectedBelow(s: State, f: Selection, ids: seq<nat>)
    requires SelectedOnce(s, f, ids)
    ensures AllBelow(ids, |s.db|)
  {
  }

  // ---------------------------------------------------------------- stream handlers

  lemma NoMessages(h: Handle, ip: string)
    ensures KeysToRegister(ip, []) == [] && LastKey(ip, []) == "" && Registered([], h) == []
  {
  }

  lemma OneMore(h: Handle, ip: string, messages: seq<Params>)
    requires messages != []
    ensures
      var m, before := messages[|messages| - 1], messages[..|messages| - 1];
      var key := StreamKey(m.user, ip, m.ltime);
      && KeysToRegister(ip, messages) == KeysToRegister(ip, before) + (if m.mode == "-1" then [] else [key])
      && LastKey(ip, messages) == (if m.mode == "-1" then LastKey(ip, before) else key)
      && Registered(KeysToRegister(ip, messages), h) ==
           Registered(KeysToRegister(ip, before), h) + (if m.mode == "-1" then [] else [Register(h, key)])
  {
    var m, before := messages[|messages| - 1], messages[..|messages| - 1];
    var keys, key := KeysToRegister(ip, before), StreamKey(m.user, ip, m.ltime);
    assert (keys + [key])[..|keys|] == keys && (keys + [key])[|keys|] == key;
    assert keys + [] == keys && Registered(keys, h) + [] == Registered(keys, h);
  }

  lemma KeyRegistered(h: Handle, key: string, s0: State, s1: State)
    requires Evolves(s0, s1) && SameHandler(h, s0, s1)
    ensures
      var s2 := Apply(s1, Register(h, key));
      KeysOf(s2, h) == KeysOf(s0, h) + [key] && (h in s2.finished <==> h in s0.finished)
  {
  }

  /** Records of the triple that existed in `s` and can be written back are offline in `t`. */
  ghost predicate TripleOffline(s: State, t: State, c: Params, ip: Text) {
    && |s.db| <= |t.db|
    && forall i | 0 <= i < |s.db| && SameTriple(s.db[i], c, ip) && Writable(s.db[i]) :: !t.db[i].online
  }

  /** What the search of a dying stream comes to: `write` tells that it found record `id` to write back. */
  ghost predicate Sought(s: State, c: Params, ip: Text, write: bool, id: nat) {
    if write then id < |s.db| && OnlineTriple(s.db[id], c, ip) && Writable(s.db[id]) else MayFindNoSession(s, c, ip)
  }

  /** The step that a dying stream takes on the session it sought. */
  ghost predicate KickOf(s: State, c: Params, ip: Text, kick: seq<Action>) {
    && |kick| <= 1
    && (kick != [] <==> exists i | 0 <= i < |s.db| && OnlineTriple(s.db[i], c, ip) :: Writable(s.db[i]))
    && forall a | a in kick :: a.PutOffline? && a.id < |s.db| && OnlineTriple(s.db[a.id], c, ip)
  }

  /** So it takes one exactly if the session is stored as online and can be written back, and takes that one offline. */
  lemma LeaveMeans(s: State, c: Params, ip: Text, kick: seq<Action>)
    requires KickOf(s, c, ip, kick)
    ensures kick != [] <==> SessionOf(c, ip, true) in s.db && Writable(SessionOf(c, ip, true))
    ensures kick != [] ==> exists i | 0 <= i < |s.db| && s.db[i] == SessionOf(c, ip, true) :: kick == [PutOffline(i)]
  {
    forall i | 0 <= i < |s.db| ensures OnlineTriple(s.db[i], c, ip) <==> s.db[i] == SessionOf(c, ip, true) {
    }
    if kick != [] {
      assert kick == [kick[0]] && kick[0] in kick;
    }
  }

  /** The triple has one record, so that is the one the search finds if it is online. */
  lemma SoughtIsKicked(s: State, c: Params, ip: Text, write: bool, id: nat)
    requires UniqueTriples(s) && Sought(s, c, ip, write, id)
    ensures KickOf(s, c, ip, if write then [PutOffline(id)] else [])
  {
    if write {
      assert OnlineTriple(s.db[id], c, ip) && Writable(s.db[id]);
    } else if i :| 0 <= i < |s.db| && OnlineTriple(s.db[i], c, ip) && !Writable(s.db[i]) {
      OnlyOne(s, i, c, ip);
    }
  }

  lemma LeftAlone(s0: State, s1: State, c: Params, ip: Text, id: nat)
    requires Evolves(s0, s1) && UniqueTriples(s1) && Sought(s1, c, ip, false, id)
    ensures TripleOffline(s0, s1, c, ip)
  {
    SoughtIsKicked(s1, c, ip, false, id);
    forall i | 0 <= i < |s0.db| && SameTriple(s0.db[i], c, ip) && Writable(s0.db[i]) ensures !s1.db[i].online {
      assert Writable(s1.db[i]) && (OnlineTriple(s1.db[i], c, ip) <==> s1.db[i].online);
    }
  }

  lemma WrittenBack(s0: State, s1: State, s2: State, c: Params, ip: Text, id: nat)
    requires Evolves(s0, s1) && Evolves(s1, s2) && UniqueTriples(s1) && Sought(s1, c, ip, true, id)
    ensures var s3 := Apply(s2, PutOffline(id)); Evolves(s1, s3) && TripleOffline(s0, s3, c, ip)
  {
    var s3 := Apply(s2, PutOffline(id));
    assert Evolves(s1, s3);
    OnlyOne(s1, id, c, ip);
    forall i | 0 <= i < |s0.db| && SameTriple(s0.db[i], c, ip) && Writable(s0.db[i]) ensures !s3.db[i].online {
      assert SameTriple(s1.db[i], c, ip);
    }
  }

  lemma StaysOffline(s: State, t: State, u: State, c: Params, ip: Text)
    requires Evolves(t, u) && TripleOffline(s, t, c, ip)
    ensures TripleOffline(s, u, c, ip)
  {
  }

  lemma SameHandlerStep(h: Handle, s0: State, s1: State, a: Action)
    requires SameHandler(h, s0, s1) && !a.Register? && !a.Finish?
    ensures SameHandler(h, s0, Apply(s1, a))
  {
  }

  lemma SameHandlerTrans(h: Handle, s: State, t: State, u: State)
    requires SameHandler(h, s, t) && SameHandler(h, t, u)
    ensures SameHandler(h, s, u)
  {
  }

  lemma HandlerFacts(h: Handle, s: State, t: State)
    requires SameHandler(h, s, t)
    ensures KeysOf(t, h) == KeysOf(s, h) && (h in t.finished <==> h in s.finished)
  {
  }

  lemma EntryErased(t: nat, key: string, s0: State, s1: State)
    requires SameHandler(t, s0, s1)
    ensures var s2 := Apply(s1, Deregister(t, key)); KeysOf(s2, t) == KeysOf(s0, t) && key !in s2.streams
  {
  }

  lemma HandlerReturned(t: nat, s0: State, s1: State)
    requires SameHandler(t, s0, s1)
    ensures var s2 := Apply(s1, Finish(t)); KeysOf(s2, t) == KeysOf(s0, t) && t in s2.finished
  {
  }

  // ---------------------------------------------------------------- which moves a thread may make

  /** The points at which a thread holds the lock. */
  lemma Holding(p: Point)
    ensures p.Passwd? || p.NewUser? || p.SeenBefore? || p.KickSearch? || p.KickWrite? || p.KickSignal? ==> Inside(p)
    ensures p.Adding? || p.Answered? || p.SweepSearch? || p.SweepWrite? || p.SweepSignal? ==> Inside(p)
  {
  }

  lemma MayBegin(y: System, t: nat, p: Point)
    requires t !in y.at
    ensures p.Calling? || p.Sweeping? ==> CanMove(y, Move(t, p, Nothing))
    ensures p.Reading? && p == Reading(p.ip, "", NOBODY, "") ==> CanMove(y, Move(t, p, Nothing))
  {
  }

  lemma MayLock(y: System, t: nat)
    requires t in y.at && y.lock == None
    ensures
      match y.at[t]
      case Calling(call, c, ip) => CanMove(y, Move(t, Passwd(call, c, ip), Nothing))
      case Sweeping(f) => CanMove(y, Move(t, SweepSearch(f), Nothing))
      case _ => true
  {
  }

  lemma MayUnlock(y: System, t: nat)
    requires t in y.at
    ensures
      match y.at[t]
      case Answered(res) =>
        CanMove(y, Move(t, Returned(res), Nothing)) && Next(y, Move(t, Returned(res), Nothing)).lock == None
      case SweepWrite(todo) =>
        todo == [] ==> CanMove(y, Move(t, Swept, Nothing)) && Next(y, Move(t, Swept, Nothing)).lock == None
      case _ => true
  {
  }

  lemma MayLookUp(y: System, t: nat)
    requires t in y.at && y.at[t].Passwd?
    ensures
      var call, c, ip := y.at[t].call, y.at[t].c, y.at[t].ip;
      if call.SignUpCall? then CanMove(y, Move(t, if SignedUp(y.s, c.user) then Answered(2) else NewUser(c), Nothing))
      else if !Accepted(y.s, c) then CanMove(y, Move(t, Answered(3), Nothing))
      else CanMove(y, Move(t, if call.LogoutCall? then KickSearch(c, ip, false) else SeenBefore(call, c, ip), Nothing))
  {
  }

  lemma MayStore(y: System, t: nat, c: Params)
    requires t in y.at && y.at[t] == NewUser(c)
    ensures CanMove(y, Move(t, Answered(1), PutUser(c.user, c.passwd)))
  {
  }

  lemma MayTell(y: System, t: nat, call: Call, c: Params, ip: Text, id: nat)
    requires t in y.at && y.at[t] == SeenBefore(call, c, ip) && id < |y.s.db| && SameTriple(y.s.db[id], c, ip)
    ensures CanMove(y, Move(t, Answered(if y.s.db[id].online then 4 else 0), Nothing))
  {
  }

  lemma MayMiss(y: System, t: nat, call: Call, c: Params, ip: Text)
    requires t in y.at && y.at[t] == SeenBefore(call, c, ip) && Unseen(y.s, c, ip)
    ensures CanMove(y, Move(t, if call.LoginCall? then KickSearch(c, ip, true) else Answered(0), Nothing))
  {
  }

  lemma MaySkipKick(y: System, t: nat, c: Params, ip: Text, add: bool)
    requires t in y.at && y.at[t] == KickSearch(c, ip, add) && MayFindNoKick(y.s, c.user)
    ensures CanMove(y, Move(t, AfterKick(c, ip, add), Nothing))
  {
  }

  lemma MayFindKick(y: System, t: nat, c: Params, ip: Text, add: bool, id: nat)
    requires t in y.at && y.at[t] == KickSearch(c, ip, add)
    requires id < |y.s.db| && OnlineOf(y.s.db[id], c.user) && Writable(y.s.db[id])
    ensures CanMove(y, Move(t, KickWrite(c, ip, add, Found(id, KeyOf(y.s.db[id]))), Nothing))
  {
  }

  lemma MayKick(y: System, t: nat)
    requires t in y.at
    ensures
      match y.at[t]
      case KickWrite(c, ip, add, found) => CanMove(y, Move(t, KickSignal(c, ip, add, found), PutOffline(found.id)))
      case KickSignal(c, ip, add, found) => CanMove(y, Move(t, AfterKick(c, ip, add), Signal(found.key)))
      case _ => true
  {
  }

  lemma MayAdd(y: System, t: nat, c: Params, ip: Text)
    requires t in y.at && y.at[t] == Adding(c, ip)
    ensures CanMove(y, Move(t, Answered(4), AddLogin(c.user, ip, c.ltime)))
  {
  }

  lemma MayList(y: System, t: nat, f: Selection, todo: seq<Found>)
    requires t in y.at && y.at[t] == SweepSearch(f) && AreHits(y.s, f, todo)
    ensures CanMove(y, Move(t, SweepWrite(todo), Nothing))
  {
  }

  lemma MaySweep(y: System, t: nat)
    requires t in y.at
    ensures
      match y.at[t]
      case SweepWrite(todo) => todo != [] ==> CanMove(y, Move(t, SweepSignal(todo), PutOffline(todo[0].id)))
      case SweepSignal(todo) => todo != [] ==> CanMove(y, Move(t, SweepWrite(todo[1..]), Signal(todo[0].key)))
      case _ => true
  {
  }

  lemma MayRead(y: System, t: nat, m: Params)
    requires t in y.at && y.at[t].Reading?
    ensures
      var ip, key := y.at[t].ip, y.at[t].key;
      var k := StreamKey(m.user, ip, m.ltime);
      if m.mode == "-1" then CanMove(y, Move(t, Reading(ip, key, m, ip), Nothing))
      else CanMove(y, Move(t, Reading(ip, k, m, ip), Register(t, k)))
    ensures CanMove(y, Move(t, Dying(y.at[t].key, y.at[t].info, y.at[t].infoIp), Nothing))
  {
  }

  lemma MayDie(y: System, t: nat, key: string, c: Params, ip: Text, write: bool, id: nat)
    requires t in y.at && y.at[t] == Dying(key, c, ip) && Sought(y.s, c, ip, write, id)
    ensures CanMove(y, Move(t, if write then DyingWrite(key, id) else Leaving(key), Nothing))
  {
  }

  lemma MayLeave(y: System, t: nat)
    requires t in y.at
    ensures
      match y.at[t]
      case DyingWrite(key, id) => CanMove(y, Move(t, Leaving(key), PutOffline(id)))
      case Leaving(key) => CanMove(y, Move(t, Left(key), Deregister(t, key)))
      case Left(key) => CanMove(y, Move(t, Gone, Finish(t)))
      case _ => true
  {
  }
}
