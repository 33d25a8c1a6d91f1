/** The service's calls, each as the moves of one thread between which the other threads make theirs. Every move is
    one that the protocol allows, and what others may do in between is whatever the protocol allows them. */
module SessionServer {
  import opened Common
  import opened StringOrder
  import opened Session
  import opened SessionStreams
  import opened Protocol
  import opened ProtocolStreams
  import opened Replies
  import opened SessionFacts
  import HitList

  /** Brings any element to the front. */
  method AnyFirst(ids: seq<nat>) returns (r: seq<nat>)
    ensures |r| == |ids| && forall i :: i in r <==> i in ids
    ensures (forall j, k | 0 <= j < k < |ids| :: ids[j] != ids[k]) ==> forall j, k | 0 <= j < k < |r| :: r[j] != r[k]
  {
    var first: int := *;
    if !(0 <= first < |ids|) {
      return ids;
    }
    r := ids[first..] + ids[..first];
    assert ids == ids[..first] + ids[first..];
  }

  /** Reads a reply with getAllUser, and takes each hit's key from the values that were read. */
  method ReadHits(l: Layout, db: seq<Record>, ids: seq<nat>) returns (todo: seq<Found>)
    requires LayoutOk(l) && AllBelow(ids, |db|)
    ensures |todo| == |ids| && forall k | 0 <= k < |ids| :: todo[k] == Found(ids[k], KeyOf(db[ids[k]]))
  {
    hide HitList.Docs, Reply, OfflineText, KeyOf, LayoutOk;
    var ok, docs := HitList.GetAllUser(Reply(l, db, ids));
    SweepReply(l, db, ids);
    todo := [];
    for n := 0 to |ids|
      invariant |todo| == n && forall k | 0 <= k < n :: todo[k] == Found(ids[k], KeyOf(db[ids[k]]))
    {
      assert docs[n].source + HitList.OFFLINE_TAIL == OfflineText(db[ids[n]]);
      todo := todo + [Found(ids[n], docs[n].user + docs[n].ip + docs[n].ltime)];
    }
  }

  class Server {
    const layout: Layout
    var y: System
    ghost var log: seq<Move>       // every move since the service started
    ghost var mine: seq<Action>    // the steps of the session state taken by the calls on this object

    ghost predicate Valid()
      reads this
    {
      CanRun(START, log) && Run(START, log) == y && LayoutOk(layout)
    }

    constructor (layout: Layout)
      requires LayoutOk(layout)
      ensures Valid() && y == START && mine == [] && this.layout == layout
    {
      this.layout := layout;
      y, log, mine := START, [], [];
    }

    /** Every state the service is ever in is safe. */
    lemma ValidIsSafe()
      requires Valid()
      ensures Inv(y) && Safe(y.s)
    {
      RunIsLegal(log);
    }

    lemma ValidIsUnique()
      requires Valid()
      ensures UniqueTriples(y.s)
    {
      ValidIsSafe();
    }

    lemma RunOfLog()
      requires Valid()
      ensures Run(START, log) == y
    {
    }

    lemma LayoutIsOk()
      requires Valid()
      ensures LayoutOk(layout)
    {
    }

    lemma NewHandler(t: nat)
      requires Valid() && t !in y.at
      ensures t !in y.s.finished && KeysOf(y.s, t) == []
    {
      ValidIsSafe();
    }

    lemma ReturnedLeavesNothing(t: nat)
      requires Valid() && t in y.s.finished
      ensures Steady(KeysOf(y.s, t)) ==> forall k | k in y.s.streams :: y.s.streams[k] != t
    {
      ValidIsSafe();
    }

    // -------------------------------------------------------------- moves

    /** One move of the thread `t`. */
    method Do(t: nat, to: Point, a: Action)
      requires Valid() && CanMove(y, Move(t, to, a))
      modifies this
      ensures Valid() && y == Next(old(y), Move(t, to, a)) && log == old(log) + [Move(t, to, a)]
      ensures y.s == Apply(old(y.s), a) && (a == Nothing ==> y.s == old(y.s)) && t in y.at && y.at[t] == to
      ensures mine == if a == Nothing then old(mine) else old(mine) + [a]
      ensures Evolves(old(y.s), y.s) && Inv(y)
    {
      ValidIsSafe();
      MoveKeepsInv(y, Move(t, to, a));
      StepEvolves(y.s, a);
      log, y := log + [Move(t, to, a)], Next(y, Move(t, to, a));
      mine := if a == Nothing then mine else mine + [a];
      assert log[..|log| - 1] == old(log);
    }

    /** The move that signals a key: the handler that the key names is written to. */
    method DoSignal(t: nat, to: Point, key: string)
      requires Valid() && CanMove(y, Move(t, to, Signal(key)))
      modifies this
      ensures Valid() && old(log) <= log && y.s == Apply(old(y.s), Signal(key)) && t in y.at && y.at[t] == to
      ensures mine == old(mine) + [Signal(key)]
      ensures Evolves(old(y.s), y.s) && Signalled(log, |old(log)|, key, y.s)
    {
      hide *;
      RunOfLog();
      SignalNow(log, Move(t, to, Signal(key)), key);
      Do(t, to, Signal(key));
    }

    /** Any moves of the other threads. */
    method Others(t: nat)
      requires Valid() && t in y.at
      modifies this
      ensures Valid() && Inv(y) && mine == old(mine) && old(log) <= log
      ensures Undisturbed(t, old(y), y)
      ensures t in y.at && y.at[t] == old(y).at[t] && Evolves(old(y.s), y.s) && SameHandler(t, old(y.s), y.s)
    {
      var more: seq<Move> := *;
      if !CanRun(y, more) || exists m | m in more :: m.thread == t {
        more := [];
      }
      ValidIsSafe();
      OthersLeaveUndisturbed(t, y, more);
      RunAppend(START, log, more);
      log, y := log + more, Run(y, more);
    }

    /** What the others can do while the thread holds the lock. */
    method Streams(t: nat)
      requires Valid() && t in y.at && Inside(y.at[t])
      modifies this
      ensures Valid() && mine == old(mine) && old(log) <= log
      ensures t in y.at && y.at[t] == old(y.at)[t] && Evolves(old(y.s), y.s) && Guarded(old(y.s), y.s)
    {
      hide Valid, Inv;
      Others(t);
    }

    /** Any moves of any threads. */
    method Anyone()
      requires Valid()
      modifies this
      ensures Valid() && Inv(y) && mine == old(mine) && old(log) <= log
      ensures Evolves(old(y.s), y.s)
    {
      var more: seq<Move> := *;
      if !CanRun(y, more) {
        more := [];
      }
      ValidIsSafe();
      AllEvolves(y, more);
      RunAppend(START, log, more);
      log, y := log + more, Run(y, more);
    }

    // -------------------------------------------------------------- searches

    /** A search: the records that `f` selects, in any order as far as the first is concerned. */
    method Search(f: Record -> bool) returns (ids: seq<nat>)
      ensures AllBelow(ids, |y.s.db|) && forall k | 0 <= k < |ids| :: f(y.s.db[ids[k]])
      ensures forall i | 0 <= i < |y.s.db| && f(y.s.db[i]) :: i in ids
      ensures forall j, k | 0 <= j < k < |ids| :: ids[j] != ids[k]
    {
      ids := [];
      for n := 0 to |y.s.db|
        invariant AllBelow(ids, n) && forall k | 0 <= k < |ids| :: f(y.s.db[ids[k]])
        invariant forall i | 0 <= i < n && f(y.s.db[i]) :: i in ids
        invariant forall j, k | 0 <= j < k < |ids| :: ids[j] != ids[k]
      {
        if f(y.s.db[n]) {
          ids := ids + [n];
        }
      }
      ghost var found := ids;
      ids := AnyFirst(ids);
      assert forall k | 0 <= k < |ids| :: ids[k] in found;
    }

    /** Searches for the user's online record and reads the reply: what can be written back, or nothing. */
    method FindKick(user: string) returns (kick: Option<HitList.Kick>, id: nat)
      requires Valid()
      ensures kick.None? ==> MayFindNoKick(y.s, user)
      ensures kick.Some? ==> id < |y.s.db| && OnlineOf(y.s.db[id], user) && Writable(y.s.db[id])
      ensures kick.Some? ==> kick.value == HitList.Kick(layout.ids(id), OfflineText(y.s.db[id]), KeyOf(y.s.db[id]))
    {
      var ids := Search((r: Record) => OnlineOf(r, user));
      KickReply(layout, y.s.db, ids);
      kick, id := HitList.ReadKick(Reply(layout, y.s.db, ids)), if ids == [] then 0 else ids[0];
      if kick == None && ids != [] {
        assert OnlineOf(y.s.db[ids[0]], user) && !Writable(y.s.db[ids[0]]);
      }
    }

    /** getStatus: whether the triple has a record, and whether that is online. */
    method GetStatus(c: Params, ip: Text) returns (seen: bool, online: bool, ghost id: nat)
      ensures !seen ==> Unseen(y.s, c, ip)
      ensures seen ==> id < |y.s.db| && SameTriple(y.s.db[id], c, ip) && y.s.db[id].online == online
    {
      var ids := Search((r: Record) => SameTriple(r, c, ip));
      if ids == [] {
        return false, false, 0;
      }
      return true, y.s.db[ids[0]].online, ids[0];
    }

    /** The search of a sweep, read by getAllUser, and for each hit the key of its stream. */
    method FindHits(f: Selection) returns (ids: seq<nat>, todo: seq<Found>)
      requires Valid()
      ensures SelectedOnce(y.s, f, ids) && forall i | 0 <= i < |y.s.db| && Selected(y.s.db[i], f) :: i in ids
      ensures AreHits(y.s, f, todo)
      ensures |todo| == |ids| && forall k | 0 <= k < |ids| :: todo[k] == Found(ids[k], KeyOf(y.s.db[ids[k]]))
    {
      LayoutIsOk();
      hide *;
      ids := Search((r: Record) => Selected(r, f));
      todo := ReadHits(layout, y.s.db, ids);
      AllInTodo(y.s, f, ids, todo);
    }

    /** The search for the session of a dying stream, and whether its record can be written back. */
    method FindLeave(c: Params, ip: Text) returns (write: bool, id: nat)
      requires Valid()
      ensures Sought(y.s, c, ip, write, id)
    {
      var ids := Search((r: Record) => OnlineTriple(r, c, ip));
      LeaveReply(layout, y.s.db, ids);
      var leave := HitList.ReadLeave(Reply(layout, y.s.db, ids));
      write, id := leave.Some?, if ids == [] then 0 else ids[0];
      if write {
        assert leave.value == (layout.ids(id), OfflineText(y.s.db[id]));
      }
    }

    // -------------------------------------------------------------- calls, once they have the lock

    method DealUserSignUp(t: nat, c: Params, ip: Text) returns (res: nat)
      requires Valid() && t in y.at && y.at[t] == Passwd(SignUpCall, c, ip)
      modifies this
      ensures Valid() && t in y.at && y.at[t] == Answered(res) && Evolves(old(y.s), y.s) && old(log) <= log
      ensures |y.s.db| == |old(y.s).db|
      ensures res in {1, 2} && (res == 2 <==> c.user in old(y.s).users && old(y.s).users[c.user] != "")
      ensures res == 2 ==> mine == old(mine) && y.s.users == old(y.s).users
      ensures res == 1 ==> mine == old(mine) + [PutUser(c.user, c.passwd)]
      ensures res == 1 ==> y.s.users == old(y.s).users[c.user := c.passwd]
    {
      hide *;
      ghost var s0 := y.s;
      AcceptedMeans(s0, c);
      Holding(y.at[t]);
      Streams(t);
      ghost var s1 := y.s;
      GuardedAnswers(s0, s1, c);
      MayLookUp(y, t);
      if SignedUp(y.s, c.user) {
        Do(t, Answered(2), Nothing);
        return 2;
      }
      Do(t, NewUser(c), Nothing);
      Holding(y.at[t]);
      Streams(t);
      ghost var s2 := y.s;
      GuardedAnswers(s1, s2, c);
      MayStore(y, t, c);
      PasswordStored(s2, c);
      Do(t, Answered(1), PutUser(c.user, c.passwd));
      EvolvesTrans(s0, s1, s2);
      EvolvesTrans(s0, s2, y.s);
      return 1;
    }

    /** Takes the user's session offline, if there is one that can be written back, and signals its stream. */
    method KickOffOldUser(t: nat, c: Params, ip: Text, add: bool) returns (r: nat, ghost kicked: seq<nat>)
      requires Valid() && t in y.at && y.at[t] == KickSearch(c, ip, add)
      modifies this
      ensures Valid() && t in y.at && y.at[t] == AfterKick(c, ip, add) && Evolves(old(y.s), y.s) && old(log) <= log
      ensures Steadfast(old(y.s), y.s)
      ensures OneKicked(old(y.s), c.user, kicked) && r == (if kicked == [] then 3 else 2)
      ensures kicked != [] ==> old(y.s).db[kicked[0]].user == c.user && old(y.s).db[kicked[0]].online
      ensures mine == old(mine) + Kicks(y.s.db, kicked) && AllSignalled(log, |old(log)|, y.s, kicked)
      ensures NoneOnline(y.s, c.user) ==> OnlineAreWritable(old(y.s), c.user)
      ensures AtMostOneOnline(old(y.s), c.user) && OnlineAreWritable(old(y.s), c.user) ==> NoneOnline(y.s, c.user)
    {
      hide *;
      ghost var s0 := y.s;
      Holding(y.at[t]);
      Streams(t);
      ghost var s1, l1 := y.s, log;
      GuardedAnswers(s0, s1, c);
      var kick, id := FindKick(c.user);
      if kick == None {
        MaySkipKick(y, t, c, ip, add);
        NotKicked(s0, s1, c.user);
        Do(t, AfterKick(c, ip, add), Nothing);
        NoKicks(y.s.db);
        NoneSignalled(log, |old(log)|, y.s);
        return 3, [];
      }
      var key := kick.value.key;
      MayFindKick(y, t, c, ip, add, id);
      Do(t, KickWrite(c, ip, add, Found(id, key)), Nothing);
      ghost var l2 := log;
      KickFound(t, c, ip, add, id, key);
      SteadfastFacts(s1, y.s);
      Kicked(s0, s1, y.s, c.user, id);
      EvolvesTrans(s0, s1, y.s);
      SteadfastTrans(s0, s1, y.s);
      KickedMeans(s0, c.user, [id]);
      EvolvesSelf(y.s);
      StaySignalled(log, |l2|, y.s, [id], log, |old(log)|, y.s);
      return 2, [id];
    }

    /** The second half of a kick: the write and the signal. */
    method KickFound(t: nat, c: Params, ip: Text, add: bool, id: nat, key: string)
      requires Valid() && t in y.at && y.at[t] == KickWrite(c, ip, add, Found(id, key))
      requires id < |y.s.db| && Writable(y.s.db[id]) && key == KeyOf(y.s.db[id])
      modifies this
      ensures Valid() && t in y.at && y.at[t] == AfterKick(c, ip, add) && Evolves(old(y.s), y.s) && old(log) <= log
      ensures Steadfast(old(y.s), y.s) && !y.s.db[id].online
      ensures mine == old(mine) + Kicks(y.s.db, [id]) && AllSignalled(log, |old(log)|, y.s, [id])
    {
      hide *;
      ghost var s0 := y.s;
      Holding(y.at[t]);
      Streams(t);
      ghost var s1 := y.s;
      MayKick(y, t);
      Do(t, KickSignal(c, ip, add, Found(id, key)), PutOffline(id));
      ghost var s2 := y.s;
      Holding(y.at[t]);
      Streams(t);
      ghost var s3, l3 := y.s, log;
      MayKick(y, t);
      DoSignal(t, AfterKick(c, ip, add), key);
      KickChain(s0, s1, s2, s3, y.s, id, key);
      OneKick(y.s.db, id);
      assert old(mine) + [PutOffline(id)] + [Signal(key)] == old(mine) + [PutOffline(id), Signal(key)];
      OneSignalled(log, |l3|, y.s, id, |old(log)|);
    }

    /** 3: not signed up, or the wrong password. 0: this session was taken offline. 4: this session is online. For an
        unseen triple at most one session of the user is kicked and the new one added; it is then the user's only online
        session exactly if the one there was, if any, could be written back. The handler that the kicked session's key
        named when it was signalled was written to. */
    method DealUserLogin(t: nat, c: Params, ip: Text) returns (res: nat, ghost kicked: seq<nat>)
      requires Valid() && t in y.at && y.at[t] == Passwd(LoginCall, c, ip)
      modifies this
      ensures Valid() && t in y.at && y.at[t] == Answered(res) && Evolves(old(y.s), y.s) && old(log) <= log
      ensures y.s.users == old(y.s).users
      ensures res in {0, 3, 4}
      ensures res == 3 <==>
        c.user !in old(y.s).users || old(y.s).users[c.user] == "" || old(y.s).users[c.user] != c.passwd
      ensures res == 3 || SessionOf(c, ip, true) in old(y.s).db || SessionOf(c, ip, false) in old(y.s).db ==>
        mine == old(mine) && |y.s.db| == |old(y.s).db| && kicked == []
      ensures AnswerFits(old(y.s), y.s, c, ip, res)
      ensures res == 4 ==> SessionOf(c, ip, true) in old(y.s).db || SessionOf(c, ip, false) !in old(y.s).db
      ensures res == 0 ==> SessionOf(c, ip, true) !in y.s.db
      ensures res != 3 && SessionOf(c, ip, true) !in old(y.s).db && SessionOf(c, ip, false) !in old(y.s).db ==>
        && res == 4 && Replaced(old(y.s), y.s, c, ip) && OneKicked(old(y.s), c.user, kicked)
        && mine == old(mine) + Kicks(y.s.db, kicked) + [AddLogin(c.user, ip, c.ltime)]
      ensures AllSignalled(log, |old(log)|, y.s, kicked)
    {
      hide *;
      ghost var s0 := y.s;
      AcceptedMeans(s0, c);
      UnseenMeans(s0, c, ip);
      kicked := [];
      Holding(y.at[t]);
      Streams(t);
      ghost var s1 := y.s;
      GuardedAnswers(s0, s1, c);
      MayLookUp(y, t);
      if !Accepted(y.s, c) {
        Do(t, Answered(3), Nothing);
        OtherFits(s0, y.s, c, ip, 3);
        NoneSignalled(log, |old(log)|, y.s);
        return 3, [];
      }
      Do(t, SeenBefore(LoginCall, c, ip), Nothing);
      ghost var l1 := log;
      res, kicked := LoginAccepted(t, c, ip);
      SeenEarlier(s0, s1, c, ip);
      FitsEarlier(s0, s1, y.s, c, ip, res);
      EvolvesTrans(s0, s1, y.s);
      AnswerMeans(s0, y.s, c, ip, res);
      if Unseen(s0, c, ip) {
        ReplacedAfter(s0, s1, y.s, c, ip, kicked);
      }
      EvolvesSelf(y.s);
      StaySignalled(log, |l1|, y.s, kicked, log, |old(log)|, y.s);
    }

    /** A login with the right password. */
    method LoginAccepted(t: nat, c: Params, ip: Text) returns (res: nat, ghost kicked: seq<nat>)
      requires Valid() && t in y.at && y.at[t] == SeenBefore(LoginCall, c, ip)
      modifies this
      ensures Valid() && t in y.at && y.at[t] == Answered(res) && Evolves(old(y.s), y.s) && old(log) <= log
      ensures y.s.users == old(y.s).users && res in {0, 4}
      ensures !Unseen(old(y.s), c, ip) ==> mine == old(mine) && |y.s.db| == |old(y.s).db| && kicked == []
      ensures AnswerFits(old(y.s), y.s, c, ip, res)
      ensures Unseen(old(y.s), c, ip) ==>
        res == 4 && Replaced(old(y.s), y.s, c, ip) && OneKicked(old(y.s), c.user, kicked)
      ensures Unseen(old(y.s), c, ip) ==>
        mine == old(mine) + Kicks(y.s.db, kicked) + [AddLogin(c.user, ip, c.ltime)]
      ensures AllSignalled(log, |old(log)|, y.s, kicked)
    {
      hide *;
      ghost var s0 := y.s;
      kicked := [];
      ValidIsUnique();
      Holding(y.at[t]);
      Streams(t);
      ghost var s1 := y.s;
      GuardedAnswers(s0, s1, c);
      var seen, online, id := GetStatus(c, ip);
      if seen {
        res := if online then 4 else 0;
        MayTell(y, t, LoginCall, c, ip, id);
        StatusFits(s0, s1, c, ip, id);
        Do(t, Answered(res), Nothing);
        NoneSignalled(log, |old(log)|, y.s);
        return;
      }
      MayMiss(y, t, LoginCall, c, ip);
      SeenEarlier(s0, s1, c, ip);
      Do(t, KickSearch(c, ip, true), Nothing);
      ghost var l1 := log;
      kicked := ReplaceSession(t, c, ip);
      ReplacedAfter(s0, s1, y.s, c, ip, kicked);
      EvolvesTrans(s0, s1, y.s);
      UnseenFits(s0, y.s, c, ip, 4);
      EvolvesSelf(y.s);
      StaySignalled(log, |l1|, y.s, kicked, log, |old(log)|, y.s);
      return 4, kicked;
    }

    /** Kicks the user's old session and adds the new one. */
    method ReplaceSession(t: nat, c: Params, ip: Text) returns (ghost kicked: seq<nat>)
      requires Valid() && t in y.at && y.at[t] == KickSearch(c, ip, true)
      modifies this
      ensures Valid() && t in y.at && y.at[t] == Answered(4) && Evolves(old(y.s), y.s) && old(log) <= log
      ensures y.s.users == old(y.s).users
      ensures OneKicked(old(y.s), c.user, kicked)
      ensures Replaced(old(y.s), y.s, c, ip)
      ensures mine == old(mine) + Kicks(y.s.db, kicked) + [AddLogin(c.user, ip, c.ltime)]
      ensures AllSignalled(log, |old(log)|, y.s, kicked)
    {
      hide *;
      ghost var s0, l0 := y.s, log;
      var r;
      r, kicked := KickOffOldUser(t, c, ip, true);
      AfterTheKick(c, ip);
      ghost var s1, l1 := y.s, log;
      Holding(y.at[t]);
      Streams(t);
      ghost var s2 := y.s;
      GuardedAnswers(s1, s2, c);
      AddNewLoginInfo(t, c, ip);
      AddedReplaces(s0, s1, s2, y.s, c, ip);
      EvolvesTrans(s1, s2, y.s);
      EvolvesTrans(s0, s1, y.s);
      KickedBelow(s0, s1, c.user, kicked);
      KicksLater(s1, y.s, kicked);
      StaySignalled(l1, |l0|, s1, kicked, log, |l0|, y.s);
    }

    method AddNewLoginInfo(t: nat, c: Params, ip: Text)
      requires Valid() && t in y.at && y.at[t] == Adding(c, ip)
      modifies this
      ensures Valid() && t in y.at && y.at[t] == Answered(4) && Evolves(old(y.s), y.s) && old(log) <= log
      ensures y.s == Apply(old(y.s), AddLogin(c.user, ip, c.ltime))
      ensures y.s == old(y.s).(db := old(y.s).db + [Record(c.user, ip, c.ltime, true)])
      ensures mine == old(mine) + [AddLogin(c.user, ip, c.ltime)]
    {
      hide *;
      MayAdd(y, t, c, ip);
      LoginAdded(y.s, c, ip);
      Do(t, Answered(4), AddLogin(c.user, ip, c.ltime));
    }

    /** Never changes a record: an unseen session is answered like one that was taken offline. */
    method DealGetUserLoginStatus(t: nat, c: Params, ip: Text) returns (res: nat)
      requires Valid() && t in y.at && y.at[t] == Passwd(StatusCall, c, ip)
      modifies this
      ensures Valid() && t in y.at && y.at[t] == Answered(res) && Evolves(old(y.s), y.s) && old(log) <= log
      ensures mine == old(mine) && |y.s.db| == |old(y.s).db| && y.s.users == old(y.s).users
      ensures res in {0, 3, 4}
      ensures res == 3 <==>
        c.user !in old(y.s).users || old(y.s).users[c.user] == "" || old(y.s).users[c.user] != c.passwd
      ensures AnswerFits(old(y.s), y.s, c, ip, res)
      ensures res == 4 ==> SessionOf(c, ip, true) in old(y.s).db
      ensures res == 0 ==> SessionOf(c, ip, true) !in y.s.db
    {
      hide *;
      ghost var s0 := y.s;
      AcceptedMeans(s0, c);
      ValidIsUnique();
      Holding(y.at[t]);
      Streams(t);
      ghost var s1 := y.s;
      GuardedAnswers(s0, s1, c);
      MayLookUp(y, t);
      if !Accepted(y.s, c) {
        Do(t, Answered(3), Nothing);
        OtherFits(s0, y.s, c, ip, 3);
        return 3;
      }
      Do(t, SeenBefore(StatusCall, c, ip), Nothing);
      Holding(y.at[t]);
      Streams(t);
      ghost var s2 := y.s;
      GuardedAnswers(s1, s2, c);
      EvolvesTrans(s0, s1, s2);
      var seen, online, id := GetStatus(c, ip);
      res := if seen && online then 4 else 0;
      if seen {
        MayTell(y, t, StatusCall, c, ip, id);
        StatusFits(s0, s2, c, ip, id);
      } else {
        MayMiss(y, t, StatusCall, c, ip);
        SeenEarlier(s0, s2, c, ip);
        UnseenFits(s0, s2, c, ip, 0);
      }
      AnswerMeans(s0, s2, c, ip, res);
      Do(t, Answered(res), Nothing);
    }

    /** Takes the user's session offline, whichever session asks for it, if it can be written back. */
    method DealUserLoginOut(t: nat, c: Params, ip: Text) returns (res: nat, ghost kicked: seq<nat>)
      requires Valid() && t in y.at && y.at[t] == Passwd(LogoutCall, c, ip)
      modifies this
      ensures Valid() && t in y.at && y.at[t] == Answered(res) && Evolves(old(y.s), y.s) && old(log) <= log
      ensures y.s.users == old(y.s).users && |y.s.db| == |old(y.s).db|
      ensures res in {0, 3}
      ensures res == 3 <==>
        c.user !in old(y.s).users || old(y.s).users[c.user] == "" || old(y.s).users[c.user] != c.passwd
      ensures res == 3 ==> mine == old(mine) && kicked == []
      ensures OneKicked(old(y.s), c.user, kicked) && AllSignalled(log, |old(log)|, y.s, kicked)
      ensures kicked != [] ==> old(y.s).db[kicked[0]].user == c.user && old(y.s).db[kicked[0]].online
      ensures res == 0 ==> mine == old(mine) + Kicks(y.s.db, kicked)
      ensures res == 0 && NoneOnline(y.s, c.user) ==> OnlineAreWritable(old(y.s), c.user)
      ensures res == 0 && AtMostOneOnline(old(y.s), c.user) && OnlineAreWritable(old(y.s), c.user) ==>
        NoneOnline(y.s, c.user)
    {
      hide *;
      ghost var s0 := y.s;
      AcceptedMeans(s0, c);
      Holding(y.at[t]);
      Streams(t);
      ghost var s1 := y.s;
      GuardedAnswers(s0, s1, c);
      MayLookUp(y, t);
      if !Accepted(y.s, c) {
        Do(t, Answered(3), Nothing);
        NoneKicked(s0, c.user);
        NoneSignalled(log, |old(log)|, y.s);
        return 3, [];
      }
      Do(t, KickSearch(c, ip, false), Nothing);
      ghost var l1 := log;
      var r;
      r, kicked := KickOffOldUser(t, c, ip, false);
      AfterTheKick(c, ip);
      EarlierToo(s0, s1, c.user, kicked);
      KickedMeans(s0, c.user, kicked);
      SteadfastFacts(s1, y.s);
      EvolvesTrans(s0, s1, y.s);
      EvolvesSelf(y.s);
      StaySignalled(log, |l1|, y.s, kicked, log, |old(log)|, y.s);
      return 0, kicked;
    }

    // -------------------------------------------------------------- taking the lock

    /** Begins a call and takes the lock, unless it is still taken when the caller gives up. */
    method Enter(t: nat, call: Call, c: Params, ip: Text) returns (entered: bool)
      requires Valid() && t !in y.at
      modifies this
      ensures Valid() && Evolves(old(y.s), y.s) && old(log) <= log && mine == old(mine)
      ensures entered ==> t in y.at && y.at[t] == Passwd(call, c, ip)
    {
      hide *;
      MayBegin(y, t, Calling(call, c, ip));
      Do(t, Calling(call, c, ip), Nothing);
      Others(t);
      entered := y.lock.None?;
      if entered {
        MayLock(y, t);
        Do(t, Passwd(call, c, ip), Nothing);
      }
    }

    /** Releases the lock and answers. */
    method Answer(t: nat, res: nat)
      requires Valid() && t in y.at && y.at[t] == Answered(res)
      modifies this
      ensures Valid() && Evolves(old(y.s), y.s) && old(log) <= log && mine == old(mine)
      ensures t in y.at && y.at[t] == Returned(res) && y.lock == None
    {
      hide *;
      Others(t);
      MayUnlock(y, t);
      Do(t, Returned(res), Nothing);
    }

    /** The call `userLogin`. `s0` is the state when it gets the lock, `s1` when it has its answer. */
    method UserLogin(t: nat, c: Params, ip: Text) returns (answered: bool, res: nat, ghost s0: State, ghost s1: State)
      requires Valid() && t !in y.at
      modifies this
      ensures Valid() && Evolves(old(y.s), y.s) && old(log) <= log
      ensures answered ==> Evolves(old(y.s), s0) && Evolves(s0, s1) && Evolves(s1, y.s)
      ensures answered ==> res in {0, 3, 4} && (res == 3 <==> !Accepted(s0, c)) && s1.users == s0.users
      ensures answered && res == 0 ==> exists i | 0 <= i < |s1.db| && SameTriple(s1.db[i], c, ip) :: !s1.db[i].online
      ensures answered && res == 4 ==> !Unseen(s1, c, ip)
      ensures answered && Accepted(s0, c) && Unseen(s0, c, ip) ==> Replaced(s0, s1, c, ip)
    {
      hide *;
      res, s0, s1 := 0, y.s, y.s;
      answered := Enter(t, LoginCall, c, ip);
      if !answered {
        return;
      }
      s0 := y.s;
      AcceptedMeans(s0, c);
      UnseenMeans(s0, c, ip);
      ghost var kicked;
      res, kicked := DealUserLogin(t, c, ip);
      s1 := y.s;
      if res != 3 {
        AnswerSeen(s0, s1, c, ip, res);
      }
      Answer(t, res);
      EvolvesTrans(old(y.s), s0, s1);
      EvolvesTrans(old(y.s), s1, y.s);
    }

    /** The call `userSignUp`. */
    method UserSignUp(t: nat, c: Params, ip: Text) returns (answered: bool, res: nat, ghost s0: State, ghost s1: State)
      requires Valid() && t !in y.at
      modifies this
      ensures Valid() && Evolves(old(y.s), y.s) && old(log) <= log
      ensures answered ==> Evolves(old(y.s), s0) && Evolves(s0, s1) && Evolves(s1, y.s)
      ensures answered ==> res == (if SignedUp(s0, c.user) then 2 else 1)
      ensures answered ==> s1.users == if res == 1 then s0.users[c.user := c.passwd] else s0.users
    {
      hide *;
      res, s0, s1 := 0, y.s, y.s;
      answered := Enter(t, SignUpCall, c, ip);
      if !answered {
        return;
      }
      s0 := y.s;
      AcceptedMeans(s0, c);
      res := DealUserSignUp(t, c, ip);
      s1 := y.s;
      Answer(t, res);
      EvolvesTrans(old(y.s), s0, s1);
      EvolvesTrans(old(y.s), s1, y.s);
    }

    // -------------------------------------------------------------- sweeps

    /** The background thread and the console: every session that `f` selects is taken offline and signalled, whatever
        its values, and nothing is done to another. `s0` is the state when the sweep gets the lock. */
    method KickAll(t: nat, f: Selection) returns (swept: bool, ghost ids: seq<nat>, ghost s0: State)
      requires Valid() && t !in y.at
      modifies this
      ensures Valid() && Evolves(old(y.s), y.s) && old(log) <= log && Evolves(old(y.s), s0) && Evolves(s0, y.s)
      ensures !swept ==> mine == old(mine)
      ensures swept ==> t in y.at && y.at[t] == Swept && y.lock == None && |y.s.db| == |s0.db| && y.s.users == s0.users
      ensures swept ==> forall i | 0 <= i < |s0.db| && Matches(s0.db[i], f) :: !y.s.db[i].online
      ensures swept ==> SelectedOnce(s0, f, ids) && mine == old(mine) + Kicks(y.s.db, ids)
      ensures swept ==> AllSignalled(log, |old(log)|, y.s, ids)
      ensures swept ==> forall k | 0 <= k < |ids| :: ids[k] < |s0.db| && s0.db[ids[k]].online
      ensures swept && f == Everyone ==> forall i | 0 <= i < |s0.db| :: !y.s.db[i].online
      ensures swept && f.Named? ==>
        && (forall i | 0 <= i < |s0.db| && s0.db[i].user == f.user :: !y.s.db[i].online)
        && (forall k | 0 <= k < |ids| :: s0.db[ids[k]].user == f.user)
      ensures swept && f.Until? ==>
        && (forall i | 0 <= i < |s0.db| && (s0.db[i].ltime == f.ltime || SortsBefore(s0.db[i].ltime, f.ltime)) ::
              !y.s.db[i].online)
        && (forall k | 0 <= k < |ids| :: !SortsBefore(f.ltime, s0.db[ids[k]].ltime))
    {
      hide *;
      ghost var start := y.s;
      MayBegin(y, t, Sweeping(f));
      Do(t, Sweeping(f), Nothing);
      Others(t);
      swept, ids, s0 := y.lock.None?, [], y.s;
      EvolvesSelf(s0);
      if !swept {
        return;
      }
      MayLock(y, t);
      Do(t, SweepSearch(f), Nothing);
      ghost var l0 := log;
      ids := SweepAll(t, f);
      EvolvesTrans(start, s0, y.s);
      EvolvesSelf(y.s);
      StaySignalled(log, |l0|, y.s, ids, log, |old(log)|, y.s);
      SweptMeans(s0, y.s, f, ids);
    }

    /** A sweep that has the lock. */
    method SweepAll(t: nat, f: Selection) returns (ghost ids: seq<nat>)
      requires Valid() && t in y.at && y.at[t] == SweepSearch(f)
      modifies this
      ensures Valid() && Evolves(old(y.s), y.s) && old(log) <= log
      ensures t in y.at && y.at[t] == Swept && y.lock == None
      ensures |y.s.db| == |old(y.s).db| && y.s.users == old(y.s).users
      ensures forall i | 0 <= i < |y.s.db| && Matches(old(y.s).db[i], f) :: !y.s.db[i].online
      ensures SelectedOnce(old(y.s), f, ids) && mine == old(mine) + Kicks(y.s.db, ids)
      ensures AllSignalled(log, |old(log)|, y.s, ids)
    {
      hide *;
      ghost var s0 := y.s;
      Holding(y.at[t]);
      Streams(t);
      ghost var s1 := y.s;
      var all, todo := FindHits(f);
      ids := all;
      MayList(y, t, f, todo);
      Do(t, SweepWrite(todo), Nothing);
      ghost var l1 := log;
      SelectedBelow(s1, f, all);
      KickEach(t, all, todo);
      ghost var l2 := log;
      SweptAll(s0, s1, y.s, f, all);
      EndSweep(t);
      EvolvesSelf(y.s);
      StaySignalled(l2, |l1|, y.s, ids, log, |old(log)|, y.s);
    }

    /** Releases the lock. */
    method EndSweep(t: nat)
      requires Valid() && t in y.at && y.at[t] == SweepWrite([])
      modifies this
      ensures Valid() && t in y.at && y.at[t] == Swept && y.lock == None
      ensures y.s == old(y.s) && old(log) <= log && mine == old(mine)
    {
      hide *;
      MayUnlock(y, t);
      Do(t, Swept, Nothing);
    }

    /** The loop over the hits. */
    method KickEach(t: nat, ids: seq<nat>, todo: seq<Found>)
      requires Valid() && t in y.at && y.at[t] == SweepWrite(todo)
      requires AllBelow(ids, |y.s.db|)
      requires |todo| == |ids| && forall k | 0 <= k < |ids| :: todo[k] == Found(ids[k], KeyOf(y.s.db[ids[k]]))
      modifies this
      ensures Valid() && t in y.at && y.at[t] == SweepWrite([]) && Evolves(old(y.s), y.s) && old(log) <= log
      ensures y.s.users == old(y.s).users && |y.s.db| == |old(y.s).db|
      ensures AllOffline(y.s, ids) && AllSignalled(log, |old(log)|, y.s, ids)
      ensures mine == old(mine) + Kicks(y.s.db, ids)
    {
      hide *;
      ghost var s0, steps := y.s, [];
      SweepBegins(s0, log, ids);
      for n := 0 to |ids|
        invariant Valid() && t in y.at && y.at[t] == SweepWrite(todo[n..])
        invariant old(log) <= log && |y.s.db| == |s0.db|
        invariant SweptSoFar(s0, y.s, log, |old(log)|, ids, n, steps)
        invariant mine == old(mine) + steps
      {
        assert todo[n..][0] == todo[n] && todo[n..][1..] == todo[n + 1..];
        ghost var s1, l1 := y.s, log;
        KickOne(t, todo[n..]);
        EvolvesSelf(y.s);
        SignalStays(log, |l1|, todo[n].key, y.s, log, |old(log)|, y.s);
        SweepGoesOn(s0, s1, y.s, l1, log, |old(log)|, ids, n, steps, todo[n].key);
        steps := steps + [PutOffline(todo[n].id), Signal(todo[n].key)];
      }
      assert todo[|ids|..] == [];
      SweepEnds(s0, y.s, log, |old(log)|, ids, steps);
    }

    method KickOne(t: nat, todo: seq<Found>)
      requires Valid() && t in y.at && y.at[t] == SweepWrite(todo) && todo != [] && todo[0].id < |y.s.db|
      modifies this
      ensures Valid() && t in y.at && y.at[t] == SweepWrite(todo[1..]) && Evolves(old(y.s), y.s) && old(log) <= log
      ensures y.s.users == old(y.s).users && |y.s.db| == |old(y.s).db| && !y.s.db[todo[0].id].online
      ensures mine == old(mine) + [PutOffline(todo[0].id), Signal(todo[0].key)]
      ensures Signalled(log, |old(log)|, todo[0].key, y.s)
    {
      hide *;
      var id, key := todo[0].id, todo[0].key;
      ghost var s0 := y.s;
      Holding(y.at[t]);
      Streams(t);
      ghost var s1 := y.s;
      MaySweep(y, t);
      Do(t, SweepSignal(todo), PutOffline(id));
      ghost var s2 := y.s;
      Holding(y.at[t]);
      Streams(t);
      ghost var s3, l3 := y.s, log;
      MaySweep(y, t);
      DoSignal(t, SweepWrite(todo[1..]), key);
      KickChain(s0, s1, s2, s3, y.s, id, key);
      assert old(mine) + [PutOffline(id)] + [Signal(key)] == old(mine) + [PutOffline(id), Signal(key)];
      EvolvesSelf(y.s);
      SignalStays(log, |l3|, key, y.s, log, |old(log)|, y.s);
    }

    // -------------------------------------------------------------- the stream handler

    /** The handler of one stream. It registers the keys of its messages and erases the last; if they were all the same,
        no entry of the stream map names it when it returns, whatever others did. Of the sessions of its last message
        that exist when the stream ends, one that can be written back is offline when it returns. `atEnd` is the state
        at the end of the stream, `found` that of the search, `erased` the move of the erasure. */
    method WaitForOffLine(t: nat, ip: Text, messages: seq<Params>)
      returns (ghost atEnd: State, ghost found: State, ghost kick: seq<Action>, ghost erased: nat)
      requires Valid() && t !in y.at
      modifies this
      ensures Valid() && t in y.at && y.at[t] == Gone && old(log) <= log
      ensures Evolves(old(y.s), atEnd) && Evolves(atEnd, found) && Evolves(found, y.s)
      ensures t in y.s.finished && KeysOf(y.s, t) == KeysToRegister(ip, messages)
      ensures Steady(KeysToRegister(ip, messages)) ==> forall k | k in y.s.streams :: y.s.streams[k] != t
      ensures erased <= |log| && LastKey(ip, messages) !in Run(START, log[..erased]).s.streams
      ensures messages != [] ==>
        var c := messages[|messages| - 1];
        && TripleOffline(atEnd, y.s, c, ip) && KickOf(found, c, ip, kick)
        && (kick != [] <==> SessionOf(c, ip, true) in found.db && Writable(SessionOf(c, ip, true)))
      ensures mine == old(mine) + Registered(KeysToRegister(ip, messages), t) + kick
        + [Deregister(t, LastKey(ip, messages)), Finish(t)]
    {
      hide *;
      NewHandler(t);
      ghost var s0 := y.s;
      Begin(t, ip);
      var key, info, infoIp := ReadAll(t, ip, messages);
      atEnd := y.s;
      found, kick := KickoffUserWithoutSendSignal(t, key, info, infoIp);
      ghost var s2 := y.s;
      HandlerFacts(t, atEnd, s2);
      erased := Leave(t, key);
      EvolvesTrans(found, s2, y.s);
      if messages != [] {
        StaysOffline(atEnd, s2, y.s, messages[|messages| - 1], ip);
      }
    }

    method Begin(t: nat, ip: Text)
      requires Valid() && t !in y.at
      modifies this
      ensures Valid() && t in y.at && y.at[t] == Reading(ip, "", NOBODY, "")
      ensures y.s == old(y.s) && old(log) <= log && mine == old(mine)
    {
      hide Valid, Inv, Next, CanMove;
      MayBegin(y, t, Reading(ip, "", NOBODY, ""));
      Do(t, Reading(ip, "", NOBODY, ""), Nothing);
    }

    /** The loop that registers the stream under the key of every message. */
    method ReadAll(t: nat, ip: Text, messages: seq<Params>) returns (key: string, info: Params, infoIp: Text)
      requires Valid() && t in y.at && y.at[t] == Reading(ip, "", NOBODY, "")
      requires KeysOf(y.s, t) == [] && t !in y.s.finished
      modifies this
      ensures Valid() && t in y.at && y.at[t] == Dying(key, info, infoIp) && Evolves(old(y.s), y.s) && old(log) <= log
      ensures key == LastKey(ip, messages) && (messages != [] ==> info == messages[|messages| - 1] && infoIp == ip)
      ensures KeysOf(y.s, t) == KeysToRegister(ip, messages) && t !in y.s.finished
      ensures mine == old(mine) + Registered(KeysToRegister(ip, messages), t)
    {
      hide *;
      NoMessages(t, ip);
      assert messages[..0] == [];
      ghost var s0 := y.s;
      EvolvesSelf(s0);
      key, info, infoIp := "", NOBODY, "";
      for n := 0 to |messages|
        invariant Valid() && t in y.at && y.at[t] == Reading(ip, key, info, infoIp)
        invariant Evolves(s0, y.s) && old(log) <= log
        invariant key == LastKey(ip, messages[..n]) && (n > 0 ==> info == messages[n - 1] && infoIp == ip)
        invariant KeysOf(y.s, t) == KeysToRegister(ip, messages[..n]) && t !in y.s.finished
        invariant mine == old(mine) + Registered(KeysToRegister(ip, messages[..n]), t)
      {
        assert messages[..n + 1][..n] == messages[..n];
        OneMore(t, ip, messages[..n + 1]);
        ghost var before := y.s;
        key := ReadOne(t, ip, key, info, infoIp, messages[n]);
        EvolvesTrans(s0, before, y.s);
        info, infoIp := messages[n], ip;
      }
      assert messages[..|messages|] == messages;
      EndOfStream(t, ip, key, info, infoIp, s0);
    }

    method EndOfStream(t: nat, ip: Text, key: string, info: Params, infoIp: Text, ghost s0: State)
      requires Valid() && t in y.at && y.at[t] == Reading(ip, key, info, infoIp) && Evolves(s0, y.s)
      modifies this
      ensures Valid() && t in y.at && y.at[t] == Dying(key, info, infoIp) && Evolves(s0, y.s) && old(log) <= log
      ensures KeysOf(y.s, t) == KeysOf(old(y.s), t) && (t in y.s.finished <==> t in old(y.s).finished)
      ensures mine == old(mine)
    {
      hide *;
      ghost var before := y.s;
      Others(t);
      HandlerFacts(t, before, y.s);
      EvolvesTrans(s0, before, y.s);
      MayRead(y, t, info);
      Do(t, Dying(key, info, infoIp), Nothing);
    }

    method ReadOne(t: nat, ip: Text, key: string, info: Params, infoIp: Text, m: Params) returns (key': string)
      requires Valid() && t in y.at && y.at[t] == Reading(ip, key, info, infoIp)
      modifies this
      ensures Valid() && t in y.at && y.at[t] == Reading(ip, key', m, ip) && Evolves(old(y.s), y.s) && old(log) <= log
      ensures key' == if m.mode == "-1" then key else StreamKey(m.user, ip, m.ltime)
      ensures KeysOf(y.s, t) == KeysOf(old(y.s), t) + (if m.mode == "-1" then [] else [key'])
      ensures t in y.s.finished <==> t in old(y.s).finished
      ensures mine == old(mine) + (if m.mode == "-1" then [] else [Register(t, key')])
    {
      hide *;
      ghost var s0 := y.s;
      Others(t);
      ghost var s1 := y.s;
      key' := key;
      MayRead(y, t, m);
      if m.mode != "-1" {
        key' := StreamKey(m.user, ip, m.ltime);
        KeyRegistered(t, key', s0, s1);
        Do(t, Reading(ip, key', m, ip), Register(t, key'));
      } else {
        HandlerFacts(t, s0, s1);
        Do(t, Reading(ip, key', m, ip), Nothing);
      }
      EvolvesTrans(s0, s1, y.s);
    }

    /** Takes the session of the last message offline, if it is online and can be written back. */
    method KickoffUserWithoutSendSignal(t: nat, key: string, c: Params, ip: Text)
      returns (ghost found: State, ghost kick: seq<Action>)
      requires Valid() && t in y.at && y.at[t] == Dying(key, c, ip)
      modifies this
      ensures Valid() && t in y.at && y.at[t] == Leaving(key) && old(log) <= log
      ensures Evolves(old(y.s), found) && Evolves(found, y.s) && SameHandler(t, old(y.s), y.s)
      ensures TripleOffline(old(y.s), y.s, c, ip)
      ensures KickOf(found, c, ip, kick) && mine == old(mine) + kick
      ensures kick != [] <==> SessionOf(c, ip, true) in found.db && Writable(SessionOf(c, ip, true))
      ensures kick != [] ==>
        exists i | 0 <= i < |found.db| && found.db[i] == SessionOf(c, ip, true) :: kick == [PutOffline(i)]
    {
      hide *;
      ghost var s0 := y.s;
      Others(t);
      ghost var s1 := y.s;
      ValidIsUnique();
      var write, id := FindLeave(c, ip);
      MayDie(y, t, key, c, ip, write, id);
      SoughtIsKicked(s1, c, ip, write, id);
      LeaveMeans(s1, c, ip, if write then [PutOffline(id)] else []);
      found, kick := s1, [];
      if !write {
        LeftAlone(s0, s1, c, ip, id);
        Do(t, Leaving(key), Nothing);
        return;
      }
      kick := [PutOffline(id)];
      Do(t, DyingWrite(key, id), Nothing);
      Others(t);
      ghost var s2 := y.s;
      MayLeave(y, t);
      Do(t, Leaving(key), PutOffline(id));
      WrittenBack(s0, s1, s2, c, ip, id);
      SameHandlerTrans(t, s0, s1, s2);
      SameHandlerStep(t, s0, s2, PutOffline(id));
    }

    /** The last two steps of a handler. */
    method Leave(t: nat, key: string) returns (ghost erased: nat)
      requires Valid() && t in y.at && y.at[t] == Leaving(key)
      modifies this
      ensures Valid() && t in y.at && y.at[t] == Gone && Evolves(old(y.s), y.s) && old(log) <= log
      ensures t in y.s.finished && KeysOf(y.s, t) == KeysOf(old(y.s), t)
      ensures Steady(KeysOf(y.s, t)) ==> forall k | k in y.s.streams :: y.s.streams[k] != t
      ensures erased <= |log| && key !in Run(START, log[..erased]).s.streams
      ensures mine == old(mine) + [Deregister(t, key), Finish(t)]
    {
      hide *;
      ghost var s0 := y.s;
      EraseEntry(t, key);
      ghost var s1, logged := y.s, log;
      erased := |log|;
      RunOfLog();
      Return(t, key);
      EvolvesTrans(s0, s1, y.s);
      assert log[..erased] == logged;
      assert old(mine) + [Deregister(t, key)] + [Finish(t)] == old(mine) + [Deregister(t, key), Finish(t)];
      ReturnedLeavesNothing(t);
    }

    method EraseEntry(t: nat, key: string)
      requires Valid() && t in y.at && y.at[t] == Leaving(key)
      modifies this
      ensures Valid() && t in y.at && y.at[t] == Left(key) && Evolves(old(y.s), y.s) && old(log) <= log
      ensures key !in y.s.streams && KeysOf(y.s, t) == KeysOf(old(y.s), t) && mine == old(mine) + [Deregister(t, key)]
    {
      hide *;
      ghost var s0 := y.s;
      Others(t);
      ghost var s1 := y.s;
      MayLeave(y, t);
      EntryErased(t, key, s0, s1);
      Do(t, Left(key), Deregister(t, key));
      EvolvesTrans(s0, s1, y.s);
    }

    method Return(t: nat, key: string)
      requires Valid() && t in y.at && y.at[t] == Left(key)
      modifies this
      ensures Valid() && t in y.at && y.at[t] == Gone && Evolves(old(y.s), y.s) && old(log) <= log
      ensures t in y.s.finished && KeysOf(y.s, t) == KeysOf(old(y.s), t) && mine == old(mine) + [Finish(t)]
    {
      hide *;
      ghost var s0 := y.s;
      Others(t);
      ghost var s1 := y.s;
      MayLeave(y, t);
      HandlerReturned(t, s0, s1);
      Do(t, Gone, Finish(t));
      EvolvesTrans(s0, s1, y.s);
    }
  }
}
