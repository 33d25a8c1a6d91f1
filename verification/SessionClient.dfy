/** The client: signing up or logging in, and then keeping the stream on which it waits to be taken off-line. */
module SessionClient {
  import opened Session
  import opened Protocol
  import opened SessionFacts
  import opened SessionServer

  datatype Reply = Lost | Code(code: nat)

  datatype Outcome = UnknownMode | RpcFailed | OtherLogin | SignUpFailed | Refused | LoggedIn

  /** What the client has written to the stream after reading `replies`. */
  function Written(request: Params, replies: seq<string>, i: nat): Params
    requires i <= |replies|
  {
    if "0" in replies[..i] then request.(mode := "-1") else request
  }

  /** One message before the first reply and one after each; only the mode ever changes, and it changes with the
      first off-line signal, for good. The result is the last reply, unless the stream did not end well. */
  method WaitForOffLineSignal(request: Params, replies: seq<string>, statusOk: bool)
    returns (sent: seq<Params>, result: string)
    ensures |sent| == |replies| + 1
    ensures forall i | 0 <= i < |sent| :: sent[i] == Written(request, replies, i)
    ensures forall i | 0 <= i < |sent| ::
      sent[i] == if exists j | 0 <= j < i :: replies[j] == "0" then request.(mode := "-1") else request
    ensures result == if !statusOk then "RPC failed" else if replies == [] then "" else replies[|replies| - 1]
  {
    var req, reply := request, "";
    sent := [req];
    for n := 0 to |replies|
      invariant req == Written(request, replies, n)
      invariant |sent| == n + 1 && forall i | 0 <= i < |sent| :: sent[i] == Written(request, replies, i)
      invariant reply == if n == 0 then "" else replies[n - 1]
    {
      reply := replies[n];
      assert replies[..n + 1] == replies[..n] + [reply];
      if reply == "0" {
        req := req.(mode := "-1");
      }
      sent := sent + [req];
    }
    result := if statusOk then reply else "RPC failed";
  }

  /** Such messages register one key and no other. */
  lemma {:induction false} KeysOfClientStream(request: Params, ip: string, sent: seq<Params>)
    requires request.mode != "-1" && (sent != [] ==> sent[0] == request)
    requires forall i | 0 <= i < |sent| :: sent[i] == request || sent[i] == request.(mode := "-1")
    ensures
      var keys := KeysToRegister(ip, sent);
      Steady(keys) && (sent != [] ==> keys != [] && keys[|keys| - 1] == StreamKey(request.user, ip, request.ltime))
      && forall i | 0 <= i < |keys| :: keys[i] == StreamKey(request.user, ip, request.ltime)
  {
    if |sent| > 0 {
      KeysOfClientStream(request, ip, sent[..|sent| - 1]);
    }
  }

  /** One client's stream, of which the handler reads the first `n` messages before it breaks or is closed. The client
      keeps to one key, so nothing in the stream map names the stream afterwards, whatever the other threads did. */
  method RunStream(server: Server, t: nat, request: Params, ip: Text, replies: seq<string>, n: nat)
    returns (ghost atEnd: State)
    requires server.Valid() && t !in server.y.at
    requires n <= |replies| + 1 && request.mode in {"0", "1"}
    modifies server
    ensures server.Valid() && Evolves(old(server.y.s), atEnd) && Evolves(atEnd, server.y.s)
    ensures t in server.y.s.finished && forall k | k in server.y.s.streams :: server.y.s.streams[k] != t
    ensures n > 0 ==> forall i | 0 <= i < |atEnd.db| && SameTriple(atEnd.db[i], request, ip) && Writable(atEnd.db[i]) ::
      !server.y.s.db[i].online
  {
    hide Server.Valid;
    var sent, result := WaitForOffLineSignal(request, replies, true);
    var read := sent[..n];
    KeysOfClientStream(request, ip, read);
    ghost var found, kick, erased;
    atEnd, found, kick, erased := server.WaitForOffLine(t, ip, read);
    EvolvesTrans(atEnd, found, server.y.s);
  }

  /** A thread that has not run yet. */
  method NewThreadId(at: map<nat, Point>) returns (t: nat)
    ensures t !in at
  {
    var rest := at.Keys;
    t := 0;
    while rest != {}
      invariant rest <= at.Keys && forall k | k in at && k !in rest :: k < t
      decreases |rest|
    {
      var k :| k in rest;
      t, rest := if k < t then t else k + 1, rest - {k};
    }
  }

  /** A call that may get lost, before or after the server has carried it out. */
  method UserLogin(server: Server, c: Params, ip: Text) returns (reply: Reply)
    requires server.Valid()
    modifies server
    ensures server.Valid() && Evolves(old(server.y.s), server.y.s)
    ensures reply in {Lost, Code(0), Code(3), Code(4)}
    ensures c.passwd != "" && Accepted(old(server.y.s), c) ==> reply != Code(3)
    ensures reply == Code(3) ==> c.passwd == "" || !Accepted(old(server.y.s), c)
    ensures reply == Code(0) || reply == Code(4) ==> Accepted(server.y.s, c)
    ensures reply == Code(0) ==>
      exists i | 0 <= i < |server.y.s.db| :: SameTriple(server.y.s.db[i], c, ip) && !server.y.s.db[i].online
    ensures reply == Code(4) ==> !Unseen(server.y.s, c, ip)
  {
    hide Server.Valid, Inv, Replaced;
    ghost var s0 := server.y.s;
    server.Anyone();
    ghost var s1 := server.y.s;
    var arrives: bool := *;
    if !arrives {
      return Lost;
    }
    var t := NewThreadId(server.y.at);
    var answered, res;
    ghost var s2, s3;
    answered, res, s2, s3 := server.UserLogin(t, c, ip);
    ghost var s4 := server.y.s;
    server.Anyone();
    LoginSeenLater(s0, s1, s2, s3, s4, server.y.s, c, ip, answered, res);
    var delivered: bool := *;
    return if answered && delivered then Code(res) else Lost;
  }

  lemma LoginSeenLater(s0: State, s1: State, s2: State, s3: State, s4: State, s5: State, c: Params, ip: Text,
      answered: bool, res: nat)
    requires Evolves(s0, s1) && Evolves(s1, s4) && Evolves(s4, s5)
    requires answered ==> Evolves(s1, s2) && Evolves(s2, s3) && Evolves(s3, s4)
    requires answered ==> res in {0, 3, 4} && (res == 3 <==> !Accepted(s2, c)) && s3.users == s2.users
    requires answered && res == 0 ==> exists i | 0 <= i < |s3.db| && SameTriple(s3.db[i], c, ip) :: !s3.db[i].online
    requires answered && res == 4 ==> !Unseen(s3, c, ip)
    ensures Evolves(s0, s5)
    ensures answered && res == 3 ==> c.passwd == "" || !Accepted(s0, c)
    ensures answered && res != 3 ==> Accepted(s5, c)
    ensures answered && res == 0 ==> exists i | 0 <= i < |s5.db| :: SameTriple(s5.db[i], c, ip) && !s5.db[i].online
    ensures answered && res == 4 ==> !Unseen(s5, c, ip)
  {
    EvolvesTrans(s0, s1, s4);
    EvolvesTrans(s0, s4, s5);
    if answered {
      EvolvesTrans(s0, s1, s2);
      EvolvesTrans(s3, s4, s5);
      EvolvesTrans(s2, s3, s5);
      if res == 0 {
        var i :| 0 <= i < |s3.db| && SameTriple(s3.db[i], c, ip) && !s3.db[i].online;
        assert SameTriple(s5.db[i], c, ip) && !s5.db[i].online;
      }
      if res == 4 {
        var i :| 0 <= i < |s3.db| && SameTriple(s3.db[i], c, ip);
        assert SameTriple(s5.db[i], c, ip);
      }
    }
  }

  method UserSignUp(server: Server, c: Params, ip: Text) returns (reply: Reply)
    requires server.Valid()
    modifies server
    ensures server.Valid() && Evolves(old(server.y.s), server.y.s)
    ensures reply in {Lost, Code(1), Code(2)}
    ensures SignedUp(old(server.y.s), c.user) ==> reply != Code(1)
    ensures reply == Code(1) && c.passwd != "" ==> Accepted(server.y.s, c)
    ensures reply == Code(2) ==> SignedUp(server.y.s, c.user)
  {
    hide Server.Valid, Inv;
    ghost var s0 := server.y.s;
    server.Anyone();
    ghost var s1 := server.y.s;
    var arrives: bool := *;
    if !arrives {
      return Lost;
    }
    var t := NewThreadId(server.y.at);
    var answered, res;
    ghost var s2, s3;
    answered, res, s2, s3 := server.UserSignUp(t, c, ip);
    ghost var s4 := server.y.s;
    server.Anyone();
    SignUpSeenLater(s0, s1, s2, s3, s4, server.y.s, c, answered, res);
    var delivered: bool := *;
    return if answered && delivered then Code(res) else Lost;
  }

  lemma SignUpSeenLater(s0: State, s1: State, s2: State, s3: State, s4: State, s5: State, c: Params, answered: bool,
      res: nat)
    requires Evolves(s0, s1) && Evolves(s1, s4) && Evolves(s4, s5)
    requires answered ==> Evolves(s1, s2) && Evolves(s2, s3) && Evolves(s3, s4)
    requires answered ==> res == (if SignedUp(s2, c.user) then 2 else 1)
    requires answered ==> s3.users == if res == 1 then s2.users[c.user := c.passwd] else s2.users
    ensures Evolves(s0, s5)
    ensures answered && SignedUp(s0, c.user) ==> res == 2
    ensures answered && res == 1 && c.passwd != "" ==> Accepted(s5, c)
    ensures answered && res == 2 ==> SignedUp(s5, c.user)
  {
    EvolvesTrans(s0, s1, s4);
    EvolvesTrans(s0, s4, s5);
    if answered {
      EvolvesTrans(s0, s1, s2);
      EvolvesTrans(s3, s4, s5);
    }
  }

  /** The first call and the reply loop. It ends, because a login never answers 1; a sign-up that succeeds is
      followed by one login, which is then refused only for want of a password. */
  method Connect(server: Server, c: Params, ip: Text) returns (outcome: Outcome, ghost logins: nat)
    requires server.Valid()
    modifies server
    ensures server.Valid() && Evolves(old(server.y.s), server.y.s)
    ensures (outcome == UnknownMode <==> c.mode != "0" && c.mode != "1")
    ensures outcome == UnknownMode ==> server.mine == old(server.mine)
    ensures logins <= 1 && (c.mode == "0" ==> logins == 1)
    ensures outcome == SignUpFailed ==> c.mode == "1" && SignedUp(server.y.s, c.user) && logins == 0
    ensures outcome == Refused ==> logins == 1 && (c.passwd == "" || (c.mode == "0" && !Accepted(old(server.y.s), c)))
    ensures outcome == LoggedIn ==> logins == 1 && Accepted(server.y.s, c) && !Unseen(server.y.s, c, ip)
    ensures outcome == OtherLogin ==>
      exists i | 0 <= i < |server.y.s.db| :: SameTriple(server.y.s.db[i], c, ip) && !server.y.s.db[i].online
    ensures c.mode == "1" && SignedUp(old(server.y.s), c.user) ==> outcome == SignUpFailed || outcome == RpcFailed
  {
    hide Server.Valid, Evolves;
    logins := 0;
    EvolvesSelf(server.y.s);
    var reply;
    if c.mode == "1" {
      reply := UserSignUp(server, c, ip);
    } else if c.mode == "0" {
      reply := UserLogin(server, c, ip);
      logins := 1;
    } else {
      return UnknownMode, logins;
    }
    while true
      invariant server.Valid() && Evolves(old(server.y.s), server.y.s)
      invariant logins == 0 ==> c.mode == "1" && reply in {Lost, Code(1), Code(2)}
      invariant logins == 0 && reply == Code(1) && c.passwd != "" ==> Accepted(server.y.s, c)
      invariant logins == 0 && reply == Code(2) ==> SignedUp(server.y.s, c.user)
      invariant c.mode == "1" && SignedUp(old(server.y.s), c.user) ==> logins == 0 && reply != Code(1)
      invariant logins == 1 ==> reply in {Lost, Code(0), Code(3), Code(4)}
      invariant logins <= 1 && (c.mode == "0" ==> logins == 1)
      invariant logins == 1 && reply == Code(3) ==> c.passwd == "" || (c.mode == "0" && !Accepted(old(server.y.s), c))
      invariant reply == Code(0) ==>
        exists i | 0 <= i < |server.y.s.db| :: SameTriple(server.y.s.db[i], c, ip) && !server.y.s.db[i].online
      invariant reply == Code(4) ==> Accepted(server.y.s, c) && !Unseen(server.y.s, c, ip)
      decreases 1 - logins
    {
      if reply == Lost {
        return RpcFailed, logins;
      }
      if reply == Code(0) {
        return OtherLogin, logins;
      } else if reply == Code(1) {
        ghost var before := server.y.s;
        reply := UserLogin(server, c, ip);
        EvolvesTrans(old(server.y.s), before, server.y.s);
        logins := logins + 1;
        continue;
      } else if reply == Code(2) {
        return SignUpFailed, logins;
      } else if reply == Code(3) {
        return Refused, logins;
      }
      return LoggedIn, logins;
    }
  }
}
