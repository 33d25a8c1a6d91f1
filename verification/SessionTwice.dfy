/** A user with a closing brace in a value is online twice: a run of the protocol that gets there. */
module SessionTwice {
  import opened Common
  import opened Session
  import opened Protocol

  /** What a thread that nobody interrupts does from the lock to the answer. */
  ghost predicate Alone(y: System, z: System, t: nat, res: nat, s: State) {
    z == System(s, None, y.at[t := Returned(res)])
  }

  /** A call begins and takes the lock, which is free. */
  lemma Enters(y: System, t: nat, call: Call, c: Params, ip: Text) returns (moves: seq<Move>)
    requires t !in y.at && y.lock == None
    ensures CanRun(y, moves) && Run(y, moves) == System(y.s, Some(t), y.at[t := Passwd(call, c, ip)])
  {
    hide Run, CanRun;
    moves := TwoMoves(y, Move(t, Calling(call, c, ip), Nothing), Move(t, Passwd(call, c, ip), Nothing));
    assert y.at[t := Calling(call, c, ip)][t := Passwd(call, c, ip)] == y.at[t := Passwd(call, c, ip)];
  }

  lemma TwoMoves(y: System, m: Move, m': Move) returns (moves: seq<Move>)
    requires CanMove(y, m) && CanMove(Next(y, m), m')
    ensures CanRun(y, moves) && Run(y, moves) == Next(Next(y, m), m')
  {
    hide Run, CanRun, CanMove, Next;
    NoMoves(y);
    OneMoreMove(y, [], m);
    OneMoreMove(y, [] + [m], m');
    moves := [] + [m] + [m'];
  }

  lemma SignUpAlone(y: System, t: nat, c: Params, ip: Text) returns (moves: seq<Move>)
    requires t !in y.at && y.lock == None && !SignedUp(y.s, c.user)
    ensures CanRun(y, moves) && Alone(y, Run(y, moves), t, 1, Apply(y.s, PutUser(c.user, c.passwd)))
  {
    hide Run, CanRun, CanMove, Next, Apply;
    moves := Enters(y, t, SignUpCall, c, ip);
    var z := Run(y, moves);
    var more := SignsUp(z, t);
    RunAppend(y, moves, more);
    moves := moves + more;
    assert y.at[t := Passwd(SignUpCall, c, ip)][t := Answered(1)][t := Returned(1)] == y.at[t := Returned(1)];
  }

  lemma SignsUp(y: System, t: nat) returns (moves: seq<Move>)
    requires t in y.at && y.at[t].Passwd? && y.at[t].call.SignUpCall? && y.lock == Some(t)
    requires !SignedUp(y.s, y.at[t].c.user)
    ensures CanRun(y, moves) && (var c := y.at[t].c;
      Run(y, moves) == System(Apply(y.s, PutUser(c.user, c.passwd)), None, y.at[t := Answered(1)][t := Returned(1)]))
  {
    hide Run, CanRun;
    var c := y.at[t].c;
    moves := TwoMoves(y, Move(t, NewUser(c), Nothing), Move(t, Answered(1), PutUser(c.user, c.passwd)));
    var z := Run(y, moves);
    assert z.at == y.at[t := Answered(1)];
    OneMoreMove(y, moves, Move(t, Returned(1), Nothing));
    moves := moves + [Move(t, Returned(1), Nothing)];
  }

  /** A login of an unseen triple whose user has no session online, or one that cannot be written back. */
  lemma LoginAlone(y: System, t: nat, c: Params, ip: Text) returns (moves: seq<Move>)
    requires t !in y.at && y.lock == None && Accepted(y.s, c) && Unseen(y.s, c, ip)
    requires MayFindNoKick(y.s, c.user)
    ensures CanRun(y, moves) && Alone(y, Run(y, moves), t, 4, Apply(y.s, AddLogin(c.user, ip, c.ltime)))
  {
    hide Run, CanRun, CanMove, Next, Apply, MayFindNoKick;
    moves := Enters(y, t, LoginCall, c, ip);
    var z := Run(y, moves);
    var more := LogsIn(z, t, c, ip);
    RunAppend(y, moves, more);
    moves, z := moves + more, Run(z, more);
    more := Adds(z, t, c, ip);
    RunAppend(y, moves, more);
    moves := moves + more;
    assert y.at[t := Passwd(LoginCall, c, ip)][t := Adding(c, ip)][t := Returned(4)] == y.at[t := Returned(4)];
  }

  lemma LogsIn(y: System, t: nat, c: Params, ip: Text) returns (moves: seq<Move>)
    requires t in y.at && y.at[t] == Passwd(LoginCall, c, ip) && y.lock == Some(t)
    requires Accepted(y.s, c) && Unseen(y.s, c, ip) && MayFindNoKick(y.s, c.user)
    ensures CanRun(y, moves) && Run(y, moves) == System(y.s, Some(t), y.at[t := Adding(c, ip)])
  {
    hide Run, CanRun;
    var m := Move(t, Adding(c, ip), Nothing);
    moves := Searches(y, t, c, ip);
    OneMoreMove(y, moves, m);
    moves := moves + [m];
    assert y.at[t := KickSearch(c, ip, true)][t := Adding(c, ip)] == y.at[t := Adding(c, ip)];
  }

  lemma Searches(y: System, t: nat, c: Params, ip: Text) returns (moves: seq<Move>)
    requires t in y.at && y.at[t] == Passwd(LoginCall, c, ip) && y.lock == Some(t)
    requires Accepted(y.s, c) && Unseen(y.s, c, ip)
    ensures CanRun(y, moves) && Run(y, moves) == System(y.s, Some(t), y.at[t := KickSearch(c, ip, true)])
  {
    hide Run, CanRun;
    moves := TwoMoves(y, Move(t, SeenBefore(LoginCall, c, ip), Nothing), Move(t, KickSearch(c, ip, true), Nothing));
    assert y.at[t := SeenBefore(LoginCall, c, ip)][t := KickSearch(c, ip, true)] == y.at[t := KickSearch(c, ip, true)];
  }

  lemma Adds(y: System, t: nat, c: Params, ip: Text) returns (moves: seq<Move>)
    requires t in y.at && y.at[t] == Adding(c, ip) && y.lock == Some(t)
    ensures CanRun(y, moves)
    ensures Run(y, moves) == System(Apply(y.s, AddLogin(c.user, ip, c.ltime)), None, y.at[t := Returned(4)])
  {
    hide Run, CanRun;
    moves := TwoMoves(y, Move(t, Answered(4), AddLogin(c.user, ip, c.ltime)), Move(t, Returned(4), Nothing));
    assert y.at[t := Answered(4)][t := Returned(4)] == y.at[t := Returned(4)];
  }

  /** A sign-up and two logins, the first with the time "1}": both sessions are online. */
  lemma TwiceOnline() returns (moves: seq<Move>)
    ensures CanRun(START, moves)
    ensures
      var db := Run(START, moves).s.db;
      |db| == 2 && db[0].user == db[1].user && db[0].online && db[1].online
  {
    var c1, c2, ip: Text := Params("u", "p", "0", "1}"), Params("u", "p", "0", "2"), "i";
    moves := SignUpAlone(START, 0, c1, ip);
    var y := Run(START, moves);
    var more := LoginAlone(y, 1, c1, ip);
    RunAppend(START, moves, more);
    moves, y := moves + more, Run(y, more);
    assert y.s.db[0] == Record("u", ip, "1}", true) && "1}"[1] == '}';
    assert !Writable(y.s.db[0]) && OnlineOf(y.s.db[0], c2.user) && "1}"[1] != "2"[0];
    more := LoginAlone(y, 2, c2, ip);
    RunAppend(START, moves, more);
    moves := moves + more;
  }
}
