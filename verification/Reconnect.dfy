/** What a user who reconnects at the wrong moment can lose (disconnect and the invite case of dispatch in
    internal/server/websocket/server.go): both name a user, not a call. */
module Reconnect {
  import opened Clock
  import opened Names
  import opened Calls
  import opened Presence
  import opened S = Server

  /** A call this session takes part in: it placed it or accepted it. */
  predicate TakesPart(v: S.Server, s: Session, id: Name)
    requires id in v.table.calls
  {
    || (id in v.inviter && v.inviter[id] == s)
    || (v.table.calls[id].state != Ringing && id in v.acceptor && v.acceptor[id] == s)
  }

  /** The session that takes part on a user's side, if there is one yet: a ringing call has none for its callee. */
  ghost predicate OtherSessionHolds(v: S.Server, s: Session, id: Name, username: Name)
    requires id in v.table.calls
  {
    || (v.table.calls[id].caller == username && id in v.inviter && v.inviter[id] != s
        && HeldBy(v, v.inviter[id], username))
    || (v.table.calls[id].callee == username && v.table.calls[id].state != Ringing
        && id in v.acceptor && v.acceptor[id] != s && HeldBy(v, v.acceptor[id], username))
  }

  /** A session that hangs up ends the live call its user is in, and no other. That is a call it takes no part in if
      and only if the user is marked with such a call; and then the call still rings for the user, or another session
      of the same user, that came online since, holds it. */
  lemma {:induction false} HangUpEndsTheUsersCall(config: Config, steps: seq<S.Step>, s: Session, now: Time)
    requires config.Valid() && forall i | 0 <= i < |steps| :: Clocked(steps[i])
    requires var v := S.Run(config, steps); s in v.clients && v.clients[s].phase == Unregistered
    ensures var v, v' := S.Run(config, steps), S.Next(config, S.Run(config, steps), HangUp(s, now));
            var username, active := v.clients[s].username, v.table.active;
            && (forall id :: Live(v'.table, id) <==> Live(v.table, id) && !v.table.calls[id].Involves(username))
            && ((exists id :: EndsAnothers(v, v', s, id))
                <==> username in active && active[username] in v.table.calls && !TakesPart(v, s, active[username]))
            && (forall id | EndsAnothers(v, v', s, id) ::
                  || (v.table.calls[id].callee == username && v.table.calls[id].state == Ringing)
                  || OtherSessionHolds(v, s, id, username))
  {
    EveryRunKeeps(config, steps);
    HangUpEnds(config, S.Run(config, steps), s, now);
  }

  /** A live call ends in which the session takes no part. */
  ghost predicate EndsAnothers(v: S.Server, v': S.Server, s: Session, id: Name) {
    Live(v.table, id) && !Live(v'.table, id) && !TakesPart(v, s, id)
  }

  lemma HangUpEnds(config: Config, v: S.Server, s: Session, now: Time)
    requires S.Inv(v) && s in v.clients && v.clients[s].phase == Unregistered
    ensures var v' := S.Next(config, v, HangUp(s, now));
            var username, active := v.clients[s].username, v.table.active;
            && (forall id :: Live(v'.table, id) <==> Live(v.table, id) && !v.table.calls[id].Involves(username))
            && ((exists id :: EndsAnothers(v, v', s, id))
                <==> username in active && active[username] in v.table.calls && !TakesPart(v, s, active[username]))
            && (forall id | EndsAnothers(v, v', s, id) ::
                  || (v.table.calls[id].callee == username && v.table.calls[id].state == Ringing)
                  || OtherSessionHolds(v, s, id, username))
  {
    var v' := S.Next(config, v, HangUp(s, now));
    var username := v.clients[s].username;
    DisconnectEndsTheUsersCall(config, v.table, username, now);
    if username in v.table.active {
      var id := v.table.active[username];
      assert Live(v.table, id) && v.table.calls[id].Involves(username) && !Live(v'.table, id);
      if !TakesPart(v, s, id) {
        assert EndsAnothers(v, v', s, id);
      }
    }
    forall id | EndsAnothers(v, v', s, id)
      ensures username in v.table.active && v.table.active[username] == id
      ensures || (v.table.calls[id].callee == username && v.table.calls[id].state == Ringing)
              || OtherSessionHolds(v, s, id, username)
    {
      assert Held(v, id);
    }
  }

  // ---- both cases, from one run ----

  /** Some run leads here. */
  ghost predicate Reachable(config: Config, v: S.Server) {
    exists steps :: Leads(config, steps, v)
  }

  ghost predicate Leads(config: Config, steps: seq<S.Step>, v: S.Server) {
    v == S.Run(config, steps) && forall i | 0 <= i < |steps| :: Clocked(steps[i])
  }

  lemma Then(config: Config, v: S.Server, step: S.Step, next: S.Server)
    requires Reachable(config, v) && Clocked(step) && next == S.Next(config, v, step)
    ensures Reachable(config, next)
  {
    var steps :| Leads(config, steps, v);
    var more := steps + [step];
    assert more[..|steps|] == steps;
    assert Leads(config, more, next);
  }

  function Rings(config: Config, id: Name, caller: Name, callee: Name): Call {
    Call(id, caller, callee, Ringing, 1, 1, 1 + config.ringTimeout, ZERO_TIME, 0, 0)
  }

  function Two(a: Name, p: Phase, b: Name, q: Phase): map<Session, Client> {
    map[0 := Client(a, p), 1 := Client(b, q)]
  }

  /** Two users online, no call yet. */
  function Idle(a: Name, phase: Phase, b: Name): S.Server {
    S.Server(EMPTY, map[a := 0, b := 1], Two(a, phase, b, Serving), map[], map[])
  }

  lemma BothJoin(config: Config, a: Name, b: Name)
    requires a != b
    ensures Reachable(config, Idle(a, Serving, b))
  {
    assert Leads(config, [], INITIAL);
    var v1 := S.Server(EMPTY, map[], map[0 := Client(a, Connecting)], map[], map[]);
    Then(config, INITIAL, Connect(0, a), v1);
    var v2 := S.Server(EMPTY, map[], Two(a, Connecting, b, Connecting), map[], map[]);
    Then(config, v1, Connect(1, b), v2);
    var v3 := S.Server(EMPTY, map[a := 0], Two(a, Serving, b, Connecting), map[], map[]);
    Then(config, v2, S.Join(0), v3);
    Then(config, v3, S.Join(1), Idle(a, Serving, b));
  }

  /** A session places the call it has in hand. */
  lemma Places(config: Config, v: S.Server, s: Session, id: Name, to: Name)
    requires s in v.clients && v.clients[s].phase == Inviting(id, to, 1)
    requires Invite(config, v.table, id, v.clients[s].username, to, 1).1.Ok?
    ensures S.Next(config, v, Place(s))
         == v.(table := Invite(config, v.table, id, v.clients[s].username, to, 1).0,
               inviter := v.inviter[id := s],
               clients := v.clients[s := Client(v.clients[s].username, Placed(id, to, 1))])
  {
  }

  /** One of them has placed a call and is about to deliver it, or to undo it. */
  function Calling(config: Config, a: Name, b: Name, x: Name, phase: Phase): S.Server {
    S.Server(Table(map[x := Rings(config, x, a, b)], map[a := x, b := x]), map[a := 0, b := 1],
             Two(a, phase, b, Serving), map[x := 0], map[])
  }

  lemma LooksUp(config: Config, a: Name, b: Name, x: Name)
    requires a != b
    ensures Reachable(config, Idle(a, Inviting(x, b, 1), b))
  {
    BothJoin(config, a, b);
    Then(config, Idle(a, Serving, b), LookUp(0, x, b, 1), Idle(a, Inviting(x, b, 1), b));
  }

  lemma PlacesFirst(config: Config, a: Name, b: Name, x: Name)
    requires a != b
    ensures Reachable(config, Calling(config, a, b, x, Placed(x, b, 1)))
  {
    LooksUp(config, a, b, x);
    Places(config, Idle(a, Inviting(x, b, 1), b), 0, x, b);
    Then(config, Idle(a, Inviting(x, b, 1), b), Place(0), Calling(config, a, b, x, Placed(x, b, 1)));
  }

  lemma DeliveryFails(config: Config, a: Name, b: Name, x: Name)
    requires a != b
    ensures Reachable(config, Calling(config, a, b, x, Undelivered(x, b, 1)))
  {
    PlacesFirst(config, a, b, x);
    Then(config, Calling(config, a, b, x, Placed(x, b, 1)), Deliver(0, false),
        Calling(config, a, b, x, Undelivered(x, b, 1)));
  }

  /** The invitee's session has closed; it is offline but has not hung up yet, and the user is back. */
  function Back(table: Table, a: Name, p: Phase, b: Name, q: Phase, r: Phase, inviter: map<Name, Session>): S.Server {
    S.Server(table, map[a := 0, b := 2], map[0 := Client(a, p), 1 := Client(b, q), 2 := Client(b, r)], inviter, map[])
  }

  function Placing(config: Config, a: Name, b: Name, x: Name): Table {
    Table(map[x := Rings(config, x, a, b)], map[a := x, b := x])
  }

  lemma LeavesAndReturns(config: Config, a: Name, b: Name, x: Name)
    requires a != b
    ensures Reachable(config,
        Back(Placing(config, a, b, x), a, Undelivered(x, b, 1), b, Unregistered, Serving, map[x := 0]))
  {
    Leaves(config, a, b, x);
    var table, p := Placing(config, a, b, x), Undelivered(x, b, 1);
    var v1 := S.Server(table, map[a := 0], Two(a, p, b, Unregistered), map[x := 0], map[]);
    var v2 := v1.(clients := map[0 := Client(a, p), 1 := Client(b, Unregistered), 2 := Client(b, Connecting)]);
    Then(config, v1, Connect(2, b), v2);
    Then(config, v2, S.Join(2), Back(table, a, p, b, Unregistered, Serving, map[x := 0]));
  }

  lemma Leaves(config: Config, a: Name, b: Name, x: Name)
    requires a != b
    ensures Reachable(config,
        S.Server(Placing(config, a, b, x), map[a := 0], Two(a, Undelivered(x, b, 1), b, Unregistered),
                                       map[x := 0], map[]))
  {
    DeliveryFails(config, a, b, x);
    var p := Undelivered(x, b, 1);
    var v := Calling(config, a, b, x, p).(clients := Two(a, p, b, Closing));
    Then(config, Calling(config, a, b, x, p), Close(1), v);
    Then(config, v, S.Leave(1),
        S.Server(Placing(config, a, b, x), map[a := 0], Two(a, p, b, Unregistered), map[x := 0], map[]));
  }

  /** The undelivered call is over, by whichever of the two came first. */
  function Over(config: Config, a: Name, b: Name, x: Name): Table {
    Table(map[x := Finished(config, Rings(config, x, a, b), Ended, 1)], map[])
  }

  lemma EitherEndsIt(config: Config, a: Name, b: Name, x: Name)
    requires a != b
    ensures Disconnect(config, Placing(config, a, b, x), b, 1).0 == Over(config, a, b, x)
  {
  }

  lemma HungUpFirst(config: Config, a: Name, b: Name, x: Name)
    requires a != b
    ensures Reachable(config, Back(Over(config, a, b, x), a, Undelivered(x, b, 1), b, Gone, Serving, map[x := 0]))
  {
    LeavesAndReturns(config, a, b, x);
    EitherEndsIt(config, a, b, x);
    Then(config, Back(Placing(config, a, b, x), a, Undelivered(x, b, 1), b, Unregistered, Serving, map[x := 0]),
         HangUp(1, 1), Back(Over(config, a, b, x), a, Undelivered(x, b, 1), b, Gone, Serving, map[x := 0]));
  }

  lemma Undoes(config: Config, v: S.Server, s: Session, id: Name, to: Name)
    requires s in v.clients && v.clients[s].phase == Undelivered(id, to, 1)
    ensures S.Next(config, v, Undo(s))
         == v.(table := Disconnect(config, v.table, to, 1).0,
               clients := v.clients[s := Client(v.clients[s].username, Serving)])
  {
  }

  lemma UndoneFirst(config: Config, a: Name, b: Name, x: Name)
    requires a != b
    ensures Reachable(config, Back(Over(config, a, b, x), a, Serving, b, Unregistered, Serving, map[x := 0]))
  {
    LeavesAndReturns(config, a, b, x);
    EitherEndsIt(config, a, b, x);
    var v := Back(Placing(config, a, b, x), a, Undelivered(x, b, 1), b, Unregistered, Serving, map[x := 0]);
    Undoes(config, v, 0, x, b);
    Then(config, v, Undo(0), Back(Over(config, a, b, x), a, Serving, b, Unregistered, Serving, map[x := 0]));
  }

  /** The user calls back from the new session. */
  function CalledBack(config: Config, a: Name, p: Phase, b: Name, q: Phase, x: Name, y: Name): S.Server {
    Back(Table(Over(config, a, b, x).calls[y := Rings(config, y, b, a)], map[b := y, a := y]),
         a, p, b, q, Placed(y, a, 1), map[x := 0, y := 2])
  }

  lemma CallsBack(config: Config, a: Name, p: Phase, b: Name, q: Phase, x: Name, y: Name)
    requires a != b && x != y
    requires Reachable(config, Back(Over(config, a, b, x), a, p, b, q, Serving, map[x := 0]))
    ensures Reachable(config, CalledBack(config, a, p, b, q, x, y))
  {
    var v := Back(Over(config, a, b, x), a, p, b, q, Inviting(y, a, 1), map[x := 0]);
    Then(config, Back(Over(config, a, b, x), a, p, b, q, Serving, map[x := 0]), LookUp(2, y, a, 1), v);
    Places(config, v, 2, y, a);
    Then(config, v, Place(2), CalledBack(config, a, p, b, q, x, y));
  }

  /** An undelivered invitation closes the invitee's session. If that hangs up and the user reconnects and calls back
      before the undoing, the new call is lost to it. */
  lemma UndoCanEndAnotherCall(config: Config, a: Name, b: Name, x: Name, y: Name)
    requires a != b && x != y
    ensures var v := CalledBack(config, a, Undelivered(x, b, 1), b, Gone, x, y);
            && Reachable(config, v)
            && v.clients[0].phase == Undelivered(x, b, 1)
            && !Live(v.table, x) && Live(v.table, y)
            && !Live(S.Next(config, v, Undo(0)).table, y)
  {
    HungUpFirst(config, a, b, x);
    CallsBack(config, a, Undelivered(x, b, 1), b, Gone, x, y);
  }

  /** If the undoing comes first, the new call is lost to the old session's hang-up instead. */
  lemma HangUpCanEndAnotherCall(config: Config, a: Name, b: Name, x: Name, y: Name)
    requires a != b && x != y
    ensures var v := CalledBack(config, a, Serving, b, Unregistered, x, y);
            && Reachable(config, v)
            && v.clients[1].phase == Unregistered && v.inviter[y] == 2
            && EndsAnothers(v, S.Next(config, v, HangUp(1, 1)), 1, y)
  {
    UndoneFirst(config, a, b, x);
    CallsBack(config, a, Serving, b, Unregistered, x, y);
  }
}
