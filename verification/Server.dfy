/** The signaling server under concurrency (internal/server/websocket/server.go): each section that holds a mutex
    is one step, and the steps of all sessions and of the sweeper interleave in any order. */
module Server {
  import opened Clock
  import opened Names
  import opened Calls
  import opened Presence

  /** Where a session's goroutine is. */
  datatype Phase =
    | Connecting                                   // username known, not registered yet
    | Serving                                      // between two messages
    | Inviting(callId: Name, to: Name, now: Time)  // the invitee was online; the call is not placed yet
    | Placed(callId: Name, to: Name, now: Time)    // the call is placed; the invitation is not delivered yet
    | Undelivered(callId: Name, to: Name, now: Time)  // delivery failed; the call is not undone yet
    | Closing                                      // disconnect has begun
    | Unregistered                                 // offline, calls.Disconnect still to come
    | Gone

  datatype Client = Client(username: Name, phase: Phase)

  /** The shared state, the sessions, and two history variables: which session invited a call and which accepted it. */
  datatype Server = Server(
    table: Table, users: Users, clients: map<Session, Client>,
    inviter: map<Name, Session>, acceptor: map<Name, Session>)

  const INITIAL := Server(EMPTY, map[], map[], map[], map[])

  datatype Step =
    | Connect(s: Session, username: Name)
    | Join(s: Session)
    | LookUp(s: Session, callId: Name, to: Name, now: Time)
    | Place(s: Session)
    | Deliver(s: Session, delivered: bool)  // a closed connection with room in its queue may go both ways
    | Undo(s: Session)
    | Signal(s: Session, signal: SignalType, callId: Name, to: Name, now: Time)
    | Close(s: Session)
    | Leave(s: Session)
    | HangUp(s: Session, now: Time)
    | Sweep(now: Time)

  predicate Relayed(signal: SignalType) {
    signal == CallAccept || signal == CallDecline || signal == CallCancel || signal == CallEnd
    || signal == Offer || signal == Answer || signal == Ice || signal == IceComplete
  }

  function Goto(v: Server, s: Session, phase: Phase): Server
    requires s in v.clients
  {
    v.(clients := v.clients[s := v.clients[s].(phase := phase)])
  }

  /** One step; a step whose session is elsewhere changes nothing. */
  function Next(config: Config, v: Server, step: Step): Server {
    match step
    case Connect(s, username) =>
      if s in v.clients then v else v.(clients := v.clients[s := Client(username, Connecting)])
    case Sweep(now) => v.(table := Expire(config, v.table, now))
    case _ => if step.s in v.clients then Act(config, v, step, v.clients[step.s]) else v
  }

  function Act(config: Config, v: Server, step: Step, c: Client): Server
    requires !step.Sweep? && step.s in v.clients
  {
    var s := step.s;
    match step
    case Join(_) =>
      if c.phase != Connecting then v
      else
        var (users, registered) := Register(v.users, s, c.username);
        if registered then Goto(v.(users := users), s, Serving) else Goto(v, s, Gone)
    case LookUp(_, callId, to, now) =>
      if c.phase == Serving && to in v.users then Goto(v, s, Inviting(callId, to, now)) else v
    case Place(_) =>
      if !c.phase.Inviting? then v
      else
        var (table, r) := Invite(config, v.table, c.phase.callId, c.username, c.phase.to, c.phase.now);
        if r.Ok? then
          Goto(v.(table := table, inviter := v.inviter[c.phase.callId := s]), s,
               Placed(c.phase.callId, c.phase.to, c.phase.now))
        else Goto(v, s, Serving)
    case Deliver(_, delivered) =>
      if !c.phase.Placed? then v
      else Goto(v, s, if delivered then Serving else Undelivered(c.phase.callId, c.phase.to, c.phase.now))
    case Undo(_) =>
      if !c.phase.Undelivered? then v
      else Goto(v.(table := Disconnect(config, v.table, c.phase.to, c.phase.now).0), s, Serving)
    case Signal(_, signal, callId, to, now) =>
      if c.phase != Serving || !Relayed(signal) then v
      else
        var (table, r) := Transition(config, v.table, signal, callId, c.username, to, now);
        if r.Ok? && signal == CallAccept then v.(table := table, acceptor := v.acceptor[callId := s])
        else v.(table := table)
    case Close(_) =>
      if c.phase == Serving then Goto(v, s, Closing) else if c.phase == Connecting then Goto(v, s, Gone) else v
    case Leave(_) =>
      if c.phase != Closing then v else Goto(v.(users := Unregister(v.users, s, c.username)), s, Unregistered)
    case HangUp(_, now) =>
      if c.phase != Unregistered then v else Goto(v.(table := Disconnect(config, v.table, c.username, now).0), s, Gone)
    case _ => v
  }

  function Run(config: Config, steps: seq<Step>): Server {
    if steps == [] then INITIAL else Next(config, Run(config, steps[..|steps| - 1]), steps[|steps| - 1])
  }

  /** The clock is set whenever it is read. */
  predicate Clocked(step: Step) {
    (step.LookUp? || step.Signal? || step.HangUp? || step.Sweep?) ==> step.now > ZERO_TIME
  }

  // ---- the invariant ----

  predicate Online(phase: Phase) {
    phase == Serving || phase.Inviting? || phase.Placed? || phase.Undelivered? || phase == Closing
  }

  /** Registered, and calls.Disconnect not run yet. */
  predicate Present(phase: Phase) {
    Online(phase) || phase == Unregistered
  }

  /** The registry names exactly the sessions that are online. */
  ghost predicate RegistryFits(v: Server) {
    && (forall u | u in v.users ::
          v.users[u] in v.clients && v.clients[v.users[u]].username == u && Online(v.clients[v.users[u]].phase))
    && (forall s | s in v.clients && Online(v.clients[s].phase) ::
          v.clients[s].username in v.users && v.users[v.clients[s].username] == s)
  }

  ghost predicate HeldBy(v: Server, s: Session, username: Name) {
    s in v.clients && v.clients[s].username == username && Present(v.clients[s].phase)
  }

  /** A live call is held by the session that invited it and, once accepted, by the one that accepted it. */
  ghost predicate Held(v: Server, id: Name) {
    && id in v.table.calls
    && id in v.inviter && HeldBy(v, v.inviter[id], v.table.calls[id].caller)
    && (v.table.calls[id].state != Ringing ==> id in v.acceptor && HeldBy(v, v.acceptor[id], v.table.calls[id].callee))
  }

  ghost predicate AllHeld(v: Server) {
    forall id | Live(v.table, id) :: Held(v, id)
  }

  ghost predicate PhasesClocked(v: Server) {
    forall s | s in v.clients ::
      var phase := v.clients[s].phase;
      (phase.Inviting? || phase.Placed? || phase.Undelivered?) ==> phase.now > ZERO_TIME
  }

  ghost predicate Inv(v: Server) {
    Sound(v.table) && RegistryFits(v) && AllHeld(v) && PhasesClocked(v)
  }

  // ---- it is kept ----

  predicate ClockedPhase(phase: Phase) {
    (phase.Inviting? || phase.Placed? || phase.Undelivered?) ==> phase.now > ZERO_TIME
  }

  /** Moving a session along, without its coming or going. */
  lemma GotoKeeps(v: Server, s: Session, phase: Phase)
    requires Inv(v) && s in v.clients && ClockedPhase(phase)
    requires Online(v.clients[s].phase) == Online(phase) && Present(v.clients[s].phase) == Present(phase)
    ensures Inv(Goto(v, s, phase))
  {
    var v' := Goto(v, s, phase);
    forall id | Live(v.table, id) ensures Held(v', id) {
      assert Held(v, id);
    }
    assert RegistryFits(v') by {
      forall u | u in v.users
        ensures v.users[u] in v'.clients && v'.clients[v.users[u]].username == u && Online(v'.clients[v.users[u]].phase)
      {
      }
    }
  }

  /** A table whose live calls are some of those before, unchanged. */
  lemma TableKeeps(v: Server, table: Table)
    requires Inv(v) && Sound(table)
    requires forall id | Live(table, id) :: Live(v.table, id) && table.calls[id] == v.table.calls[id]
    ensures Inv(v.(table := table))
  {
    forall id | Live(table, id) ensures Held(v.(table := table), id) {
      assert Held(v, id);
    }
  }

  lemma DisconnectTableKeeps(config: Config, v: Server, username: Name, now: Time)
    requires Inv(v) && config.Valid() && now > ZERO_TIME
    ensures Inv(v.(table := Disconnect(config, v.table, username, now).0))
    ensures forall id | Live(Disconnect(config, v.table, username, now).0, id) ::
              !Disconnect(config, v.table, username, now).0.calls[id].Involves(username)
  {
    DisconnectKeeps(config, v.table, username, now);
    DisconnectEndsTheUsersCall(config, v.table, username, now);
    TableKeeps(v, Disconnect(config, v.table, username, now).0);
  }

  /** Coming online: the registry gains exactly this session. */
  lemma JoinKeeps(v: Server, s: Session)
    requires Inv(v) && s in v.clients && v.clients[s].phase == Connecting && v.clients[s].username !in v.users
    ensures Inv(Goto(v.(users := v.users[v.clients[s].username := s]), s, Serving))
  {
    var v' := Goto(v.(users := v.users[v.clients[s].username := s]), s, Serving);
    forall id | Live(v.table, id) ensures Held(v', id) {
      assert Held(v, id);
    }
  }

  /** Going offline: the registry loses exactly this session, whose calls are still held. */
  lemma LeaveKeeps(v: Server, s: Session)
    requires Inv(v) && s in v.clients && v.clients[s].phase == Closing
    ensures Inv(Goto(v.(users := Unregister(v.users, s, v.clients[s].username)), s, Unregistered))
  {
    var v' := Goto(v.(users := Unregister(v.users, s, v.clients[s].username)), s, Unregistered);
    forall id | Live(v.table, id) ensures Held(v', id) {
      assert Held(v, id);
    }
  }

  /** A placed call is held by the session that places it. */
  lemma InviteHeld(config: Config, v: Server, s: Session, id: Name, to: Name, now: Time)
    requires Inv(v) && config.Valid() && now > ZERO_TIME
    requires s in v.clients && Present(v.clients[s].phase)
    requires Invite(config, v.table, id, v.clients[s].username, to, now).1.Ok?
    ensures Inv(v.(table := Invite(config, v.table, id, v.clients[s].username, to, now).0,
                   inviter := v.inviter[id := s]))
  {
    var table := Invite(config, v.table, id, v.clients[s].username, to, now).0;
    InviteKeeps(config, v.table, id, v.clients[s].username, to, now);
    var v' := v.(table := table, inviter := v.inviter[id := s]);
    forall other | Live(table, other) ensures Held(v', other) {
      if other != id {
        assert Live(v.table, other) && Held(v, other);
      }
    }
  }

  /** A signal that is not an accept leaves every live call with the sessions that held it. */
  lemma AdvanceHeld(config: Config, v: Server, signal: SignalType, id: Name, actor: Name, to: Name, now: Time)
    requires Inv(v) && config.Valid() && now > ZERO_TIME && signal != CallAccept
    ensures Inv(v.(table := Transition(config, v.table, signal, id, actor, to, now).0))
  {
    var table := Transition(config, v.table, signal, id, actor, to, now).0;
    TransitionKeeps(config, v.table, signal, id, actor, to, now);
    TransitionMoves(config, v.table, signal, id, actor, to, now);
    forall other | Live(table, other) ensures Held(v.(table := table), other) {
      assert Held(v, other);
    }
  }

  /** An accepted call is held by the session that accepted it, which is the callee's. */
  lemma AcceptHeld(config: Config, v: Server, s: Session, id: Name, to: Name, now: Time)
    requires Inv(v) && config.Valid() && now > ZERO_TIME
    requires s in v.clients && Present(v.clients[s].phase)
    requires Transition(config, v.table, CallAccept, id, v.clients[s].username, to, now).1.Ok?
    ensures Inv(v.(table := Transition(config, v.table, CallAccept, id, v.clients[s].username, to, now).0,
                   acceptor := v.acceptor[id := s]))
  {
    var username := v.clients[s].username;
    var table := Transition(config, v.table, CallAccept, id, username, to, now).0;
    TransitionKeeps(config, v.table, CallAccept, id, username, to, now);
    TransitionMoves(config, v.table, CallAccept, id, username, to, now);
    assert v.table.calls[id].callee == username;
    var v' := v.(table := table, acceptor := v.acceptor[id := s]);
    forall other | Live(table, other) ensures Held(v', other) {
      assert Held(v, other);
    }
  }

  /** The heart of it: a session hangs up after ending the one call its user is in, so it holds no live call. */
  lemma HangUpKeeps(v: Server, s: Session)
    requires Inv(v) && s in v.clients && v.clients[s].phase == Unregistered
    requires forall id | Live(v.table, id) :: !v.table.calls[id].Involves(v.clients[s].username)
    ensures Inv(Goto(v, s, Gone))
  {
    forall id | Live(v.table, id) ensures Held(Goto(v, s, Gone), id) {
      assert Held(v, id);
    }
  }

  lemma ActKeeps(config: Config, v: Server, step: Step, c: Client)
    requires Inv(v) && config.Valid() && Clocked(step)
    requires !step.Sweep? && step.s in v.clients && c == v.clients[step.s]
    ensures Inv(Act(config, v, step, c))
  {
    var s := step.s;
    match step
    case Connect(_, _) =>
    case Join(_) =>
      if c.phase == Connecting {
        if c.username in v.users { GotoKeeps(v, s, Gone); } else { JoinKeeps(v, s); }
      }
    case LookUp(_, callId, to, now) =>
      if c.phase == Serving { GotoKeeps(v, s, Inviting(callId, to, now)); }
    case Place(_) =>
      if c.phase.Inviting? { PlaceKeeps(config, v, s, c.phase); }
    case Deliver(_, delivered) =>
      if c.phase.Placed? {
        GotoKeeps(v, s, if delivered then Serving else Undelivered(c.phase.callId, c.phase.to, c.phase.now));
      }
    case Undo(_) =>
      if c.phase.Undelivered? { UndoKeeps(config, v, s, c.phase); }
    case Signal(_, signal, callId, to, now) =>
      if c.phase == Serving { SignalKeeps(config, v, step, c); }
    case Close(_) =>
      if c.phase == Serving { GotoKeeps(v, s, Closing); } else if c.phase == Connecting { GotoKeeps(v, s, Gone); }
    case Leave(_) =>
      if c.phase == Closing { LeaveKeeps(v, s); }
    case HangUp(_, now) =>
      if c.phase == Unregistered {
        DisconnectTableKeeps(config, v, c.username, now);
        HangUpKeeps(v.(table := Disconnect(config, v.table, c.username, now).0), s);
      }
  }

  lemma PlaceKeeps(config: Config, v: Server, s: Session, phase: Phase)
    requires Inv(v) && config.Valid() && s in v.clients && v.clients[s].phase == phase && phase.Inviting?
    ensures Inv(Act(config, v, Place(s), v.clients[s]))
  {
    var (table, r) := Invite(config, v.table, phase.callId, v.clients[s].username, phase.to, phase.now);
    if r.Ok? {
      InviteHeld(config, v, s, phase.callId, phase.to, phase.now);
      GotoKeeps(v.(table := table, inviter := v.inviter[phase.callId := s]), s,
          Placed(phase.callId, phase.to, phase.now));
    } else {
      GotoKeeps(v, s, Serving);
    }
  }

  lemma UndoKeeps(config: Config, v: Server, s: Session, phase: Phase)
    requires Inv(v) && config.Valid() && s in v.clients && v.clients[s].phase == phase && phase.Undelivered?
    ensures Inv(Act(config, v, Undo(s), v.clients[s]))
  {
    DisconnectTableKeeps(config, v, phase.to, phase.now);
    GotoKeeps(v.(table := Disconnect(config, v.table, phase.to, phase.now).0), s, Serving);
  }

  lemma SignalKeeps(config: Config, v: Server, step: Step, c: Client)
    requires Inv(v) && config.Valid() && step.Signal? && step.now > ZERO_TIME
    requires step.s in v.clients && v.clients[step.s] == c && c.phase == Serving
    ensures Inv(Act(config, v, step, c))
  {
    var Signal(s, signal, callId, to, now) := step;
    if Transition(config, v.table, signal, callId, c.username, to, now).1.Ok? {
      if signal == CallAccept {
        AcceptHeld(config, v, s, callId, to, now);
      } else {
        AdvanceHeld(config, v, signal, callId, c.username, to, now);
      }
    }
  }

  lemma ConnectKeeps(v: Server, s: Session, username: Name)
    requires Inv(v) && s !in v.clients
    ensures Inv(v.(clients := v.clients[s := Client(username, Connecting)]))
  {
    var v' := v.(clients := v.clients[s := Client(username, Connecting)]);
    forall id | Live(v.table, id) ensures Held(v', id) {
      assert Held(v, id);
    }
  }

  lemma SweepKeeps(config: Config, v: Server, now: Time)
    requires Inv(v) && config.Valid() && now > ZERO_TIME
    ensures Inv(v.(table := Expire(config, v.table, now)))
  {
    ExpireKeeps(config, v.table, now);
    ExpireIsExact(config, v.table, now);
    TableKeeps(v, Expire(config, v.table, now));
  }

  lemma NextKeeps(config: Config, v: Server, step: Step)
    requires Inv(v) && config.Valid() && Clocked(step)
    ensures Inv(Next(config, v, step))
  {
    if step.Sweep? {
      SweepKeeps(config, v, step.now);
    } else if step.s !in v.clients {
      if step.Connect? { ConnectKeeps(v, step.s, step.username); }
    } else {
      ActKeeps(config, v, step, v.clients[step.s]);
    }
  }

  lemma {:induction false} EveryRunKeeps(config: Config, steps: seq<Step>)
    requires config.Valid() && forall i | 0 <= i < |steps| :: Clocked(steps[i])
    ensures Inv(Run(config, steps))
  {
    if steps == [] {
      assert AllHeld(INITIAL);
    } else {
      EveryRunKeeps(config, steps[..|steps| - 1]);
      NextKeeps(config, Run(config, steps[..|steps| - 1]), steps[|steps| - 1]);
    }
  }

  // ---- what it means ----

  /** Under every interleaving, no unfinished call outlives the hang-up of the session that invited it, nor, once
      past RINGING, of the session that accepted it. */
  lemma NoCallOutlivesItsSessions(config: Config, steps: seq<Step>, s: Session, id: Name)
    requires config.Valid() && forall i | 0 <= i < |steps| :: Clocked(steps[i])
    requires var v := Run(config, steps); s in v.clients && v.clients[s].phase == Gone && Live(v.table, id)
    ensures var v := Run(config, steps);
            && id in v.inviter && v.inviter[id] != s
            && (v.table.calls[id].state != Ringing ==> id in v.acceptor && v.acceptor[id] != s)
  {
    EveryRunKeeps(config, steps);
    assert Held(Run(config, steps), id);
  }

  lemma NothingIsLeftIn(v: Server)
    requires Inv(v) && forall s | s in v.clients :: v.clients[s].phase == Gone
    ensures v.table.active == map[] && v.users == map[] && forall id :: !Live(v.table, id)
  {
    assert forall id :: Live(v.table, id) ==> Held(v, id);
    assert forall u :: u in v.table.active ==> Live(v.table, v.table.active[u]);
    assert v.table.active.Keys == {} && v.users.Keys == {};
  }

  /** When every session is gone, nothing is left: no live call, nobody busy, nobody online. */
  lemma NothingIsLeft(config: Config, steps: seq<Step>)
    requires config.Valid() && forall i | 0 <= i < |steps| :: Clocked(steps[i])
    requires forall s | s in Run(config, steps).clients :: Run(config, steps).clients[s].phase == Gone
    ensures var v := Run(config, steps); v.table.active == map[] && v.users == map[] && forall id :: !Live(v.table, id)
  {
    EveryRunKeeps(config, steps);
    NothingIsLeftIn(Run(config, steps));
  }

  lemma RingingIsFreedIn(config: Config, v: Server, id: Name, now: Time)
    requires Sound(v.table) && id in v.table.calls && v.table.calls[id].state == Ringing
    ensures var c, table := v.table.calls[id], Expire(config, v.table, now);
            && c.deadline > ZERO_TIME
            && (now >= c.deadline ==> id in table.calls && table.calls[id].state == TimedOut
                                      && c.caller !in table.active && c.callee !in table.active)
  {
    assert Live(v.table, id);
    ExpireIsExact(config, v.table, now);
  }

  /** A RINGING call always carries a deadline, whether or not its callee is still there, and the first sweep at or
      after it ends the call and frees the caller. */
  lemma {:induction false} RingingCallsAreFreed(config: Config, steps: seq<Step>, id: Name, now: Time)
    requires config.Valid() && forall i | 0 <= i < |steps| :: Clocked(steps[i])
    requires id in Run(config, steps).table.calls && Run(config, steps).table.calls[id].state == Ringing
    ensures var c := Run(config, steps).table.calls[id];
            && c.deadline > ZERO_TIME
            && (now >= c.deadline ==>
                  var table := Next(config, Run(config, steps), Sweep(now)).table;
                  && id in table.calls && table.calls[id].state == TimedOut
                  && c.caller !in table.active && c.callee !in table.active)
  {
    EveryRunKeeps(config, steps);
    RingingIsFreedIn(config, Run(config, steps), id, now);
  }

  /** A username is online through at most one session, and the owner check at leaving never fails. */
  lemma OneSessionPerUser(config: Config, steps: seq<Step>, s: Session, t: Session)
    requires config.Valid() && forall i | 0 <= i < |steps| :: Clocked(steps[i])
    requires var v := Run(config, steps);
             && s in v.clients && t in v.clients && v.clients[s].username == v.clients[t].username
             && Online(v.clients[s].phase) && Online(v.clients[t].phase)
    ensures s == t
    ensures var v := Run(config, steps);
        Unregister(v.users, s, v.clients[s].username) == v.users - {v.clients[s].username}
  {
    EveryRunKeeps(config, steps);
  }
}
