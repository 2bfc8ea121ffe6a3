/** The server's steps as operations on the call table, and what they mean to the users
    (internal/server/websocket/server.go). */
module ServerCalls {
  import opened Clock
  import opened Names
  import opened Calls
  import opened Presence
  import opened S = Server
  import H = CallHistory
  import CallTrace

  /** The operations that a step issues on the call table. A session places the call it has looked up, relays what its
      user signals between two messages, undoes what it could not deliver and hangs up when it is offline; the sweeper
      sweeps. */
  function Issued(v: S.Server, step: S.Step): seq<Op> {
    if step.Sweep? then [DoExpire(step.now)]
    else if step.s !in v.clients then []
    else
      var Client(username, phase) := v.clients[step.s];
      if step.Place? && phase.Inviting? then [DoInvite(phase.callId, username, phase.to, phase.now)]
      else if step.Undo? && phase.Undelivered? then [DoDisconnect(phase.to, phase.now)]
      else if step.HangUp? && phase == Unregistered then [DoDisconnect(username, step.now)]
      else if step.Signal? && phase == Serving && IsRelayed(step.signal) then
        [DoTransition(step.signal, step.callId, username, step.to, step.now)]
      else []
  }

  /** The messages that the server passes on between the two sides of a call. */
  predicate IsRelayed(signal: SignalType) {
    match signal
    case CallAccept => true
    case CallDecline => true
    case CallCancel => true
    case CallEnd => true
    case Offer => true
    case Answer => true
    case Ice => true
    case IceComplete => true
    case _ => false
  }

  function AllIssued(config: Config, steps: seq<S.Step>): seq<Op> {
    if steps == [] then []
    else
      var n := |steps| - 1;
      AllIssued(config, steps[..n]) + Issued(S.Run(config, steps[..n]), steps[n])
  }

  lemma IssuedIsDone(config: Config, v: S.Server, step: S.Step)
    ensures |Issued(v, step)| <= 1
    ensures S.Next(config, v, step).table
         == if Issued(v, step) == [] then v.table else Calls.Step(config, v.table, Issued(v, step)[0])
  {
  }

  lemma RunOneMore(config: Config, ops: seq<Op>, more: seq<Op>)
    requires |more| <= 1
    ensures Calls.Run(config, ops + more)
         == if more == [] then Calls.Run(config, ops) else Calls.Step(config, Calls.Run(config, ops), more[0])
  {
    if more == [] {
      assert ops + more == ops;
    } else {
      assert (ops + more)[..|ops + more| - 1] == ops;
    }
  }

  /** The server's call table is that of the operations it issues: every signal reaches it, and nothing else does. */
  lemma {:induction false} TableIsIssued(config: Config, steps: seq<S.Step>)
    ensures S.Run(config, steps).table == Calls.Run(config, AllIssued(config, steps))
  {
    if steps != [] {
      var n := |steps| - 1;
      var v := S.Run(config, steps[..n]);
      TableIsIssued(config, steps[..n]);
      IssuedIsDone(config, v, steps[n]);
      RunOneMore(config, AllIssued(config, steps[..n]), Issued(v, steps[n]));
    }
  }

  lemma {:induction false} IssuedIsClocked(config: Config, steps: seq<S.Step>)
    requires config.Valid() && forall i | 0 <= i < |steps| :: Clocked(steps[i])
    ensures forall i | 0 <= i < |AllIssued(config, steps)| :: AllIssued(config, steps)[i].now > ZERO_TIME
  {
    if steps != [] {
      var n := |steps| - 1;
      IssuedIsClocked(config, steps[..n]);
      EveryRunKeeps(config, steps[..n]);
    }
  }

  /** What the histories of calls say holds of the server itself: over every run each call on its file is exactly what
      its invitation, the signals accepted since and its end make of it. */
  lemma ServerTells(config: Config, steps: seq<S.Step>)
    requires config.Valid() && forall i | 0 <= i < |steps| :: Clocked(steps[i])
    ensures H.Tells(config, S.Run(config, steps).table, H.RefRun(config, AllIssued(config, steps)))
  {
    TableIsIssued(config, steps);
    IssuedIsClocked(config, steps);
    H.RunTells(config, AllIssued(config, steps));
  }

  // ---- what a step means to the users ----

  ghost predicate ServingAs(v: S.Server, s: Session, username: Name) {
    s in v.clients && v.clients[s] == Client(username, Serving)
  }

  /** Everything but one call is as it was. */
  ghost predicate OnlyCall(v: S.Server, v': S.Server, id: Name) {
    && v'.users == v.users && v'.clients == v.clients && v'.inviter == v.inviter
    && v'.table.calls.Keys == v.table.calls.Keys
    && forall other | other in v.table.calls && other != id :: v'.table.calls[other] == v.table.calls[other]
  }

  /** The callee's accept, from whichever session serves it, takes a ringing call past RINGING, gives the negotiation
      its time and makes that session the acceptor. */
  lemma AcceptIsHeard(config: Config, v: S.Server, s: Session, id: Name, now: Time)
    requires WellFiled(v.table)
    requires id in v.table.calls && v.table.calls[id].state == Ringing && ServingAs(v, s, v.table.calls[id].callee)
    ensures var c, v' := v.table.calls[id], S.Next(config, v, Signal(s, CallAccept, id, v.table.calls[id].caller, now));
            && OnlyCall(v, v', id) && v'.table.active == v.table.active
            && v'.table.calls[id]
               == c.(state := Accepted, updatedAt := now, deadline := now + config.negotiationTimeout)
            && v'.acceptor == v.acceptor[id := s]
  {
    AcceptingSignal(config, v.table, id, now);
  }

  /** Who may end a call how: its callee declines and its caller cancels while it rings, either ends it afterwards. */
  predicate MayEnd(c: Call, signal: SignalType, username: Name) {
    || (signal == CallDecline && c.state == Ringing && username == c.callee)
    || (signal == CallCancel && c.state == Ringing && username == c.caller)
    || (signal == CallEnd && (c.state == Accepted || c.state == Negotiating || c.state == Connected)
        && (username == c.caller || username == c.callee))
  }

  lemma EndingSignal(config: Config, t: Table, signal: SignalType, id: Name, username: Name, to: Name, now: Time)
    requires id in t.calls && t.calls[id].caller != t.calls[id].callee && MayEnd(t.calls[id], signal, username)
    requires to == if username == t.calls[id].caller then t.calls[id].callee else t.calls[id].caller
    ensures var c := t.calls[id];
            var next := c.(state := if signal == CallDecline then Declined
                                    else if signal == CallCancel then Cancelled else Ended,
                           updatedAt := now, deadline := ZERO_TIME, cleanupAt := now + config.cleanupAfter);
            Transition(config, t, signal, id, username, to, now)
            == (Table(t.calls[id := next], t.active - {c.caller, c.callee}), Ok(next))
  {
  }

  lemma AcceptingSignal(config: Config, t: Table, id: Name, now: Time)
    requires id in t.calls && t.calls[id].caller != t.calls[id].callee && t.calls[id].state == Ringing
    ensures var c := t.calls[id];
            var next := c.(state := Accepted, updatedAt := now, deadline := now + config.negotiationTimeout);
            Transition(config, t, CallAccept, id, c.callee, c.caller, now)
            == (t.(calls := t.calls[id := next]), Ok(next))
  {
  }

  /** And it is over at once: both users are free, everybody else stays as they were. */
  lemma EndIsHeard(config: Config, v: S.Server, s: Session, signal: SignalType, id: Name, username: Name, to: Name,
                   now: Time)
    requires WellFiled(v.table)
    requires id in v.table.calls && MayEnd(v.table.calls[id], signal, username) && ServingAs(v, s, username)
    requires to == if username == v.table.calls[id].caller then v.table.calls[id].callee else v.table.calls[id].caller
    ensures var c, v' := v.table.calls[id], S.Next(config, v, Signal(s, signal, id, to, now));
            && OnlyCall(v, v', id) && v'.acceptor == v.acceptor
            && v'.table.active == v.table.active - {c.caller, c.callee}
            && v'.table.calls[id] == c.(state := if signal == CallDecline then Declined
                                                 else if signal == CallCancel then Cancelled else Ended,
                                        updatedAt := now, deadline := ZERO_TIME,
                                        cleanupAt := now + config.cleanupAfter)
  {
    EndingSignal(config, v.table, signal, id, username, to, now);
  }

  /** What is not relayed, or comes from a session that is not between two messages, changes nothing. */
  lemma OtherSignalsChangeNothing(config: Config, v: S.Server, s: Session, signal: SignalType, id: Name, to: Name,
                                  now: Time)
    requires !IsRelayed(signal) || s !in v.clients || v.clients[s].phase != Serving
    ensures S.Next(config, v, Signal(s, signal, id, to, now)) == v
  {
  }

  /** An invitation to somebody online, both of them free and the id new, rings as soon as it is delivered. */
  lemma InvitationRings(config: Config, v: S.Server, s: Session, username: Name, id: Name, to: Name, now: Time)
    requires ServingAs(v, s, username)
    requires to in v.users && to != username && id !in v.table.calls
    requires username !in v.table.active && to !in v.table.active
    ensures var v1 := S.Next(config, v, LookUp(s, id, to, now));
            var v2 := S.Next(config, v1, Place(s));
            var v3 := S.Next(config, v2, Deliver(s, true));
            && ServingAs(v3, s, username) && v3.users == v.users
            && v3.inviter == v.inviter[id := s] && v3.acceptor == v.acceptor
            && v3.table.calls
               == v.table.calls[
                    id := Call(id, username, to, Ringing, now, now, now + config.ringTimeout, ZERO_TIME, 0, 0)]
            && v3.table.active == v.table.active[username := id][to := id]
            && (forall other | other in v.clients && other != s :: v3.clients[other] == v.clients[other])
  {
  }

  /** Nobody is called who is offline; and a refused invitation changes no call and leaves the session serving. */
  lemma InvitationRefused(config: Config, v: S.Server, s: Session, username: Name, id: Name, to: Name, now: Time)
    requires ServingAs(v, s, username)
    requires || to !in v.users || to == username
             || id in v.table.calls || username in v.table.active || to in v.table.active
    ensures var v1 := S.Next(config, v, LookUp(s, id, to, now));
            && (to !in v.users ==> v1 == v)
            && (to in v.users ==> S.Next(config, v1, Place(s)) == v)
  {
    if to in v.users {
      var v1 := S.Next(config, v, LookUp(s, id, to, now));
      assert S.Next(config, v1, Place(s)).clients == v.clients;
    }
  }

  /** Coming online: a username that is free is registered and served, a taken one turns the connection away. */
  lemma ComesOnline(config: Config, v: S.Server, s: Session, username: Name)
    requires s !in v.clients
    ensures var v1 := S.Next(config, v, Connect(s, username));
            var v2 := S.Next(config, v1, S.Join(s));
            && v2.table == v.table && s in v2.clients
            && (username !in v.users ==> ServingAs(v2, s, username) && v2.users == v.users[username := s])
            && (username in v.users ==> v2.clients[s].phase == Gone && v2.users == v.users)
  {
  }

  lemma ClosesAndLeaves(config: Config, v: S.Server, s: Session, username: Name, now: Time)
    requires ServingAs(v, s, username) && username in v.users && v.users[username] == s
    ensures var v2 := S.Next(config, S.Next(config, v, Close(s)), S.Leave(s));
            && v2 == v.(users := v.users - {username}, clients := v.clients[s := Client(username, Unregistered)])
            && S.Next(config, v2, HangUp(s, now))
               == v.(table := Disconnect(config, v.table, username, now).0,
                     users := v.users - {username}, clients := v.clients[s := Client(username, Gone)])
  {
  }

  /** Going offline: the session closes, its user is off the registry, and then in no call. */
  lemma GoesOffline(config: Config, v: S.Server, s: Session, username: Name, now: Time)
    requires Sound(v.table) && ServingAs(v, s, username) && username in v.users && v.users[username] == s
    ensures var v1 := S.Next(config, v, Close(s));
            var v2 := S.Next(config, v1, S.Leave(s));
            var v3 := S.Next(config, v2, HangUp(s, now));
            && v2.users == v.users - {username} && v2.table == v.table
            && s in v3.clients && v3.clients[s].phase == Gone && v3.users == v2.users
            && username !in v3.table.active
            && forall id :: Live(v3.table, id) <==> Live(v.table, id) && !v.table.calls[id].Involves(username)
  {
    DisconnectEndsTheUsersCall(config, v.table, username, now);
    ClosesAndLeaves(config, v, s, username, now);
  }
}
