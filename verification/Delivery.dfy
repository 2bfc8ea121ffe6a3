/** Undoing an invitation that could not be delivered (the invite case of dispatch in
    internal/server/websocket/server.go). */
module Delivery {
  import opened Clock
  import opened Names
  import opened Calls
  import opened Presence
  import opened S = Server

  /** Placed, and neither delivered nor undone. */
  predicate Pending(phase: Phase) {
    phase.Placed? || phase.Undelivered?
  }

  /** A session still delivering, or undoing, its invitation knows whom the call it placed is for. */
  ghost predicate PlacementFits(v: S.Server, s: Session)
    requires s in v.clients
  {
    var phase := v.clients[s].phase;
    Pending(phase) ==>
      phase.callId in v.inviter && v.inviter[phase.callId] == s && phase.callId in v.table.calls ==>
        v.table.calls[phase.callId].callee == phase.to
  }

  ghost predicate Placements(v: S.Server) {
    forall s | s in v.clients :: PlacementFits(v, s)
  }

  /** No operation but Invite adds a call, and none changes whom a call is for. */
  ghost predicate SameCallees(t: Table, t': Table) {
    forall id | id in t'.calls :: id in t.calls && t'.calls[id].callee == t.calls[id].callee
  }

  /** One session moves on, to wherever it has nothing undelivered that it had not before. */
  lemma PlacementsMove(v: S.Server, v': S.Server, s: Session)
    requires Placements(v) && SameCallees(v.table, v'.table) && v'.inviter == v.inviter
    requires s in v.clients && v'.clients.Keys == v.clients.Keys
    requires forall other | other in v.clients && other != s :: v'.clients[other] == v.clients[other]
    requires var was, phase := v.clients[s].phase, v'.clients[s].phase;
             Pending(phase) ==> Pending(was) && (phase.callId, phase.to) == (was.callId, was.to)
    ensures Placements(v')
  {
    forall other | other in v.clients ensures PlacementFits(v', other) {
      assert PlacementFits(v, other);
    }
  }

  lemma PlacementsPlace(v: S.Server, s: Session, table: Table, id: Name, to: Name, now: Time)
    requires Placements(v) && s in v.clients && id in table.calls && table.calls[id].callee == to
    requires forall k | k in table.calls && k != id ::
               k in v.table.calls && table.calls[k].callee == v.table.calls[k].callee
    ensures Placements(Goto(v.(table := table, inviter := v.inviter[id := s]), s, Placed(id, to, now)))
  {
    var v' := Goto(v.(table := table, inviter := v.inviter[id := s]), s, Placed(id, to, now));
    forall other | other in v'.clients ensures PlacementFits(v', other) {
      assert PlacementFits(v, other);
    }
  }

  lemma PlacementsTable(v: S.Server, table: Table)
    requires Placements(v) && SameCallees(v.table, table)
    ensures Placements(v.(table := table))
  {
    forall s | s in v.clients ensures PlacementFits(v.(table := table), s) {
      assert PlacementFits(v, s);
    }
  }

  lemma SweepKeepsCallees(config: Config, t: Table, now: Time)
    ensures SameCallees(t, Expire(config, t, now))
  {
  }

  lemma PlacementsKeep(config: Config, v: S.Server, step: S.Step)
    requires Sound(v.table) && Placements(v)
    ensures Placements(S.Next(config, v, step))
  {
    match step
    case Connect(s, username) =>
      forall other | other in v.clients ensures PlacementFits(S.Next(config, v, step), other) {
        assert PlacementFits(v, other);
      }
    case Sweep(now) =>
      SweepKeepsCallees(config, v.table, now);
      PlacementsTable(v, Expire(config, v.table, now));
    case _ =>
      if step.s in v.clients { PlacementsAct(config, v, step, v.clients[step.s]); }
  }

  lemma PlacementsAct(config: Config, v: S.Server, step: S.Step, c: Client)
    requires Sound(v.table) && Placements(v) && !step.Sweep? && step.s in v.clients && c == v.clients[step.s]
    ensures Placements(Act(config, v, step, c))
  {
    if step.Place? && c.phase.Inviting?
       && Invite(config, v.table, c.phase.callId, c.username, c.phase.to, c.phase.now).1.Ok?
    {
      var table := Invite(config, v.table, c.phase.callId, c.username, c.phase.to, c.phase.now).0;
      PlacementsPlace(v, step.s, table, c.phase.callId, c.phase.to, c.phase.now);
    } else {
      OthersStay(config, v, step, c);
      CalleesStay(config, v, step, c);
      PlacementsMove(v, Act(config, v, step, c), step.s);
    }
  }

  /** A step of one session concerns no other session. */
  lemma OthersStay(config: Config, v: S.Server, step: S.Step, c: Client)
    requires !step.Sweep? && step.s in v.clients && c == v.clients[step.s]
    ensures var v' := Act(config, v, step, c);
            && v'.clients.Keys == v.clients.Keys
            && forall other | other in v.clients && other != step.s :: v'.clients[other] == v.clients[other]
  {
  }

  /** Except for placing a call, a step adds none and changes nobody's callee. */
  lemma CalleesStay(config: Config, v: S.Server, step: S.Step, c: Client)
    requires forall id | id in v.table.calls :: v.table.calls[id].id == id
    requires !step.Sweep? && step.s in v.clients && c == v.clients[step.s]
    requires !(step.Place? && c.phase.Inviting?
               && Invite(config, v.table, c.phase.callId, c.username, c.phase.to, c.phase.now).1.Ok?)
    ensures var v' := Act(config, v, step, c); v'.inviter == v.inviter && SameCallees(v.table, v'.table)
  {
    if step.Signal? {
      TransitionMoves(config, v.table, step.signal, step.callId, c.username, step.to, step.now);
    }
  }

  lemma {:induction false} EveryRunKeepsPlacements(config: Config, steps: seq<S.Step>)
    requires config.Valid() && forall i | 0 <= i < |steps| :: Clocked(steps[i])
    ensures Placements(S.Run(config, steps))
  {
    if steps != [] {
      var earlier := steps[..|steps| - 1];
      EveryRunKeepsPlacements(config, earlier);
      EveryRunKeeps(config, earlier);
      PlacementsKeep(config, S.Run(config, earlier), steps[|steps| - 1]);
    }
  }

  /** Undoing an undelivered invitation leaves its call over, whatever happened to it meanwhile. It ends the live
      call its invitee is in and no other: the placed call as long as that is live, but otherwise, if the invitee
      has got into another call by then, that one. */
  lemma {:induction false} UndoEndsTheInviteesCall(config: Config, steps: seq<S.Step>, s: Session)
    requires config.Valid() && forall i | 0 <= i < |steps| :: Clocked(steps[i])
    requires var v := S.Run(config, steps); s in v.clients && v.clients[s].phase.Undelivered?
    ensures var v := S.Run(config, steps);
            var Undelivered(id, to, _) := v.clients[s].phase;
            var v' := S.Next(config, v, Undo(s));
            && (id in v.inviter && v.inviter[id] == s ==> !Live(v'.table, id))
            && (forall other :: Live(v'.table, other) <==> Live(v.table, other) && !v.table.calls[other].Involves(to))
            && (id in v.inviter && v.inviter[id] == s && Live(v.table, id) ==>
                  forall other | other != id :: Live(v'.table, other) <==> Live(v.table, other))
  {
    var v := S.Run(config, steps);
    var Undelivered(id, to, now) := v.clients[s].phase;
    EveryRunKeeps(config, steps);
    EveryRunKeepsPlacements(config, steps);
    assert PlacementFits(v, s);
    UndoEnds(config, v.table, id, to, now);
  }

  lemma UndoEnds(config: Config, t: Table, id: Name, to: Name, now: Time)
    requires Sound(t)
    ensures var t' := Disconnect(config, t, to, now).0;
            && (forall other :: Live(t', other) <==> Live(t, other) && !t.calls[other].Involves(to))
            && (Live(t, id) && t.calls[id].callee == to ==>
                  forall other | other != id :: Live(t', other) <==> Live(t, other))
  {
    DisconnectEndsTheUsersCall(config, t, to, now);
  }
}
