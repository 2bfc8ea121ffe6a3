/** What a call window says, and to whom it goes (handleLocal in internal/client/daemon/daemon.go). */
module Windows {
  import opened Names
  import opened Daemon

  /** A message of `p`, attached to the call, addressed to the caller of that call while it is pending. */
  predicate SaidAt(w: World, step: Step, p: Peer, id: Name, last: bool) {
    && step.Say? && step == Say(p, step.to, true, last)
    && p in w.peers && w.peers[p] == Attached(id)
    && id in w.d.pending && w.d.pending[id].from == step.to
  }

  /** The daemon has found the call still pending and itself connected. */
  predicate PassedAt(w: World, step: Step, p: Peer, id: Name, client: Client) {
    step == Check(p) && id in w.d.pending && w.d.signal == Some(client)
  }

  ghost predicate Said(config: Config, steps: seq<Step>, k: nat, p: Peer, id: Name, last: bool) {
    k < |steps| && SaidAt(RunFrom(config, START, steps[..k]), steps[k], p, id, last)
  }

  ghost predicate Passed(config: Config, steps: seq<Step>, m: nat, p: Peer, id: Name, client: Client) {
    m < |steps| && PassedAt(RunFrom(config, START, steps[..m]), steps[m], p, id, client)
  }

  ghost predicate SaidAndPassed(config: Config, steps: seq<Step>, k: nat, m: nat, p: Peer, id: Name, last: bool,
                                client: Client)
  {
    k < m && Said(config, steps, k, p, id, last) && Passed(config, steps, m, p, id, client)
  }

  /** Every phase of a window's connection has its reason. */
  ghost predicate Justified(config: Config, steps: seq<Step>, p: Peer, phase: Phase) {
    match phase
    case Checking(id, last) => exists k :: Said(config, steps, k, p, id, last)
    case Sending(id, client, last) => exists k, m :: SaidAndPassed(config, steps, k, m, p, id, last, client)
    case Dropping(id) => exists k, m, client :: SaidAndPassed(config, steps, k, m, p, id, true, client)
    case _ => true
  }

  lemma SaidStill(config: Config, steps: seq<Step>, step: Step, k: nat, p: Peer, id: Name, last: bool)
    requires Said(config, steps, k, p, id, last)
    ensures Said(config, steps + [step], k, p, id, last)
  {
    assert (steps + [step])[..k] == steps[..k];
  }

  lemma BothStill(config: Config, steps: seq<Step>, step: Step, k: nat, m: nat, p: Peer, id: Name, last: bool,
                  client: Client)
    requires SaidAndPassed(config, steps, k, m, p, id, last, client)
    ensures SaidAndPassed(config, steps + [step], k, m, p, id, last, client)
  {
    SaidStill(config, steps, step, k, p, id, last);
    assert (steps + [step])[..m] == steps[..m];
  }

  lemma StillJustified(config: Config, steps: seq<Step>, step: Step, p: Peer, phase: Phase)
    requires Justified(config, steps, p, phase)
    ensures Justified(config, steps + [step], p, phase)
  {
    match phase
    case Checking(id, last) =>
      var k :| Said(config, steps, k, p, id, last);
      SaidStill(config, steps, step, k, p, id, last);
    case Sending(id, client, last) =>
      var k, m :| SaidAndPassed(config, steps, k, m, p, id, last, client);
      BothStill(config, steps, step, k, m, p, id, last, client);
    case Dropping(id) =>
      var k, m, client :| SaidAndPassed(config, steps, k, m, p, id, true, client);
      BothStill(config, steps, step, k, m, p, id, true, client);
    case _ =>
  }

  /** How a window comes to check, to send and to drop. */
  lemma PhaseStep(config: Config, w: World, step: Step, p: Peer)
    requires p in w.peers
    ensures var w' := Next(config, w, step);
            && p in w'.peers
            && (w'.peers[p] == w.peers[p]
                || match w'.peers[p]
                   case Checking(id, last) => SaidAt(w, step, p, id, last)
                   case Sending(id, client, last) =>
                     w.peers[p] == Checking(id, last) && PassedAt(w, step, p, id, client)
                   case Dropping(id) => w.peers[p].Sending? && w.peers[p].id == id && w.peers[p].last
                   case _ => true)
  {
  }

  lemma NextJustified(config: Config, steps: seq<Step>, step: Step, p: Peer)
    requires var w := RunFrom(config, START, steps); p in w.peers && Justified(config, steps, p, w.peers[p])
    ensures var w := RunFrom(config, START, steps);
            p in w.peers && Justified(config, steps + [step], p, Next(config, w, step).peers[p])
  {
    var w, more := RunFrom(config, START, steps), steps + [step];
    var phase, phase' := w.peers[p], Next(config, w, step).peers[p];
    PhaseStep(config, w, step, p);
    StillJustified(config, steps, step, p, phase);
    assert more[..|steps|] == steps;
    if phase' != phase {
      if phase'.Checking? {
        assert Said(config, more, |steps|, p, phase'.id, phase'.last);
      } else if phase'.Sending? {
        var k :| Said(config, steps, k, p, phase.id, phase.last);
        SaidStill(config, steps, step, k, p, phase.id, phase.last);
        assert SaidAndPassed(config, more, k, |steps|, p, phase.id, phase.last, phase'.client);
      }
    }
  }

  /** Whatever the daemon sends for a window, over every run: the window has said it while attached to the call, to the
      caller of that call and to nobody else, and afterwards, with the call pending, the daemon has taken its own
      connection of that moment. A call is dropped only after a decline or end that went this way. */
  lemma {:induction false} OnlyTheCallerIsAddressed(config: Config, steps: seq<Step>, p: Peer)
    requires p in RunFrom(config, START, steps).peers
    ensures Justified(config, steps, p, RunFrom(config, START, steps).peers[p])
  {
    if steps != [] {
      var n := |steps| - 1;
      assert steps == steps[..n] + [steps[n]];
      if p in RunFrom(config, START, steps[..n]).peers {
        OnlyTheCallerIsAddressed(config, steps[..n], p);
        NextJustified(config, steps[..n], steps[n], p);
      }
    }
  }

  /** Three steps in turn: a message is said, let through and sent. */
  function Told(config: Config, w: World, p: Peer, to: Name, wellFormed: bool, last: bool): World {
    Next(config, Next(config, Next(config, w, Say(p, to, wellFormed, last)), Check(p)), Send(p, true))
  }

  /** What a window's message does when nothing comes between its steps: an ordinary one leaves everything as it was,
      so the window may go on; a decline or end withdraws the call, and its window is gone. One that is not well
      formed, or not addressed to the caller of a pending call, is not even checked. */
  lemma MessageIsHandled(config: Config, w: World, p: Peer, id: Name, to: Name, wellFormed: bool, last: bool)
    requires Inv(w) && p in w.peers && w.peers[p] == Attached(id)
    ensures !(wellFormed && id in w.d.pending && w.d.pending[id].from == to) ==>
              Next(config, w, Say(p, to, wellFormed, last)) == w
    ensures wellFormed && id in w.d.pending && w.d.pending[id].from == to && !last ==>
              Told(config, w, p, to, wellFormed, last) == w
    ensures wellFormed && id in w.d.pending && w.d.pending[id].from == to && last ==>
              var v := Next(config, Next(config, Told(config, w, p, to, wellFormed, last), Forget(p)), Let(p));
              && v.d.pending == w.d.pending - {id} && v.peers == w.peers[p := Gone]
              && v.d.sessions == if Owns(w.d, id, p) then w.d.sessions - {id} else w.d.sessions
  {
    if wellFormed && id in w.d.pending && w.d.pending[id].from == to {
      MessageIsSent(config, w, p, id, to, last);
      if last {
        DroppedAndGone(config, w, p, id);
      }
    }
  }

  lemma MessageIsSent(config: Config, w: World, p: Peer, id: Name, to: Name, last: bool)
    requires Inv(w) && p in w.peers && w.peers[p] == Attached(id)
    requires id in w.d.pending && w.d.pending[id].from == to
    ensures Told(config, w, p, to, true, last) == Goto(w, p, if last then Dropping(id) else Attached(id))
    ensures Goto(w, p, Attached(id)) == w
  {
    var said := Next(config, w, Say(p, to, true, last));
    assert said == Goto(w, p, Checking(id, last));
    var passed := Next(config, said, Check(p));
    assert passed == Goto(w, p, Sending(id, w.d.signal.value, last));
    assert w.peers[p := Attached(id)] == w.peers;
  }

  lemma DroppedAndGone(config: Config, w: World, p: Peer, id: Name)
    requires p in w.peers
    ensures var v := Next(config, Next(config, Goto(w, p, Dropping(id)), Forget(p)), Let(p));
            && v.d.pending == w.d.pending - {id} && v.peers == w.peers[p := Gone]
            && v.d.sessions == if Owns(w.d, id, p) then w.d.sessions - {id} else w.d.sessions
  {
    var dropped := Next(config, Goto(w, p, Dropping(id)), Forget(p));
    assert dropped == Goto(w.(d := Drop(w.d, id)), p, Leaving(id));
  }

  /** The window's connection is over, and the call open to the next window if this one had it. */
  ghost predicate Left(w: World, v: World, p: Peer, id: Name) {
    && v.peers == w.peers[p := Gone] && v.link == w.link && v.d.signal == w.d.signal
    && v.d.pending.Keys == w.d.pending.Keys
    && (forall other | other in w.d.pending ::
          v.d.pending[other]
          == if other == id && Owns(w.d, id, p) then Pending(w.d.pending[other].from, false) else w.d.pending[other])
    && v.d.sessions == if Owns(w.d, id, p) then w.d.sessions - {id} else w.d.sessions
  }

  /** How else a window leaves: it hangs up, its message can no longer be let through, or it cannot be sent. In each
      case the release that follows lets go of the call. */
  lemma EveryWayOut(config: Config, w: World, p: Peer, id: Name, last: bool, client: Client)
    requires p in w.peers
    ensures w.peers[p] == Waiting ==> Next(config, w, Quit(p)) == Goto(w, p, Gone)
    ensures w.peers[p] == Attached(id) ==> Left(w, Next(config, Next(config, w, Quit(p)), Let(p)), p, id)
    ensures w.peers[p] == Checking(id, last) && (w.d.signal.None? || id !in w.d.pending) ==>
              Left(w, Next(config, Next(config, w, Check(p)), Let(p)), p, id)
    ensures w.peers[p] == Sending(id, client, last) ==>
              Left(w, Next(config, Next(config, w, Send(p, false)), Let(p)), p, id)
  {
    LeavingLetsGo(config, w, p, id);
  }

  lemma LeavingLetsGo(config: Config, w: World, p: Peer, id: Name)
    requires p in w.peers
    ensures Left(w, Next(config, Goto(w, p, Leaving(id)), Let(p)), p, id)
  {
    assert w.peers[p := Leaving(id)][p := Gone] == w.peers[p := Gone];
  }
}
