/** The daemon with its limiter: what becomes of an invitation, told by the invitations before it (handleInvite and
    allowInviteLocked in internal/client/daemon/daemon.go). */
module Invitations {
  import opened Clock
  import opened Names
  import opened InviteLog
  import D = Daemon

  /** The daemon's steps, invitations with their time. */
  datatype Step = Invited(id: Name, from: Name, now: Time) | Other(step: D.Step)

  /** The daemon's world, and a history variable: the invitations handled so far. */
  datatype Timed = Timed(world: D.World, calls: seq<Invitation>)

  const START := Timed(D.START, [])

  /** The limiter answers before anything else is looked at. */
  function Allowed(policy: Policy, t: Timed, from: Name, now: Time): bool {
    Admit(policy, LogAfter(policy, t.calls, from), now).1
  }

  /** What becomes of an invitation. */
  function Outcome(config: D.Config, policy: Policy, t: Timed, id: Name, from: Name, now: Time): D.Outcome {
    D.AddInvitation(config, t.world.d, id, from, Allowed(policy, t, from, now)).1
  }

  /** Invitations arrive on the signaling connection only. */
  function Next(config: D.Config, policy: Policy, t: Timed, step: Step): Timed {
    match step
    case Invited(id, from, now) =>
      if t.world.link.None? then t
      else
        Timed(D.Next(config, t.world, D.Incoming(id, from, Allowed(policy, t, from, now))),
              t.calls + [Invitation(from, now)])
    case Other(step) =>
      if step.Incoming? then t else t.(world := D.Next(config, t.world, step))
  }

  function Run(config: D.Config, policy: Policy, steps: seq<Step>): Timed {
    if steps == [] then START
    else Next(config, policy, Run(config, policy, steps[..|steps| - 1]), steps[|steps| - 1])
  }

  lemma AllowedIffRoom(policy: Policy, t: Timed, from: Name, now: Time)
    requires policy.window > 0 && Nondecreasing(t.calls + [Invitation(from, now)])
    ensures Allowed(policy, t, from, now)
            <==> Within(Admissions(policy, t.calls, from), now - policy.window, now) < policy.limit
  {
    var calls := t.calls + [Invitation(from, now)];
    assert calls[..|calls| - 1] == t.calls;
    AdmissionIsExact(policy, calls);
  }

  /** The outcome law, on history. An invitation is a duplicate exactly when a call of its id is pending, so that it is
      not even declined. Otherwise it is announced if and only if the daemon may be disturbed, does not ignore calls,
      and has admitted fewer than the limit of this caller's earlier invitations within the window; and it is declined
      if not. An announced one is pending from then on, unclaimed and under its caller's name; any other leaves the
      daemon as it was. */
  lemma OutcomeIsExact(config: D.Config, policy: Policy, t: Timed, id: Name, from: Name, now: Time)
    requires policy.window > 0 && t.world.link.Some? && Nondecreasing(t.calls + [Invitation(from, now)])
    ensures var t' := Next(config, policy, t, Invited(id, from, now));
            var outcome := Outcome(config, policy, t, id, from, now);
            var busy := Within(Admissions(policy, t.calls, from), now - policy.window, now) >= policy.limit;
            var silent := config.doNotDisturb || config.behavior == D.Ignore;
            && (outcome == D.Duplicate <==> id in t.world.d.pending)
            && (outcome == D.Announced <==> id !in t.world.d.pending && !silent && !busy)
            && (outcome == D.Declined <==> id !in t.world.d.pending && (silent || busy))
            && t'.calls == t.calls + [Invitation(from, now)]
            && (outcome == D.Announced ==>
                  t'.world == t.world.(d := t.world.d.(pending := t.world.d.pending[id := D.Pending(from, false)])))
            && (outcome != D.Announced ==> t'.world == t.world)
  {
    AllowedIffRoom(policy, t, from, now);
  }

  /** When this caller's invitations were announced. */
  function Announcements(config: D.Config, policy: Policy, steps: seq<Step>, from: Name): seq<Time> {
    if steps == [] then []
    else
      var n := |steps| - 1;
      var earlier, t := Announcements(config, policy, steps[..n], from), Run(config, policy, steps[..n]);
      if IsAnnounced(config, policy, t, steps[n], from) then earlier + [steps[n].now] else earlier
  }

  predicate IsAnnounced(config: D.Config, policy: Policy, t: Timed, step: Step, from: Name) {
    && step.Invited? && step.from == from && t.world.link.Some?
    && Outcome(config, policy, t, step.id, from, step.now) == D.Announced
  }

  lemma WithinOneMore(log: seq<Time>, at: Time, start: Time, end: Time)
    ensures Within(log + [at], start, end) == Within(log, start, end) + if start < at <= end then 1 else 0
  {
    assert (log + [at])[..|log|] == log;
  }

  lemma AdmissionsOneMore(policy: Policy, calls: seq<Invitation>, call: Invitation, from: Name)
    ensures Admissions(policy, calls + [call], from)
         == if call.caller == from then AdmitFully(policy, Admissions(policy, calls, from), call.now).0
            else Admissions(policy, calls, from)
  {
    assert (calls + [call])[..|calls|] == calls;
  }

  /** Whoever is announced was admitted. */
  lemma {:induction false} AnnouncedWereAdmitted(
      config: D.Config, policy: Policy, steps: seq<Step>, from: Name, start: Time, end: Time)
    requires policy.window > 0 && Nondecreasing(Run(config, policy, steps).calls)
    ensures Within(Announcements(config, policy, steps, from), start, end)
         <= Within(Admissions(policy, Run(config, policy, steps).calls, from), start, end)
  {
    if steps != [] {
      var n := |steps| - 1;
      var t, step := Run(config, policy, steps[..n]), steps[n];
      if step.Invited? && t.world.link.Some? {
        var call := Invitation(step.from, step.now);
        var calls := t.calls + [call];
        assert Run(config, policy, steps).calls == calls;
        assert forall i | 0 <= i < |t.calls| :: t.calls[i] == calls[i];
        AnnouncedWereAdmitted(config, policy, steps[..n], from, start, end);
        AnnouncedStep(config, policy, t, Announcements(config, policy, steps[..n], from), step.id, call, from, start,
                      end);
      } else {
        assert Run(config, policy, steps).calls == t.calls;
        AnnouncedWereAdmitted(config, policy, steps[..n], from, start, end);
      }
    }
  }

  /** An admission is counted once, and nothing is ever uncounted. */
  lemma AdmitCounts(policy: Policy, all: seq<Time>, now: Time, start: Time, end: Time)
    ensures Within(AdmitFully(policy, all, now).0, start, end) >= Within(all, start, end)
    ensures AdmitFully(policy, all, now).1 ==>
              Within(AdmitFully(policy, all, now).0, start, end)
              == Within(all, start, end) + if start < now <= end then 1 else 0
  {
    WithinOneMore(all, now, start, end);
  }

  lemma AnnouncedStep(config: D.Config, policy: Policy, t: Timed, earlier: seq<Time>, id: Name, call: Invitation,
                      from: Name, start: Time, end: Time)
    requires policy.window > 0 && t.world.link.Some? && Nondecreasing(t.calls + [call])
    requires Within(earlier, start, end) <= Within(Admissions(policy, t.calls, from), start, end)
    ensures var announced := IsAnnounced(config, policy, t, Invited(id, call.caller, call.now), from);
            Within(if announced then earlier + [call.now] else earlier, start, end)
            <= Within(Admissions(policy, t.calls + [call], from), start, end)
  {
    AllowedIffRoom(policy, t, call.caller, call.now);
    AdmissionsOneMore(policy, t.calls, call, from);
    AdmitCounts(policy, Admissions(policy, t.calls, from), call.now, start, end);
    WithinOneMore(earlier, call.now, start, end);
  }

  /** So no window of the configured length, wherever it ends, sees more announcements of one caller than the limit. */
  lemma AnnouncementsAreLimited(config: D.Config, policy: Policy, steps: seq<Step>, from: Name, end: Time)
    requires policy.limit >= 0 && policy.window > 0 && Nondecreasing(Run(config, policy, steps).calls)
    ensures Within(Announcements(config, policy, steps, from), end - policy.window, end) <= policy.limit
  {
    AnnouncedWereAdmitted(config, policy, steps, from, end - policy.window, end);
    NoWindowOverflows(policy, Run(config, policy, steps).calls, from, end);
  }

  /** The daemon's world is a run of the daemon, so all that holds over its runs holds here. */
  lemma {:induction false} WorldIsReached(config: D.Config, policy: Policy, steps: seq<Step>)
    ensures D.Inv(Run(config, policy, steps).world)
  {
    if steps != [] {
      var t := Run(config, policy, steps[..|steps| - 1]);
      WorldIsReached(config, policy, steps[..|steps| - 1]);
      match steps[|steps| - 1]
      case Invited(id, from, now) =>
        D.NextKeeps(config, t.world, D.Incoming(id, from, Allowed(policy, t, from, now)));
      case Other(step) => D.NextKeeps(config, t.world, step);
    }
  }
}
