/** The call table of the signaling server (internal/server/calls/manager.go). */
module Calls {
  import opened Clock
  import opened Names

  const MAX_ICE_CANDIDATES := 256

  datatype State = Ringing | Accepted | Negotiating | Connected | Declined | Cancelled | TimedOut | Ended

  datatype Error = CallExists | CallNotFound | UserBusy | NotParticipant | InvalidTransition | CandidateLimit

  datatype Result<+T> = Ok(value: T) | Err(error: Error)

  datatype SignalType =
    | SessionHello | SessionReady | SessionPing | SessionPong | SessionError | PresenceQuery | PresenceResult
    | CallInvite | CallRinging | CallAccept | CallDecline | CallCancel | CallBusy | CallTimeout | CallEnd
    | Offer | Answer | Ice | IceComplete

  datatype Call = Call(
    id: Name, caller: Name, callee: Name, state: State, createdAt: Time, updatedAt: Time,
    deadline: Time, cleanupAt: Time, callerCandidates: int, calleeCandidates: int)
  {
    function Other(username: Name): Result<Name> {
      if username == caller then Ok(callee)
      else if username == callee then Ok(caller)
      else Err(NotParticipant)
    }

    predicate Terminal() {
      state == Declined || state == Cancelled || state == TimedOut || state == Ended
    }

    predicate Involves(username: Name) {
      username == caller || username == callee
    }
  }

  datatype Config = Config(ringTimeout: Duration, negotiationTimeout: Duration, cleanupAfter: Duration) {
    predicate Valid() {
      ringTimeout > 0 && negotiationTimeout > 0 && cleanupAfter > 0
    }

    /** Unset durations take their defaults. */
    function Completed(): (c: Config)
      ensures c.Valid()
    {
      Config(if ringTimeout <= 0 then 45_000_000_000 else ringTimeout,
             if negotiationTimeout <= 0 then 30_000_000_000 else negotiationTimeout,
             if cleanupAfter <= 0 then 60_000_000_000 else cleanupAfter)
    }
  }

  /** The two coupled maps: all calls by id, and for each busy user the id of its call. */
  datatype Table = Table(calls: map<Name, Call>, active: map<Name, Name>)

  const EMPTY := Table(map[], map[])

  // ---- the operations on values ----

  function Invite(config: Config, t: Table, id: Name, caller: Name, callee: Name, now: Time): (Table, Result<Call>) {
    if caller == callee then (t, Err(InvalidTransition))
    else if id in t.calls then (t, Err(CallExists))
    else if caller in t.active || callee in t.active then (t, Err(UserBusy))
    else
      var call := Call(id, caller, callee, Ringing, now, now, now + config.ringTimeout, ZERO_TIME, 0, 0);
      (Table(t.calls[id := call], t.active[caller := id][callee := id]), Ok(call))
  }

  function SetState(call: Call, state: State, now: Time, deadline: Time): Call {
    call.(state := state, updatedAt := now, deadline := deadline)
  }

  /** A call in its final state, to be cleaned up later. */
  function Finished(config: Config, call: Call, state: State, now: Time): Call {
    SetState(call, state, now, ZERO_TIME).(cleanupAt := now + config.cleanupAfter)
  }

  /** Ends a call in the table: its record stays for a while, its participants are free at once. */
  function Finish(config: Config, t: Table, call: Call, state: State, now: Time): Table {
    Table(t.calls[call.id := Finished(config, call, state, now)], t.active - {call.caller, call.callee})
  }

  predicate InCall(call: Call) {
    call.state == Accepted || call.state == Negotiating || call.state == Connected
  }

  /** What a participant's signal makes of a call. */
  function Advance(config: Config, call: Call, signal: SignalType, actor: Name, now: Time): Result<Call> {
    match signal
    case CallAccept =>
      if call.state != Ringing || actor != call.callee then Err(InvalidTransition)
      else Ok(SetState(call, Accepted, now, now + config.negotiationTimeout))
    case CallDecline =>
      if call.state != Ringing || actor != call.callee then Err(InvalidTransition)
      else Ok(Finished(config, call, Declined, now))
    case CallCancel =>
      if call.state != Ringing || actor != call.caller then Err(InvalidTransition)
      else Ok(Finished(config, call, Cancelled, now))
    case Offer =>
      if (call.state != Accepted && call.state != Connected) || actor != call.caller then Err(InvalidTransition)
      else
        var restarted := if call.state == Connected then call.(callerCandidates := 0, calleeCandidates := 0) else call;
        Ok(SetState(restarted, Negotiating, now, now + config.negotiationTimeout))
    case Answer =>
      if call.state != Negotiating || actor != call.callee then Err(InvalidTransition)
      else Ok(SetState(call, Connected, now, ZERO_TIME))
    case Ice =>
      if !InCall(call) then Err(InvalidTransition)
      else if actor == call.caller then
        if call.callerCandidates >= MAX_ICE_CANDIDATES then Err(CandidateLimit)
        else Ok(call.(callerCandidates := call.callerCandidates + 1, updatedAt := now))
      else
        if call.calleeCandidates >= MAX_ICE_CANDIDATES then Err(CandidateLimit)
        else Ok(call.(calleeCandidates := call.calleeCandidates + 1, updatedAt := now))
    case IceComplete =>
      if !InCall(call) then Err(InvalidTransition) else Ok(call.(updatedAt := now))
    case CallEnd =>
      if !InCall(call) then Err(InvalidTransition) else Ok(Finished(config, call, Ended, now))
    case _ => Err(InvalidTransition)
  }

  function Transition(config: Config, t: Table, signal: SignalType, id: Name, actor: Name, recipient: Name, now: Time)
    : (Table, Result<Call>)
  {
    if id !in t.calls then (t, Err(CallNotFound))
    else
      var call := t.calls[id];
      if call.Other(actor) != Ok(recipient) then (t, Err(NotParticipant))
      else
        var advanced := Advance(config, call, signal, actor, now);
        match advanced
        case Err(_) => (t, advanced)
        case Ok(next) =>
          (Table(t.calls[id := next], if next.Terminal() then t.active - {call.caller, call.callee} else t.active),
           advanced)
  }

  predicate Due(call: Call, now: Time) {
    !call.Terminal() && call.deadline != ZERO_TIME && now >= call.deadline
  }

  predicate Forgettable(call: Call, now: Time) {
    call.Terminal() && call.cleanupAt != ZERO_TIME && now >= call.cleanupAt
  }

  /** A sweep that has visited some of the calls, in whatever order. */
  function Sweep(config: Config, t: Table, visited: set<Name>, now: Time): Table {
    Table(map id | id in t.calls && !(id in visited && Forgettable(t.calls[id], now)) ::
            if id in visited && Due(t.calls[id], now) then Finished(config, t.calls[id], TimedOut, now)
            else t.calls[id],
          map u | u in t.active
                  && !(exists id :: id in visited && id in t.calls && Due(t.calls[id], now) && t.calls[id].Involves(u))
            :: t.active[u])
  }

  function Expire(config: Config, t: Table, now: Time): Table {
    Sweep(config, t, t.calls.Keys, now)
  }

  /** Visiting one more call: a finished one may be forgotten, a due one is timed out. */
  function Visit(config: Config, t: Table, id: Name, now: Time): Table
    requires id in t.calls
  {
    var call := t.calls[id];
    if Forgettable(call, now) then t.(calls := t.calls - {id})
    else if Due(call, now) then Finish(config, t, call, TimedOut, now)
    else t
  }

  /** The order of the visits does not matter. */
  lemma SweepVisits(config: Config, t: Table, visited: set<Name>, id: Name, now: Time)
    requires forall k | k in t.calls :: t.calls[k].id == k
    requires id in t.calls && id !in visited
    ensures id in Sweep(config, t, visited, now).calls
    ensures Visit(config, Sweep(config, t, visited, now), id, now) == Sweep(config, t, visited + {id}, now)
  {
    var before, after := Sweep(config, t, visited, now), Sweep(config, t, visited + {id}, now);
    var t' := Visit(config, before, id, now);
    assert t'.calls == after.calls;
    forall u ensures u in t'.active <==> u in after.active {
      if Due(t.calls[id], now) {
        assert id in visited + {id};
      }
    }
    assert t'.active == after.active;
  }

  function Disconnect(config: Config, t: Table, username: Name, now: Time): (Table, seq<Call>) {
    if username !in t.active then (t, [])
    else
      var id := t.active[username];
      if id !in t.calls || t.calls[id].Terminal() then (t.(active := t.active - {username}), [])
      else
        var call := t.calls[id];
        (Finish(config, t, call, Ended, now), [Finished(config, call, Ended, now)])
  }

  // ---- what every operation keeps ----

  ghost predicate Live(t: Table, id: Name) {
    id in t.calls && !t.calls[id].Terminal()
  }

  ghost predicate WellFiled(t: Table) {
    forall id | id in t.calls :: t.calls[id].id == id && t.calls[id].caller != t.calls[id].callee
  }

  /** A user is marked with a call exactly when the call is live and the user takes part in it. */
  ghost predicate Coupled(t: Table) {
    && (forall u | u in t.active :: Live(t, t.active[u]) && t.calls[t.active[u]].Involves(u))
    && (forall id | Live(t, id) :: var c := t.calls[id];
          c.caller in t.active && t.active[c.caller] == id && c.callee in t.active && t.active[c.callee] == id)
  }

  /** Live calls other than connected ones carry a deadline, finished ones a cleanup time; budgets are kept. */
  ghost predicate Timed(c: Call) {
    && (c.deadline > ZERO_TIME <==> c.state == Ringing || c.state == Accepted || c.state == Negotiating)
    && (c.cleanupAt > ZERO_TIME <==> c.Terminal())
    && c.deadline >= ZERO_TIME && c.cleanupAt >= ZERO_TIME
    && 0 <= c.callerCandidates <= MAX_ICE_CANDIDATES && 0 <= c.calleeCandidates <= MAX_ICE_CANDIDATES
  }

  ghost predicate Sound(t: Table) {
    WellFiled(t) && Coupled(t) && forall id | id in t.calls :: Timed(t.calls[id])
  }

  lemma InviteKeeps(config: Config, t: Table, id: Name, caller: Name, callee: Name, now: Time)
    requires Sound(t) && config.Valid() && now > ZERO_TIME
    ensures Sound(Invite(config, t, id, caller, callee, now).0)
  {
    var (t', r) := Invite(config, t, id, caller, callee, now);
    if r.Ok? {
      forall other | Live(t', other) && other != id
        ensures var c := t'.calls[other]; c.caller in t'.active && t'.active[c.caller] == other
                                          && c.callee in t'.active && t'.active[c.callee] == other
      {
        assert Live(t, other);
      }
      forall u | u in t'.active
        ensures Live(t', t'.active[u]) && t'.calls[t'.active[u]].Involves(u)
      {
        if u != caller && u != callee {
          assert Live(t, t.active[u]) && t.active[u] != id;
        }
      }
    }
  }

  lemma AdvanceKeeps(config: Config, call: Call, signal: SignalType, actor: Name, now: Time)
    requires Timed(call) && config.Valid() && now > ZERO_TIME
    requires Advance(config, call, signal, actor, now).Ok?
    ensures var next := Advance(config, call, signal, actor, now).value;
            && Timed(next) && !call.Terminal()
            && (next.id, next.caller, next.callee) == (call.id, call.caller, call.callee)
  {
  }

  /** Replacing a live call by a later version of itself, freeing its participants if it is over. */
  lemma ReplaceKeeps(t: Table, call: Call, next: Call)
    requires Sound(t) && Live(t, call.id) && t.calls[call.id] == call
    requires Timed(next) && (next.id, next.caller, next.callee) == (call.id, call.caller, call.callee)
    ensures Sound(Table(t.calls[call.id := next],
                        if next.Terminal() then t.active - {call.caller, call.callee} else t.active))
  {
  }

  lemma TransitionKeeps(config: Config, t: Table, signal: SignalType, id: Name, actor: Name, recipient: Name, now: Time)
    requires Sound(t) && config.Valid() && now > ZERO_TIME
    ensures Sound(Transition(config, t, signal, id, actor, recipient, now).0)
  {
    if Transition(config, t, signal, id, actor, recipient, now).1.Ok? {
      AdvanceKeeps(config, t.calls[id], signal, actor, now);
      ReplaceKeeps(t, t.calls[id], Advance(config, t.calls[id], signal, actor, now).value);
    }
  }

  /** Only a live call advances, and only the callee's accept takes it past RINGING without ending it. */
  lemma AdvanceMoves(config: Config, call: Call, signal: SignalType, actor: Name, now: Time)
    requires Advance(config, call, signal, actor, now).Ok?
    ensures var next := Advance(config, call, signal, actor, now).value;
            && !call.Terminal()
            && (next.id, next.caller, next.callee) == (call.id, call.caller, call.callee)
            && (!next.Terminal() && next.state != Ringing && call.state == Ringing ==>
                  signal == CallAccept && actor == call.callee)
  {
  }

  /** What a signal can do to the table: advance its own live call, and take it past RINGING without ending it only
      as the callee's accept. */
  lemma TransitionMoves(config: Config, t: Table, signal: SignalType, id: Name, actor: Name, recipient: Name, now: Time)
    ensures var t' := Transition(config, t, signal, id, actor, recipient, now).0;
            && t'.calls.Keys == t.calls.Keys
            && (forall k | k in t'.calls && k != id :: t'.calls[k] == t.calls[k])
            && (forall k | k in t'.calls ::
                  (t'.calls[k].caller, t'.calls[k].callee) == (t.calls[k].caller, t.calls[k].callee))
            && (forall k | Live(t', k) :: Live(t, k))
            && (Live(t', id) && t'.calls[id].state != Ringing && t.calls[id].state == Ringing ==>
                  signal == CallAccept && actor == t.calls[id].callee)
  {
    if Transition(config, t, signal, id, actor, recipient, now).1.Ok? {
      AdvanceMoves(config, t.calls[id], signal, actor, now);
    }
  }

  /** A signal gets through only between the two participants of a call, and is accepted only for a live one. */
  lemma OnlyBetweenParticipants(config: Config, t: Table, signal: SignalType, id: Name, actor: Name, recipient: Name,
                                now: Time)
    requires Sound(t) && Transition(config, t, signal, id, actor, recipient, now).1.Ok?
    ensures Live(t, id) && actor != recipient && {actor, recipient} == {t.calls[id].caller, t.calls[id].callee}
    ensures t.active[actor] == id && t.active[recipient] == id
  {
    AdvanceMoves(config, t.calls[id], signal, actor, now);
  }

  /** A sweep in terms of what it is for: it times out exactly the live calls that are due, forgets exactly the
      finished calls past their cleanup time, leaves the rest alone and frees exactly the participants of what it
      timed out. */
  ghost predicate Swept(config: Config, t: Table, t': Table, now: Time) {
    && (forall id :: id in t'.calls <==> id in t.calls && !(t.calls[id].Terminal() && t.calls[id].cleanupAt <= now))
    && (forall id | id in t'.calls ::
          t'.calls[id] == if Live(t, id) && ZERO_TIME < t.calls[id].deadline <= now
                          then Finished(config, t.calls[id], TimedOut, now) else t.calls[id])
    && (forall u :: u in t'.active <==>
          u in t.active && t.active[u] in t.calls && !(ZERO_TIME < t.calls[t.active[u]].deadline <= now))
    && (forall u | u in t'.active :: t'.active[u] == t.active[u])
  }

  /** However the calls are visited, that is what Expire does. */
  lemma ExpireIsExact(config: Config, t: Table, now: Time)
    requires Sound(t)
    ensures Swept(config, t, Expire(config, t, now), now)
  {
    assert forall u :: u in t.active ==> Live(t, t.active[u]);
  }

  /** `t'` keeps some of the calls of `t`, each as it was or finished, and marks exactly the users whose call is
      still live. */
  ghost predicate Thinned(t: Table, t': Table) {
    && (forall id | id in t'.calls ::
          id in t.calls && (t'.calls[id] == t.calls[id] || FinishedVersion(t.calls[id], t'.calls[id])))
    && (forall u | u in t'.active :: u in t.active && t'.active[u] == t.active[u] && Live(t', t.active[u]))
    && (forall u | u in t.active && Live(t', t.active[u]) :: u in t'.active)
  }

  ghost predicate FinishedVersion(c: Call, c': Call) {
    c'.Terminal() && Timed(c') && (c'.id, c'.caller, c'.callee) == (c.id, c.caller, c.callee)
  }

  lemma ThinningKeeps(t: Table, t': Table)
    requires Sound(t) && Thinned(t, t')
    ensures Sound(t')
  {
    forall id | Live(t', id)
      ensures var c := t'.calls[id]; c.caller in t'.active && t'.active[c.caller] == id
                                     && c.callee in t'.active && t'.active[c.callee] == id
    {
      assert Live(t, id);
    }
  }

  lemma SweepThins(config: Config, t: Table, t': Table, now: Time)
    requires forall u | u in t.active :: Live(t, t.active[u])
    requires forall id | id in t.calls :: Timed(t.calls[id])
    requires config.Valid() && now > ZERO_TIME && Swept(config, t, t', now)
    ensures Thinned(t, t')
  {
  }

  lemma ExpireKeeps(config: Config, t: Table, now: Time)
    requires Sound(t) && config.Valid() && now > ZERO_TIME
    ensures Sound(Expire(config, t, now))
  {
    ExpireIsExact(config, t, now);
    SweepThins(config, t, Expire(config, t, now), now);
    ThinningKeeps(t, Expire(config, t, now));
  }

  lemma DisconnectKeeps(config: Config, t: Table, username: Name, now: Time)
    requires Sound(t) && config.Valid() && now > ZERO_TIME
    ensures Sound(Disconnect(config, t, username, now).0)
  {
    if username in t.active {
      var call := t.calls[t.active[username]];
      ReplaceKeeps(t, call, Finished(config, call, Ended, now));
    }
  }

  // ---- every run ----

  datatype Op =
    | DoInvite(id: Name, caller: Name, callee: Name, now: Time)
    | DoTransition(signal: SignalType, id: Name, actor: Name, recipient: Name, now: Time)
    | DoExpire(now: Time)
    | DoDisconnect(username: Name, now: Time)

  function Step(config: Config, t: Table, op: Op): Table {
    match op
    case DoInvite(id, caller, callee, now) => Invite(config, t, id, caller, callee, now).0
    case DoTransition(signal, id, actor, recipient, now) => Transition(config, t, signal, id, actor, recipient, now).0
    case DoExpire(now) => Expire(config, t, now)
    case DoDisconnect(username, now) => Disconnect(config, t, username, now).0
  }

  function Run(config: Config, ops: seq<Op>): Table {
    if ops == [] then EMPTY else Step(config, Run(config, ops[..|ops| - 1]), ops[|ops| - 1])
  }

  lemma StepKeeps(config: Config, t: Table, op: Op)
    requires Sound(t) && config.Valid() && op.now > ZERO_TIME
    ensures Sound(Step(config, t, op))
  {
    match op
    case DoInvite(id, caller, callee, now) => InviteKeeps(config, t, id, caller, callee, now);
    case DoTransition(signal, id, actor, recipient, now) =>
      TransitionKeeps(config, t, signal, id, actor, recipient, now);
    case DoExpire(now) => ExpireKeeps(config, t, now);
    case DoDisconnect(username, now) => DisconnectKeeps(config, t, username, now);
  }

  /** Every reachable table is sound: users are marked exactly by the live calls they take part in. */
  lemma {:induction false} ReachableIsSound(config: Config, ops: seq<Op>)
    requires config.Valid() && forall i | 0 <= i < |ops| :: ops[i].now > ZERO_TIME
    ensures Sound(Run(config, ops))
    ensures var t := Run(config, ops);
            forall u, id :: (u in t.active && t.active[u] == id) <==> (Live(t, id) && t.calls[id].Involves(u))
  {
    if ops != [] {
      ReachableIsSound(config, ops[..|ops| - 1]);
      StepKeeps(config, Run(config, ops[..|ops| - 1]), ops[|ops| - 1]);
    }
  }

  /** Over every run an invitation succeeds exactly between two different users who are in no live call, under an
      id that is not on file; one of them is busy only when in a live call. */
  lemma {:induction false} InvitedIffFree(config: Config, ops: seq<Op>, id: Name, caller: Name, callee: Name, now: Time)
    requires config.Valid() && forall i | 0 <= i < |ops| :: ops[i].now > ZERO_TIME
    ensures var t, r := Run(config, ops), Invite(config, Run(config, ops), id, caller, callee, now).1;
            && (r.Ok? <==> caller != callee && id !in t.calls
                           && forall k | Live(t, k) :: !t.calls[k].Involves(caller) && !t.calls[k].Involves(callee))
            && (r == Err(UserBusy) ==>
                  exists k :: Live(t, k) && (t.calls[k].Involves(caller) || t.calls[k].Involves(callee)))
  {
    ReachableIsSound(config, ops);
    var t := Run(config, ops);
    if caller in t.active {
      assert Live(t, t.active[caller]) && t.calls[t.active[caller]].Involves(caller);
    }
    if callee in t.active {
      assert Live(t, t.active[callee]) && t.calls[t.active[callee]].Involves(callee);
    }
  }

  /** Nobody takes part in two live calls. */
  lemma NobodyInTwoCalls(t: Table, a: Name, b: Name, u: Name)
    requires Sound(t) && Live(t, a) && Live(t, b) && t.calls[a].Involves(u) && t.calls[b].Involves(u)
    ensures a == b
  {
    assert t.active[u] == a;
  }

  /** Disconnecting never meets a marker without a live call, ends at most the one call of that user, and
      frees both its participants and nobody else. */
  lemma DisconnectEndsTheUsersCall(config: Config, t: Table, username: Name, now: Time)
    requires Sound(t)
    ensures var (t', ended) := Disconnect(config, t, username, now);
            && (username in t.active ==>
                  && Live(t, t.active[username])
                  && var c := t.calls[t.active[username]];
                     t' == Finish(config, t, c, Ended, now) && ended == [Finished(config, c, Ended, now)])
            && (forall id | Live(t', id) ::
                  Live(t, id) && t'.calls[id] == t.calls[id] && !t.calls[id].Involves(username))
            && username !in t'.active
  {
  }

  /** Finishing a live call removes its own two markers and no other call's. */
  lemma FinishRemovesOwnMarkers(config: Config, t: Table, id: Name, state: State, now: Time)
    requires Sound(t) && Live(t, id)
    ensures var c, t' := t.calls[id], Finish(config, t, t.calls[id], state, now);
            && t.active[c.caller] == id && t.active[c.callee] == id
            && (forall u :: u in t'.active <==> u in t.active && t.active[u] != id)
            && (forall u | u in t'.active :: t'.active[u] == t.active[u])
  {
  }

  /** ICE traffic changes a budget and a timestamp, never a deadline or a state. */
  lemma IceKeepsDeadline(config: Config, call: Call, signal: SignalType, actor: Name, now: Time)
    requires signal == Ice || signal == IceComplete
    ensures var r := Advance(config, call, signal, actor, now);
            r.Ok? ==> r.value == call.(callerCandidates := r.value.callerCandidates,
                                       calleeCandidates := r.value.calleeCandidates, updatedAt := now)
  {
  }

  /** The same as far as the clock is left out of account. */
  predicate SameButTimes(c: Call, d: Call) {
    && (c.id, c.caller, c.callee, c.state, c.createdAt) == (d.id, d.caller, d.callee, d.state, d.createdAt)
    && (c.callerCandidates, c.calleeCandidates) == (d.callerCandidates, d.calleeCandidates)
  }

  predicate SameOutcome(r: Result<Call>, r': Result<Call>) {
    if r.Ok? then r'.Ok? && SameButTimes(r.value, r'.value) else r' == r
  }

  lemma AdvanceIgnoresTheClock(config: Config, call: Call, signal: SignalType, actor: Name, now: Time, later: Time)
    ensures SameOutcome(Advance(config, call, signal, actor, now), Advance(config, call, signal, actor, later))
  {
  }

  lemma SweepEndsTheOverdue(config: Config, t: Table, id: Name, now: Time)
    requires Sound(t) && Live(t, id) && ZERO_TIME < t.calls[id].deadline <= now
    ensures id in Expire(config, t, now).calls && Expire(config, t, now).calls[id].state == TimedOut
  {
    ExpireIsExact(config, t, now);
  }

  /** Transition does not look at deadlines: the clock decides neither whether a signal is accepted, nor which error
      it meets, nor what becomes of the call but for its times. So a call past its deadline goes on as before, until a
      sweep, which ends every live call whose deadline has come. */
  lemma OnlyExpireEnforcesDeadlines(
      config: Config, t: Table, signal: SignalType, id: Name, actor: Name, recipient: Name, now: Time, later: Time)
    requires Sound(t)
    ensures SameOutcome(Transition(config, t, signal, id, actor, recipient, now).1,
                        Transition(config, t, signal, id, actor, recipient, later).1)
    ensures Live(t, id) && ZERO_TIME < t.calls[id].deadline <= now ==>
              id in Expire(config, t, now).calls && Expire(config, t, now).calls[id].state == TimedOut
  {
    if id in t.calls {
      AdvanceIgnoresTheClock(config, t.calls[id], signal, actor, now, later);
    }
    if Live(t, id) && ZERO_TIME < t.calls[id].deadline <= now {
      SweepEndsTheOverdue(config, t, id, now);
    }
  }
}
