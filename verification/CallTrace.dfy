/** What the server lets two peers say to each other about one call, over whole runs
    (internal/server/calls/manager.go). */
module CallTrace {
  import opened Clock
  import opened Names
  import opened Calls

  /** An accepted signal: its type, which side sent it, whether the call was connected at the time, and when. */
  datatype Entry = Entry(signal: SignalType, fromCaller: bool, connected: bool, at: Time)

  /** The table, and for each call id the signals accepted since its last invitation. */
  datatype Traced = Traced(table: Table, logs: map<Name, seq<Entry>>)

  const START := Traced(EMPTY, map[])

  function TracedStep(config: Config, s: Traced, op: Op): Traced {
    var table := Step(config, s.table, op);
    match op
    case DoInvite(id, caller, callee, now) =>
      if Invite(config, s.table, id, caller, callee, now).1.Ok? then Traced(table, s.logs[id := []])
      else Traced(table, s.logs)
    case DoTransition(signal, id, actor, recipient, now) =>
      if id in s.logs && Transition(config, s.table, signal, id, actor, recipient, now).1.Ok? then
        var call := s.table.calls[id];
        Traced(table, s.logs[id := s.logs[id] + [Entry(signal, actor == call.caller, call.state == Connected, now)]])
      else Traced(table, s.logs)
    case _ => Traced(table, s.logs)
  }

  function TracedRun(config: Config, ops: seq<Op>): Traced {
    if ops == [] then START else TracedStep(config, TracedRun(config, ops[..|ops| - 1]), ops[|ops| - 1])
  }

  /** Tracing only watches. */
  lemma {:induction false} TracingOnlyWatches(config: Config, ops: seq<Op>)
    ensures TracedRun(config, ops).table == Run(config, ops)
  {
    if ops != [] {
      TracingOnlyWatches(config, ops[..|ops| - 1]);
    }
  }

  // ---- the protocol, stated on the log alone ----

  /** The offers and answers of a log. */
  function Descriptions(log: seq<Entry>): seq<Entry> {
    if log == [] then []
    else
      var last := log[|log| - 1];
      if last.signal == Offer || last.signal == Answer then Descriptions(log[..|log| - 1]) + [last]
      else Descriptions(log[..|log| - 1])
  }

  /** Offers from the caller and answers from the callee in strict alternation, an offer first. */
  predicate Alternating(descriptions: seq<Entry>) {
    forall k | 0 <= k < |descriptions| ::
      if k % 2 == 0 then descriptions[k].signal == Offer && descriptions[k].fromCaller
      else descriptions[k].signal == Answer && !descriptions[k].fromCaller
  }

  predicate EndsCall(e: Entry) {
    e.signal == CallDecline || e.signal == CallCancel || e.signal == CallEnd
  }

  /** What may follow an accept. */
  predicate Continues(e: Entry) {
    e.signal == Offer || e.signal == Answer || e.signal == Ice || e.signal == IceComplete || e.signal == CallEnd
  }

  /** The callee declines or the caller gives up before anybody answered. */
  predicate Refuses(e: Entry) {
    if e.fromCaller then e.signal == CallCancel else e.signal == CallDecline
  }

  /** A legal conversation: nothing, or one refusal; otherwise the callee's accept comes first and only once,
      descriptions alternate, everything else is ICE, and only the last signal may end the call. */
  predicate Legal(log: seq<Entry>) {
    log == []
    || (|log| == 1 && Refuses(log[0]))
    || (&& log[0].signal == CallAccept && !log[0].fromCaller
        && (forall k | 1 <= k < |log| :: Continues(log[k]))
        && (forall k | 0 <= k < |log| - 1 :: !EndsCall(log[k]))
        && Alternating(Descriptions(log)))
  }

  /** ICE candidates accepted from one side. */
  function Candidates(log: seq<Entry>, fromCaller: bool): nat {
    if log == [] then 0
    else
      var last := log[|log| - 1];
      Candidates(log[..|log| - 1], fromCaller) + if last.signal == Ice && last.fromCaller == fromCaller then 1 else 0
  }

  /** Offers accepted while the call was connected: ICE restarts. */
  function Restarts(log: seq<Entry>): nat {
    if log == [] then 0
    else
      var last := log[|log| - 1];
      Restarts(log[..|log| - 1]) + if IsRestart(last) then 1 else 0
  }

  /** An offer accepted while connected starts a fresh pass of gathering candidates. */
  predicate IsRestart(e: Entry) {
    e.signal == Offer && e.connected
  }

  /** ICE candidates accepted from one side since the latest restart. */
  function SinceRestart(log: seq<Entry>, fromCaller: bool): nat {
    if log == [] then 0
    else
      var last := log[|log| - 1];
      if IsRestart(last) then 0
      else
        SinceRestart(log[..|log| - 1], fromCaller)
        + if last.signal == Ice && last.fromCaller == fromCaller then 1 else 0
  }

  /** When the conversation last moved on, ICE aside; `start` if it has not. */
  function LastTurn(log: seq<Entry>, start: Time): Time {
    if log == [] then start
    else
      var last := log[|log| - 1];
      if last.signal == Ice || last.signal == IceComplete then LastTurn(log[..|log| - 1], start) else last.at
  }

  predicate WithinBudget(log: seq<Entry>) {
    && Candidates(log, true) <= 256 * (1 + Restarts(log))
    && Candidates(log, false) <= 256 * (1 + Restarts(log))
  }

  // ---- how the table keeps to it ----

  /** Where a conversation that has not ended stands. */
  function Where(log: seq<Entry>): State {
    if log == [] then Ringing
    else if Descriptions(log) == [] then Accepted
    else if |Descriptions(log)| % 2 == 1 then Negotiating
    else Connected
  }

  predicate Unended(log: seq<Entry>) {
    forall k | 0 <= k < |log| :: !EndsCall(log[k])
  }

  ghost predicate StateFits(call: Call, log: seq<Entry>) {
    Unended(log) && call.state == Where(log)
  }

  /** The counters are what has come since the latest restart. */
  ghost predicate CountersFit(call: Call, log: seq<Entry>) {
    && call.callerCandidates == SinceRestart(log, true) && call.calleeCandidates == SinceRestart(log, false)
    && Budgeted(log, true) && Budgeted(log, false)
  }

  /** The deadline runs from the latest turn, whatever ICE has come since. */
  ghost predicate DeadlineFits(config: Config, call: Call, log: seq<Entry>) {
    && (call.state == Ringing ==> call.deadline == call.createdAt + config.ringTimeout)
    && (call.state == Accepted || call.state == Negotiating ==>
          call.deadline == LastTurn(log, call.createdAt) + config.negotiationTimeout)
  }

  ghost predicate Stands(config: Config, call: Call, log: seq<Entry>) {
    StateFits(call, log) && CountersFit(call, log) && DeadlineFits(config, call, log)
  }

  /** All but the candidates since the latest restart are covered by the restarts. */
  ghost predicate Budgeted(log: seq<Entry>, fromCaller: bool) {
    Candidates(log, fromCaller) <= MAX_ICE_CANDIDATES * Restarts(log) + SinceRestart(log, fromCaller)
  }

  /** Finished, and to be forgotten the configured time after whatever ended it. */
  predicate KeptAWhile(config: Config, call: Call) {
    call.Terminal() && call.cleanupAt == call.updatedAt + config.cleanupAfter
  }

  ghost predicate Follows(config: Config, call: Call, log: seq<Entry>) {
    Legal(log) && if call.Terminal() then KeptAWhile(config, call) else Stands(config, call, log)
  }

  lemma {:induction false} LastOf(log: seq<Entry>, e: Entry)
    ensures var longer := log + [e];
            && longer[..|longer| - 1] == log
            && Descriptions(longer)
               == (if e.signal == Offer || e.signal == Answer then Descriptions(log) + [e] else Descriptions(log))
            && Restarts(longer) == Restarts(log) + (if e.signal == Offer && e.connected then 1 else 0)
            && Candidates(longer, true) == Candidates(log, true) + (if e.signal == Ice && e.fromCaller then 1 else 0)
            && Candidates(longer, false) == Candidates(log, false) + (if e.signal == Ice && !e.fromCaller then 1 else 0)
            && SinceRestart(longer, true)
               == (if IsRestart(e) then 0
                   else SinceRestart(log, true) + if e.signal == Ice && e.fromCaller then 1 else 0)
            && SinceRestart(longer, false)
               == (if IsRestart(e) then 0
                   else SinceRestart(log, false) + if e.signal == Ice && !e.fromCaller then 1 else 0)
  {
    assert (log + [e])[..|log|] == log;
  }

  lemma RingingFirst(e: Entry)
    requires e.signal == CallAccept && !e.fromCaller
    ensures Legal([e]) && Descriptions([e]) == []
    ensures Candidates([e], true) == Candidates([e], false) == Restarts([e]) == 0
  {
    LastOf([], e);
    assert [] + [e] == [e];
  }

  /** A legal conversation that goes on after the accept. */
  lemma {:induction false} LegalExtends(log: seq<Entry>, e: Entry)
    requires Legal(log) && log != [] && log[0].signal == CallAccept && forall k | 0 <= k < |log| :: !EndsCall(log[k])
    requires Continues(e)
    requires e.signal == Offer ==> e.fromCaller && |Descriptions(log)| % 2 == 0
    requires e.signal == Answer ==> !e.fromCaller && |Descriptions(log)| % 2 == 1
    ensures Legal(log + [e])
  {
    LastOf(log, e);
    if e.signal == Offer || e.signal == Answer {
      AlternationExtends(Descriptions(log), e);
    }
  }

  lemma AlternationExtends(descriptions: seq<Entry>, e: Entry)
    requires Alternating(descriptions)
    requires if |descriptions| % 2 == 0 then e.signal == Offer && e.fromCaller else e.signal == Answer && !e.fromCaller
    ensures Alternating(descriptions + [e])
  {
  }

  /** An accepted signal keeps the conversation legal. */
  lemma AdvanceIsLegal(config: Config, call: Call, log: seq<Entry>, signal: SignalType, actor: Name, now: Time)
    requires call.caller != call.callee && call.Involves(actor) && Follows(config, call, log)
    requires Advance(config, call, signal, actor, now).Ok?
    ensures Legal(log + [Entry(signal, actor == call.caller, call.state == Connected, now)])
  {
    var e := Entry(signal, actor == call.caller, call.state == Connected, now);
    if call.state == Ringing {
      assert log + [e] == [e];
      if signal == CallAccept {
        RingingFirst(e);
      }
    } else {
      LegalExtends(log, e);
    }
  }

  lemma AdvanceCounts(config: Config, call: Call, log: seq<Entry>, signal: SignalType, actor: Name, now: Time)
    requires Timed(call) && call.caller != call.callee && call.Involves(actor)
    requires CountersFit(call, log) && (call.state == Ringing ==> log == [])
    requires Advance(config, call, signal, actor, now).Ok?
    ensures var next := Advance(config, call, signal, actor, now).value;
            var longer := log + [Entry(signal, actor == call.caller, call.state == Connected, now)];
            CountersFit(next, longer) && WithinBudget(longer)
  {
    LastOf(log, Entry(signal, actor == call.caller, call.state == Connected, now));
  }

  lemma WhereNext(log: seq<Entry>, e: Entry)
    requires Unended(log) && !EndsCall(e)
    ensures Unended(log + [e])
    ensures e.signal == Offer || e.signal == Answer ==>
              Where(log + [e]) == if Where(log) == Negotiating then Connected else Negotiating
    ensures e.signal != Offer && e.signal != Answer ==>
              Where(log + [e]) == if log == [] then Accepted else Where(log)
  {
    LastOf(log, e);
  }

  lemma AdvanceState(config: Config, call: Call, log: seq<Entry>, signal: SignalType, actor: Name, now: Time)
    requires StateFits(call, log)
    requires Advance(config, call, signal, actor, now).Ok?
    ensures var next := Advance(config, call, signal, actor, now).value;
            var longer := log + [Entry(signal, actor == call.caller, call.state == Connected, now)];
            if next.Terminal() then KeptAWhile(config, next) else StateFits(next, longer)
  {
    var e := Entry(signal, actor == call.caller, call.state == Connected, now);
    if !EndsCall(e) {
      WhereNext(log, e);
    }
  }

  lemma AdvanceDeadline(config: Config, call: Call, log: seq<Entry>, signal: SignalType, actor: Name, now: Time)
    requires DeadlineFits(config, call, log)
    requires Advance(config, call, signal, actor, now).Ok?
    ensures var next := Advance(config, call, signal, actor, now).value;
            var longer := log + [Entry(signal, actor == call.caller, call.state == Connected, now)];
            next.Terminal() || DeadlineFits(config, next, longer)
  {
    LastOf(log, Entry(signal, actor == call.caller, call.state == Connected, now));
  }

  lemma AdvanceFollows(config: Config, call: Call, log: seq<Entry>, signal: SignalType, actor: Name, now: Time)
    requires Timed(call) && call.caller != call.callee && call.Involves(actor) && Follows(config, call, log)
    requires Advance(config, call, signal, actor, now).Ok?
    ensures var next := Advance(config, call, signal, actor, now).value;
            var longer := log + [Entry(signal, actor == call.caller, call.state == Connected, now)];
            Follows(config, next, longer) && WithinBudget(longer)
  {
    AdvanceMoves(config, call, signal, actor, now);
    AdvanceIsLegal(config, call, log, signal, actor, now);
    AdvanceState(config, call, log, signal, actor, now);
    AdvanceCounts(config, call, log, signal, actor, now);
    AdvanceDeadline(config, call, log, signal, actor, now);
  }

  /** Every call on file follows its log, and every log, also of calls already forgotten, is legal and in budget. */
  ghost predicate AllFollow(config: Config, s: Traced) {
    && (forall id | id in s.table.calls :: id in s.logs && Follows(config, s.table.calls[id], s.logs[id]))
    && (forall id | id in s.logs :: Legal(s.logs[id]) && WithinBudget(s.logs[id]))
  }

  lemma ReplaceFollows(config: Config, s: Traced, s': Traced, id: Name, call: Call, log: seq<Entry>)
    requires AllFollow(config, s) && Follows(config, call, log) && WithinBudget(log)
    requires s'.table.calls == s.table.calls[id := call] && s'.logs == s.logs[id := log]
    ensures AllFollow(config, s')
  {
  }

  lemma TransitionFollows(config: Config, s: Traced, op: Op)
    requires op.DoTransition? && Sound(s.table) && AllFollow(config, s)
    ensures AllFollow(config, TracedStep(config, s, op))
  {
    var DoTransition(signal, id, actor, recipient, now) := op;
    if Transition(config, s.table, signal, id, actor, recipient, now).1.Ok? {
      var call, log := s.table.calls[id], s.logs[id];
      AdvanceFollows(config, call, log, signal, actor, now);
      ReplaceFollows(config, s, TracedStep(config, s, op), id, Advance(config, call, signal, actor, now).value,
                     log + [Entry(signal, actor == call.caller, call.state == Connected, now)]);
    }
  }

  lemma InviteFollows(config: Config, s: Traced, op: Op)
    requires op.DoInvite? && AllFollow(config, s)
    ensures AllFollow(config, TracedStep(config, s, op))
  {
    var DoInvite(id, caller, callee, now) := op;
    var r := Invite(config, s.table, id, caller, callee, now).1;
    if r.Ok? {
      assert Legal([]) && WithinBudget([]) && Follows(config, r.value, []);
      ReplaceFollows(config, s, TracedStep(config, s, op), id, r.value, []);
    }
  }

  /** Sweeps and disconnections only end calls or forget them. */
  lemma EndingFollows(config: Config, s: Traced, table: Table)
    requires AllFollow(config, s)
    requires forall id | id in table.calls ::
               id in s.table.calls && (table.calls[id] == s.table.calls[id] || KeptAWhile(config, table.calls[id]))
    ensures AllFollow(config, Traced(table, s.logs))
  {
    forall id | id in table.calls ensures id in s.logs && Follows(config, table.calls[id], s.logs[id]) {
      assert Follows(config, s.table.calls[id], s.logs[id]);
    }
  }

  lemma StepFollows(config: Config, s: Traced, op: Op)
    requires Sound(s.table) && AllFollow(config, s)
    ensures AllFollow(config, TracedStep(config, s, op))
  {
    match op
    case DoInvite(_, _, _, _) => InviteFollows(config, s, op);
    case DoTransition(_, _, _, _, _) => TransitionFollows(config, s, op);
    case DoExpire(now) => EndingFollows(config, s, Expire(config, s.table, now));
    case DoDisconnect(username, now) => EndingFollows(config, s, Disconnect(config, s.table, username, now).0);
  }

  /** Over every run: the signals accepted for one call are one accept by the callee, then offers by the caller and
      answers by the callee in strict alternation with ICE in between, and nothing after the one that ends the
      call; and neither side gets more than 256 candidates through for each negotiation. */
  lemma {:induction false} EveryConversationIsLegal(config: Config, ops: seq<Op>)
    requires config.Valid() && forall i | 0 <= i < |ops| :: ops[i].now > ZERO_TIME
    ensures AllFollow(config, TracedRun(config, ops))
  {
    if ops != [] {
      var earlier := ops[..|ops| - 1];
      EveryConversationIsLegal(config, earlier);
      TracingOnlyWatches(config, earlier);
      ReachableIsSound(config, earlier);
      StepFollows(config, TracedRun(config, earlier), ops[|ops| - 1]);
    }
  }

  /** What one side may say next, judged by what has been said. */
  predicate Permitted(log: seq<Entry>, signal: SignalType, fromCaller: bool) {
    match signal
    case CallAccept => log == [] && !fromCaller
    case CallDecline => log == [] && !fromCaller
    case CallCancel => log == [] && fromCaller
    case Offer => log != [] && |Descriptions(log)| % 2 == 0 && fromCaller
    case Answer => |Descriptions(log)| % 2 == 1 && !fromCaller
    case Ice => log != [] && SinceRestart(log, fromCaller) < 256
    case IceComplete => log != []
    case CallEnd => log != []
    case _ => false
  }

  lemma AdvanceIffPermitted(config: Config, call: Call, log: seq<Entry>, signal: SignalType, actor: Name, now: Time)
    requires !call.Terminal() && call.caller != call.callee && call.Involves(actor) && Stands(config, call, log)
    ensures Advance(config, call, signal, actor, now).Ok?
            <==> (if actor == call.caller then Permitted(log, signal, true) else Permitted(log, signal, false))
  {
    assert Descriptions([]) == [];
  }

  /** Over every run the server accepts exactly what the conversation so far permits: a participant's signal to the
      other one gets through if and only if the call has not ended and the signal may come next. */
  lemma {:induction false} AcceptedIffPermitted(config: Config, ops: seq<Op>, signal: SignalType, id: Name, actor: Name,
                                                recipient: Name, now: Time)
    requires config.Valid() && forall i | 0 <= i < |ops| :: ops[i].now > ZERO_TIME
    requires id in Run(config, ops).calls && Run(config, ops).calls[id].Other(actor) == Ok(recipient)
    ensures id in TracedRun(config, ops).logs
    ensures var call, log := Run(config, ops).calls[id], TracedRun(config, ops).logs[id];
            Transition(config, Run(config, ops), signal, id, actor, recipient, now).1.Ok?
            <==> !call.Terminal() && Permitted(log, signal, actor == call.caller)
  {
    TracingOnlyWatches(config, ops);
    ReachableIsSound(config, ops);
    EveryConversationIsLegal(config, ops);
    var call, log := Run(config, ops).calls[id], TracedRun(config, ops).logs[id];
    assert Follows(config, call, log);
    if call.Terminal() {
      if Advance(config, call, signal, actor, now).Ok? {
        AdvanceMoves(config, call, signal, actor, now);
      }
    } else {
      AdvanceIffPermitted(config, call, log, signal, actor, now);
    }
  }

  /** Over every run: a ringing call is due the ring timeout after its invitation, one being negotiated the
      negotiation timeout after the latest accept or offer, whatever ICE has come since, a connected one never; and a
      finished one is kept for the cleanup time from its end. */
  lemma {:induction false} DeadlinesAreExact(config: Config, ops: seq<Op>, id: Name)
    requires config.Valid() && forall i | 0 <= i < |ops| :: ops[i].now > ZERO_TIME
    requires id in Run(config, ops).calls
    ensures id in TracedRun(config, ops).logs
    ensures var call, log := Run(config, ops).calls[id], TracedRun(config, ops).logs[id];
            && (call.state == Ringing ==> call.deadline == call.createdAt + config.ringTimeout)
            && (call.state == Accepted || call.state == Negotiating ==>
                  call.deadline == LastTurn(log, call.createdAt) + config.negotiationTimeout)
            && (call.state == Connected || call.Terminal() ==> call.deadline == ZERO_TIME)
            && (call.Terminal() ==> call.cleanupAt == call.updatedAt + config.cleanupAfter)
  {
    TracingOnlyWatches(config, ops);
    ReachableIsSound(config, ops);
    EveryConversationIsLegal(config, ops);
    assert Follows(config, Run(config, ops).calls[id], TracedRun(config, ops).logs[id]);
  }

  /** Nothing is accepted for a finished call: until its id is invited again, its log stands. */
  lemma FinishedCallsAreSilent(config: Config, s: Traced, id: Name, op: Op)
    requires id in s.logs && (id in s.table.calls ==> s.table.calls[id].Terminal())
    requires Sound(s.table)
    requires op.DoInvite? ==> op.id != id || id in s.table.calls
    ensures id in TracedStep(config, s, op).logs && TracedStep(config, s, op).logs[id] == s.logs[id]
    ensures id in TracedStep(config, s, op).table.calls ==> TracedStep(config, s, op).table.calls[id].Terminal()
  {
  }
}
