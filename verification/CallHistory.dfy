/** The call table told by its history (internal/server/calls/manager.go): a reference that keeps no counters, no
    deadlines and no markers, only who invited whom and when, what has been accepted since, and how each call ended. */
module CallHistory {
  import opened Clock
  import opened Names
  import opened Calls
  import opened CallTrace

  datatype Ending = Open | Over(state: State, at: Time)

  datatype History = History(caller: Name, callee: Name, invitedAt: Time, log: seq<Entry>, ending: Ending)
  {
    predicate Between(a: Name, b: Name) {
      (a == caller && b == callee) || (a == callee && b == caller)
    }

    predicate Engages(username: Name) {
      ending.Open? && (username == caller || username == callee)
    }
  }

  type File = map<Name, History>

  // ---- the reference ----

  /** How a signal that ends a call leaves it. */
  function EndState(signal: SignalType): State {
    if signal == CallDecline then Declined else if signal == CallCancel then Cancelled else Ended
  }

  /** When a sweep may time the call out; zero for never. */
  function DueAt(config: Config, h: History): Time {
    match Where(h.log)
    case Ringing => h.invitedAt + config.ringTimeout
    case Accepted => LastTurn(h.log, h.invitedAt) + config.negotiationTimeout
    case Negotiating => LastTurn(h.log, h.invitedAt) + config.negotiationTimeout
    case _ => ZERO_TIME
  }

  ghost predicate Busy(file: File, username: Name) {
    exists id :: id in file && file[id].Engages(username)
  }

  /** The next entry of a conversation. */
  function NextEntry(h: History, signal: SignalType, actor: Name, now: Time): Entry {
    Entry(signal, actor == h.caller, Where(h.log) == Connected, now)
  }

  function Continue(h: History, e: Entry): History {
    h.(log := h.log + [e], ending := if EndsCall(e) then Over(EndState(e.signal), e.at) else Open)
  }

  ghost function RefInvite(file: File, id: Name, caller: Name, callee: Name, now: Time): Result<History> {
    if caller == callee then Err(InvalidTransition)
    else if id in file then Err(CallExists)
    else if Busy(file, caller) || Busy(file, callee) then Err(UserBusy)
    else Ok(History(caller, callee, now, [], Open))
  }

  function RefSignal(file: File, signal: SignalType, id: Name, actor: Name, recipient: Name, now: Time)
    : Result<History>
  {
    if id !in file then Err(CallNotFound)
    else if !file[id].Between(actor, recipient) then Err(NotParticipant)
    else if file[id].ending.Open? && Permitted(file[id].log, signal, actor == file[id].caller) then
      Ok(Continue(file[id], NextEntry(file[id], signal, actor, now)))
    else if file[id].ending.Open? && signal == Ice && file[id].log != [] then Err(CandidateLimit)
    else Err(InvalidTransition)
  }

  function TimedOutBy(config: Config, h: History, now: Time): History {
    if h.ending.Open? && ZERO_TIME < DueAt(config, h) <= now then h.(ending := Over(TimedOut, now)) else h
  }

  function Left(h: History, username: Name, now: Time): History {
    if h.Engages(username) then h.(ending := Over(Ended, now)) else h
  }

  ghost function RefStep(config: Config, file: File, op: Op): File {
    match op
    case DoInvite(id, caller, callee, now) =>
      var r := RefInvite(file, id, caller, callee, now);
      if r.Ok? then file[id := r.value] else file
    case DoTransition(signal, id, actor, recipient, now) =>
      var r := RefSignal(file, signal, id, actor, recipient, now);
      if r.Ok? then file[id := r.value] else file
    case DoExpire(now) =>
      map id | id in file && !(file[id].ending.Over? && file[id].ending.at + config.cleanupAfter <= now) ::
        TimedOutBy(config, file[id], now)
    case DoDisconnect(username, now) =>
      map id | id in file :: Left(file[id], username, now)
  }

  ghost function RefRun(config: Config, ops: seq<Op>): File {
    if ops == [] then map[] else RefStep(config, RefRun(config, ops[..|ops| - 1]), ops[|ops| - 1])
  }

  // ---- what the table holds of it ----

  function LastAt(log: seq<Entry>, start: Time): Time {
    if log == [] then start else log[|log| - 1].at
  }

  /** The record that a history calls for. */
  function Record(config: Config, id: Name, h: History): Call {
    var candidates := (SinceRestart(h.log, true), SinceRestart(h.log, false));
    match h.ending
    case Open =>
      Call(id, h.caller, h.callee, Where(h.log), h.invitedAt, LastAt(h.log, h.invitedAt), DueAt(config, h), ZERO_TIME,
           candidates.0, candidates.1)
    case Over(state, at) =>
      Call(id, h.caller, h.callee, state, h.invitedAt, at, ZERO_TIME, at + config.cleanupAfter,
           candidates.0, candidates.1)
  }

  ghost predicate Recorded(config: Config, t: Table, file: File) {
    && t.calls.Keys == file.Keys
    && forall id | id in file :: t.calls[id] == Record(config, id, file[id])
  }

  /** A history that can be continued: it is unended as long as it is open, and its end is one. */
  ghost predicate Wellformed(h: History) {
    && h.caller != h.callee
    && (h.ending.Open? ==> Unended(h.log))
    && (h.ending.Over? ==> h.ending.at > ZERO_TIME && h.ending.state in {Declined, Cancelled, TimedOut, Ended})
  }

  ghost predicate Tells(config: Config, t: Table, file: File) {
    Recorded(config, t, file) && forall id | id in file :: Wellformed(file[id])
  }

  // ---- one step ----

  lemma WhereIsLive(log: seq<Entry>)
    ensures Where(log) in {Ringing, Accepted, Negotiating, Connected}
  {
  }

  lemma RecordIsLive(config: Config, id: Name, h: History)
    requires Wellformed(h)
    ensures Record(config, id, h).Terminal() <==> h.ending.Over?
  {
    WhereIsLive(h.log);
  }

  /** Which signals a record lets through, and with which error it refuses the others. */
  lemma RecordPermits(config: Config, id: Name, h: History, signal: SignalType, actor: Name, now: Time)
    requires Wellformed(h) && h.ending.Open? && (actor == h.caller || actor == h.callee)
    ensures var r := Advance(config, Record(config, id, h), signal, actor, now);
            if Permitted(h.log, signal, actor == h.caller) then r.Ok?
            else r == Err(if signal == Ice && h.log != [] then CandidateLimit else InvalidTransition)
  {
    assert Descriptions([]) == [];
    WhereIsLive(h.log);
  }

  lemma AdvanceEnds(config: Config, c: Call, signal: SignalType, actor: Name, now: Time)
    requires signal == CallDecline || signal == CallCancel || signal == CallEnd
    requires Advance(config, c, signal, actor, now).Ok?
    ensures Advance(config, c, signal, actor, now)
         == Ok(c.(state := EndState(signal), updatedAt := now, deadline := ZERO_TIME,
                  cleanupAt := now + config.cleanupAfter))
  {
  }

  lemma AdvanceGoesOn(config: Config, c: Call, signal: SignalType, actor: Name, now: Time)
    requires signal != CallDecline && signal != CallCancel && signal != CallEnd
    requires Advance(config, c, signal, actor, now).Ok?
    ensures var restart := signal == Offer && c.state == Connected;
            var state := if signal == CallAccept then Accepted else if signal == Offer then Negotiating
                         else if signal == Answer then Connected else c.state;
            Advance(config, c, signal, actor, now)
            == Ok(c.(state := state,
                     updatedAt := now,
                     deadline := if signal == Ice || signal == IceComplete then c.deadline
                                 else if signal == Answer then ZERO_TIME else now + config.negotiationTimeout,
                     callerCandidates := if restart then 0
                                         else c.callerCandidates + if signal == Ice && actor == c.caller then 1 else 0,
                     calleeCandidates := if restart then 0
                                         else c.calleeCandidates + if signal == Ice && actor != c.caller then 1 else 0))
  {
  }

  lemma EndedRecord(config: Config, id: Name, h: History, e: Entry)
    requires Wellformed(h) && h.ending.Open? && EndsCall(e)
    ensures Record(config, id, Continue(h, e))
         == Record(config, id, h).(state := EndState(e.signal), updatedAt := e.at, deadline := ZERO_TIME,
                                   cleanupAt := e.at + config.cleanupAfter)
  {
    LastOf(h.log, e);
  }

  /** How a record changes with an entry that does not end the call. */
  lemma RecordAfter(config: Config, id: Name, h: History, e: Entry)
    requires Wellformed(h) && h.ending.Open? && !EndsCall(e)
    requires h.log == [] ==> e.signal == CallAccept
    requires h.log != [] ==> e.signal == Offer || e.signal == Answer || e.signal == Ice || e.signal == IceComplete
    ensures var c, c' := Record(config, id, h), Record(config, id, Continue(h, e));
            var state := if h.log == [] then Accepted
                         else if e.signal != Offer && e.signal != Answer then c.state
                         else if c.state == Negotiating then Connected else Negotiating;
            c' == c.(state := state,
                     updatedAt := e.at,
                     deadline := if e.signal == Ice || e.signal == IceComplete then c.deadline
                                 else if state == Connected then ZERO_TIME else e.at + config.negotiationTimeout,
                     callerCandidates := SinceRestart(h.log + [e], true),
                     calleeCandidates := SinceRestart(h.log + [e], false))
  {
    LastOf(h.log, e);
    WhereNext(h.log, e);
  }

  lemma PermittedKinds(h: History, signal: SignalType, fromCaller: bool)
    requires Permitted(h.log, signal, fromCaller) && !EndsCall(Entry(signal, fromCaller, false, ZERO_TIME))
    ensures h.log == [] ==> signal == CallAccept
    ensures h.log != [] ==> signal == Offer || signal == Answer || signal == Ice || signal == IceComplete
    ensures signal == Offer ==> Where(h.log) == Accepted || Where(h.log) == Connected
    ensures signal == Answer ==> Where(h.log) == Negotiating
  {
    assert Descriptions([]) == [];
  }

  /** What they make of it. */
  lemma RecordContinues(config: Config, id: Name, h: History, signal: SignalType, actor: Name, now: Time)
    requires Wellformed(h) && h.ending.Open? && (actor == h.caller || actor == h.callee)
    requires Permitted(h.log, signal, actor == h.caller)
    ensures Advance(config, Record(config, id, h), signal, actor, now)
         == Ok(Record(config, id, Continue(h, NextEntry(h, signal, actor, now))))
  {
    var e := NextEntry(h, signal, actor, now);
    RecordPermits(config, id, h, signal, actor, now);
    if EndsCall(e) {
      AdvanceEnds(config, Record(config, id, h), signal, actor, now);
      EndedRecord(config, id, h, e);
    } else {
      PermittedKinds(h, signal, actor == h.caller);
      AdvanceGoesOn(config, Record(config, id, h), signal, actor, now);
      RecordAfter(config, id, h, e);
      LastOf(h.log, e);
    }
  }

  lemma ContinueIsWellformed(h: History, e: Entry)
    requires Wellformed(h) && h.ending.Open? && e.at > ZERO_TIME
    ensures Wellformed(Continue(h, e))
  {
    if !EndsCall(e) {
      WhereNext(h.log, e);
    }
  }

  // ---- every run ----

  /** Replacing one history as its record is replaced. */
  lemma TellsReplaced(config: Config, t: Table, t': Table, file: File, id: Name, h: History)
    requires Tells(config, t, file) && Wellformed(h)
    requires t'.calls == t.calls[id := Record(config, id, h)]
    ensures Tells(config, t', file[id := h])
  {
  }

  /** Users are marked exactly by the calls that engage them. */
  lemma MarkedIffBusy(config: Config, t: Table, file: File, username: Name)
    requires Sound(t) && Tells(config, t, file)
    ensures username in t.active <==> Busy(file, username)
    ensures username in t.active ==> t.active[username] in file && file[t.active[username]].Engages(username)
  {
    if username in t.active {
      var id := t.active[username];
      RecordIsLive(config, id, file[id]);
      assert file[id].Engages(username);
    }
    if Busy(file, username) {
      var id :| id in file && file[id].Engages(username);
      RecordIsLive(config, id, file[id]);
      assert Live(t, id) && t.calls[id].Involves(username);
    }
  }

  lemma InviteTells(config: Config, t: Table, file: File, id: Name, caller: Name, callee: Name, now: Time)
    requires Sound(t) && Tells(config, t, file)
    ensures var (t', r) := Invite(config, t, id, caller, callee, now);
            var ref := RefInvite(file, id, caller, callee, now);
            && (r.Ok? <==> ref.Ok?) && (r.Err? ==> r.error == ref.error && t' == t)
            && (r.Ok? ==> r.value == Record(config, id, ref.value) && Tells(config, t', file[id := ref.value]))
  {
    MarkedIffBusy(config, t, file, caller);
    MarkedIffBusy(config, t, file, callee);
    var (t', r) := Invite(config, t, id, caller, callee, now);
    if r.Ok? {
      var h := History(caller, callee, now, [], Open);
      assert r.value == Record(config, id, h);
      TellsReplaced(config, t, t', file, id, h);
    }
  }

  lemma SignalTells(config: Config, t: Table, file: File, signal: SignalType, id: Name, actor: Name, recipient: Name,
                    now: Time)
    requires Sound(t) && Tells(config, t, file) && now > ZERO_TIME
    ensures var (t', r) := Transition(config, t, signal, id, actor, recipient, now);
            var ref := RefSignal(file, signal, id, actor, recipient, now);
            && (r.Ok? <==> ref.Ok?) && (r.Err? ==> r.error == ref.error && t' == t)
            && (r.Ok? ==> r.value == Record(config, id, ref.value) && Tells(config, t', file[id := ref.value]))
  {
    if id in file && file[id].Between(actor, recipient) {
      var h := file[id];
      RecordIsLive(config, id, h);
      if h.ending.Open? {
        RecordPermits(config, id, h, signal, actor, now);
        if Permitted(h.log, signal, actor == h.caller) {
          var e := NextEntry(h, signal, actor, now);
          RecordContinues(config, id, h, signal, actor, now);
          ContinueIsWellformed(h, e);
          var t' := Transition(config, t, signal, id, actor, recipient, now).0;
          TellsReplaced(config, t, t', file, id, Continue(h, e));
        }
      } else {
        RefusesEnded(config, t.calls[id], signal, actor, now);
      }
    }
  }

  lemma RefusesEnded(config: Config, call: Call, signal: SignalType, actor: Name, now: Time)
    requires call.Terminal()
    ensures Advance(config, call, signal, actor, now) == Err(InvalidTransition)
  {
  }

  lemma SweptRecord(config: Config, id: Name, h: History, now: Time)
    requires Wellformed(h) && now > ZERO_TIME
    ensures var c := Record(config, id, h);
            && Wellformed(TimedOutBy(config, h, now))
            && Record(config, id, TimedOutBy(config, h, now))
               == if !c.Terminal() && ZERO_TIME < c.deadline <= now then Finished(config, c, TimedOut, now) else c
  {
    RecordIsLive(config, id, h);
  }

  lemma SweepTells(config: Config, t: Table, file: File, now: Time)
    requires Sound(t) && Tells(config, t, file) && config.Valid() && now > ZERO_TIME
    ensures Tells(config, Expire(config, t, now), RefStep(config, file, DoExpire(now)))
  {
    ExpireIsExact(config, t, now);
    var t', file' := Expire(config, t, now), RefStep(config, file, DoExpire(now));
    forall id | id in file
      ensures id in t'.calls <==> id in file'
      ensures id in file' ==> t'.calls[id] == Record(config, id, file'[id]) && Wellformed(file'[id])
    {
      RecordIsLive(config, id, file[id]);
      SweptRecord(config, id, file[id], now);
    }
  }

  lemma LeftRecord(config: Config, id: Name, h: History, username: Name, now: Time)
    requires Wellformed(h) && now > ZERO_TIME
    ensures var c := Record(config, id, h);
            && Wellformed(Left(h, username, now))
            && Record(config, id, Left(h, username, now))
               == if !c.Terminal() && c.Involves(username) then Finished(config, c, State.Ended, now) else c
  {
    RecordIsLive(config, id, h);
  }

  lemma LeaveTells(config: Config, t: Table, file: File, username: Name, now: Time)
    requires Sound(t) && Tells(config, t, file) && now > ZERO_TIME
    ensures Tells(config, Disconnect(config, t, username, now).0, RefStep(config, file, DoDisconnect(username, now)))
  {
    DisconnectIsExact(config, t, username, now);
    forall id | id in file
      ensures Wellformed(Left(file[id], username, now))
      ensures Disconnect(config, t, username, now).0.calls[id] == Record(config, id, Left(file[id], username, now))
    {
      LeftRecord(config, id, file[id], username, now);
    }
  }

  /** A disconnection finishes every live call of the user and touches no other. */
  lemma DisconnectIsExact(config: Config, t: Table, username: Name, now: Time)
    requires Sound(t)
    ensures var t' := Disconnect(config, t, username, now).0;
            && t'.calls.Keys == t.calls.Keys
            && forall id | id in t.calls ::
                 t'.calls[id] == if !t.calls[id].Terminal() && t.calls[id].Involves(username)
                                 then Finished(config, t.calls[id], State.Ended, now) else t.calls[id]
  {
    forall id | id in t.calls && !t.calls[id].Terminal() && t.calls[id].Involves(username)
      ensures username in t.active && t.active[username] == id
    {
      assert Live(t, id);
    }
  }

  lemma StepTells(config: Config, t: Table, file: File, op: Op)
    requires Sound(t) && Tells(config, t, file) && config.Valid() && op.now > ZERO_TIME
    ensures Tells(config, Step(config, t, op), RefStep(config, file, op))
  {
    match op
    case DoInvite(id, caller, callee, now) => InviteTells(config, t, file, id, caller, callee, now);
    case DoTransition(signal, id, actor, recipient, now) =>
      SignalTells(config, t, file, signal, id, actor, recipient, now);
    case DoExpire(now) => SweepTells(config, t, file, now);
    case DoDisconnect(username, now) => LeaveTells(config, t, file, username, now);
  }

  /** Over every run the table holds exactly the records that the history calls for: nothing is on file that was not
      invited, nothing is missing that was not swept away, and every state, time, deadline and counter is what the
      history says. */
  lemma {:induction false} RunTells(config: Config, ops: seq<Op>)
    requires config.Valid() && forall i | 0 <= i < |ops| :: ops[i].now > ZERO_TIME
    ensures Sound(Run(config, ops)) && Tells(config, Run(config, ops), RefRun(config, ops))
  {
    if ops != [] {
      RunTells(config, ops[..|ops| - 1]);
      ReachableIsSound(config, ops);
      StepTells(config, Run(config, ops[..|ops| - 1]), RefRun(config, ops[..|ops| - 1]), ops[|ops| - 1]);
    } else {
      ReachableIsSound(config, ops);
    }
  }

  function Told(config: Config, id: Name, r: Result<History>): Result<Call> {
    if r.Ok? then Ok(Record(config, id, r.value)) else Err(r.error)
  }

  /** An invitation is answered as the history says, error for error. */
  lemma InviteAnswers(config: Config, ops: seq<Op>, id: Name, caller: Name, callee: Name, now: Time)
    requires config.Valid() && forall i | 0 <= i < |ops| :: ops[i].now > ZERO_TIME
    ensures Invite(config, Run(config, ops), id, caller, callee, now).1
         == Told(config, id, RefInvite(RefRun(config, ops), id, caller, callee, now))
  {
    RunTells(config, ops);
    InviteTells(config, Run(config, ops), RefRun(config, ops), id, caller, callee, now);
  }

  /** And so is a signal. */
  lemma SignalAnswers(config: Config, ops: seq<Op>, signal: SignalType, id: Name, actor: Name, recipient: Name,
                      now: Time)
    requires config.Valid() && now > ZERO_TIME && forall i | 0 <= i < |ops| :: ops[i].now > ZERO_TIME
    ensures Transition(config, Run(config, ops), signal, id, actor, recipient, now).1
         == Told(config, id, RefSignal(RefRun(config, ops), signal, id, actor, recipient, now))
  {
    RunTells(config, ops);
    SignalTells(config, Run(config, ops), RefRun(config, ops), signal, id, actor, recipient, now);
  }

  /** The times of a record are those of its history: it was created when it was invited, an unfinished one was last
      updated at its latest accepted signal, or its invitation when there is none, and rings until the ring timeout
      after its invitation; a finished one was updated when it ended, and is kept from then on. */
  lemma TimesAreHistory(config: Config, ops: seq<Op>, id: Name)
    requires config.Valid() && forall i | 0 <= i < |ops| :: ops[i].now > ZERO_TIME
    requires id in Run(config, ops).calls
    ensures id in RefRun(config, ops)
    ensures var c, h := Run(config, ops).calls[id], RefRun(config, ops)[id];
            && c.createdAt == h.invitedAt
            && (c.state == Ringing ==> c.deadline == h.invitedAt + config.ringTimeout && h.log == [])
            && (c.Terminal() <==> h.ending.Over?)
            && (!c.Terminal() ==> c.updatedAt == if h.log == [] then h.invitedAt else h.log[|h.log| - 1].at)
            && (c.Terminal() ==> c.state == h.ending.state && c.updatedAt == h.ending.at
                                 && c.cleanupAt == h.ending.at + config.cleanupAfter)
  {
    RunTells(config, ops);
    RecordIsLive(config, id, RefRun(config, ops)[id]);
  }
}
