/** The call manager as the server runs it: records mutated through pointers, two maps
    (internal/server/calls/manager.go). */
module Manager {
  import opened Clock
  import opened Names
  import opened Calls

  /** The record a map entry points to. */
  class Record {
    const id: Name
    const caller: Name
    const callee: Name
    const createdAt: Time
    var state: State
    var updatedAt: Time
    var deadline: Time
    var cleanupAt: Time
    var callerCandidates: int
    var calleeCandidates: int

    function Snapshot(): Call
      reads this
    {
      Call(id, caller, callee, state, createdAt, updatedAt, deadline, cleanupAt, callerCandidates, calleeCandidates)
    }

    constructor (id: Name, caller: Name, callee: Name, now: Time, deadline: Time)
      ensures Snapshot() == Call(id, caller, callee, Ringing, now, now, deadline, ZERO_TIME, 0, 0)
    {
      this.id, this.caller, this.callee, createdAt := id, caller, callee, now;
      state, updatedAt, this.deadline, cleanupAt := Ringing, now, deadline, ZERO_TIME;
      callerCandidates, calleeCandidates := 0, 0;
    }

    method Set(state: State, now: Time, deadline: Time)
      modifies this
      ensures Snapshot() == SetState(old(Snapshot()), state, now, deadline)
    {
      this.state := state;
      updatedAt := now;
      this.deadline := deadline;
    }
  }

  /** The calls reported so far are those visited that were due, each once. */
  ghost predicate Reported(config: Config, t: Table, visited: set<Name>, now: Time, expired: seq<Call>) {
    && (forall i, j | 0 <= i < j < |expired| :: expired[i].id != expired[j].id)
    && (forall i | 0 <= i < |expired| ::
          var id := expired[i].id;
          id in visited && id in t.calls && Due(t.calls[id], now)
              && expired[i] == Finished(config, t.calls[id], TimedOut, now))
    && (forall id | id in visited && id in t.calls && Due(t.calls[id], now) ::
          exists i :: 0 <= i < |expired| && expired[i].id == id)
  }

  lemma ReportAnother(config: Config, t: Table, visited: set<Name>, now: Time, expired: seq<Call>, id: Name)
    requires Reported(config, t, visited, now, expired)
    requires id in t.calls && id !in visited && t.calls[id].id == id
    ensures Due(t.calls[id], now) ==>
              Reported(config, t, visited + {id}, now, expired + [Finished(config, t.calls[id], TimedOut, now)])
    ensures !Due(t.calls[id], now) ==> Reported(config, t, visited + {id}, now, expired)
  {
    if Due(t.calls[id], now) {
      var longer := expired + [Finished(config, t.calls[id], TimedOut, now)];
      assert longer[|expired|].id == id;
      forall k | k in visited && k in t.calls && Due(t.calls[k], now)
        ensures exists i :: 0 <= i < |longer| && longer[i].id == k
      {
        var i :| 0 <= i < |expired| && expired[i].id == k;
        assert longer[i].id == k;
      }
    }
  }

  class Manager {
    const config: Config
    var calls: map<Name, Record>
    var active: map<Name, Name>

    ghost function Records(): set<object>
      reads this
    {
      set id | id in calls :: calls[id]
    }

    /** A record is filed under its own id, so no two entries point to the same record. */
    ghost predicate Valid()
      reads this, Records()
    {
      config.Valid() && forall id | id in calls :: calls[id].id == id
    }

    ghost function Model(): Table
      reads this, Records()
    {
      Table(map id | id in calls :: calls[id].Snapshot(), active)
    }

    constructor (config: Config)
      ensures Valid() && this.config == config.Completed() && Model() == EMPTY
      ensures this.config.ringTimeout == if config.ringTimeout <= 0 then 45_000_000_000 else config.ringTimeout
      ensures this.config.negotiationTimeout
           == if config.negotiationTimeout <= 0 then 30_000_000_000 else config.negotiationTimeout
      ensures this.config.cleanupAfter == if config.cleanupAfter <= 0 then 60_000_000_000 else config.cleanupAfter
    {
      this.config := config.Completed();
      calls, active := map[], map[];
    }

    method Invite(id: Name, caller: Name, callee: Name, now: Time) returns (r: Result<Call>)
      requires Valid()
      modifies this
      ensures Valid() && fresh(Records() - old(Records()))
      ensures (Model(), r) == Calls.Invite(config, old(Model()), id, caller, callee, now)
    {
      if caller == callee { return Err(InvalidTransition); }
      if id in calls { return Err(CallExists); }
      if caller in active { return Err(UserBusy); }
      if callee in active { return Err(UserBusy); }
      var call := new Record(id, caller, callee, now, now + config.ringTimeout);
      calls := calls[id := call];
      active := active[caller := id];
      active := active[callee := id];
      assert Model().calls == old(Model()).calls[id := call.Snapshot()];
      return Ok(call.Snapshot());
    }

    /** Changing one record changes one entry. */
    twostate lemma OneEntryChanged(call: Record)
      requires old(Valid()) && Valid() && calls == old(calls)
      requires call.id in calls && calls[call.id] == call
      requires forall id | id in calls && id != call.id :: calls[id].Snapshot() == old(calls[id].Snapshot())
      ensures Model().calls == old(Model()).calls[call.id := call.Snapshot()]
    {
    }

    /** The record's last state, and its participants' markers gone. */
    method FinishRecord(call: Record, state: State, now: Time)
      requires Valid() && call.id in calls && calls[call.id] == call
      modifies this`active, call
      ensures Valid()
      ensures active == old(active) - {call.caller, call.callee}
      ensures call.Snapshot() == Finished(config, old(call.Snapshot()), state, now)
    {
      call.Set(state, now, ZERO_TIME);
      call.cleanupAt := now + config.cleanupAfter;
      active := active - {call.caller};
      active := active - {call.callee};
    }

    /** The switch on the message type. */
    method AdvanceRecord(call: Record, signal: SignalType, actor: Name, now: Time) returns (r: Result<Call>)
      requires Valid() && call.id in calls && calls[call.id] == call
      modifies this`active, call
      ensures Valid()
      ensures r == Advance(config, old(call.Snapshot()), signal, actor, now)
      ensures r.Ok? ==> call.Snapshot() == r.value
                        && active == if r.value.Terminal() then old(active) - {call.caller, call.callee}
                                     else old(active)
      ensures r.Err? ==> call.Snapshot() == old(call.Snapshot()) && active == old(active)
    {
      match signal {
        case CallAccept =>
          if call.state != Ringing || actor != call.callee { return Err(InvalidTransition); }
          call.Set(Accepted, now, now + config.negotiationTimeout);
        case CallDecline =>
          if call.state != Ringing || actor != call.callee { return Err(InvalidTransition); }
          FinishRecord(call, Declined, now);
        case CallCancel =>
          if call.state != Ringing || actor != call.caller { return Err(InvalidTransition); }
          FinishRecord(call, Cancelled, now);
        case Offer =>
          if (call.state != Accepted && call.state != Connected) || actor != call.caller {
            return Err(InvalidTransition);
          }
          if call.state == Connected {
            call.callerCandidates := 0;
            call.calleeCandidates := 0;
          }
          call.Set(Negotiating, now, now + config.negotiationTimeout);
        case Answer =>
          if call.state != Negotiating || actor != call.callee { return Err(InvalidTransition); }
          call.Set(Connected, now, ZERO_TIME);
        case Ice =>
          if call.state != Accepted && call.state != Negotiating && call.state != Connected {
            return Err(InvalidTransition);
          }
          if actor == call.caller {
            if call.callerCandidates >= MAX_ICE_CANDIDATES { return Err(CandidateLimit); }
            call.callerCandidates := call.callerCandidates + 1;
          } else {
            if call.calleeCandidates >= MAX_ICE_CANDIDATES { return Err(CandidateLimit); }
            call.calleeCandidates := call.calleeCandidates + 1;
          }
          call.updatedAt := now;
        case IceComplete =>
          if call.state != Accepted && call.state != Negotiating && call.state != Connected {
            return Err(InvalidTransition);
          }
          call.updatedAt := now;
        case CallEnd =>
          if call.state != Accepted && call.state != Negotiating && call.state != Connected {
            return Err(InvalidTransition);
          }
          FinishRecord(call, Ended, now);
        case _ =>
          return Err(InvalidTransition);
      }
      return Ok(call.Snapshot());
    }

    method Transition(signal: SignalType, id: Name, actor: Name, recipient: Name, now: Time) returns (r: Result<Call>)
      requires Valid()
      modifies this`active, Records()
      ensures Valid()
      ensures (Model(), r) == Calls.Transition(config, old(Model()), signal, id, actor, recipient, now)
    {
      if id !in calls { return Err(CallNotFound); }
      var call := calls[id];
      var other := call.Snapshot().Other(actor);
      if other.Err? || other.value != recipient { return Err(NotParticipant); }
      ghost var before := call.Snapshot();
      assert Model().calls[id] == before;
      r := AdvanceRecord(call, signal, actor, now);
      OneEntryChanged(call);
      if r.Err? {
        assert old(Model()).calls[id := before] == old(Model()).calls;
      }
    }

    method Disconnect(username: Name, now: Time) returns (ended: seq<Call>)
      requires Valid()
      modifies this`active, Records()
      ensures Valid()
      ensures (Model(), ended) == Calls.Disconnect(config, old(Model()), username, now)
    {
      if username !in active { return []; }
      var id := active[username];
      if id !in calls || calls[id].Snapshot().Terminal() {
        active := active - {username};
        assert Model().calls == old(Model()).calls;
        return [];
      }
      var call := calls[id];
      FinishRecord(call, Ended, now);
      OneEntryChanged(call);
      return [call.Snapshot()];
    }

    /** Removes a finished call's record. */
    method Forget(id: Name)
      requires Valid() && id in calls
      modifies this`calls
      ensures Valid() && calls == old(calls) - {id}
      ensures Model() == old(Model()).(calls := old(Model()).calls - {id})
    {
      calls := calls - {id};
      assert Model().calls == old(Model()).calls - {id};
    }

    /** What Expire does with one call; tells whether it timed out. */
    method VisitRecord(id: Name, now: Time) returns (timedOut: bool)
      requires Valid() && id in calls
      modifies this, Records()
      ensures Valid() && Records() <= old(Records())
      ensures calls == old(calls) || calls == old(calls) - {id}
      ensures Model() == Visit(config, old(Model()), id, now)
      ensures timedOut == Due(old(Model()).calls[id], now)
      ensures timedOut ==> id in calls
    {
      var call := calls[id];
      if call.Snapshot().Terminal() {
        if call.cleanupAt != ZERO_TIME && now >= call.cleanupAt {
          Forget(id);
        }
        return false;
      }
      if call.deadline != ZERO_TIME && now >= call.deadline {
        FinishRecord(call, TimedOut, now);
        OneEntryChanged(call);
        return true;
      }
      return false;
    }

    /** One iteration of the sweep, between the calls already visited and the rest. */
    method VisitNext(id: Name, now: Time, ghost t: Table, ghost visited: set<Name>, before: seq<Call>)
      returns (expired: seq<Call>)
      requires Valid() && id in t.calls && id !in visited
      requires Model() == Sweep(config, t, visited, now)
      requires forall k | k in t.calls :: t.calls[k].id == k
      requires Reported(config, t, visited, now, before)
      modifies this, Records()
      ensures Valid() && Records() <= old(Records())
      ensures old(calls.Keys) - {id} <= calls.Keys
      ensures Model() == Sweep(config, t, visited + {id}, now)
      ensures Reported(config, t, visited + {id}, now, expired)
    {
      SweepVisits(config, t, visited, id, now);
      assert id in Model().calls && Model().calls[id] == t.calls[id];
      var timedOut := VisitRecord(id, now);
      ReportAnother(config, t, visited, now, before, id);
      expired := before;
      if timedOut {
        assert Model().calls[id] == Finished(config, t.calls[id], TimedOut, now);
        expired := expired + [calls[id].Snapshot()];
      }
    }

    /** Sweeps all calls in an arbitrary order, deleting while it goes. The calls reported are exactly those that
        were due, each once. */
    method Expire(now: Time) returns (expired: seq<Call>)
      requires Valid()
      modifies this, Records()
      ensures Valid()
      ensures Model() == Calls.Expire(config, old(Model()), now)
      ensures Reported(config, old(Model()), old(Model()).calls.Keys, now, expired)
    {
      ghost var t := Model();
      ghost var visited: set<Name> := {};
      var toVisit := calls.Keys;
      expired := [];
      assert Sweep(config, t, {}, now) == t;
      while toVisit != {}
        invariant Valid() && Records() <= old(Records())
        invariant toVisit + visited == t.calls.Keys && toVisit !! visited
        invariant toVisit <= calls.Keys
        invariant Model() == Sweep(config, t, visited, now)
        invariant Reported(config, t, visited, now, expired)
        decreases toVisit
      {
        var id :| id in toVisit;
        expired := VisitNext(id, now, t, visited, expired);
        toVisit, visited := toVisit - {id}, visited + {id};
      }
      assert visited == t.calls.Keys;
    }

    method Get(id: Name) returns (found: bool, call: Call)
      requires Valid()
      ensures found == (id in Model().calls)
      ensures found ==> call == Model().calls[id]
    {
      if id !in calls {
        return false, Call(id, id, id, Ended, 0, 0, 0, 0, 0, 0);
      }
      return true, calls[id].Snapshot();
    }
  }
}
