/** The daemon's sliding-window invitation log (allowInviteLocked in internal/client/daemon/daemon.go). */
module InviteLog {
  import opened Clock
  import opened Names

  datatype Policy = Policy(limit: int, window: Duration)

  /** The entries after `cutoff`, in order. */
  function Recent(log: seq<Time>, cutoff: Time): (kept: seq<Time>)
    ensures |kept| <= |log|
  {
    if log == [] then []
    else Recent(log[..|log| - 1], cutoff) + if log[|log| - 1] > cutoff then [log[|log| - 1]] else []
  }

  function Admit(p: Policy, log: seq<Time>, now: Time): (seq<Time>, bool) {
    var kept := Recent(log, now - p.window);
    if |kept| >= p.limit then (kept, false) else (kept + [now], true)
  }

  // ---- histories ----

  datatype Invitation = Invitation(caller: Name, now: Time)

  predicate Nondecreasing(calls: seq<Invitation>) {
    forall i, j | 0 <= i <= j < |calls| :: calls[i].now <= calls[j].now
  }

  /** A caller's log after `calls`. */
  function LogAfter(p: Policy, calls: seq<Invitation>, caller: Name): seq<Time> {
    if calls == [] then []
    else
      var before, last := LogAfter(p, calls[..|calls| - 1], caller), calls[|calls| - 1];
      if last.caller == caller then Admit(p, before, last.now).0 else before
  }

  /** The reference: every admission ever, nothing forgotten. A call is admitted when fewer than `limit` earlier
      admissions of the same caller lie in (now - window, now]. */
  function Admissions(p: Policy, calls: seq<Invitation>, caller: Name): seq<Time> {
    if calls == [] then []
    else
      var before, last := Admissions(p, calls[..|calls| - 1], caller), calls[|calls| - 1];
      if last.caller == caller then AdmitFully(p, before, last.now).0 else before
  }

  /** How many entries lie in (from, to]. */
  function Within(log: seq<Time>, from: Time, to: Time): (count: nat)
    ensures count <= |log|
  {
    if log == [] then 0
    else Within(log[..|log| - 1], from, to) + if from < log[|log| - 1] <= to then 1 else 0
  }

  lemma {:induction false} RecentCounts(log: seq<Time>, from: Time, to: Time)
    requires forall i | 0 <= i < |log| :: log[i] <= to
    ensures |Recent(log, from)| == Within(log, from, to)
  {
    if log != [] {
      RecentCounts(log[..|log| - 1], from, to);
    }
  }

  /** Forgetting early loses nothing a later, larger cutoff would keep. */
  lemma {:induction false} RecentOfRecent(log: seq<Time>, early: Time, late: Time)
    requires early <= late
    ensures Recent(Recent(log, early), late) == Recent(log, late)
  {
    if log != [] {
      var init, last := log[..|log| - 1], log[|log| - 1];
      RecentOfRecent(init, early, late);
      if last > early {
        assert (Recent(init, early) + [last])[..|Recent(init, early)|] == Recent(init, early);
      } else {
        assert Recent(init, early) + [] == Recent(init, early);
      }
    }
  }

  lemma {:induction false} RecentOfExtended(log: seq<Time>, now: Time, cutoff: Time)
    ensures Recent(log + [now], cutoff) == Recent(log, cutoff) + if now > cutoff then [now] else []
  {
    assert (log + [now])[..|log|] == log;
  }

  lemma {:induction false} AdmissionsArePast(p: Policy, calls: seq<Invitation>, caller: Name, now: Time)
    requires forall i | 0 <= i < |calls| :: calls[i].now <= now
    ensures forall i | 0 <= i < |Admissions(p, calls, caller)| :: Admissions(p, calls, caller)[i] <= now
  {
    if calls != [] {
      AdmissionsArePast(p, calls[..|calls| - 1], caller, now);
    }
  }

  /** The reference for one call on the full history of a caller. */
  function AdmitFully(p: Policy, all: seq<Time>, now: Time): (seq<Time>, bool) {
    if Within(all, now - p.window, now) < p.limit then (all + [now], true) else (all, false)
  }

  /** One call on a log that forgot up to `cutoff` answers as the full history does, and forgets up to its own. */
  lemma AdmitOnRecent(p: Policy, all: seq<Time>, cutoff: Time, now: Time, log: seq<Time>)
    requires p.window > 0 && cutoff <= now - p.window
    requires forall i | 0 <= i < |all| :: all[i] <= now
    requires log == Recent(all, cutoff)
    ensures Admit(p, log, now).1 == AdmitFully(p, all, now).1
    ensures Admit(p, log, now).0 == Recent(AdmitFully(p, all, now).0, now - p.window)
  {
    RecentOfRecent(all, cutoff, now - p.window);
    RecentCounts(all, now - p.window, now);
    RecentOfExtended(all, now, now - p.window);
  }

  /** A caller's log is the full history of its admissions, less what some past cutoff has dropped. */
  lemma {:induction false} LogIsRecent(p: Policy, calls: seq<Invitation>, caller: Name, from: Time)
    returns (cutoff: Time)
    requires p.window > 0 && Nondecreasing(calls)
    requires forall i | 0 <= i < |calls| :: calls[i].now - p.window <= from
    ensures cutoff <= from
    ensures LogAfter(p, calls, caller) == Recent(Admissions(p, calls, caller), cutoff)
  {
    cutoff := from;
    if calls != [] {
      var n, last := |calls| - 1, calls[|calls| - 1];
      if last.caller == caller {
        var earlier := LogIsRecent(p, calls[..n], caller, last.now - p.window);
        AdmissionsArePast(p, calls[..n], caller, last.now);
        AdmitOnRecent(p, Admissions(p, calls[..n], caller), earlier, last.now, LogAfter(p, calls[..n], caller));
        cutoff := last.now - p.window;
      } else {
        cutoff := LogIsRecent(p, calls[..n], caller, from);
      }
    }
  }

  /** The compacted log answers every call as the unbounded history does. */
  lemma AdmissionIsExact(p: Policy, calls: seq<Invitation>)
    requires p.window > 0 && Nondecreasing(calls) && calls != []
    ensures var n, last := |calls| - 1, calls[|calls| - 1];
            Admit(p, LogAfter(p, calls[..n], last.caller), last.now).1
            <==> Within(Admissions(p, calls[..n], last.caller), last.now - p.window, last.now) < p.limit
  {
    var n, last := |calls| - 1, calls[|calls| - 1];
    var cutoff := LogIsRecent(p, calls[..n], last.caller, last.now - p.window);
    AdmissionsArePast(p, calls[..n], last.caller, last.now);
    AdmitOnRecent(p, Admissions(p, calls[..n], last.caller), cutoff, last.now, LogAfter(p, calls[..n], last.caller));
  }

  lemma {:induction false} WithinShrinks(log: seq<Time>, from: Time, later: Time, to: Time, earlierTo: Time)
    requires from <= later && earlierTo <= to
    requires forall i | 0 <= i < |log| :: log[i] <= earlierTo
    ensures Within(log, later, to) <= Within(log, from, earlierTo)
  {
    if log != [] {
      WithinShrinks(log[..|log| - 1], from, later, to, earlierTo);
    }
  }

  /** No window of the configured length, wherever it ends, ever holds more admissions of one caller than the limit. */
  lemma {:induction false} NoWindowOverflows(p: Policy, calls: seq<Invitation>, caller: Name, end: Time)
    requires p.limit >= 0 && p.window > 0 && Nondecreasing(calls)
    ensures Within(Admissions(p, calls, caller), end - p.window, end) <= p.limit
  {
    if calls != [] {
      var n := |calls| - 1;
      var before, last := Admissions(p, calls[..n], caller), calls[n];
      NoWindowOverflows(p, calls[..n], caller, end);
      if Admissions(p, calls, caller) != before {
        assert (before + [last.now])[..|before|] == before;
        AdmissionsArePast(p, calls[..n], caller, last.now);
        if last.now <= end {
          WithinShrinks(before, last.now - p.window, end - p.window, end, last.now);
        }
      }
    }
  }

  // ---- the code ----

  /** A Go slice: a prefix of a backing array. */
  datatype Slice = Slice(data: array<Time>, len: nat)

  /** Keeps the entries after `cutoff`, writing them over the front of the same array while reading it. */
  method Compact(data: array<Time>, len: nat, cutoff: Time) returns (kept: nat)
    requires len <= data.Length
    modifies data
    ensures kept <= len
    ensures data[..kept] == Recent(old(data[..len]), cutoff)
  {
    kept := 0;
    for i := 0 to len
      invariant kept <= i
      invariant data[..kept] == Recent(old(data[..i]), cutoff)
      invariant data[i..] == old(data[i..])
    {
      var value := data[i];
      assert value == old(data[i..])[0];
      assert old(data[..i + 1])[..i] == old(data[..i]);
      if value > cutoff {
        data[kept] := value;
        kept := kept + 1;
        assert data[..kept] == data[..kept - 1] + [value];
      }
    }
  }

  /** Go's append of one element: in place while the array has room, otherwise in a larger copy. */
  method Append(slice: Slice, value: Time) returns (longer: Slice)
    requires slice.len <= slice.data.Length
    modifies slice.data
    ensures longer.len == slice.len + 1 <= longer.data.Length
    ensures longer.data == slice.data || fresh(longer.data)
    ensures longer.data[..longer.len] == old(slice.data[..slice.len]) + [value]
  {
    var data := slice.data;
    if slice.len == data.Length {
      data := new Time[2 * slice.len + 1];
      for i := 0 to slice.len
        invariant data[..i] == slice.data[..i]
        invariant slice.data[..] == old(slice.data[..])
        modifies data
      {
        data[i] := slice.data[i];
      }
    }
    data[slice.len] := value;
    longer := Slice(data, slice.len + 1);
  }

  /** The body of allowInviteLocked, on one caller's slice. */
  method AdmitSlice(slice: Slice, limit: int, window: Duration, now: Time) returns (values: Slice, allowed: bool)
    requires slice.len <= slice.data.Length
    modifies slice.data
    ensures values.len <= values.data.Length
    ensures values.data == slice.data || fresh(values.data)
    ensures (values.data[..values.len], allowed) == Admit(Policy(limit, window), old(slice.data[..slice.len]), now)
  {
    var kept := Compact(slice.data, slice.len, now - window);
    values := Slice(slice.data, kept);
    if kept >= limit { return values, false; }
    values := Append(values, now);
    allowed := true;
  }

  class InviteLimiter {
    const limit: int
    const window: Duration
    var logs: map<Name, Slice>

    ghost function Arrays(): set<object>
      reads this
    {
      set caller | caller in logs :: logs[caller].data
    }

    /** Every slice is inside its array, and no two callers share one. */
    ghost predicate Valid()
      reads this
    {
      && (forall caller | caller in logs :: logs[caller].len <= logs[caller].data.Length)
      && (forall a, b | a in logs && b in logs && a != b :: logs[a].data != logs[b].data)
    }

    /** A caller's log; nobody's is empty. */
    function Log(caller: Name): seq<Time>
      requires Valid()
      reads this, Arrays()
    {
      if caller in logs then logs[caller].data[..logs[caller].len] else []
    }

    constructor (limit: int, window: Duration)
      ensures this.limit == limit && this.window == window && Valid() && logs == map[]
    {
      this.limit, this.window, logs := limit, window, map[];
    }

    method AllowInvite(caller: Name, now: Time) returns (allowed: bool)
      requires Valid()
      modifies this, Arrays()
      ensures Valid() && fresh(Arrays() - old(Arrays()))
      ensures (Log(caller), allowed) == Admit(Policy(limit, window), old(Log(caller)), now)
      ensures forall other | other != caller :: Log(other) == old(Log(other))
    {
      var slice: Slice;
      if caller in logs {
        slice := logs[caller];
      } else {
        var data := new Time[0];
        slice := Slice(data, 0);
      }
      assert slice.data[..slice.len] == Log(caller);
      var values;
      values, allowed := AdmitSlice(slice, limit, window, now);
      forall other | other in logs && other != caller
        ensures logs[other].data != values.data
        ensures logs[other].data[..logs[other].len] == old(Log(other))
      {
        assert logs[other].data != slice.data;
      }
      logs := logs[caller := values];
    }
  }
}
