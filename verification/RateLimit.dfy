/** Fixed-window rate limits (internal/server/websocket/ratelimit.go). */
module RateLimit {
  import opened Clock
  import opened Names

  datatype Window = Window(start: Time, count: int)

  const UNUSED := Window(ZERO_TIME, 0)

  datatype Policy = Policy(limit: int, window: Duration)

  predicate Expired(p: Policy, w: Window, now: Time) {
    now >= w.start + p.window
  }

  /** One call on a limiter of its own. */
  function Allow(p: Policy, w: Window, now: Time): (Window, bool) {
    var current := if w.start == ZERO_TIME || Expired(p, w, now) then Window(now, 0) else w;
    if current.count >= p.limit then (current, false)
    else (current.(count := current.count + 1), true)
  }

  /** The counters that survive the sweep at the start of every call. */
  function Swept(p: Policy, counters: map<Name, Window>, now: Time): map<Name, Window> {
    map key | key in counters && !Expired(p, counters[key], now) :: counters[key]
  }

  /** One call on the limiter shared by all keys. */
  function AllowKey(p: Policy, counters: map<Name, Window>, key: Name, now: Time): (map<Name, Window>, bool) {
    var swept := Swept(p, counters, now);
    var found := if key in swept then swept[key] else UNUSED;
    var counter := if found.start == ZERO_TIME then found.(start := now) else found;
    if counter.count >= p.limit then (swept[key := counter], false)
    else (swept[key := counter.(count := counter.count + 1)], true)
  }

  // ---- histories ----

  /** The clock never runs backwards and is always set. */
  predicate Nondecreasing(times: seq<Time>) {
    && (forall i | 0 <= i < |times| :: times[i] > ZERO_TIME)
    && (forall i, j | 0 <= i <= j < |times| :: times[i] <= times[j])
  }

  /** A limiter of its own after calls at `times`. */
  function After(p: Policy, times: seq<Time>): Window {
    if times == [] then UNUSED else Allow(p, After(p, times[..|times| - 1]), times[|times| - 1]).0
  }

  /** Whether the last of the calls was allowed. */
  predicate Allowed(p: Policy, times: seq<Time>)
    requires times != []
  {
    Allow(p, After(p, times[..|times| - 1]), times[|times| - 1]).1
  }

  datatype Call = Call(key: Name, now: Time)

  function Times(calls: seq<Call>): (times: seq<Time>)
    ensures |times| == |calls| && forall i | 0 <= i < |calls| :: times[i] == calls[i].now
  {
    seq(|calls|, i requires 0 <= i < |calls| => calls[i].now)
  }

  /** The times of the calls made for one key. */
  function TimesOf(calls: seq<Call>, key: Name): seq<Time> {
    if calls == [] then []
    else
      var last := calls[|calls| - 1];
      TimesOf(calls[..|calls| - 1], key) + if last.key == key then [last.now] else []
  }

  /** The shared limiter after `calls`, and its answers. */
  function Shared(p: Policy, calls: seq<Call>): (map<Name, Window>, seq<bool>) {
    if calls == [] then (map[], [])
    else
      var (counters, answers) := Shared(p, calls[..|calls| - 1]);
      var (counters', answer) := AllowKey(p, counters, calls[|calls| - 1].key, calls[|calls| - 1].now);
      (counters', answers + [answer])
  }

  // ---- sharing is invisible ----

  /** The shared state about one key, at time `now`, against the key's own limiter: equal, or swept because the
      own limiter's window is over. */
  ghost predicate Agrees(p: Policy, counters: map<Name, Window>, key: Name, own: Window, now: Time) {
    if key in counters then counters[key] == own && own.start > ZERO_TIME
    else own == UNUSED || Expired(p, own, now)
  }

  lemma AgreementSurvives(p: Policy, counters: map<Name, Window>, key: Name, own: Window, other: Name, before: Time,
                          now: Time)
    requires Agrees(p, counters, key, own, before) && before <= now && now > ZERO_TIME
    ensures key != other ==> Agrees(p, AllowKey(p, counters, other, now).0, key, own, now)
    ensures key == other ==> AllowKey(p, counters, key, now).1 == Allow(p, own, now).1
                             && Agrees(p, AllowKey(p, counters, key, now).0, key, Allow(p, own, now).0, now)
  {
  }

  lemma {:induction false} SharedAgrees(p: Policy, calls: seq<Call>, key: Name)
    requires Nondecreasing(Times(calls))
    ensures Agrees(p, Shared(p, calls).0, key, After(p, TimesOf(calls, key)),
                   if calls == [] then ZERO_TIME else calls[|calls| - 1].now)
  {
    if calls != [] {
      var n := |calls| - 1;
      var last := calls[n];
      assert Times(calls)[n] == last.now && Times(calls[..n]) == Times(calls)[..n];
      SharedAgrees(p, calls[..n], key);
      var before := if n == 0 then ZERO_TIME else calls[n - 1].now;
      assert n > 0 ==> Times(calls)[n - 1] <= Times(calls)[n];
      var own := TimesOf(calls[..n], key);
      AgreementSurvives(p, Shared(p, calls[..n]).0, key, After(p, own), last.key, before, last.now);
      if last.key == key {
        assert (own + [last.now])[..|own|] == own;
      } else {
        assert own + [] == own;
      }
    }
  }

  /** The answer to the last call. */
  lemma LastAnswer(p: Policy, calls: seq<Call>)
    requires calls != [] && Nondecreasing(Times(calls))
    ensures var n := |calls| - 1;
            AllowKey(p, Shared(p, calls[..n]).0, calls[n].key, calls[n].now).1
            == Allowed(p, TimesOf(calls[..n], calls[n].key) + [calls[n].now])
  {
    var n := |calls| - 1;
    var last := calls[n];
    assert Times(calls[..n]) == Times(calls)[..n];
    SharedAgrees(p, calls[..n], last.key);
    assert Times(calls)[n] == last.now && (n > 0 ==> Times(calls)[n - 1] <= Times(calls)[n]);
    var own := TimesOf(calls[..n], last.key);
    AgreementSurvives(p, Shared(p, calls[..n]).0, last.key, After(p, own), last.key,
                      if n == 0 then ZERO_TIME else calls[n - 1].now, last.now);
    assert (own + [last.now])[..|own|] == own;
  }

  /** Sweeping all keys on every call changes no answer: the shared limiter answers exactly as one limiter per key. */
  lemma {:induction false} SharingIsInvisible(p: Policy, calls: seq<Call>, i: nat)
    requires Nondecreasing(Times(calls)) && i < |calls|
    ensures |Shared(p, calls).1| == |calls|
    ensures Shared(p, calls).1[i] == Allowed(p, TimesOf(calls[..i], calls[i].key) + [calls[i].now])
  {
    var n := |calls| - 1;
    assert Times(calls[..n]) == Times(calls)[..n];
    if n > 0 {
      SharingIsInvisible(p, calls[..n], if i < n then i else 0);
    }
    if i == n {
      LastAnswer(p, calls);
    } else {
      assert calls[..n][..i] == calls[..i];
    }
  }

  // ---- how much gets through ----

  /** Allowed calls at times in [from, to]. */
  function AllowedWithin(p: Policy, times: seq<Time>, from: Time, to: Time): nat {
    if times == [] then 0
    else
      AllowedWithin(p, times[..|times| - 1], from, to)
      + if from <= times[|times| - 1] <= to && Allowed(p, times) then 1 else 0
  }

  lemma {:induction false} NoneBeyond(p: Policy, times: seq<Time>, from: Time, to: Time)
    requires forall i | 0 <= i < |times| :: times[i] < from
    ensures AllowedWithin(p, times, from, to) == 0
  {
    if times != [] {
      NoneBeyond(p, times[..|times| - 1], from, to);
    }
  }

  /** From any instant on, what has been allowed is covered by the current window, or by it and one full window. */
  lemma {:induction false} WindowsCover(p: Policy, times: seq<Time>, from: Time, to: Time)
    requires p.limit >= 0 && p.window > 0 && Nondecreasing(times)
    requires forall i | 0 <= i < |times| :: times[i] <= to
    ensures var w := After(p, times);
            && 0 <= w.count <= p.limit
            && (times != [] ==> ZERO_TIME < w.start <= times[|times| - 1] < w.start + p.window)
            && (from >= w.start ==> AllowedWithin(p, times, from, to) <= w.count)
            && (from >= w.start - p.window ==> AllowedWithin(p, times, from, to) <= p.limit + w.count)
  {
    if times != [] {
      var n := |times| - 1;
      WindowsCover(p, times[..n], from, to);
      if from >= times[n] && n > 0 && Expired(p, After(p, times[..n]), times[n]) {
        assert times[n - 1] == times[..n][n - 1];
        NoneBeyond(p, times[..n], from, to);
      }
    }
  }

  lemma {:induction false} WindowIsCounted(p: Policy, times: seq<Time>, to: Time)
    requires p.limit >= 0 && p.window > 0 && Nondecreasing(times)
    requires forall i | 0 <= i < |times| :: times[i] <= to
    ensures AllowedWithin(p, times, After(p, times).start, to) == After(p, times).count
  {
    if times != [] {
      var n := |times| - 1;
      var before := After(p, times[..n]);
      WindowIsCounted(p, times[..n], to);
      WindowsCover(p, times[..n], ZERO_TIME, to);
      if n > 0 && Expired(p, before, times[n]) {
        NoneBeyond(p, times[..n], times[n], to);
      }
    }
  }

  /** At most `limit` calls are allowed in each window, and the counter is exactly how many have been. */
  lemma EachWindowHoldsTheLimit(p: Policy, times: seq<Time>)
    requires p.limit >= 0 && p.window > 0 && Nondecreasing(times) && times != []
    ensures var w := After(p, times);
            && w.start <= times[|times| - 1] < w.start + p.window
            && AllowedWithin(p, times, w.start, times[|times| - 1]) == w.count <= p.limit
  {
    WindowIsCounted(p, times, times[|times| - 1]);
    WindowsCover(p, times, ZERO_TIME, times[|times| - 1]);
  }

  /** When the window of the last call began: with the first call at least one window's length after the beginning of
      the one before. */
  function WindowStart(p: Policy, times: seq<Time>): Time
    requires times != []
  {
    var n := |times| - 1;
    if n == 0 then times[0]
    else
      var before := WindowStart(p, times[..n]);
      if times[n] >= before + p.window then times[n] else before
  }

  lemma {:induction false} StartsWithTheWindow(p: Policy, times: seq<Time>)
    requires times != [] && Nondecreasing(times)
    ensures After(p, times).start == WindowStart(p, times) > ZERO_TIME
  {
    var n := |times| - 1;
    if n > 0 {
      StartsWithTheWindow(p, times[..n]);
    }
  }

  /** A call is allowed if and only if fewer than `limit` have been since its window began. */
  lemma AllowedIff(p: Policy, times: seq<Time>)
    requires p.window > 0 && Nondecreasing(times) && times != []
    ensures var n := |times| - 1;
            Allowed(p, times) <==> AllowedWithin(p, times[..n], WindowStart(p, times), times[n]) < p.limit
  {
    var n := |times| - 1;
    var earlier, now := times[..n], times[n];
    StartsWithTheWindow(p, times);
    if p.limit >= 0 {
      WindowIsCounted(p, earlier, now);
      if n > 0 {
        StartsWithTheWindow(p, earlier);
        if now >= WindowStart(p, earlier) + p.window {
          WindowsCover(p, earlier, now, now);
          assert times[n - 1] == earlier[n - 1];
          NoneBeyond(p, earlier, now, now);
        }
      }
    }
  }

  /** No interval of one window's length, both ends included, lets more than twice the limit through. */
  lemma {:induction false} TwiceTheLimit(p: Policy, times: seq<Time>, from: Time)
    requires p.limit >= 0 && p.window > 0 && Nondecreasing(times)
    ensures AllowedWithin(p, times, from, from + p.window) <= 2 * p.limit
  {
    if times != [] {
      var n := |times| - 1;
      if times[n] > from + p.window {
        TwiceTheLimit(p, times[..n], from);
      } else {
        WindowsCover(p, times, from, from + p.window);
      }
    }
  }

  /** The same instant, `count` times. */
  function Burst(at: Time, count: nat): (times: seq<Time>)
    ensures |times| == count && forall i | 0 <= i < count :: times[i] == at
  {
    seq(count, _ => at)
  }

  lemma {:induction false} OneMore(p: Policy, times: seq<Time>, at: Time, from: Time, to: Time)
    requires from <= at <= to && Allow(p, After(p, times), at).1
    ensures After(p, times + [at]) == Allow(p, After(p, times), at).0
    ensures AllowedWithin(p, times + [at], from, to) == AllowedWithin(p, times, from, to) + 1
  {
    assert (times + [at])[..|times|] == times;
  }

  lemma BurstGrows(earlier: seq<Time>, at: Time, count: nat)
    requires count >= 1
    ensures earlier + Burst(at, count) == earlier + Burst(at, count - 1) + [at]
    ensures count == 1 ==> earlier + Burst(at, count - 1) == earlier
  {
  }

  lemma NextOfBurst(p: Policy, w: Window, at: Time, count: nat)
    requires at > ZERO_TIME && p.window > 0 && count < p.limit
    requires w == Window(at, count) || (count == 0 && (w == UNUSED || Expired(p, w, at)))
    ensures Allow(p, w, at) == (Window(at, count + 1), true)
  {
  }

  /** A burst that opens a window fills it. */
  lemma {:induction false} BurstFills(p: Policy, earlier: seq<Time>, at: Time, count: nat, from: Time, to: Time)
    requires at > ZERO_TIME && p.window > 0 && 1 <= count <= p.limit && from <= at <= to
    requires After(p, earlier) == UNUSED || Expired(p, After(p, earlier), at)
    ensures After(p, earlier + Burst(at, count)) == Window(at, count)
    ensures AllowedWithin(p, earlier + Burst(at, count), from, to) == AllowedWithin(p, earlier, from, to) + count
  {
    var before := earlier + Burst(at, count - 1);
    BurstGrows(earlier, at, count);
    if count == 1 {
      NextOfBurst(p, After(p, before), at, 0);
    } else {
      BurstFills(p, earlier, at, count - 1, from, to);
      NextOfBurst(p, After(p, before), at, count - 1);
    }
    OneMore(p, before, at, from, to);
  }

  lemma {:induction false} FirstBurst(p: Policy, start: Time)
    requires p.limit >= 1 && p.window > 0 && start > ZERO_TIME
    ensures After(p, Burst(start, p.limit)) == Window(start, p.limit)
    ensures AllowedWithin(p, Burst(start, p.limit), start, start + p.window) == p.limit
  {
    assert [] + Burst(start, p.limit) == Burst(start, p.limit);
    BurstFills(p, [], start, p.limit, start, start + p.window);
  }

  /** Twice the limit is reached, whatever the limit and the window: a burst at the start of one window and another at
      the first instant after it. */
  lemma TwiceTheLimitIsReached(p: Policy, start: Time)
    requires p.limit >= 1 && p.window > 0 && start > ZERO_TIME
    ensures var times := Burst(start, p.limit) + Burst(start + p.window, p.limit);
            Nondecreasing(times) && AllowedWithin(p, times, start, start + p.window) == 2 * p.limit
  {
    FirstBurst(p, start);
    BurstFills(p, Burst(start, p.limit), start + p.window, p.limit, start, start + p.window);
  }

  /** Allowed calls of one key on the shared limiter, at times in [from, to]. */
  function KeyAllowedWithin(p: Policy, calls: seq<Call>, key: Name, from: Time, to: Time): nat {
    if calls == [] then 0
    else
      var n := |calls| - 1;
      KeyAllowedWithin(p, calls[..n], key, from, to)
      + if calls[n].key == key && from <= calls[n].now <= to
          && AllowKey(p, Shared(p, calls[..n]).0, key, calls[n].now).1
        then 1 else 0
  }

  /** So, for each key, of the shared limiter. */
  lemma SharedAllowedIff(p: Policy, calls: seq<Call>, i: nat)
    requires p.window > 0 && Nondecreasing(Times(calls)) && i < |calls|
    ensures |Shared(p, calls).1| == |calls|
    ensures var key, now, earlier := calls[i].key, calls[i].now, calls[..i];
            Shared(p, calls).1[i]
            <==> KeyAllowedWithin(p, earlier, key, WindowStart(p, TimesOf(earlier, key) + [now]), now) < p.limit
  {
    var key, now, earlier := calls[i].key, calls[i].now, calls[..i];
    var own := TimesOf(earlier, key) + [now];
    SharingIsInvisible(p, calls, i);
    assert Times(earlier) == Times(calls)[..i] && Times(calls[..i + 1]) == Times(calls)[..i + 1];
    TimesOfAreNondecreasing(calls[..i + 1], key);
    assert calls[..i + 1][..i] == earlier;
    assert own == TimesOf(calls[..i + 1], key);
    assert own[..|own| - 1] == TimesOf(earlier, key);
    AllowedIff(p, own);
    KeyCountsAgree(p, earlier, key, WindowStart(p, own), now);
  }

  lemma {:induction false} TimesOfAreNondecreasing(calls: seq<Call>, key: Name)
    requires Nondecreasing(Times(calls))
    ensures Nondecreasing(TimesOf(calls, key))
    ensures forall i | 0 <= i < |TimesOf(calls, key)| :: TimesOf(calls, key)[i] <= Times(calls)[|calls| - 1]
  {
    if calls != [] {
      var n := |calls| - 1;
      assert Times(calls[..n]) == Times(calls)[..n];
      TimesOfAreNondecreasing(calls[..n], key);
      assert n > 0 ==> Times(calls)[n - 1] <= Times(calls)[n];
      assert Times(calls)[n] == calls[n].now;
    }
  }

  lemma {:induction false} KeyCountsAgree(p: Policy, calls: seq<Call>, key: Name, from: Time, to: Time)
    requires Nondecreasing(Times(calls))
    ensures KeyAllowedWithin(p, calls, key, from, to) == AllowedWithin(p, TimesOf(calls, key), from, to)
  {
    if calls != [] {
      var n := |calls| - 1;
      var own := TimesOf(calls[..n], key);
      assert Times(calls[..n]) == Times(calls)[..n];
      KeyCountsAgree(p, calls[..n], key, from, to);
      if calls[n].key == key {
        SharedAgrees(p, calls[..n], key);
        assert Times(calls)[n] == calls[n].now && (n > 0 ==> Times(calls)[n - 1] <= Times(calls)[n]);
        AgreementSurvives(p, Shared(p, calls[..n]).0, key, After(p, own), key,
                          if n == 0 then ZERO_TIME else calls[n - 1].now, calls[n].now);
        assert (own + [calls[n].now])[..|own|] == own;
      } else {
        assert own + [] == own;
      }
    }
  }

  /** Each key separately is held to twice the limit in any interval of one window's length. */
  lemma SharedTwiceTheLimit(p: Policy, calls: seq<Call>, key: Name, from: Time)
    requires p.limit >= 0 && p.window > 0 && Nondecreasing(Times(calls))
    ensures KeyAllowedWithin(p, calls, key, from, from + p.window) <= 2 * p.limit
  {
    KeyCountsAgree(p, calls, key, from, from + p.window);
    TimesOfAreNondecreasing(calls, key);
    TwiceTheLimit(p, TimesOf(calls, key), from);
  }

  // ---- the code ----

  class FixedWindowLimiter {
    const limit: int
    const window: Duration
    var start: Time
    var count: int

    function State(): Window
      reads this
    {
      Window(start, count)
    }

    constructor (limit: int, window: Duration)
      ensures this.limit == limit && this.window == window && State() == UNUSED
    {
      this.limit, this.window, start, count := limit, window, ZERO_TIME, 0;
    }

    method AllowNow(now: Time) returns (allowed: bool)
      modifies this
      ensures (State(), allowed) == Allow(Policy(limit, window), old(State()), now)
    {
      if start == ZERO_TIME || now >= start + window {
        start := now;
        count := 0;
      }
      if count >= limit { return false; }
      count := count + 1;
      return true;
    }
  }

  class KeyedFixedWindowLimiter {
    const limit: int
    const window: Duration
    var counters: map<Name, Window>

    constructor (limit: int, window: Duration)
      ensures this.limit == limit && this.window == window && counters == map[]
    {
      this.limit, this.window, counters := limit, window, map[];
    }

    method AllowNow(key: Name, now: Time) returns (allowed: bool)
      modifies this
      ensures (counters, allowed) == AllowKey(Policy(limit, window), old(counters), key, now)
    {
      ghost var p := Policy(limit, window);
      var toVisit := counters.Keys;
      while toVisit != {}
        invariant toVisit <= counters.Keys
        invariant counters == map k | k in old(counters) && (k in toVisit || !Expired(p, old(counters)[k], now)) ::
            old(counters)[k]
        decreases toVisit
      {
        var existing :| existing in toVisit;
        if now >= counters[existing].start + window {
          counters := counters - {existing};
        }
        toVisit := toVisit - {existing};
      }
      assert counters == Swept(p, old(counters), now);
      var counter := if key in counters then counters[key] else UNUSED;
      if counter.start == ZERO_TIME {
        counter := counter.(start := now);
      }
      if counter.count >= limit {
        counters := counters[key := counter];
        return false;
      }
      counters := counters[key := counter.(count := counter.count + 1)];
      return true;
    }
  }
}
