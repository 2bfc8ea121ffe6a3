/** How far apart keyframes are (the last paragraph of docs/ascii-frame-protocol.md against
    internal/client/asciivideo/codec.go). */
module Cadence {
  import opened Bytes
  import opened Clock
  import opened Frame
  import opened Codec
  import opened Stream
  import Delta

  /** The promise: a keyframe at least every `interval`. */
  ghost predicate KeyframesWithin(sent: seq<Sent>, interval: Duration) {
    forall k | 0 < k < |sent| && IsKey(sent[k]) :: LastKey(sent[..k]) != -1 && SinceKey(sent, k) <= interval
  }

  /** How old the latest keyframe is when frame `i` goes out. */
  function SinceKey(sent: seq<Sent>, i: nat): Duration
    requires i < |sent| && LastKey(sent[..i]) != -1
  {
    sent[i].at - sent[LastKey(sent[..i])].at
  }

  lemma FirstIsKey(e: EncoderState, sent: seq<Sent>, i: nat)
    requires KeysInTime(e, sent) && 0 < i <= |sent|
    ensures LastKey(sent[..i]) != -1
  {
    var init, last := sent[..i - 1], sent[i - 1];
    assert sent[..i][..i - 1] == init;
    assert FollowsAKey(sent, e.keyInterval, i - 1);
  }

  /** Two keyframes in a row are as far apart as their captures. Otherwise the distance is less than the interval and
      the pause before the later one together. */
  lemma {:induction false} KeyframeDistance(
      columns: int, rows: int, keyInterval: Duration, events: seq<Event>, k: nat)
    requires ValidDimensions(columns, rows)
    requires var sent := Transmit(InitialEncoder(columns, rows, keyInterval), events).1;
             0 < k < |sent| && IsKey(sent[k])
    ensures var (e, sent) := Transmit(InitialEncoder(columns, rows, keyInterval), events);
            var j, gap := LastKey(sent[..k]), sent[k].at - sent[k - 1].at;
            && j != -1
            && (j == k - 1 ==> SinceKey(sent, k) == gap)
            && (j < k - 1 ==> SinceKey(sent, k) < e.keyInterval + gap)
  {
    KeyframesAreFrequent(columns, rows, keyInterval, events);
    var (e, sent) := Transmit(InitialEncoder(columns, rows, keyInterval), events);
    GapBound(e, sent, k);
  }

  lemma GapBound(e: EncoderState, sent: seq<Sent>, k: nat)
    requires KeysInTime(e, sent) && 0 < k < |sent|
    ensures var j, gap := LastKey(sent[..k]), sent[k].at - sent[k - 1].at;
            && j != -1
            && (j == k - 1 ==> SinceKey(sent, k) == gap)
            && (j < k - 1 ==> SinceKey(sent, k) < e.keyInterval + gap)
  {
    FirstIsKey(e, sent, k);
    assert sent[..k][..k - 1] == sent[..k - 1];
    assert FollowsAKey(sent, e.keyInterval, k - 1);
  }

  /** The promise is kept over a run if and only if no picture is captured later than one interval after the latest
      keyframe: a later one is always a keyframe, and a keyframe too late. */
  lemma {:induction false} KeyframesWithinIff(columns: int, rows: int, keyInterval: Duration, events: seq<Event>)
    requires ValidDimensions(columns, rows)
    ensures var (e, sent) := Transmit(InitialEncoder(columns, rows, keyInterval), events);
            KeyframesWithin(sent, e.keyInterval)
            <==> forall i | 0 < i < |sent| :: LastKey(sent[..i]) != -1 && SinceKey(sent, i) <= e.keyInterval
  {
    KeyframesAreFrequent(columns, rows, keyInterval, events);
    var (e, sent) := Transmit(InitialEncoder(columns, rows, keyInterval), events);
    forall i | 0 < i < |sent|
      ensures LastKey(sent[..i]) != -1
      ensures !IsKey(sent[i]) ==> SinceKey(sent, i) < e.keyInterval
    {
      FirstIsKey(e, sent, i);
      assert FollowsAKey(sent, e.keyInterval, i);
    }
  }

  // ---- a camera with a steady rate ----

  /** The first number of periods that fills the interval. */
  function Stride(interval: Duration, period: Duration): (stride: nat)
    requires interval > 0 && period > 0
    ensures stride > 0 && (stride - 1) * period < interval <= stride * period
  {
    (interval - 1) / period + 1
  }

  lemma StrideReached(interval: Duration, period: Duration, r: nat)
    requires interval > 0 && period > 0
    ensures r * period >= interval <==> r >= Stride(interval, period)
  {
    var stride := Stride(interval, period);
    Between(r, stride - 1, period);
    Between(r, stride, period);
  }

  lemma StrideIsExact(interval: Duration, period: Duration)
    requires interval > 0 && period > 0
    ensures Stride(interval, period) * period == interval <==> interval % period == 0
  {
    var q := interval / period;
    if interval % period == 0 {
      assert interval == q * period;
      Between(q, Stride(interval, period), period);
    } else if Stride(interval, period) * period == interval {
      Between(q, Stride(interval, period), period);
    }
  }

  /** Multiples of a period are ordered as their factors. */
  lemma Between(a: int, b: int, period: int)
    requires period > 0
    ensures a < b ==> (a + 1) * period <= b * period && a * period < b * period
    ensures b < a ==> (b + 1) * period <= a * period && b * period < a * period
  {
  }

  /** The time of the `n`-th capture. */
  function Tick(start: Time, period: Duration, n: nat): Time {
    if n == 0 then start else Tick(start, period, n - 1) + period
  }

  lemma {:induction false} TicksApart(start: Time, period: Duration, n: nat, r: nat)
    requires r <= n
    ensures Tick(start, period, n) - Tick(start, period, n - r) == r * period
  {
    if r > 0 {
      TicksApart(start, period, n, r - 1);
      assert r * period == (r - 1) * period + period;
    }
  }

  /** One capture each period, and nothing else. */
  function Steady(pictures: seq<seq<Byte>>, start: Time, period: Duration): (events: seq<Event>)
    ensures |events| == |pictures|
  {
    if pictures == [] then []
    else
      var n := |pictures| - 1;
      Steady(pictures[..n], start, period) + [Capture(pictures[n], Tick(start, period, n), ZERO_TIME)]
  }

  /** Pictures an encoder of this size accepts, each cheaper to send as a delta. */
  ghost predicate Gradual(pictures: seq<seq<Byte>>, cellCount: int) {
    && (forall i | 0 <= i < |pictures| :: |pictures[i]| == cellCount && AllPrintable(pictures[i]))
    && (forall i | 0 < i < |pictures| :: |Delta.Payload(pictures[i - 1], pictures[i])| < cellCount)
  }

  /** How many frames ago the latest keyframe was, when every `stride`-th is one: frame `n` itself not counted. */
  function Age(n: nat, stride: nat): (age: nat)
    requires n > 0 && stride > 0
    ensures 0 < age <= stride && age <= n
  {
    if n == 1 || Age(n - 1, stride) == stride then 1 else Age(n - 1, stride) + 1
  }

  ghost predicate SteadyFrame(s: Sent, i: nat, cells: seq<Byte>, start: Time, period: Duration, stride: nat)
    requires stride > 0
  {
    && s.cells == cells && s.at == Tick(start, period, i)
    && (IsKey(s) <==> i == 0 || Age(i, stride) == stride)
  }

  /** The frames of a steady camera: one a period, and every `stride`-th a keyframe. */
  ghost predicate SteadyFrames(
    sent: seq<Sent>, pictures: seq<seq<Byte>>, start: Time, period: Duration, stride: nat)
    requires stride > 0
  {
    && |sent| == |pictures|
    && forall i | 0 <= i < |sent| :: SteadyFrame(sent[i], i, pictures[i], start, period, stride)
  }

  /** The encoder between two periods. */
  ghost predicate SteadyEncoder(e: EncoderState, n: nat, start: Time, period: Duration, stride: nat)
    requires stride > 0
  {
    e.forceKey == (n == 0) && (n > 0 ==> e.lastKeyframe == Tick(start, period, n - Age(n, stride)))
  }

  /** The next capture is a keyframe exactly when a stride is complete. */
  lemma KeyIsDue(e: EncoderState, n: nat, start: Time, period: Duration, cells: seq<Byte>)
    requires e.keyInterval > 0 && period > 0 && n > 0
    requires SteadyEncoder(e, n, start, period, Stride(e.keyInterval, period))
    requires e.previous != [] && |Delta.Payload(e.previous, cells)| < |cells|
    ensures var stride := Stride(e.keyInterval, period);
            NeedsKey(e, cells, Tick(start, period, n)) <==> Age(n, stride) == stride
  {
    var stride := Stride(e.keyInterval, period);
    TicksApart(start, period, n, Age(n, stride));
    StrideReached(e.keyInterval, period, Age(n, stride));
  }

  lemma {:induction false} TickIsSet(start: Time, period: Duration, n: nat)
    requires start > ZERO_TIME && period > 0
    ensures Tick(start, period, n) > ZERO_TIME
  {
    if n > 0 {
      TickIsSet(start, period, n - 1);
    }
  }

  /** The encoder at the next capture. */
  lemma {:induction false} SteadyCapture(
      e: EncoderState, n: nat, cells: seq<Byte>, start: Time, period: Duration, stride: nat)
    requires e.Valid() && period > 0 && start > ZERO_TIME && stride == Stride(e.keyInterval, period)
    requires |cells| == e.columns * e.rows && AllPrintable(cells)
    requires SteadyEncoder(e, n, start, period, stride)
    requires n > 0 ==> e.previous != [] && |Delta.Payload(e.previous, cells)| < |cells|
    ensures var at := Tick(start, period, n);
            var (e', r) := EncodeStep(e, cells, at, ZERO_TIME);
            && r.Ok? && e'.keyInterval == e.keyInterval
            && SteadyEncoder(e', n + 1, start, period, stride)
            && (Outgoing(e, cells, at).frameType == FRAME_KEY <==> n == 0 || Age(n, stride) == stride)
  {
    EncodeMakesAFrame(e, cells, Tick(start, period, n), ZERO_TIME);
    TickIsSet(start, period, n);
    if n > 0 {
      KeyIsDue(e, n, start, period, cells);
    }
  }

  lemma SteadyExtends(sent: seq<Sent>, s: Sent, pictures: seq<seq<Byte>>, start: Time, period: Duration, stride: nat)
    requires stride > 0 && pictures != []
    requires SteadyFrames(sent, pictures[..|pictures| - 1], start, period, stride)
    requires SteadyFrame(s, |pictures| - 1, pictures[|pictures| - 1], start, period, stride)
    ensures SteadyFrames(sent + [s], pictures, start, period, stride)
  {
    var earlier := pictures[..|pictures| - 1];
    assert forall i | 0 <= i < |sent| :: pictures[i] == earlier[i];
  }

  /** One more period. */
  lemma SteadyStep(
      e: EncoderState, sent: seq<Sent>, pictures: seq<seq<Byte>>, start: Time, period: Duration, stride: nat)
    requires InStep(e, sent) && period > 0 && start > ZERO_TIME && stride == Stride(e.keyInterval, period)
    requires pictures != [] && Gradual(pictures, e.columns * e.rows)
    requires SteadyEncoder(e, |pictures| - 1, start, period, stride)
    requires SteadyFrames(sent, pictures[..|pictures| - 1], start, period, stride)
    ensures var n := |pictures| - 1;
            var at := Tick(start, period, n);
            var (e', r) := EncodeStep(e, pictures[n], at, ZERO_TIME);
            && r.Ok? && e'.keyInterval == e.keyInterval && at != ZERO_TIME
            && SteadyEncoder(e', |pictures|, start, period, stride)
            && SteadyFrames(sent + [Framed(e, pictures[n], at, r.value)], pictures, start, period, stride)
  {
    var n := |pictures| - 1;
    var at := Tick(start, period, n);
    CellCount(e.columns, e.rows);
    if n > 0 {
      assert SteadyFrame(sent[n - 1], n - 1, pictures[n - 1], start, period, stride);
    }
    SteadyCapture(e, n, pictures[n], start, period, stride);
    TickIsSet(start, period, n);
    var r := EncodeStep(e, pictures[n], at, ZERO_TIME).1;
    SteadyExtends(sent, Framed(e, pictures[n], at, r.value), pictures, start, period, stride);
  }

  lemma {:induction false} TransmitAnother(e: EncoderState, events: seq<Event>, cells: seq<Byte>, at: Time)
    requires at != ZERO_TIME && EncodeStep(Transmit(e, events).0, cells, at, ZERO_TIME).1.Ok?
    ensures var (before, sent) := Transmit(e, events);
            var (after, r) := EncodeStep(before, cells, at, ZERO_TIME);
            Transmit(e, events + [Capture(cells, at, ZERO_TIME)])
            == (after, sent + [Framed(before, cells, at, r.value)])
  {
    assert (events + [Capture(cells, at, ZERO_TIME)])[..|events|] == events;
  }

  ghost predicate SteadyState(e: EncoderState, sent: seq<Sent>, keyInterval: Duration, pictures: seq<seq<Byte>>,
                              start: Time, period: Duration)
    requires keyInterval > 0 && period > 0
  {
    && e.keyInterval == keyInterval
    && SteadyEncoder(e, |pictures|, start, period, Stride(keyInterval, period))
    && SteadyFrames(sent, pictures, start, period, Stride(keyInterval, period))
  }

  /** A steady camera sends every picture, and as a keyframe exactly each time the number of periods that first fills
      the interval has gone by. */
  lemma {:induction false} SteadyRun(columns: int, rows: int, keyInterval: Duration, pictures: seq<seq<Byte>>,
                                     start: Time, period: Duration)
    requires ValidDimensions(columns, rows) && keyInterval > 0 && period > 0 && start > ZERO_TIME
    requires Gradual(pictures, columns * rows)
    ensures var (e, sent) := Transmit(InitialEncoder(columns, rows, keyInterval), Steady(pictures, start, period));
            SteadyState(e, sent, keyInterval, pictures, start, period)
  {
    if pictures != [] {
      var n := |pictures| - 1;
      var earlier := Steady(pictures[..n], start, period);
      SteadyRun(columns, rows, keyInterval, pictures[..n], start, period);
      TransmitIsSound(columns, rows, keyInterval, earlier);
      var (e, sent) := Transmit(InitialEncoder(columns, rows, keyInterval), earlier);
      SteadyStep(e, sent, pictures, start, period, Stride(keyInterval, period));
      TransmitAnother(InitialEncoder(columns, rows, keyInterval), earlier, pictures[n], Tick(start, period, n));
    }
  }

  lemma {:induction false} SteadyLastKey(
      sent: seq<Sent>, pictures: seq<seq<Byte>>, start: Time, period: Duration, stride: nat, i: nat)
    requires stride > 0 && SteadyFrames(sent, pictures, start, period, stride) && 0 < i <= |sent|
    ensures LastKey(sent[..i]) == i - Age(i, stride)
  {
    assert sent[..i][..i - 1] == sent[..i - 1];
    assert SteadyFrame(sent[i - 1], i - 1, pictures[i - 1], start, period, stride);
    if i > 1 {
      SteadyLastKey(sent, pictures, start, period, stride, i - 1);
    }
  }

  /** Keyframes come exactly one stride apart. */
  ghost predicate KeyEvery(sent: seq<Sent>, period: Duration, stride: nat) {
    forall i | 0 < i < |sent| :: KeyEveryAt(sent, period, stride, i)
  }

  ghost predicate KeyEveryAt(sent: seq<Sent>, period: Duration, stride: nat, i: nat)
    requires 0 < i < |sent|
  {
    var j := LastKey(sent[..i]);
    && j != -1 && i - j <= stride
    && (IsKey(sent[i]) <==> i - j == stride)
    && SinceKey(sent, i) == (i - j) * period
  }

  lemma SteadyKeys(
      sent: seq<Sent>, pictures: seq<seq<Byte>>, start: Time, period: Duration, stride: nat)
    requires stride > 0 && SteadyFrames(sent, pictures, start, period, stride)
    ensures KeyEvery(sent, period, stride)
  {
    forall i | 0 < i < |sent| ensures KeyEveryAt(sent, period, stride, i) {
      var j := i - Age(i, stride);
      SteadyLastKey(sent, pictures, start, period, stride, i);
      TicksApart(start, period, i, Age(i, stride));
      assert SteadyFrame(sent[i], i, pictures[i], start, period, stride);
      assert SteadyFrame(sent[j], j, pictures[j], start, period, stride);
    }
  }

  /** One stride after the first frame, and not before, there is a second keyframe. */
  lemma {:induction false} SecondKey(sent: seq<Sent>, period: Duration, stride: nat, i: nat)
    requires stride > 0 && KeyEvery(sent, period, stride) && 0 < i < |sent| && i <= stride
    ensures LastKey(sent[..i]) == 0
    ensures IsKey(sent[i]) <==> i == stride
  {
    assert KeyEveryAt(sent, period, stride, i);
    if i > 1 {
      SecondKey(sent, period, stride, i - 1);
      assert sent[..i][..i - 1] == sent[..i - 1];
    }
  }

  lemma KeyEveryWithinIff(sent: seq<Sent>, interval: Duration, period: Duration)
    requires interval > 0 && period > 0 && KeyEvery(sent, period, Stride(interval, period))
    ensures KeyframesWithin(sent, interval) <==> |sent| <= Stride(interval, period) || interval % period == 0
  {
    var stride := Stride(interval, period);
    StrideIsExact(interval, period);
    forall i | 0 < i < |sent| && IsKey(sent[i])
      ensures LastKey(sent[..i]) != -1 && SinceKey(sent, i) == stride * period && i >= stride
    {
      assert KeyEveryAt(sent, period, stride, i);
    }
    if |sent| > stride {
      SecondKey(sent, period, stride, stride);
    }
  }

  /** The keyframes of a steady camera come exactly one stride apart, and the promise is kept if and only if the
      period divides the interval, or the run ends before a second keyframe. */
  lemma {:induction false} SteadyKeyframesWithinIff(columns: int, rows: int, keyInterval: Duration,
                                                    pictures: seq<seq<Byte>>, start: Time, period: Duration)
    requires ValidDimensions(columns, rows) && keyInterval > 0 && period > 0 && start > ZERO_TIME
    requires Gradual(pictures, columns * rows)
    ensures var sent := Transmit(InitialEncoder(columns, rows, keyInterval), Steady(pictures, start, period)).1;
            && |sent| == |pictures|
            && KeyEvery(sent, period, Stride(keyInterval, period))
            && (KeyframesWithin(sent, keyInterval)
                <==> |pictures| <= Stride(keyInterval, period) || keyInterval % period == 0)
  {
    SteadyRun(columns, rows, keyInterval, pictures, start, period);
    var sent := Transmit(InitialEncoder(columns, rows, keyInterval), Steady(pictures, start, period)).1;
    SteadyKeys(sent, pictures, start, period, Stride(keyInterval, period));
    KeyEveryWithinIff(sent, keyInterval, period);
  }

  lemma {:induction false} SameRuns(cells: seq<Byte>, index: nat)
    requires index <= |cells|
    ensures Delta.Runs(cells, cells, index) == []
    decreases |cells| - index
  {
    if index < |cells| {
      SameRuns(cells, index + 1);
    }
  }

  /** An instance: a camera that takes a picture every one and a half seconds. With the default interval of two its
      third frame is the second keyframe, three seconds after the first. */
  lemma PromiseBroken(columns: int, rows: int, cells: seq<Byte>)
    requires ValidDimensions(columns, rows) && |cells| == columns * rows && AllPrintable(cells)
    ensures var sent := Transmit(InitialEncoder(columns, rows, 0), Steady([cells, cells, cells], 1, 1_500_000_000)).1;
            && |sent| == 3 && IsKey(sent[2]) && LastKey(sent[..2]) == 0
            && SinceKey(sent, 2) == 3_000_000_000
            && !KeyframesWithin(sent, 2_000_000_000)
  {
    var pictures, period := [cells, cells, cells], 1_500_000_000;
    CellCount(columns, rows);
    SameRuns(cells, 0);
    assert InitialEncoder(columns, rows, 0) == InitialEncoder(columns, rows, DEFAULT_KEY_INTERVAL);
    SteadyKeyframesWithinIff(columns, rows, DEFAULT_KEY_INTERVAL, pictures, 1, period);
    var sent := Transmit(InitialEncoder(columns, rows, 0), Steady(pictures, 1, period)).1;
    SecondKey(sent, period, 2, 2);
    assert KeyEveryAt(sent, period, 2, 2);
  }
}
