/** One encoder, a lossy unordered channel, one decoder: what the frames mean over whole runs. */
module Stream {
  import opened Bytes
  import opened Clock
  import opened Frame
  import opened Codec
  import Delta

  /** What happens at the sender: a picture is captured, or the peer has asked for a keyframe. */
  datatype Event =
    | Capture(cells: seq<Byte>, timestamp: Time, wallClock: Time)
    | ForceKeyframe

  /** A frame put on the channel: its bytes, the packet they encode, the picture it stands for and its time. */
  datatype Sent = Sent(data: seq<Byte>, packet: Packet, cells: seq<Byte>, at: Time)

  function Framed(e: EncoderState, cells: seq<Byte>, now: Time, data: seq<Byte>): Sent {
    Sent(data, Outgoing(e, cells, now), cells, now)
  }

  /** The encoder after `events`, and the frames its successful Encode calls produced. */
  function Transmit(e: EncoderState, events: seq<Event>): (EncoderState, seq<Sent>) {
    if events == [] then (e, [])
    else
      var (before, sent) := Transmit(e, events[..|events| - 1]);
      match events[|events| - 1]
      case ForceKeyframe => (before.(forceKey := true), sent)
      case Capture(cells, timestamp, wallClock) =>
        var (after, r) := EncodeStep(before, cells, timestamp, wallClock);
        match r
        case Err(_) => (after, sent)
        case Ok(data) => (after, sent + [Framed(before, cells, Moment(timestamp, wallClock), data)])
  }

  /** The decoder after the channel delivered the frames numbered `deliveries`, and each call's result.
      Loss, duplication and reordering are all just choices of `deliveries`. */
  function Receive(d: DecoderState, sent: seq<Sent>, deliveries: seq<nat>): (DecoderState, seq<Result<Picture>>)
    requires forall k | 0 <= k < |deliveries| :: deliveries[k] < |sent|
  {
    if deliveries == [] then (d, [])
    else
      var last := |deliveries| - 1;
      var (before, results) := Receive(d, sent, deliveries[..last]);
      var (after, r) := DecodeStep(before, sent[deliveries[last]].data);
      (after, results + [r])
  }

  predicate IsKey(sent: Sent) {
    sent.packet.frameType == FRAME_KEY
  }

  /** The picture a receiver must see when frame `i` decodes. */
  function Truth(columns: int, rows: int, sent: seq<Sent>, i: nat): Picture
    requires i < |sent| < 0x1_0000_0000
  {
    Picture(sent[i].packet.frameType, i + 1, sent[i].packet.millis, columns, rows, sent[i].cells)
  }

  /** What frame `i` contains: its own cells, or the delta from frame `i - 1`. */
  ghost predicate FrameSound(columns: int, rows: int, sent: seq<Sent>, i: nat)
    requires i < |sent|
  {
    var Sent(_, p, cells, _) := sent[i];
    && |cells| == columns * rows
    && AllPrintable(cells)
    && (p.sequence, p.columns, p.rows) == ((i + 1) % 0x1_0000_0000, columns, rows)
    && if p.frameType == FRAME_KEY then p.payload == cells
       else i > 0 && p.frameType == FRAME_DELTA && p.payload == Delta.Payload(sent[i - 1].cells, cells)
  }

  /** The bytes of every frame read back as its packet. */
  ghost predicate Readable(s: Sent) {
    Unmarshal(s.data) == Ok(s.packet)
  }

  ghost predicate StreamReadable(sent: seq<Sent>) {
    forall i | 0 <= i < |sent| :: Readable(sent[i])
  }

  ghost predicate StreamSound(columns: int, rows: int, sent: seq<Sent>) {
    forall i | 0 <= i < |sent| :: FrameSound(columns, rows, sent, i)
  }

  /** The encoder's memory is the last frame it sent. */
  ghost predicate InStep(e: EncoderState, sent: seq<Sent>) {
    && e.Valid()
    && e.sequence == |sent| % 0x1_0000_0000
    && e.previous == if sent == [] then [] else sent[|sent| - 1].cells
  }

  /** One captured picture extends the stream by one sound frame. */
  lemma CaptureIsSound(e: EncoderState, sent: seq<Sent>, cells: seq<Byte>, timestamp: Time, wallClock: Time)
    requires InStep(e, sent) && StreamSound(e.columns, e.rows, sent)
    requires EncodeStep(e, cells, timestamp, wallClock).1.Ok?
    ensures var (e', r) := EncodeStep(e, cells, timestamp, wallClock);
            var sent' := sent + [Framed(e, cells, Moment(timestamp, wallClock), r.value)];
            && InStep(e', sent') && (e'.columns, e'.rows) == (e.columns, e.rows)
            && StreamSound(e.columns, e.rows, sent') && Readable(sent'[|sent|])
  {
    EncodeMakesAFrame(e, cells, timestamp, wallClock);
    var data := EncodeStep(e, cells, timestamp, wallClock).1.value;
    var s := Framed(e, cells, Moment(timestamp, wallClock), data);
    OutgoingIsSound(e, sent, s, Moment(timestamp, wallClock));
    ExtendSound(e.columns, e.rows, sent, s);
  }

  lemma OutgoingIsSound(e: EncoderState, sent: seq<Sent>, s: Sent, now: Time)
    requires InStep(e, sent)
    requires |s.cells| == e.columns * e.rows && AllPrintable(s.cells)
    requires s.packet == Outgoing(e, s.cells, now)
    ensures FrameSound(e.columns, e.rows, sent + [s], |sent|)
  {
  }

  lemma {:induction false} TransmitIsSound(columns: int, rows: int, keyInterval: Duration, events: seq<Event>)
    requires ValidDimensions(columns, rows)
    ensures var (e, sent) := Transmit(InitialEncoder(columns, rows, keyInterval), events);
            && InStep(e, sent) && (e.columns, e.rows) == (columns, rows)
            && StreamSound(columns, rows, sent) && StreamReadable(sent)
  {
    if events != [] {
      TransmitIsSound(columns, rows, keyInterval, events[..|events| - 1]);
      var (before, sent) := Transmit(InitialEncoder(columns, rows, keyInterval), events[..|events| - 1]);
      match events[|events| - 1]
      case ForceKeyframe =>
      case Capture(cells, timestamp, wallClock) =>
        if EncodeStep(before, cells, timestamp, wallClock).1.Ok? {
          CaptureIsSound(before, sent, cells, timestamp, wallClock);
        } else {
          EncodeMakesAFrame(before, cells, timestamp, wallClock);
        }
    }
  }

  lemma ExtendSound(columns: int, rows: int, sent: seq<Sent>, s: Sent)
    requires StreamSound(columns, rows, sent)
    requires FrameSound(columns, rows, sent + [s], |sent|)
    ensures StreamSound(columns, rows, sent + [s])
  {
    forall i | 0 <= i < |sent| + 1 ensures FrameSound(columns, rows, sent + [s], i) {
      if i < |sent| {
        assert FrameSound(columns, rows, sent, i);
      }
    }
  }

  /** The decoder holds frame `last`, or nothing yet (-1). */
  ghost predicate Holds(d: DecoderState, columns: int, rows: int, sent: seq<Sent>, last: int)
    requires |sent| < 0x1_0000_0000
  {
    && -1 <= last < |sent|
    && d == if last == -1 then FRESH_DECODER else DecoderState(columns, rows, last + 1, sent[last].cells)
  }

  lemma AbsorbOne(d: DecoderState, columns: int, rows: int, sent: seq<Sent>, last: int, i: nat)
    requires ValidDimensions(columns, rows) && StreamSound(columns, rows, sent)
    requires i < |sent| < 0x1_0000_0000
    requires Holds(d, columns, rows, sent, last)
    ensures var (d', r) := Absorb(d, sent[i].packet);
            if Decodes(sent, last, i)
            then r == Ok(Truth(columns, rows, sent, i)) && Holds(d', columns, rows, sent, i)
            else r == Err(NeedsKeyframe) && d' == d
  {
    var p := sent[i].packet;
    assert FrameSound(columns, rows, sent, i);
    if IsKey(sent[i]) {
      AbsorbKey(d, p);
    } else if last == -1 {
      assert d.columns != p.columns;
    } else {
      assert FrameSound(columns, rows, sent, last);
      assert p.sequence == Next(d.sequence) <==> i == last + 1;
      if i == last + 1 {
        CellCount(columns, rows);
        AbsorbDelta(d, p, sent[i].cells);
      }
    }
  }

  /** One delivery: frame `i` decodes to the truth exactly when it is a keyframe or the successor of the frame
      held; otherwise the decoder asks for a keyframe and does not move. */
  lemma DeliverOne(d: DecoderState, columns: int, rows: int, sent: seq<Sent>, last: int, i: nat)
    requires ValidDimensions(columns, rows) && StreamSound(columns, rows, sent) && StreamReadable(sent)
    requires i < |sent| < 0x1_0000_0000
    requires Holds(d, columns, rows, sent, last)
    ensures var (d', r) := DecodeStep(d, sent[i].data);
            if Decodes(sent, last, i)
            then r == Ok(Truth(columns, rows, sent, i)) && Holds(d', columns, rows, sent, i)
            else r == Err(NeedsKeyframe) && d' == d
  {
    assert Readable(sent[i]);
    AbsorbOne(d, columns, rows, sent, last, i);
  }

  /** The frame the decoder holds after `deliveries`: the last one that decoded. */
  function Held(sent: seq<Sent>, deliveries: seq<nat>): (held: int)
    requires forall k | 0 <= k < |deliveries| :: deliveries[k] < |sent|
    ensures -1 <= held < |sent|
  {
    if deliveries == [] then -1
    else
      var k := |deliveries| - 1;
      var held := Held(sent, deliveries[..k]);
      if Decodes(sent, held, deliveries[k]) then deliveries[k] else held
  }

  predicate Decodes(sent: seq<Sent>, held: int, i: nat)
    requires i < |sent|
  {
    IsKey(sent[i]) || (held != -1 && i == held + 1)
  }

  /** What the call for delivery `k` must return. */
  function Expected(columns: int, rows: int, sent: seq<Sent>, deliveries: seq<nat>, k: nat): Result<Picture>
    requires k < |deliveries| && |sent| < 0x1_0000_0000
    requires forall j | 0 <= j < |deliveries| :: deliveries[j] < |sent|
  {
    if Decodes(sent, Held(sent, deliveries[..k]), deliveries[k])
    then Ok(Truth(columns, rows, sent, deliveries[k]))
    else Err(NeedsKeyframe)
  }

  lemma ExpectedOfPrefix(columns: int, rows: int, sent: seq<Sent>, deliveries: seq<nat>, n: nat, k: nat)
    requires k < n <= |deliveries| && |sent| < 0x1_0000_0000
    requires forall j | 0 <= j < |deliveries| :: deliveries[j] < |sent|
    ensures Expected(columns, rows, sent, deliveries[..n], k) == Expected(columns, rows, sent, deliveries, k)
  {
    assert deliveries[..n][..k] == deliveries[..k];
  }

  ghost predicate AllExpected(columns: int, rows: int, sent: seq<Sent>, deliveries: seq<nat>,
                              results: seq<Result<Picture>>)
    requires |sent| < 0x1_0000_0000
    requires forall j | 0 <= j < |deliveries| :: deliveries[j] < |sent|
  {
    && |results| == |deliveries|
    && forall k | 0 <= k < |deliveries| :: results[k] == Expected(columns, rows, sent, deliveries, k)
  }

  lemma ExtendExpected(columns: int, rows: int, sent: seq<Sent>, deliveries: seq<nat>, results: seq<Result<Picture>>,
                       r: Result<Picture>)
    requires |sent| < 0x1_0000_0000 && deliveries != []
    requires forall j | 0 <= j < |deliveries| :: deliveries[j] < |sent|
    requires AllExpected(columns, rows, sent, deliveries[..|deliveries| - 1], results)
    requires r == Expected(columns, rows, sent, deliveries, |deliveries| - 1)
    ensures AllExpected(columns, rows, sent, deliveries, results + [r])
  {
    var n := |deliveries| - 1;
    forall k | 0 <= k < n
      ensures results[k] == Expected(columns, rows, sent, deliveries, k)
    {
      ExpectedOfPrefix(columns, rows, sent, deliveries, n, k);
    }
  }

  lemma {:induction false} ReceiveHolds(columns: int, rows: int, sent: seq<Sent>, deliveries: seq<nat>)
    requires ValidDimensions(columns, rows)
    requires StreamSound(columns, rows, sent) && StreamReadable(sent) && |sent| < 0x1_0000_0000
    requires forall k | 0 <= k < |deliveries| :: deliveries[k] < |sent|
    ensures var (d, results) := Receive(FRESH_DECODER, sent, deliveries);
            && Holds(d, columns, rows, sent, Held(sent, deliveries))
            && AllExpected(columns, rows, sent, deliveries, results)
  {
    if deliveries != [] {
      var n := |deliveries| - 1;
      var earlier := deliveries[..n];
      ReceiveHolds(columns, rows, sent, earlier);
      var (before, results) := Receive(FRESH_DECODER, sent, earlier);
      DeliverOne(before, columns, rows, sent, Held(sent, earlier), deliveries[n]);
      ExtendExpected(columns, rows, sent, deliveries, results, DecodeStep(before, sent[deliveries[n]].data).1);
    }
  }

  /** The stream theorem. Whatever was captured, forced, lost, duplicated or reordered, a call that succeeds
      returns exactly the captured picture its sequence number names, the only failure is a request for a
      keyframe, and which of the two happens depends only on the frame last decoded. */
  lemma {:induction false} StreamTheorem(columns: int, rows: int, keyInterval: Duration, events: seq<Event>,
                                         deliveries: seq<nat>)
    requires ValidDimensions(columns, rows)
    requires var sent := Transmit(InitialEncoder(columns, rows, keyInterval), events).1;
             |sent| < 0x1_0000_0000 && forall k | 0 <= k < |deliveries| :: deliveries[k] < |sent|
    ensures var sent := Transmit(InitialEncoder(columns, rows, keyInterval), events).1;
            var results := Receive(FRESH_DECODER, sent, deliveries).1;
            && |results| == |deliveries|
            && (forall k | 0 <= k < |results| ::
                  && (results[k].Ok? ==>
                        results[k].value == Truth(columns, rows, sent, deliveries[k])
                        && results[k].value.cells == sent[results[k].value.sequence - 1].cells)
                  && (results[k].Err? ==> results[k].error == NeedsKeyframe)
                  && (results[k].Ok? <==> Decodes(sent, Held(sent, deliveries[..k]), deliveries[k])))
  {
    TransmitIsSound(columns, rows, keyInterval, events);
    var sent := Transmit(InitialEncoder(columns, rows, keyInterval), events).1;
    ReceiveHolds(columns, rows, sent, deliveries);
  }

  function UpTo(n: nat): (s: seq<nat>)
    ensures |s| == n && forall i | 0 <= i < n :: s[i] == i
  {
    seq(n, i => i)
  }

  lemma {:induction false} HeldInOrder(columns: int, rows: int, sent: seq<Sent>, n: nat)
    requires StreamSound(columns, rows, sent) && n <= |sent|
    ensures Held(sent, UpTo(n)) == n - 1
  {
    if n > 0 {
      HeldInOrder(columns, rows, sent, n - 1);
      assert UpTo(n)[..n - 1] == UpTo(n - 1);
      assert FrameSound(columns, rows, sent, n - 1);
    }
  }

  /** Delivered whole and in order, no frame ever fails. */
  lemma {:induction false} LosslessDeliveryNeverFails(columns: int, rows: int, keyInterval: Duration,
                                                      events: seq<Event>)
    requires ValidDimensions(columns, rows)
    requires |Transmit(InitialEncoder(columns, rows, keyInterval), events).1| < 0x1_0000_0000
    ensures var sent := Transmit(InitialEncoder(columns, rows, keyInterval), events).1;
            var results := Receive(FRESH_DECODER, sent, UpTo(|sent|)).1;
            |results| == |sent|
            && forall i | 0 <= i < |sent| :: results[i] == Ok(Truth(columns, rows, sent, i))
  {
    TransmitIsSound(columns, rows, keyInterval, events);
    var sent := Transmit(InitialEncoder(columns, rows, keyInterval), events).1;
    ReceiveHolds(columns, rows, sent, UpTo(|sent|));
    forall i | 0 <= i < |sent| ensures Decodes(sent, Held(sent, UpTo(|sent|)[..i]), i) {
      HeldInOrder(columns, rows, sent, i);
      assert UpTo(|sent|)[..i] == UpTo(i);
      assert FrameSound(columns, rows, sent, i);
    }
  }

  // ---- keyframes ----

  /** The latest keyframe; -1 when there is none. */
  function LastKey(sent: seq<Sent>): (k: int)
    ensures -1 <= k < |sent| && (k != -1 ==> IsKey(sent[k]))
  {
    if sent == [] then -1
    else if IsKey(sent[|sent| - 1]) then |sent| - 1
    else LastKey(sent[..|sent| - 1])
  }

  /** A delta goes out only while the latest keyframe before it is younger than the interval. */
  ghost predicate FollowsAKey(sent: seq<Sent>, keyInterval: Duration, i: nat)
    requires i < |sent|
  {
    IsKey(sent[i]) || (var k := LastKey(sent[..i]); k != -1 && sent[i].at - sent[k].at < keyInterval)
  }

  /** The encoder knows when its latest keyframe went out. */
  ghost predicate KeysInTime(e: EncoderState, sent: seq<Sent>) {
    && (sent != [] ==> LastKey(sent) != -1 && e.lastKeyframe == sent[LastKey(sent)].at)
    && forall i | 0 <= i < |sent| :: FollowsAKey(sent, e.keyInterval, i)
  }

  lemma CaptureInTime(e: EncoderState, sent: seq<Sent>, cells: seq<Byte>, timestamp: Time, wallClock: Time)
    requires InStep(e, sent) && KeysInTime(e, sent)
    requires EncodeStep(e, cells, timestamp, wallClock).1.Ok?
    ensures var (e', r) := EncodeStep(e, cells, timestamp, wallClock);
            KeysInTime(e', sent + [Framed(e, cells, Moment(timestamp, wallClock), r.value)])
  {
    var (e', r) := EncodeStep(e, cells, timestamp, wallClock);
    var sent' := sent + [Framed(e, cells, Moment(timestamp, wallClock), r.value)];
    assert sent'[..|sent|] == sent;
    forall i | 0 <= i < |sent'| ensures FollowsAKey(sent', e'.keyInterval, i) {
      if i < |sent| {
        assert FollowsAKey(sent, e.keyInterval, i) && sent'[..i] == sent[..i];
      }
    }
  }

  /** Keyframes are frequent: over every run, a delta is preceded by a keyframe younger than the interval. */
  lemma {:induction false} KeyframesAreFrequent(columns: int, rows: int, keyInterval: Duration, events: seq<Event>)
    requires ValidDimensions(columns, rows)
    ensures var (e, sent) := Transmit(InitialEncoder(columns, rows, keyInterval), events);
            && e.keyInterval == (if keyInterval <= 0 then 2_000_000_000 else keyInterval)
            && KeysInTime(e, sent)
  {
    if events != [] {
      var earlier := events[..|events| - 1];
      KeyframesAreFrequent(columns, rows, keyInterval, earlier);
      TransmitIsSound(columns, rows, keyInterval, earlier);
      var (before, sent) := Transmit(InitialEncoder(columns, rows, keyInterval), earlier);
      match events[|events| - 1]
      case ForceKeyframe =>
      case Capture(cells, timestamp, wallClock) =>
        if EncodeStep(before, cells, timestamp, wallClock).1.Ok? {
          CaptureInTime(before, sent, cells, timestamp, wallClock);
        } else {
          EncodeMakesAFrame(before, cells, timestamp, wallClock);
        }
    }
  }

  /** A requested keyframe repairs any receiver: whatever the decoder holds, the next picture captured after the
      request decodes to exactly its cells. */
  lemma RequestedKeyframeRepairs(e: EncoderState, d: DecoderState, cells: seq<Byte>, timestamp: Time, wallClock: Time)
    requires e.Valid() && e.forceKey && |cells| == e.columns * e.rows && AllPrintable(cells)
    ensures var r := EncodeStep(e, cells, timestamp, wallClock).1;
            && r.Ok?
            && DecodeStep(d, r.value).1.Ok? && DecodeStep(d, r.value).1.value.cells == cells
            && DecodeStep(d, r.value).0 == DecoderState(e.columns, e.rows, Next(e.sequence), cells)
  {
    EncodeMakesAFrame(e, cells, timestamp, wallClock);
    AbsorbKey(d, Outgoing(e, cells, Moment(timestamp, wallClock)));
  }
}
