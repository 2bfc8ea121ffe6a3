/** From the camera to the other side's screen (internal/client/app/app.go, the video branches of its loop). */
module Pipeline {
  import opened Bytes
  import opened Clock
  import opened Frame
  import Codec
  import Gray
  import Render
  import Stream
  import Terminal
  import Video

  datatype CameraEvent =
    | Shot(pixels: seq<Byte>, width: nat, height: nat, timestamp: Time, wallClock: Time)
    | KeyframeRequest

  function Convert(shot: CameraEvent): Result<seq<Byte>>
    requires shot.Shot?
  {
    Gray.Convert(shot.pixels, shot.width, shot.height, shot.width, shot.height / 2)
  }

  /** The calls made on the encoder: shots that cannot be converted are skipped. */
  function EncoderCalls(camera: seq<CameraEvent>): seq<Stream.Event> {
    if camera == [] then []
    else
      var earlier, last := EncoderCalls(camera[..|camera| - 1]), camera[|camera| - 1];
      match last
      case KeyframeRequest => earlier + [Stream.ForceKeyframe]
      case Shot(_, _, _, timestamp, wallClock) =>
        match Convert(last)
        case Err(_) => earlier
        case Ok(cells) => earlier + [Stream.Capture(cells, timestamp, wallClock)]
  }

  /** The sender's encoder and frames after its whole run. */
  function Sender(columns: int, rows: int, keyInterval: Duration, camera: seq<CameraEvent>)
    : (Codec.EncoderState, seq<Stream.Sent>)
  {
    Stream.Transmit(Codec.InitialEncoder(columns, rows, keyInterval), EncoderCalls(camera))
  }

  function Send(columns: int, rows: int, keyInterval: Duration, camera: seq<CameraEvent>): seq<Stream.Sent> {
    Sender(columns, rows, keyInterval, camera).1
  }

  /** The receiver's whole run: what decodes is drawn, and a failure is skipped. */
  function Watch(sent: seq<Stream.Sent>, deliveries: seq<nat>): (Codec.DecoderState, Video.Memory, seq<Byte>)
    requires forall k | 0 <= k < |deliveries| :: deliveries[k] < |sent|
  {
    if deliveries == [] then (Codec.FRESH_DECODER, Video.NO_PICTURE, [])
    else
      var n := |deliveries| - 1;
      var (d, m, written) := Watch(sent, deliveries[..n]);
      var (d', r) := Codec.DecodeStep(d, sent[deliveries[n]].data);
      match r
      case Err(_) => (d', m, written)
      case Ok(p) =>
        var (m', output) := Video.Draw(m, Video.Request(p.columns, p.rows, p.cells));
        (d', m', written + output)
  }

  // ---- what is sent, on the camera's shots alone ----

  /** A shot that an encoder of this size sends: an even number of pixel rows, all the pixels, and the right number of
      cells. */
  predicate Suits(columns: int, rows: int, shot: CameraEvent) {
    && shot.Shot?
    && shot.height % 2 == 0 && |shot.pixels| == shot.width * shot.height
    && shot.width * (shot.height / 2) == columns * rows
  }

  /** Those shots, in order. */
  function Suitable(columns: int, rows: int, camera: seq<CameraEvent>): (shots: seq<CameraEvent>)
    ensures forall k | 0 <= k < |shots| :: Suits(columns, rows, shots[k])
  {
    if camera == [] then []
    else
      var earlier, last := Suitable(columns, rows, camera[..|camera| - 1]), camera[|camera| - 1];
      if Suits(columns, rows, last) then earlier + [last] else earlier
  }

  /** A frame carries a shot: its cells show the shot's pixels, and its time is the shot's own, or the wall clock's when
      the shot has none. */
  ghost predicate Carries(s: Stream.Sent, shot: CameraEvent) {
    && shot.Shot?
    && Gray.Depicts(s.cells, shot.pixels, shot.width, shot.height / 2)
    && s.at == if shot.timestamp == ZERO_TIME then shot.wallClock else shot.timestamp
  }

  ghost predicate CarryAll(sent: seq<Stream.Sent>, shots: seq<CameraEvent>) {
    |sent| == |shots| && forall k | 0 <= k < |sent| :: Carries(sent[k], shots[k])
  }

  lemma TransmitOneMore(e: Codec.EncoderState, events: seq<Stream.Event>, event: Stream.Event)
    ensures Stream.Transmit(e, events + [event])
         == var (before, sent) := Stream.Transmit(e, events);
            match event
            case ForceKeyframe => (before.(forceKey := true), sent)
            case Capture(cells, timestamp, wallClock) =>
              var (after, r) := Codec.EncodeStep(before, cells, timestamp, wallClock);
              match r
              case Err(_) => (after, sent)
              case Ok(data) =>
                (after, sent + [Stream.Framed(before, cells, Codec.Moment(timestamp, wallClock), data)])
  {
    assert (events + [event])[..|events|] == events;
  }

  /** The sender after one more camera event: a shot that suits puts one frame on the channel, which carries it, and
      anything else puts none; a request is remembered, and a frame sent for a remembered request is a keyframe. */
  lemma SenderSteps(columns: int, rows: int, keyInterval: Duration, camera: seq<CameraEvent>)
    requires ValidDimensions(columns, rows) && camera != []
    ensures var n := |camera| - 1;
            var (e, sent) := Sender(columns, rows, keyInterval, camera[..n]);
            var (e', sent') := Sender(columns, rows, keyInterval, camera);
            && (Suits(columns, rows, camera[n]) ==>
                  && |sent'| == |sent| + 1 && sent'[..|sent|] == sent && Carries(sent'[|sent|], camera[n])
                  && (e.forceKey ==> Stream.IsKey(sent'[|sent|])))
            && (!Suits(columns, rows, camera[n]) ==>
                  sent' == sent && e'.forceKey == (e.forceKey || camera[n].KeyframeRequest?))
  {
    var n := |camera| - 1;
    var initial, calls := Codec.InitialEncoder(columns, rows, keyInterval), EncoderCalls(camera[..n]);
    Stream.TransmitIsSound(columns, rows, keyInterval, calls);
    var e := Stream.Transmit(initial, calls).0;
    match camera[n]
    case KeyframeRequest =>
      TransmitOneMore(initial, calls, Stream.ForceKeyframe);
    case Shot(pixels, width, height, timestamp, wallClock) =>
      Gray.ConvertDepicts(pixels, width, height, width, height / 2);
      if Convert(camera[n]).Ok? {
        var cells := Convert(camera[n]).value;
        TransmitOneMore(initial, calls, Stream.Capture(cells, timestamp, wallClock));
        Codec.EncodeMakesAFrame(e, cells, timestamp, wallClock);
      }
  }

  /** Every shot is sent: the frames are, one for one and in order, the shots that suit the encoder. */
  lemma {:induction false} EveryShotIsSent(columns: int, rows: int, keyInterval: Duration, camera: seq<CameraEvent>)
    requires ValidDimensions(columns, rows)
    ensures CarryAll(Send(columns, rows, keyInterval, camera), Suitable(columns, rows, camera))
  {
    if camera != [] {
      EveryShotIsSent(columns, rows, keyInterval, camera[..|camera| - 1]);
      SenderSteps(columns, rows, keyInterval, camera);
    }
  }

  /** The frame numbered `k` was asked to be a keyframe: either it is one, or it is still to come and the encoder
      remembers. */
  ghost predicate Answered(forced: bool, sent: seq<Stream.Sent>, k: nat) {
    k <= |sent| && if k == |sent| then forced else Stream.IsKey(sent[k])
  }

  lemma AnsweredStep(forced: bool, sent: seq<Stream.Sent>, forced': bool, sent': seq<Stream.Sent>, k: nat)
    requires Answered(forced, sent, k)
    requires || (sent' == sent && (forced ==> forced'))
             || (|sent'| == |sent| + 1 && sent'[..|sent|] == sent && (forced ==> Stream.IsKey(sent'[|sent|])))
    ensures Answered(forced', sent', k)
  {
    assert k < |sent| ==> sent'[k] == sent'[..|sent|][k];
  }

  lemma {:induction false} RequestIsAnswered(
      columns: int, rows: int, keyInterval: Duration, camera: seq<CameraEvent>, i: nat)
    requires ValidDimensions(columns, rows) && i < |camera| && camera[i].KeyframeRequest?
    ensures var (e, sent) := Sender(columns, rows, keyInterval, camera);
            Answered(e.forceKey, sent, |Suitable(columns, rows, camera[..i])|)
  {
    var n := |camera| - 1;
    var (e, sent) := Sender(columns, rows, keyInterval, camera[..n]);
    var (e', sent') := Sender(columns, rows, keyInterval, camera);
    SenderSteps(columns, rows, keyInterval, camera);
    if i < n {
      assert camera[..n][..i] == camera[..i];
      RequestIsAnswered(columns, rows, keyInterval, camera[..n], i);
      AnsweredStep(e.forceKey, sent, e'.forceKey, sent', |Suitable(columns, rows, camera[..i])|);
    } else {
      EveryShotIsSent(columns, rows, keyInterval, camera[..n]);
    }
  }

  /** A request makes the next frame a keyframe, however many shots that do not suit come first. */
  lemma RequestMakesAKeyframe(columns: int, rows: int, keyInterval: Duration, camera: seq<CameraEvent>, i: nat)
    requires ValidDimensions(columns, rows) && i < |camera| && camera[i].KeyframeRequest?
    ensures var k, sent := |Suitable(columns, rows, camera[..i])|, Send(columns, rows, keyInterval, camera);
            k <= |sent| && (k < |sent| ==> Stream.IsKey(sent[k]))
  {
    RequestIsAnswered(columns, rows, keyInterval, camera, i);
  }

  /** The cells of a sent frame are the conversion of a shot the camera took. */
  ghost predicate Captured(camera: seq<CameraEvent>, cells: seq<Byte>) {
    exists i :: 0 <= i < |camera| && camera[i].Shot? && Convert(camera[i]) == Ok(cells)
  }

  lemma {:induction false} CallsAreCaptured(camera: seq<CameraEvent>, k: nat)
    requires k < |EncoderCalls(camera)| && EncoderCalls(camera)[k].Capture?
    ensures Captured(camera, EncoderCalls(camera)[k].cells)
  {
    var n := |camera| - 1;
    var earlier := EncoderCalls(camera[..n]);
    if k < |earlier| {
      CallsAreCaptured(camera[..n], k);
      var i :| 0 <= i < n && camera[..n][i].Shot? && Convert(camera[..n][i]) == Ok(earlier[k].cells);
      assert camera[i] == camera[..n][i];
    } else {
      assert camera[n].Shot?;
    }
  }

  lemma {:induction false} SentWasCalled(e: Codec.EncoderState, events: seq<Stream.Event>, i: nat)
    requires i < |Stream.Transmit(e, events).1|
    ensures exists k ::
              0 <= k < |events| && events[k].Capture? && events[k].cells == Stream.Transmit(e, events).1[i].cells
  {
    var n := |events| - 1;
    var earlier := Stream.Transmit(e, events[..n]).1;
    if i < |earlier| {
      SentWasCalled(e, events[..n], i);
      var k :| 0 <= k < n && events[..n][k].Capture? && events[..n][k].cells == earlier[i].cells;
      assert events[k] == events[..n][k];
    } else {
      assert events[n].Capture?;
    }
  }

  lemma SentWasCaptured(columns: int, rows: int, keyInterval: Duration, camera: seq<CameraEvent>, i: nat)
    requires i < |Send(columns, rows, keyInterval, camera)|
    ensures Captured(camera, Send(columns, rows, keyInterval, camera)[i].cells)
  {
    var calls := EncoderCalls(camera);
    SentWasCalled(Codec.InitialEncoder(columns, rows, keyInterval), calls, i);
    var k :| 0 <= k < |calls| && calls[k].Capture?
        && calls[k].cells == Send(columns, rows, keyInterval, camera)[i].cells;
    CallsAreCaptured(camera, k);
  }

  /** What the UI remembers once frame `held` was the last to decode. */
  function MemoryOf(columns: int, rows: int, sent: seq<Stream.Sent>, held: int): Video.Memory
    requires -1 <= held < |sent|
  {
    if held == -1 then Video.NO_PICTURE else Video.Memory(sent[held].cells, columns, rows)
  }

  ghost predicate Watched(t: Terminal.Term, columns: int, rows: int, sent: seq<Stream.Sent>, deliveries: seq<nat>)
    requires t.Valid() && columns >= 0 && rows >= 0 && |sent| < 0x1_0000_0000
    requires forall k | 0 <= k < |deliveries| :: deliveries[k] < |sent|
  {
    var (d, m, written) := Watch(sent, deliveries);
    var held := Stream.Held(sent, deliveries);
    var t' := Terminal.FeedAll(t, written);
    && Stream.Holds(d, columns, rows, sent, held)
    && m == MemoryOf(columns, rows, sent, held)
    && (held == -1 ==> written == [])
    && Video.OnScreen(t', m)
    && Video.OutsideKept(t, t', columns, rows)
  }

  lemma {:induction false} WatchingDraws(t: Terminal.Term, columns: int, rows: int, sent: seq<Stream.Sent>,
                                         deliveries: seq<nat>)
    requires ValidDimensions(columns, rows)
    requires Stream.StreamSound(columns, rows, sent) && Stream.StreamReadable(sent) && |sent| < 0x1_0000_0000
    requires forall k | 0 <= k < |deliveries| :: deliveries[k] < |sent|
    requires t.Valid() && t.mode == Terminal.Ground && columns <= t.width && rows <= t.height
    ensures Watched(t, columns, rows, sent, deliveries)
  {
    if deliveries != [] {
      var n := |deliveries| - 1;
      WatchingDraws(t, columns, rows, sent, deliveries[..n]);
      WatchOne(t, columns, rows, sent, deliveries);
    }
  }

  lemma WatchOne(t: Terminal.Term, columns: int, rows: int, sent: seq<Stream.Sent>, deliveries: seq<nat>)
    requires ValidDimensions(columns, rows)
    requires Stream.StreamSound(columns, rows, sent) && Stream.StreamReadable(sent) && |sent| < 0x1_0000_0000
    requires deliveries != [] && forall k | 0 <= k < |deliveries| :: deliveries[k] < |sent|
    requires t.Valid() && t.mode == Terminal.Ground && columns <= t.width && rows <= t.height
    requires Watched(t, columns, rows, sent, deliveries[..|deliveries| - 1])
    ensures Watched(t, columns, rows, sent, deliveries)
  {
    var n := |deliveries| - 1;
    var i := deliveries[n];
    var (d, m, written) := Watch(sent, deliveries[..n]);
    var held := Stream.Held(sent, deliveries[..n]);
    var shown := Terminal.FeedAll(t, written);
    Stream.DeliverOne(d, columns, rows, sent, held, i);
    if Stream.Decodes(sent, held, i) {
      assert Stream.FrameSound(columns, rows, sent, i);
      DrawOne(t, written, columns, rows, m, sent[i].cells);
    }
  }

  /** One more picture on the watcher's screen. */
  lemma {:induction false} DrawOne(t: Terminal.Term, written: seq<Byte>, columns: int, rows: int, m: Video.Memory,
                                   cells: seq<Byte>)
    requires t.Valid() && 1 <= columns <= t.width && 1 <= rows <= t.height
    requires |cells| == columns * rows && AllPrintable(cells)
    requires Video.OnScreen(Terminal.FeedAll(t, written), m)
    requires Video.OutsideKept(t, Terminal.FeedAll(t, written), columns, rows)
    ensures var (m', output) := Video.Draw(m, Video.Request(columns, rows, cells));
            && m' == Video.Memory(cells, columns, rows)
            && Video.OnScreen(Terminal.FeedAll(t, written + output), m')
            && Video.OutsideKept(t, Terminal.FeedAll(t, written + output), columns, rows)
  {
    var r := Video.Request(columns, rows, cells);
    var shown := Terminal.FeedAll(t, written);
    Terminal.FeedConcat(t, written, Video.Draw(m, r).1);
    Video.DrawKeepsScreen(shown, m, r);
    Video.OverlayStaysInside(shown, r, columns, rows);
  }

  /** End to end. Whatever the camera took and the channel did, the viewport shows exactly the conversion of a
      shot that was taken (that of the last frame that decoded), and the rest of the screen and the cursor are
      as they were. Before the first frame decodes nothing is written at all. */
  lemma {:induction false} ScreenShowsACapturedFrame(t: Terminal.Term, columns: int, rows: int, keyInterval: Duration,
                                  camera: seq<CameraEvent>, deliveries: seq<nat>)
    requires ValidDimensions(columns, rows)
    requires var sent := Send(columns, rows, keyInterval, camera);
             |sent| < 0x1_0000_0000 && forall k | 0 <= k < |deliveries| :: deliveries[k] < |sent|
    requires t.Valid() && t.mode == Terminal.Ground && columns <= t.width && rows <= t.height
    ensures var sent := Send(columns, rows, keyInterval, camera);
            var held := Stream.Held(sent, deliveries);
            var t' := Terminal.FeedAll(t, Watch(sent, deliveries).2);
            && t'.mode == Terminal.Ground
            && Video.OutsideKept(t, t', columns, rows)
            && (held == -1 ==> Watch(sent, deliveries).2 == [] && t' == t)
            && (held != -1 ==> Captured(camera, sent[held].cells) && |sent[held].cells| == columns * rows
                               && Render.Displays(t', columns, rows, sent[held].cells))
            && CarryAll(sent, Suitable(columns, rows, camera))
  {
    var sent := Send(columns, rows, keyInterval, camera);
    var held := Stream.Held(sent, deliveries);
    Stream.TransmitIsSound(columns, rows, keyInterval, EncoderCalls(camera));
    WatchingDraws(t, columns, rows, sent, deliveries);
    EveryShotIsSent(columns, rows, keyInterval, camera);
    if held != -1 {
      SentWasCaptured(columns, rows, keyInterval, camera, held);
      Render.ShownIsDisplayed(Terminal.FeedAll(t, Watch(sent, deliveries).2), columns, rows, sent[held].cells);
    }
  }

  /** Delivered completely and in order, the viewport shows the last shot that suits the encoder. */
  lemma LosslessViewShowsTheLastShot(t: Terminal.Term, columns: int, rows: int, keyInterval: Duration,
                                     camera: seq<CameraEvent>)
    requires ValidDimensions(columns, rows)
    requires 0 < |Suitable(columns, rows, camera)| < 0x1_0000_0000
    requires t.Valid() && t.mode == Terminal.Ground && columns <= t.width && rows <= t.height
    ensures var sent, shots := Send(columns, rows, keyInterval, camera), Suitable(columns, rows, camera);
            |sent| == |shots|
    ensures var sent, shots := Send(columns, rows, keyInterval, camera), Suitable(columns, rows, camera);
            var last, t' := shots[|shots| - 1], Terminal.FeedAll(t, Watch(sent, Stream.UpTo(|sent|)).2);
            var cells := sent[|sent| - 1].cells;
            && |cells| == columns * rows && Render.Displays(t', columns, rows, cells)
            && Gray.Depicts(cells, last.pixels, last.width, last.height / 2)
            && Video.OutsideKept(t, t', columns, rows)
  {
    var sent := Send(columns, rows, keyInterval, camera);
    EveryShotIsSent(columns, rows, keyInterval, camera);
    Stream.TransmitIsSound(columns, rows, keyInterval, EncoderCalls(camera));
    Stream.HeldInOrder(columns, rows, sent, |sent|);
    ScreenShowsACapturedFrame(t, columns, rows, keyInterval, camera, Stream.UpTo(|sent|));
    assert Carries(sent[|sent| - 1], Suitable(columns, rows, camera)[|sent| - 1]);
  }
}
