/** The stateful encoder and decoder (internal/client/asciivideo/codec.go). */
module Codec {
  import opened Bytes
  import opened Clock
  import opened Frame
  import Delta

  const DEFAULT_KEY_INTERVAL: Duration := 2_000_000_000

  datatype EncoderState = EncoderState(
    columns: int, rows: int, keyInterval: Duration,
    previous: seq<Byte>, sequence: Uint32, lastKeyframe: Time, forceKey: bool)
  {
    ghost predicate Valid() {
      && ValidDimensions(columns, rows)
      && keyInterval > 0
      && (previous == [] || |previous| == columns * rows)
    }
  }

  datatype Picture = Picture(
    frameType: Byte, sequence: Uint32, millis: Millis, columns: int, rows: int, cells: seq<Byte>)

  datatype DecoderState = DecoderState(columns: int, rows: int, sequence: Uint32, cells: seq<Byte>)

  const FRESH_DECODER := DecoderState(0, 0, 0, [])

  function Next(sequence: Uint32): Uint32 {
    (sequence + 1) % 0x1_0000_0000
  }

  /** UnixMilli, wrapped to the int64 that carries it. */
  function Stamp(t: Time): Millis {
    Signed(UnixMillis(t) % 0x1_0000_0000_0000_0000)
  }

  /** The zero timestamp stands for the wall clock. */
  function Moment(timestamp: Time, wallClock: Time): Time {
    if timestamp == ZERO_TIME then wallClock else timestamp
  }

  /** A new encoder has sent nothing and owes a keyframe; a non-positive interval means the default. */
  function InitialEncoder(columns: int, rows: int, keyInterval: Duration): EncoderState {
    EncoderState(columns, rows, if keyInterval <= 0 then DEFAULT_KEY_INTERVAL else keyInterval,
                 [], 0, ZERO_TIME, true)
  }

  predicate NeedsKey(e: EncoderState, cells: seq<Byte>, now: Time) {
    || e.forceKey
    || e.previous == []
    || now - e.lastKeyframe >= e.keyInterval
    || |Delta.Payload(e.previous, cells)| >= |cells|
  }

  /** The frame that carries `cells`: all of them, or the changes since the previous frame. */
  function Outgoing(e: EncoderState, cells: seq<Byte>, now: Time): Packet {
    var key := NeedsKey(e, cells, now);
    Packet(if key then FRAME_KEY else FRAME_DELTA, Next(e.sequence), Stamp(now), e.columns, e.rows,
           if key then cells else Delta.Payload(e.previous, cells))
  }

  function EncodeStep(e: EncoderState, cells: seq<Byte>, timestamp: Time, wallClock: Time)
    : (EncoderState, Result<seq<Byte>>)
  {
    if |cells| != e.columns * e.rows || !AllPrintable(cells) then (e, Err(InvalidFrame))
    else
      var now := Moment(timestamp, wallClock);
      var numbered := e.(sequence := Next(e.sequence));
      var marked := if NeedsKey(e, cells, now) then numbered.(lastKeyframe := now, forceKey := false) else numbered;
      match Marshal(Outgoing(e, cells, now))
      case Err(error) => (marked, Err(error))
      case Ok(encoded) => (marked.(previous := cells), Ok(encoded))
  }

  function DecodeStep(d: DecoderState, data: seq<Byte>): (DecoderState, Result<Picture>) {
    match Unmarshal(data)
    case Err(error) => (d, Err(error))
    case Ok(p) => Absorb(d, p)
  }

  /** Decoding a packet whose header has been read. */
  function Absorb(d: DecoderState, p: Packet): (DecoderState, Result<Picture>) {
    var cellCount := p.columns * p.rows;
    if p.frameType == FRAME_KEY then
      if |p.payload| != cellCount then (d, Err(InvalidFrame))
      else Finish(d.(cells := p.payload), p)
    else if p.frameType == FRAME_DELTA then
      if |d.cells| != cellCount || d.columns != p.columns || d.rows != p.rows || p.sequence != Next(d.sequence)
      then (d, Err(NeedsKeyframe))
      else
        var applied := Delta.Apply(d.cells, p.payload);
        if !applied.ok then (d.(cells := applied.cells), Err(InvalidFrame))
        else Finish(d.(cells := applied.cells), p)
    else (d, Err(InvalidFrame))
  }

  /** The tail of Decode, after the cells have been replaced: an unsafe cell still rejects the frame. */
  function Finish(d: DecoderState, p: Packet): (DecoderState, Result<Picture>) {
    if !AllPrintable(d.cells) then (d, Err(InvalidFrame))
    else (DecoderState(p.columns, p.rows, p.sequence, d.cells),
          Ok(PictureOf(p, d.cells)))
  }

  /** Encoding fails exactly on the wrong number of cells or an unprintable one, changing nothing; otherwise
      the frame is a keyframe of all the cells or a strictly smaller delta, so it always fits the size limit. */
  lemma EncodeMakesAFrame(e: EncoderState, cells: seq<Byte>, timestamp: Time, wallClock: Time)
    requires e.Valid()
    ensures var (e', r) := EncodeStep(e, cells, timestamp, wallClock);
            var now := Moment(timestamp, wallClock);
            var p := Outgoing(e, cells, now);
            && e'.Valid()
            && (r.Ok? <==> |cells| == e.columns * e.rows && AllPrintable(cells))
            && (r.Err? ==> e' == e && r.error == InvalidFrame)
            && (r.Ok? ==>
                  && Unmarshal(r.value) == Ok(p)
                  && (e'.columns, e'.rows, e'.previous, e'.sequence) == (e.columns, e.rows, cells, Next(e.sequence))
                  && |r.value| == 26 + |p.payload| <= 26 + e.columns * e.rows < 65536
                  && (p.frameType == FRAME_DELTA ==> |p.payload| < |cells| == |e.previous|))
  {
    if |cells| == e.columns * e.rows && AllPrintable(cells) {
      CellCount(e.columns, e.rows);
      var p := Outgoing(e, cells, Moment(timestamp, wallClock));
      assert Marshal(p).Ok?;
      UnmarshalMarshal(p);
    }
  }

  lemma CellCount(columns: int, rows: int)
    requires ValidDimensions(columns, rows)
    ensures 1 <= columns * rows <= MAX_COLUMNS * MAX_ROWS
  {
    assert columns * rows <= MAX_COLUMNS * rows;
  }

  function PictureOf(p: Packet, cells: seq<Byte>): Picture {
    Picture(p.frameType, p.sequence, p.millis, p.columns, p.rows, cells)
  }

  lemma AbsorbKey(d: DecoderState, p: Packet)
    requires p.frameType == FRAME_KEY && |p.payload| == p.columns * p.rows && AllPrintable(p.payload)
    ensures Absorb(d, p) == (DecoderState(p.columns, p.rows, p.sequence, p.payload), Ok(PictureOf(p, p.payload)))
  {
  }

  /** A delta made from the cells the decoder holds decodes exactly when it is the next frame. */
  lemma AbsorbDelta(d: DecoderState, p: Packet, cells: seq<Byte>)
    requires p.frameType == FRAME_DELTA && p.payload == Delta.Payload(d.cells, cells)
    requires (d.columns, d.rows) == (p.columns, p.rows)
    requires |d.cells| == |cells| == p.columns * p.rows <= 0x1_0000_0000 && AllPrintable(cells)
    ensures Absorb(d, p) == if p.sequence == Next(d.sequence)
                            then (DecoderState(p.columns, p.rows, p.sequence, cells), Ok(PictureOf(p, cells)))
                            else (d, Err(NeedsKeyframe))
  {
    Delta.DeltaRoundTrip(d.cells, cells);
  }

  /** Whatever bytes arrive, a picture handed out is printable and of the size it claims,
      and a failed call leaves the decoder's sequence and dimensions alone (though not always its cells). */
  lemma DecodeIsSafe(d: DecoderState, data: seq<Byte>)
    ensures var (d', r) := DecodeStep(d, data);
            && (r.Ok? ==> AllPrintable(r.value.cells) && ValidDimensions(r.value.columns, r.value.rows)
                          && |r.value.cells| == r.value.columns * r.value.rows)
            && (r.Err? ==> d' == d.(cells := d'.cells))
            && (r.Err? && r.error == NeedsKeyframe ==> d' == d)
  {
  }

  /** A keyframe of one escape character. */
  const UNSAFE_KEYFRAME := Packet(FRAME_KEY, 1, 0, 1, 1, [0x1b])

  /** Decode is not atomic: that keyframe is rejected, yet its cell stays in the decoder. */
  lemma FailedDecodeCanChangeCells()
    ensures ValidDimensions(UNSAFE_KEYFRAME.columns, UNSAFE_KEYFRAME.rows)
    ensures Unmarshal(Layout(UNSAFE_KEYFRAME)) == Ok(UNSAFE_KEYFRAME)
    ensures DecodeStep(FRESH_DECODER, Layout(UNSAFE_KEYFRAME)) == (FRESH_DECODER.(cells := [0x1b]), Err(InvalidFrame))
  {
    UnmarshalMarshal(UNSAFE_KEYFRAME);
    assert !Printable(UNSAFE_KEYFRAME.payload[0]);
  }

  /** The scan both sides make for bytes a terminal would not print. */
  method SafeCells(cells: seq<Byte>) returns (safe: bool)
    ensures safe == AllPrintable(cells)
  {
    for i := 0 to |cells|
      invariant AllPrintable(cells[..i])
    {
      if cells[i] < 0x20 || cells[i] > 0x7e {
        assert !Printable(cells[i]);
        return false;
      }
      assert cells[..i + 1] == cells[..i] + [cells[i]];
    }
    assert cells == cells[..|cells|];
    return true;
  }

  class Encoder {
    const columns: int
    const rows: int
    const keyInterval: Duration
    var previous: seq<Byte>
    var sequence: Uint32
    var lastKeyframe: Time
    var forceKey: bool

    function State(): EncoderState
      reads this
    {
      EncoderState(columns, rows, keyInterval, previous, sequence, lastKeyframe, forceKey)
    }

    constructor (columns: int, rows: int, keyInterval: Duration)
      ensures State() == InitialEncoder(columns, rows, keyInterval)
    {
      this.columns, this.rows := columns, rows;
      this.keyInterval := if keyInterval <= 0 then DEFAULT_KEY_INTERVAL else keyInterval;
      previous, sequence, lastKeyframe, forceKey := [], 0, ZERO_TIME, true;
    }

    method ForceKeyframe()
      modifies this
      ensures State() == old(State()).(forceKey := true)
    {
      forceKey := true;
    }

    method Encode(cells: seq<Byte>, timestamp: Time, wallClock: Time) returns (r: Result<seq<Byte>>)
      modifies this
      ensures (State(), r) == EncodeStep(old(State()), cells, timestamp, wallClock)
    {
      if |cells| != columns * rows { return Err(InvalidFrame); }
      var now := timestamp;
      if timestamp == ZERO_TIME { now := wallClock; }
      var safe := SafeCells(cells);
      if !safe { return Err(InvalidFrame); }
      sequence := (sequence + 1) % 0x1_0000_0000;
      var frameType := FRAME_DELTA;
      var payload := Delta.EncodeDelta(previous, cells);
      if forceKey || |previous| == 0 || now - lastKeyframe >= keyInterval || |payload| >= |cells| {
        frameType := FRAME_KEY;
        payload := cells;
        lastKeyframe := now;
        forceKey := false;
      }
      r := MarshalFrame(frameType, sequence, Stamp(now), columns, rows, payload);
      if r.Err? { return; }
      previous := cells;
    }
  }

  method NewEncoder(columns: int, rows: int, keyInterval: Duration) returns (r: Result<Encoder>)
    ensures r.Ok? <==> 1 <= columns <= 200 && 1 <= rows <= 80
    ensures r.Ok? ==> r.value.State().keyInterval == if keyInterval <= 0 then 2_000_000_000 else keyInterval
    ensures r.Ok? ==> fresh(r.value)
                      && r.value.State() == InitialEncoder(columns, rows, keyInterval) && r.value.State().Valid()
  {
    if !ValidDimensions(columns, rows) { return Err(InvalidFrame); }
    var e := new Encoder(columns, rows, keyInterval);
    return Ok(e);
  }

  /** The cell buffer is an array that deltas overwrite in place. */
  class Decoder {
    var columns: int
    var rows: int
    var sequence: Uint32
    var cells: array<Byte>

    function State(): DecoderState
      reads this, cells
    {
      DecoderState(columns, rows, sequence, cells[..])
    }

    constructor ()
      ensures State() == FRESH_DECODER
      ensures fresh(cells)
    {
      columns, rows, sequence := 0, 0, 0;
      cells := new Byte[0];
    }

    method Decode(data: seq<Byte>) returns (r: Result<Picture>)
      modifies this, cells
      ensures fresh(cells) || cells == old(cells)
      ensures (State(), r) == DecodeStep(old(State()), data)
    {
      var unmarshalled := Unmarshal(data);
      if unmarshalled.Err? { return Err(unmarshalled.error); }
      var p := unmarshalled.value;
      var cellCount := p.columns * p.rows;
      if p.frameType == FRAME_KEY {
        if |p.payload| != cellCount { return Err(InvalidFrame); }
        cells := new Byte[cellCount];
        Copy(cells, 0, p.payload);
        assert cells[..] == p.payload;
      } else if p.frameType == FRAME_DELTA {
        if cells.Length != cellCount || columns != p.columns || rows != p.rows || p.sequence != Next(sequence) {
          return Err(NeedsKeyframe);
        }
        var ok := Delta.ApplyDelta(cells, p.payload);
        if !ok { return Err(InvalidFrame); }
      } else {
        return Err(InvalidFrame);
      }
      var safe := SafeCells(cells[..]);
      if !safe { return Err(InvalidFrame); }
      columns, rows, sequence := p.columns, p.rows, p.sequence;
      return Ok(PictureOf(p, cells[..]));
    }
  }
}
