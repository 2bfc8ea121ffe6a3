/** When a Decode call that fails leaves the decoder alone, and what it costs when it does not
    (internal/client/asciivideo/codec.go). */
module Atomicity {
  import opened Bytes
  import opened Frame
  import opened Codec
  import Delta

  /** The tests that come before the cells are touched. */
  predicate PassesGuards(d: DecoderState, p: Packet) {
    if p.frameType == FRAME_KEY then |p.payload| == p.columns * p.rows
    else
      && p.frameType == FRAME_DELTA
      && |d.cells| == p.columns * p.rows && (d.columns, d.rows) == (p.columns, p.rows)
      && p.sequence == Next(d.sequence)
  }

  /** The cells a frame that passes them leaves behind, whether it then decodes or not. */
  function CellsWritten(d: DecoderState, p: Packet): seq<Byte>
    requires PassesGuards(d, p)
  {
    if p.frameType == FRAME_KEY then p.payload else Delta.Apply(d.cells, p.payload).cells
  }

  /** A failed call leaves the decoder as it was, unless the header is accepted, the guards are passed and the cells
      written differ from the cells held. */
  lemma FailedDecodeIsAtomicIff(d: DecoderState, data: seq<Byte>)
    requires DecodeStep(d, data).1.Err?
    ensures DecodeStep(d, data).0 == d
            <==> !(&& Unmarshal(data).Ok?
                   && PassesGuards(d, Unmarshal(data).value)
                   && CellsWritten(d, Unmarshal(data).value) != d.cells)
  {
  }

  // ---- what to look for in the frame ----

  /** A keyframe of the right size with an unprintable cell, unlike the picture held. */
  predicate KeyframeSpoils(d: DecoderState, p: Packet) {
    && p.frameType == FRAME_KEY
    && |p.payload| == p.columns * p.rows
    && p.payload != d.cells
    && exists i | 0 <= i < |p.payload| :: !Printable(p.payload[i])
  }

  /** A cell after the runs of a delta that come before its first malformed one. */
  function CellAfterRuns(d: DecoderState, p: Packet, i: nat): Byte
    requires i < |d.cells|
  {
    Delta.CellAfter(d.cells[i], Delta.Writes(p.payload, |d.cells|), i)
  }

  /** The next delta in sequence, whose runs alter some cell before one of them is malformed, or alter some cell and
      leave an unprintable one. */
  predicate DeltaSpoils(d: DecoderState, p: Packet) {
    && p.frameType == FRAME_DELTA
    && |d.cells| == p.columns * p.rows && (d.columns, d.rows) == (p.columns, p.rows)
    && p.sequence == Next(d.sequence)
    && (exists i | 0 <= i < |d.cells| :: CellAfterRuns(d, p, i) != d.cells[i])
    && (|| !Delta.WellFormed(p.payload, |d.cells|)
        || exists i | 0 <= i < |d.cells| :: !Printable(CellAfterRuns(d, p, i)))
  }

  lemma KeyframeSpoilsIff(d: DecoderState, p: Packet)
    requires p.frameType == FRAME_KEY
    ensures Absorb(d, p).1.Err? && Absorb(d, p).0 != d <==> KeyframeSpoils(d, p)
  {
    if AllPrintable(p.payload) {
      assert forall i | 0 <= i < |p.payload| :: Printable(p.payload[i]);
    }
  }

  lemma DeltaSpoilsIff(d: DecoderState, p: Packet)
    requires p.frameType == FRAME_DELTA
    ensures Absorb(d, p).1.Err? && Absorb(d, p).0 != d <==> DeltaSpoils(d, p)
  {
    Delta.ApplyPerformsWrites(d.cells, p.payload);
    var after := Delta.Apply(d.cells, p.payload).cells;
    assert forall i | 0 <= i < |d.cells| :: after[i] == CellAfterRuns(d, p, i);
    assert AllPrintable(after) <==> forall i | 0 <= i < |d.cells| :: Printable(CellAfterRuns(d, p, i));
    assert after == d.cells <==> forall i | 0 <= i < |d.cells| :: CellAfterRuns(d, p, i) == d.cells[i];
  }

  /** The exact condition, on the frame and the picture held: a call fails and changes the decoder if and only if the
      header is accepted and the frame is a keyframe or a delta that spoils the picture. */
  lemma FailedDecodeSpoilsIff(d: DecoderState, data: seq<Byte>)
    ensures DecodeStep(d, data).1.Err? && DecodeStep(d, data).0 != d
            <==> Unmarshal(data).Ok?
                 && (KeyframeSpoils(d, Unmarshal(data).value) || DeltaSpoils(d, Unmarshal(data).value))
  {
    if Unmarshal(data).Ok? {
      var p := Unmarshal(data).value;
      if p.frameType == FRAME_KEY {
        KeyframeSpoilsIff(d, p);
      } else if p.frameType == FRAME_DELTA {
        DeltaSpoilsIff(d, p);
      }
    }
  }

  // ---- when a frame decodes ----

  /** What a frame must be for this decoder: a keyframe of one printable character a cell, or the next delta on a
      picture of its dimensions, all of whose runs are well formed and whose result can be printed. */
  predicate Decodable(d: DecoderState, p: Packet) {
    || (&& p.frameType == 1
        && |p.payload| == p.columns * p.rows
        && forall i | 0 <= i < |p.payload| :: 0x20 <= p.payload[i] <= 0x7e)
    || (p.frameType == 2 && Follows(d, p)
        && Delta.WellFormed(p.payload, |d.cells|)
        && forall i | 0 <= i < |d.cells| :: 0x20 <= CellAfterRuns(d, p, i) <= 0x7e)
  }

  predicate Follows(d: DecoderState, p: Packet) {
    && |d.cells| == p.columns * p.rows && d.columns == p.columns && d.rows == p.rows
    && p.sequence == (d.sequence + 1) % 0x1_0000_0000
  }

  /** Cell by cell, the picture a frame makes. */
  ghost predicate MadeBy(d: DecoderState, p: Packet, cells: seq<Byte>) {
    if p.frameType == 1 then |cells| == |p.payload| && forall i | 0 <= i < |cells| :: cells[i] == p.payload[i]
    else |cells| == |d.cells| && forall i | 0 <= i < |cells| :: cells[i] == CellAfterRuns(d, p, i)
  }

  lemma AbsorbsIff(d: DecoderState, p: Packet)
    ensures Absorb(d, p).1.Ok? <==> Decodable(d, p)
    ensures Absorb(d, p).1.Ok? ==>
              var d' := Absorb(d, p).0;
              && MadeBy(d, p, d'.cells)
              && d' == DecoderState(p.columns, p.rows, p.sequence, d'.cells)
              && Absorb(d, p).1.value
                 == Picture(p.frameType, p.sequence, p.millis, p.columns, p.rows, d'.cells)
    ensures Absorb(d, p).1.Err? ==>
              Absorb(d, p).1.error == if p.frameType == 2 && !Follows(d, p) then NeedsKeyframe else InvalidFrame
  {
    if p.frameType == FRAME_KEY {
      assert AllPrintable(p.payload) <==> forall i | 0 <= i < |p.payload| :: Printable(p.payload[i]);
    } else if p.frameType == FRAME_DELTA && Follows(d, p) {
      Delta.ApplyPerformsWrites(d.cells, p.payload);
      var after := Delta.Apply(d.cells, p.payload).cells;
      assert forall i | 0 <= i < |d.cells| :: after[i] == CellAfterRuns(d, p, i);
      assert AllPrintable(after) <==> forall i | 0 <= i < |d.cells| :: Printable(CellAfterRuns(d, p, i));
    }
  }

  /** The decoder in full: exactly which frames decode, to what, with what left behind, and with which error the others
      are turned away. */
  lemma DecodesIff(d: DecoderState, data: seq<Byte>)
    ensures DecodeStep(d, data).1.Ok? <==> Unmarshal(data).Ok? && Decodable(d, Unmarshal(data).value)
    ensures DecodeStep(d, data).1.Ok? ==>
              var p, d' := Unmarshal(data).value, DecodeStep(d, data).0;
              && MadeBy(d, p, d'.cells)
              && d' == DecoderState(p.columns, p.rows, p.sequence, d'.cells)
              && DecodeStep(d, data).1.value
                 == Picture(p.frameType, p.sequence, p.millis, p.columns, p.rows, d'.cells)
    ensures DecodeStep(d, data).1.Err? ==>
              DecodeStep(d, data).1.error
              == match Unmarshal(data)
                 case Err(error) => error
                 case Ok(p) => if p.frameType == 2 && !Follows(d, p) then NeedsKeyframe else InvalidFrame
  {
    if Unmarshal(data).Ok? {
      AbsorbsIff(d, Unmarshal(data).value);
    }
  }

  // ---- what it costs ----

  /** The delta from `held` to `cells` that follows the frame the decoder decoded last. */
  predicate NextDelta(d: DecoderState, p: Packet, held: seq<Byte>, cells: seq<Byte>) {
    && p.frameType == FRAME_DELTA && p.sequence == Next(d.sequence)
    && (d.columns, d.rows) == (p.columns, p.rows)
    && |held| == |cells| == p.columns * p.rows <= 0x1_0000_0000
    && p.payload == Delta.Payload(held, cells)
  }

  /** Whatever a failed call did to the cells, the next genuine delta is still accepted, as long as the number of
      cells is right and what results can be printed. The picture handed out is the captured one if and only if the
      delta rewrites every cell that was spoilt; any other cell stays spoilt in a picture that nobody captured. */
  lemma NextDeltaAfterFailure(d: DecoderState, bad: seq<Byte>, p: Packet, cells: seq<Byte>)
    requires DecodeStep(d, bad).1.Err? && NextDelta(d, p, d.cells, cells)
    ensures var d' := DecodeStep(d, bad).0;
            var r := Absorb(d', p).1;
            && (|d'.cells| != |d.cells| ==> r == Err(NeedsKeyframe))
            && (|d'.cells| == |d.cells| ==>
                  var patched := Delta.Patched(d'.cells, d.cells, cells);
                  && r == (if AllPrintable(patched) then Ok(PictureOf(p, patched)) else Err(InvalidFrame))
                  && (patched == cells
                      <==> forall i | 0 <= i < |cells| && d'.cells[i] != d.cells[i] :: cells[i] != d.cells[i]))
  {
    var d' := DecodeStep(d, bad).0;
    DecodeIsSafe(d, bad);
    if |d'.cells| == |d.cells| {
      Delta.DeltaPatches(d'.cells, d.cells, cells);
    }
  }

  /** A delta that fails half way, and the delta that was meant to follow the picture it spoilt. */
  lemma HalfThenGenuine(d: DecoderState, b: Packet, bad: seq<Byte>, half: seq<Byte>,
                        g: Packet, good: seq<Byte>, shown: seq<Byte>)
    requires Unmarshal(bad) == Ok(b) && b.frameType == FRAME_DELTA && PassesGuards(d, b)
    requires Delta.Apply(d.cells, b.payload) == Delta.Applied(false, half)
    requires Unmarshal(good) == Ok(g) && g.frameType == FRAME_DELTA && PassesGuards(d, g)
    requires Delta.Apply(half, g.payload) == Delta.Applied(true, shown) && AllPrintable(shown)
    ensures DecodeStep(d, bad) == (d.(cells := half), Err(InvalidFrame))
    ensures DecodeStep(d.(cells := half), good).1 == Ok(PictureOf(g, shown))
  {
  }

  // ---- an instance on every picture of one row ----

  /** A decoder that shows a picture of one row. */
  function Showing(held: seq<Byte>): DecoderState {
    DecoderState(|held|, 1, 1, held)
  }

  /** A delta that writes the first cell and then breaks off. */
  function BrokenOff(held: seq<Byte>, first: Byte): Packet {
    Packet(FRAME_DELTA, 2, 0, |held|, 1, Delta.Entry(0, [first]) + [0])
  }

  /** The delta that an encoder makes when the last cell changes. */
  function Genuine(held: seq<Byte>, last: Byte): Packet
    requires held != []
  {
    Packet(FRAME_DELTA, 2, 0, |held|, 1, Delta.Payload(held, held[|held| - 1 := last]))
  }

  function Half(held: seq<Byte>, first: Byte): seq<Byte>
    requires held != []
  {
    held[0 := first]
  }

  function Mixture(held: seq<Byte>, first: Byte, last: Byte): seq<Byte>
    requires held != []
  {
    Half(held, first)[|held| - 1 := last]
  }

  lemma {:induction false} OnlyLastRuns(held: seq<Byte>, last: Byte, index: nat)
    requires held != [] && last != held[|held| - 1] && index < |held|
    ensures Delta.Runs(held, held[|held| - 1 := last], index) == Delta.Entry(|held| - 1, [last])
    decreases |held| - index
  {
    var n, cells := |held|, held[|held| - 1 := last];
    if index < n - 1 {
      OnlyLastRuns(held, last, index + 1);
    } else {
      assert Delta.RunEnd(held, cells, index, index) == n;
      assert cells[index..n] == [last] && Delta.Runs(held, cells, n) == [];
      assert Delta.Entry(index, [last]) + [] == Delta.Entry(index, [last]);
    }
  }

  lemma BothAreFrames(held: seq<Byte>, first: Byte, last: Byte)
    returns (bad: seq<Byte>, good: seq<Byte>)
    requires 1 <= |held| <= MAX_COLUMNS && last != held[|held| - 1]
    ensures Unmarshal(bad) == Ok(BrokenOff(held, first))
    ensures Unmarshal(good) == Ok(Genuine(held, last)) && |Genuine(held, last).payload| == 7
  {
    OnlyLastRuns(held, last, 0);
    UnmarshalMarshal(BrokenOff(held, first));
    UnmarshalMarshal(Genuine(held, last));
    bad, good := Marshal(BrokenOff(held, first)).value, Marshal(Genuine(held, last)).value;
  }

  lemma {:induction false} BothApply(held: seq<Byte>, first: Byte, last: Byte)
    requires 2 <= |held| <= MAX_COLUMNS
    ensures Delta.Apply(held, BrokenOff(held, first).payload) == Delta.Applied(false, Half(held, first))
    ensures Delta.Apply(Half(held, first), Genuine(held, last).payload)
         == Delta.Applied(true, Mixture(held, first, last))
  {
    var half, cells := Half(held, first), held[|held| - 1 := last];
    Delta.ParseEntry(0, [first], [0], |held|);
    assert Delta.Overwrite(held, 0, [first]) == half;
    Delta.DeltaPatches(half, held, cells);
    assert Delta.Patched(half, held, cells) == Mixture(held, first, last);
  }

  lemma GuardsPassed(held: seq<Byte>, first: Byte, last: Byte)
    requires held != []
    ensures PassesGuards(Showing(held), BrokenOff(held, first)) && PassesGuards(Showing(held), Genuine(held, last))
  {
  }

  lemma NobodysPicture(held: seq<Byte>, first: Byte, last: Byte)
    requires 2 <= |held| && AllPrintable(held) && Printable(first) && Printable(last)
    requires first != held[0] && last != held[|held| - 1]
    ensures var shown := Mixture(held, first, last);
            AllPrintable(shown) && shown != held && shown != held[|held| - 1 := last]
  {
    assert Mixture(held, first, last)[0] == first;
  }

  /** The broken delta is rejected and leaves its first cell behind; the genuine one then decodes with success, to a
      picture that is neither the one shown before nor the one captured. */
  lemma HalfAppliedDeltaShows(held: seq<Byte>, first: Byte, last: Byte)
    returns (bad: seq<Byte>, good: seq<Byte>)
    requires 8 <= |held| <= MAX_COLUMNS && AllPrintable(held) && Printable(first) && Printable(last)
    requires first != held[0] && last != held[|held| - 1]
    ensures Unmarshal(bad) == Ok(BrokenOff(held, first))
    ensures Unmarshal(good) == Ok(Genuine(held, last)) && |Genuine(held, last).payload| < |held|
    ensures DecodeStep(Showing(held), bad) == (Showing(held).(cells := Half(held, first)), Err(InvalidFrame))
    ensures var shown := Mixture(held, first, last);
            && DecodeStep(Showing(held).(cells := Half(held, first)), good).1
               == Ok(PictureOf(Genuine(held, last), shown))
            && shown != held && shown != held[|held| - 1 := last]
  {
    var shown := Mixture(held, first, last);
    bad, good := BothAreFrames(held, first, last);
    GuardsPassed(held, first, last);
    BothApply(held, first, last);
    NobodysPicture(held, first, last);
    HalfThenGenuine(Showing(held), BrokenOff(held, first), bad, Half(held, first), Genuine(held, last), good, shown);
  }
}
