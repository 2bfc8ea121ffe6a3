/** The wire format in plain numbers, byte for byte (the tables of docs/ascii-frame-protocol.md). */
module Wire {
  import opened Bytes
  import opened Clock
  import opened Frame
  import Codec
  import Delta

  /** Two and four bytes in network byte order. */
  function Word(b: seq<Byte>, at: nat): nat
    requires at + 2 <= |b|
  {
    0x100 * (b[at] as int) + b[at + 1]
  }

  function LongWord(b: seq<Byte>, at: nat): nat
    requires at + 4 <= |b|
  {
    0x1_0000 * Word(b, at) + Word(b, at + 2)
  }

  lemma UintIsWord(b: seq<Byte>, at: nat)
    requires at + 2 <= |b|
    ensures Uint(b[at..at + 2]) == Word(b, at)
  {
    var s := b[at..at + 2];
    assert s[..1] == [b[at]] && [b[at]][..0] == [];
    assert Uint([]) == 0 && Uint([b[at]]) == b[at];
  }

  lemma UintIsLongWord(b: seq<Byte>, at: nat)
    requires at + 4 <= |b|
    ensures Uint(b[at..at + 4]) == LongWord(b, at)
  {
    var s := b[at..at + 4];
    UintIsWord(b, at);
    assert s[..3][..2] == b[at..at + 2];
    assert Uint(s[..3]) == Uint(s[..3][..2]) * 0x100 + b[at + 2];
    assert Uint(s) == Uint(s[..3]) * 0x100 + b[at + 3];
  }

  lemma UintIsTwoLongWords(b: seq<Byte>, at: nat)
    requires at + 8 <= |b|
    ensures Uint(b[at..at + 8]) == LongWord(b, at) * 0x1_0000_0000 + LongWord(b, at + 4)
  {
    var s := b[at..at + 8];
    UintIsLongWord(b, at);
    assert s[..7][..6] == s[..6] && s[..6][..5] == s[..5] && s[..5][..4] == b[at..at + 4];
    assert Uint(s[..5]) == Uint(b[at..at + 4]) * 0x100 + b[at + 4];
    assert Uint(s[..6]) == Uint(s[..5]) * 0x100 + b[at + 5];
    assert Uint(s[..7]) == Uint(s[..6]) * 0x100 + b[at + 6];
    assert Uint(s) == Uint(s[..7]) * 0x100 + b[at + 7];
  }

  /** What marshalling can send: 1 to 200 columns, 1 to 80 rows, and no more than 64 KiB in all. */
  lemma SendableIff(p: Packet)
    ensures Marshal(p).Ok?
            <==> 1 <= p.columns <= 200 && 1 <= p.rows <= 80 && 26 + |p.payload| <= 65536
  {
  }

  /** What unmarshalling accepts: exactly the byte strings with the header of the table and a payload of the size it
      announces. */
  lemma AcceptedIff(data: seq<Byte>)
    ensures Unmarshal(data).Ok?
            <==> && 26 <= |data| <= 65536
                 && data[0] == 'T' as int && data[1] == 'V' as int && data[2] == 1
                 && 1 <= Word(data, 16) <= 200 && 1 <= Word(data, 18) <= 80
                 && data[20] == 1 && data[21] == 0
                 && LongWord(data, 22) == |data| - 26
  {
    if 26 <= |data| {
      UintIsWord(data, 16);
      UintIsWord(data, 18);
      UintIsLongWord(data, 22);
    }
  }

  /** Where each field of an accepted frame lies, and so of every frame sent. */
  lemma FieldsOnTheWire(p: Packet, data: seq<Byte>)
    requires Marshal(p) == Ok(data)
    ensures |data| == 26 + |p.payload|
    ensures data[0] == 'T' as int && data[1] == 'V' as int && data[2] == 1 && data[3] == p.frameType
    ensures p.sequence == LongWord(data, 4)
    ensures var n := LongWord(data, 8) * 0x1_0000_0000 + LongWord(data, 12);
            p.millis == if data[8] < 0x80 then n else n - 0x1_0000_0000_0000_0000
    ensures p.columns == Word(data, 16) && p.rows == Word(data, 18) && data[20] == 1 && data[21] == 0
    ensures |p.payload| == LongWord(data, 22) && p.payload == data[26..]
  {
    UnmarshalMarshal(p);
    UintIsLongWord(data, 4);
    UintIsTwoLongWords(data, 8);
    UintIsWord(data, 16);
    UintIsWord(data, 18);
    UintIsLongWord(data, 22);
  }

  /** A run on the wire. */
  lemma RunOnTheWire(start: Uint32, run: seq<Byte>)
    requires |run| <= 0xffff
    ensures var entry := Delta.Entry(start, run);
            |entry| == 6 + |run| && start == LongWord(entry, 0) && |run| == Word(entry, 4) && entry[6..] == run
  {
    var entry := Delta.Entry(start, run);
    CapacityOfFields();
    UintOfBigEndian(start, 4);
    UintOfBigEndian(|run|, 2);
    assert entry[0..4] == BigEndian(start, 4) && entry[4..6] == BigEndian(|run|, 2);
    UintIsLongWord(entry, 0);
    UintIsWord(entry, 4);
  }

  /** The runs a payload is read as: exactly those that are whole, not empty and inside the picture. */
  lemma RunsAreRead(payload: seq<Byte>, size: nat)
    ensures Delta.Parse(payload, size).Run?
            <==> |payload| >= 6 && 0 < Word(payload, 4) <= |payload| - 6
                 && LongWord(payload, 0) + Word(payload, 4) <= size
    ensures Delta.Parse(payload, size).Run? ==>
              var length := Word(payload, 4);
              Delta.Parse(payload, size)
              == Delta.Run(LongWord(payload, 0), payload[6..6 + length], payload[6 + length..])
  {
    if |payload| >= 6 {
      UintIsLongWord(payload, 0);
      UintIsWord(payload, 4);
      assert payload[0..4] == payload[..4];
    }
  }

  /** The two frame types. */
  lemma KeyIsOneDeltaIsTwo()
    ensures FRAME_KEY == 1 && FRAME_DELTA == 2
  {
  }

  /** The timestamp of a frame denotes the instant of its picture, to the millisecond: the milliseconds since the Unix
      epoch, which is 62135596800 seconds after the zero time. */
  lemma StampTellsTheTime(e: Codec.EncoderState, cells: seq<Byte>, at: Time)
    requires -0x8000_0000_0000_0000 <= (at - 62_135_596_800_000_000_000) / 1_000_000 < 0x8000_0000_0000_0000
    ensures var millis := Codec.Outgoing(e, cells, at).millis;
            0 <= at - (62_135_596_800_000_000_000 + millis * 1_000_000) < 1_000_000
  {
    var exact := UnixMillis(at);
    assert at / 1_000_000 - 62_135_596_800_000 == (at - 62_135_596_800_000_000_000) / 1_000_000;
    Wraps(exact);
  }

  lemma Wraps(n: int)
    requires -0x8000_0000_0000_0000 <= n < 0x8000_0000_0000_0000
    ensures Signed(n % 0x1_0000_0000_0000_0000) == n
  {
  }
}
