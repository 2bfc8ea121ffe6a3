/** The binary frame: a 26-byte header and a payload (internal/client/asciivideo/codec.go). */
module Frame {
  import opened Bytes

  const VERSION: Byte := 1
  const CHARSET_MONOCHROME: Byte := 1
  const COLOR_MONOCHROME: Byte := 0
  const MAX_COLUMNS := 200
  const MAX_ROWS := 80
  const MAX_ENCODED_SIZE := 0x1_0000
  const HEADER_SIZE := 26
  const MAGIC: seq<Byte> := [0x54, 0x56]  // "TV"
  const FRAME_KEY: Byte := 1
  const FRAME_DELTA: Byte := 2

  /** Milliseconds since the Unix epoch, as Go's int64. */
  type Millis = n: int | -0x8000_0000_0000_0000 <= n < 0x8000_0000_0000_0000

  datatype Error = InvalidFrame | NeedsKeyframe
  datatype Result<+T> = Ok(value: T) | Err(error: Error)

  datatype Packet = Packet(
    frameType: Byte, sequence: Uint32, millis: Millis, columns: int, rows: int, payload: seq<Byte>)

  predicate ValidDimensions(columns: int, rows: int) {
    1 <= columns <= MAX_COLUMNS && 1 <= rows <= MAX_ROWS
  }

  predicate Printable(cell: Byte) {
    0x20 <= cell <= 0x7e
  }

  predicate AllPrintable(cells: seq<Byte>) {
    forall i | 0 <= i < |cells| :: Printable(cells[i])
  }

  /** The conversions between int64 and uint64: two's complement. */
  function Unsigned(millis: Millis): nat {
    if millis < 0 then millis + 0x1_0000_0000_0000_0000 else millis
  }

  function Signed(n: nat): Millis
    requires n < 0x1_0000_0000_0000_0000
  {
    if n >= 0x8000_0000_0000_0000 then n - 0x1_0000_0000_0000_0000 else n
  }

  function Layout(p: Packet): (data: seq<Byte>)
    requires ValidDimensions(p.columns, p.rows)
    ensures |data| == HEADER_SIZE + |p.payload|
  {
    MAGIC + [VERSION, p.frameType] + BigEndian(p.sequence, 4) + BigEndian(Unsigned(p.millis), 8)
    + BigEndian(p.columns, 2) + BigEndian(p.rows, 2) + [CHARSET_MONOCHROME, COLOR_MONOCHROME]
    + BigEndian(|p.payload|, 4) + p.payload
  }

  function Marshal(p: Packet): Result<seq<Byte>> {
    if !ValidDimensions(p.columns, p.rows) || HEADER_SIZE + |p.payload| > MAX_ENCODED_SIZE
    then Err(InvalidFrame)
    else Ok(Layout(p))
  }

  function Unmarshal(data: seq<Byte>): Result<Packet> {
    if |data| < HEADER_SIZE || |data| > MAX_ENCODED_SIZE || data[0] != MAGIC[0] || data[1] != MAGIC[1]
    then Err(InvalidFrame)
    else if data[2] != VERSION then Err(InvalidFrame)
    else
      var columns, rows := Uint(data[16..18]), Uint(data[18..20]);
      if !ValidDimensions(columns, rows) then Err(InvalidFrame)
      else if data[20] != CHARSET_MONOCHROME || data[21] != COLOR_MONOCHROME then Err(InvalidFrame)
      else if Uint(data[22..26]) != |data| - HEADER_SIZE then Err(InvalidFrame)
      else
        FieldsFit(data);
        Ok(Packet(data[3], Uint(data[4..8]), Signed(Uint(data[8..16])), columns, rows, data[HEADER_SIZE..]))
  }

  lemma FieldsFit(data: seq<Byte>)
    requires |data| >= HEADER_SIZE
    ensures Uint(data[4..8]) < 0x1_0000_0000
    ensures Uint(data[8..16]) < 0x1_0000_0000_0000_0000
  {
    CapacityOfFields();
    BigEndianOfUint(data[4..8]);
    BigEndianOfUint(data[8..16]);
  }

  lemma LayoutFields(p: Packet)
    requires ValidDimensions(p.columns, p.rows)
    ensures var data := Layout(p);
            && data[0] == MAGIC[0] && data[1] == MAGIC[1] && data[2] == VERSION && data[3] == p.frameType
            && data[4..8] == BigEndian(p.sequence, 4) && data[8..16] == BigEndian(Unsigned(p.millis), 8)
            && data[16..18] == BigEndian(p.columns, 2) && data[18..20] == BigEndian(p.rows, 2)
            && data[20] == CHARSET_MONOCHROME && data[21] == COLOR_MONOCHROME
            && data[22..26] == BigEndian(|p.payload|, 4) && data[HEADER_SIZE..] == p.payload
  {
  }

  lemma UnmarshalMarshal(p: Packet)
    requires Marshal(p).Ok?
    ensures Unmarshal(Marshal(p).value) == Ok(p)
  {
    LayoutFields(p);
    CapacityOfFields();
    UintOfBigEndian(p.sequence, 4);
    UintOfBigEndian(Unsigned(p.millis), 8);
    UintOfBigEndian(p.columns, 2);
    UintOfBigEndian(p.rows, 2);
    UintOfBigEndian(|p.payload|, 4);
  }

  lemma SplitHeader(data: seq<Byte>)
    requires |data| >= HEADER_SIZE
    ensures data == data[..2] + data[2..4] + data[4..8] + data[8..16]
                    + data[16..18] + data[18..20] + data[20..22]
                    + data[22..26] + data[HEADER_SIZE..]
  {
    assert data[..26] == data[..22] + data[22..26];
    assert data[..22] == data[..18] + data[18..20] + data[20..22];
    assert data[..18] == data[..8] + data[8..16] + data[16..18];
    assert data[..8] == data[..2] + data[2..4] + data[4..8];
  }

  lemma MarshalUnmarshal(data: seq<Byte>)
    requires Unmarshal(data).Ok?
    ensures Marshal(Unmarshal(data).value) == Ok(data)
  {
    var p := Unmarshal(data).value;
    FieldsFit(data);
    BigEndianOfUint(data[4..8]);
    BigEndianOfUint(data[8..16]);
    BigEndianOfUint(data[16..18]);
    BigEndianOfUint(data[18..20]);
    BigEndianOfUint(data[22..26]);
    assert data[..2] == MAGIC;
    assert data[2..4] == [VERSION, p.frameType];
    assert data[20..22] == [CHARSET_MONOCHROME, COLOR_MONOCHROME];
    SplitHeader(data);
  }

  /** The header is a canonical encoding: a byte string is accepted exactly when it is what
      marshalling the packet read from it produces. */
  lemma HeaderIsCanonical(p: Packet, data: seq<Byte>)
    ensures Marshal(p) == Ok(data) <==> Unmarshal(data) == Ok(p)
  {
    if Marshal(p) == Ok(data) {
      UnmarshalMarshal(p);
    }
    if Unmarshal(data) == Ok(p) {
      MarshalUnmarshal(data);
    }
  }

  /** Fills one buffer field by field. */
  method MarshalFrame(frameType: Byte, sequence: Uint32, millis: Millis, columns: int, rows: int, payload: seq<Byte>)
    returns (encoded: Result<seq<Byte>>)
    ensures encoded == Marshal(Packet(frameType, sequence, millis, columns, rows, payload))
  {
    if !ValidDimensions(columns, rows) { return Err(InvalidFrame); }
    if HEADER_SIZE + |payload| > MAX_ENCODED_SIZE { return Err(InvalidFrame); }
    var result := new Byte[HEADER_SIZE + |payload|];
    Copy(result, 0, MAGIC);
    result[2] := VERSION;
    result[3] := frameType;
    assert result[..4] == MAGIC + [VERSION, frameType];
    Copy(result, 4, BigEndian(sequence, 4));
    Copy(result, 8, BigEndian(Unsigned(millis), 8));
    Copy(result, 16, BigEndian(columns, 2));
    Copy(result, 18, BigEndian(rows, 2));
    ghost var before := result[..20];
    result[20] := CHARSET_MONOCHROME;
    result[21] := COLOR_MONOCHROME;
    assert result[..22] == before + [CHARSET_MONOCHROME, COLOR_MONOCHROME];
    Copy(result, 22, BigEndian(|payload|, 4));
    Copy(result, HEADER_SIZE, payload);
    assert result[..] == Layout(Packet(frameType, sequence, millis, columns, rows, payload));
    return Ok(result[..]);
  }
}
