/** UTF-8 (section 4 of RFC 3629) with Go's treatment of malformed input: one byte at a time. */
module Utf8 {
  import opened Bytes

  /** A Unicode scalar value: a code point that is not a surrogate. */
  type Scalar = r: int | 0 <= r <= 0x10ffff && !(0xd800 <= r <= 0xdfff)

  const RUNE_ERROR: Scalar := 0xfffd

  function Encode(r: Scalar): (bytes: seq<Byte>)
    ensures 1 <= |bytes| <= 4
  {
    if r < 0x80 then [r]
    else if r < 0x800 then [0xc0 + r / 0x40, 0x80 + r % 0x40]
    else if r < 0x1_0000 then [0xe0 + r / 0x1000, 0x80 + r / 0x40 % 0x40, 0x80 + r % 0x40]
    else [0xf0 + r / 0x4_0000, 0x80 + r / 0x1000 % 0x40, 0x80 + r / 0x40 % 0x40, 0x80 + r % 0x40]
  }

  function EncodeAll(text: seq<Scalar>): seq<Byte> {
    if text == [] then [] else Encode(text[0]) + EncodeAll(text[1..])
  }

  predicate Continuation(b: Byte) {
    0x80 <= b <= 0xbf
  }

  /** The second byte is what rules out overlong forms, surrogates and values past U+10FFFF. */
  predicate SecondByte(first: Byte, second: Byte) {
    if first == 0xe0 then 0xa0 <= second <= 0xbf
    else if first == 0xed then 0x80 <= second <= 0x9f
    else if first == 0xf0 then 0x90 <= second <= 0xbf
    else if first == 0xf4 then 0x80 <= second <= 0x8f
    else Continuation(second)
  }

  /** How many bytes a leading byte announces; zero when no character starts with it. */
  function Announced(first: Byte): (size: nat)
    ensures size <= 4
  {
    if first < 0x80 then 1
    else if first < 0xc2 then 0
    else if first < 0xe0 then 2
    else if first < 0xf0 then 3
    else if first < 0xf5 then 4
    else 0
  }

  predicate WellFormed(s: seq<Byte>) {
    && s != []
    && var size := Announced(s[0]);
       && 0 < size <= |s|
       && (size > 1 ==> SecondByte(s[0], s[1]))
       && (size > 2 ==> Continuation(s[2]))
       && (size > 3 ==> Continuation(s[3]))
  }

  /** The number with these base-64 digits: the value bits of a multi-byte character. */
  function Join(a: int, b: int, c: int, d: int): int {
    ((a * 0x40 + b) * 0x40 + c) * 0x40 + d
  }

  /** The value bits of the first `Announced(s[0])` bytes. */
  function Value(s: seq<Byte>): int
    requires WellFormed(s)
  {
    match Announced(s[0])
    case 1 => s[0]
    case 2 => Join(0, 0, s[0] as int - 0xc0, s[1] as int - 0x80)
    case 3 => Join(0, s[0] as int - 0xe0, s[1] as int - 0x80, s[2] as int - 0x80)
    case _ => Join(s[0] as int - 0xf0, s[1] as int - 0x80, s[2] as int - 0x80, s[3] as int - 0x80)
  }

  /** The first character and its width; (RUNE_ERROR, 1) when the input is malformed there. */
  function DecodeRune(s: seq<Byte>): (decoded: (Scalar, nat))
    requires s != []
    ensures 1 <= decoded.1 <= 4 && decoded.1 <= |s|
  {
    if !WellFormed(s) then (RUNE_ERROR, 1) else (Value(s), Announced(s[0]))
  }

  predicate Malformed(decoded: (Scalar, nat)) {
    decoded == (RUNE_ERROR, 1)
  }

  lemma JoinDigits(a: int, b: int, c: int, d: int)
    requires 0 <= a && 0 <= b < 0x40 && 0 <= c < 0x40 && 0 <= d < 0x40
    ensures var r := Join(a, b, c, d);
            r / 0x4_0000 == a && r / 0x1000 % 0x40 == b && r / 0x40 % 0x40 == c && r % 0x40 == d
    ensures a == 0 ==> Join(a, b, c, d) / 0x1000 == b
    ensures a == b == 0 ==> Join(a, b, c, d) / 0x40 == c
  {
    var r := Join(a, b, c, d);
    assert r == 0x40 * ((a * 0x40 + b) * 0x40 + c) + d;
    assert r / 0x40 == (a * 0x40 + b) * 0x40 + c;
    assert r / 0x1000 == a * 0x40 + b;
  }

  lemma DigitsJoin(r: int)
    requires 0 <= r
    ensures Join(r / 0x4_0000, r / 0x1000 % 0x40, r / 0x40 % 0x40, r % 0x40) == r
  {
    assert r == r / 0x40 * 0x40 + r % 0x40;
    var high := r / 0x40;
    assert high == high / 0x40 * 0x40 + high % 0x40 && high / 0x40 == r / 0x1000;
    var higher := r / 0x1000;
    assert higher == higher / 0x40 * 0x40 + higher % 0x40 && higher / 0x40 == r / 0x4_0000;
  }

  lemma EncodedIsWellFormed(r: Scalar, s: seq<Byte>)
    requires Encode(r) <= s
    ensures WellFormed(s) && Announced(s[0]) == |Encode(r)|
  {
    assert forall i | 0 <= i < |Encode(r)| :: s[i] == Encode(r)[i];
  }

  /** Decoding finds every encoded character, whatever follows it. */
  lemma DecodeEncode(r: Scalar, rest: seq<Byte>)
    ensures DecodeRune(Encode(r) + rest) == (r, |Encode(r)|)
    ensures !Malformed(DecodeRune(Encode(r) + rest))
  {
    var s := Encode(r) + rest;
    EncodedIsWellFormed(r, s);
    DigitsJoin(r);
    assert Value(s) == r by {
      assert forall i | 0 <= i < |Encode(r)| :: s[i] == Encode(r)[i];
    }
  }

  lemma EncodeDecodeShort(s: seq<Byte>)
    requires WellFormed(s) && Announced(s[0]) <= 2
    ensures Encode(DecodeRune(s).0) == s[..Announced(s[0])]
  {
    if Announced(s[0]) == 2 {
      JoinDigits(0, 0, s[0] as int - 0xc0, s[1] as int - 0x80);
      assert s[..2] == [s[0], s[1]];
    }
  }

  lemma EncodeDecodeThree(s: seq<Byte>)
    requires WellFormed(s) && Announced(s[0]) == 3
    ensures Encode(DecodeRune(s).0) == s[..3]
  {
    JoinDigits(0, s[0] as int - 0xe0, s[1] as int - 0x80, s[2] as int - 0x80);
    assert s[..3] == [s[0], s[1], s[2]];
  }

  lemma EncodeDecodeFour(s: seq<Byte>)
    requires WellFormed(s) && Announced(s[0]) == 4
    ensures Encode(DecodeRune(s).0) == s[..4]
  {
    JoinDigits(s[0] as int - 0xf0, s[1] as int - 0x80, s[2] as int - 0x80, s[3] as int - 0x80);
    assert s[..4] == [s[0], s[1], s[2], s[3]];
  }

  /** What decodes was the encoding of the character found: no other byte string is accepted for it. */
  lemma EncodeDecode(s: seq<Byte>)
    requires s != [] && !Malformed(DecodeRune(s))
    ensures var (r, size) := DecodeRune(s); Encode(r) == s[..size]
  {
    match Announced(s[0])
    case 3 => EncodeDecodeThree(s);
    case 4 => EncodeDecodeFour(s);
    case _ => EncodeDecodeShort(s);
  }

  lemma {:induction false} EncodeConcat(a: seq<Scalar>, b: seq<Scalar>)
    ensures EncodeAll(a + b) == EncodeAll(a) + EncodeAll(b)
  {
    if a == [] {
      assert a + b == b;
    } else {
      assert (a + b)[0] == a[0] && (a + b)[1..] == a[1..] + b;
      EncodeConcat(a[1..], b);
    }
  }

  lemma EncodeSingle(r: Scalar)
    ensures EncodeAll([r]) == Encode(r)
  {
    assert EncodeAll([]) == [];
    assert EncodeAll([r]) == Encode(r) + EncodeAll([r][1..]);
  }

  /** ASCII text is its own encoding. */
  lemma {:induction false} EncodeAscii(text: seq<Scalar>, bytes: seq<Byte>)
    requires text == bytes && forall i | 0 <= i < |text| :: text[i] < 0x80
    ensures EncodeAll(text) == bytes
  {
    if text != [] {
      EncodeAscii(text[1..], bytes[1..]);
      assert bytes == [bytes[0]] + bytes[1..];
    }
  }
}
