/** Showing untrusted text on a terminal (internal/client/terminal/terminal.go). */
module Sanitize {
  import opened Bytes
  import opened Utf8

  /** The Unicode category Cf, as any table that leaves printable ASCII out. */
  type FormatTable = f: int -> bool | forall r :: 0x20 <= r <= 0x7e ==> !f(r) witness (r => false)

  const TAB: Byte := 0x09
  const NEWLINE: Byte := 0x0a
  const RETURN: Byte := 0x0d
  const BACKSLASH: Byte := 0x5c

  predicate IsControl(r: int) {
    0 <= r <= 0x1f || 0x7f <= r <= 0x9f
  }

  function HexDigit(n: nat): (digit: Byte)
    requires n < 16
    ensures 0x30 <= digit <= 0x46
  {
    if n < 10 then 0x30 + n else 0x41 + (n - 10)
  }

  /** Upper-case hexadecimal, at least `width` digits. */
  function Hex(n: nat, width: nat): (digits: seq<Byte>)
    ensures forall i | 0 <= i < |digits| :: 0x30 <= digits[i] <= 0x46
    decreases width, n
  {
    if n == 0 && width == 0 then []
    else Hex(n / 16, if width == 0 then 0 else width - 1) + [HexDigit(n % 16)]
  }

  /** What stands in the output for the character at the front of the input. */
  function Piece(formats: FormatTable, first: Byte, r: Scalar, size: nat): seq<Byte> {
    if r == RUNE_ERROR && size == 1 then [BACKSLASH, 0x78] + Hex(first, 2)              // \xNN
    else if r == TAB then [TAB]
    else if r == NEWLINE then [BACKSLASH, 0x6e]                                         // \n
    else if r == RETURN then [BACKSLASH, 0x72]                                          // \r
    else if IsControl(r) || formats(r) then [BACKSLASH, 0x75, 0x7b] + Hex(r, 4) + [0x7d] // \u{NNNN}
    else Encode(r)
  }

  function Sanitized(formats: FormatTable, value: seq<Byte>): seq<Byte> {
    if value == [] then []
    else
      var (r, size) := DecodeRune(value);
      Piece(formats, value[0], r, size) + Sanitized(formats, value[size..])
  }

  /** Characters that may reach the terminal: tab, and what is neither a control nor a format character. */
  predicate Harmless(formats: FormatTable, r: Scalar) {
    r == TAB || (!IsControl(r) && !formats(r))
  }

  predicate AllHarmless(formats: FormatTable, text: seq<Scalar>) {
    forall i | 0 <= i < |text| :: Harmless(formats, text[i])
  }

  /** Valid UTF-8 made of harmless characters only. */
  ghost predicate Clean(formats: FormatTable, bytes: seq<Byte>) {
    exists text: seq<Scalar> :: AllHarmless(formats, text) && bytes == EncodeAll(text)
  }

  lemma CleanAscii(formats: FormatTable, bytes: seq<Byte>)
    requires forall i | 0 <= i < |bytes| :: 0x20 <= bytes[i] <= 0x7e
    ensures Clean(formats, bytes)
  {
    var text: seq<Scalar> := bytes;
    EncodeAscii(text, bytes);
    assert AllHarmless(formats, text);
  }

  lemma CleanSingle(formats: FormatTable, r: Scalar)
    requires Harmless(formats, r)
    ensures Clean(formats, Encode(r))
  {
    EncodeSingle(r);
    assert AllHarmless(formats, [r]);
  }

  lemma CleanConcat(formats: FormatTable, a: seq<Byte>, b: seq<Byte>)
    requires Clean(formats, a) && Clean(formats, b)
    ensures Clean(formats, a + b)
  {
    var x: seq<Scalar> :| AllHarmless(formats, x) && a == EncodeAll(x);
    var y: seq<Scalar> :| AllHarmless(formats, y) && b == EncodeAll(y);
    EncodeConcat(x, y);
    assert AllHarmless(formats, x + y);
  }

  lemma PieceIsClean(formats: FormatTable, value: seq<Byte>)
    requires value != []
    ensures var (r, size) := DecodeRune(value); Clean(formats, Piece(formats, value[0], r, size))
  {
    var (r, size) := DecodeRune(value);
    if Malformed((r, size)) || r == NEWLINE || r == RETURN || (r != TAB && (IsControl(r) || formats(r))) {
      CleanAscii(formats, Piece(formats, value[0], r, size));
    } else {
      CleanSingle(formats, r);
    }
  }

  /** Whatever the input bytes, the output is clean. */
  lemma {:induction false} OutputIsClean(formats: FormatTable, value: seq<Byte>)
    ensures Clean(formats, Sanitized(formats, value))
  {
    if value == [] {
      CleanAscii(formats, []);
    } else {
      var (r, size) := DecodeRune(value);
      PieceIsClean(formats, value);
      OutputIsClean(formats, value[size..]);
      CleanConcat(formats, Piece(formats, value[0], r, size), Sanitized(formats, value[size..]));
    }
  }

  lemma {:induction false} HarmlessTextIsKept(formats: FormatTable, text: seq<Scalar>)
    requires AllHarmless(formats, text)
    ensures Sanitized(formats, EncodeAll(text)) == EncodeAll(text)
  {
    if text != [] {
      var bytes := EncodeAll(text);
      DecodeEncode(text[0], EncodeAll(text[1..]));
      var (r, size) := DecodeRune(bytes);
      assert bytes[size..] == EncodeAll(text[1..]);
      assert Harmless(formats, text[0]);
      assert r != RUNE_ERROR || size != 1;
      assert Piece(formats, bytes[0], r, size) == Encode(r);
      HarmlessTextIsKept(formats, text[1..]);
    }
  }

  /** Sanitizing leaves a string alone exactly when it is clean already. */
  lemma UnchangedIffClean(formats: FormatTable, value: seq<Byte>)
    ensures Sanitized(formats, value) == value <==> Clean(formats, value)
  {
    OutputIsClean(formats, value);
    if Clean(formats, value) {
      var text: seq<Scalar> :| AllHarmless(formats, text) && value == EncodeAll(text);
      HarmlessTextIsKept(formats, text);
    }
  }

  lemma {:induction false} SanitizeIsIdempotent(formats: FormatTable, value: seq<Byte>)
    ensures Sanitized(formats, Sanitized(formats, value)) == Sanitized(formats, value)
  {
    OutputIsClean(formats, value);
    UnchangedIffClean(formats, Sanitized(formats, value));
  }

  lemma HexLength(n: nat)
    requires n <= 0x10ffff
    ensures |Hex(n, 4)| <= if n < 0x1_0000 then 4 else 6
    ensures n < 0x100 ==> |Hex(n, 2)| == 2
  {
    assert n / 16 / 16 == n / 0x100 && n / 0x100 / 16 == n / 0x1000 && n / 0x1000 / 16 == n / 0x1_0000;
    assert |Hex(n, 4)| == 4 + |Hex(n / 0x1_0000, 0)| by {
      assert |Hex(n, 4)| == 1 + |Hex(n / 16, 3)| && |Hex(n / 16, 3)| == 1 + |Hex(n / 0x100, 2)|;
      assert |Hex(n / 0x100, 2)| == 1 + |Hex(n / 0x1000, 1)| && |Hex(n / 0x1000, 1)| == 1 + |Hex(n / 0x1_0000, 0)|;
    }
    var top := n / 0x1_0000;
    assert top <= 16 && top / 16 <= 1;
    assert |Hex(top, 0)| <= 2;
    assert |Hex(n, 2)| == 2 + |Hex(n / 0x100, 0)|;
  }

  lemma PieceIsShort(formats: FormatTable, value: seq<Byte>)
    requires value != []
    ensures var (r, size) := DecodeRune(value); |Piece(formats, value[0], r, size)| <= 8 * size
  {
    var (r, size) := DecodeRune(value);
    HexLength(value[0]);
    HexLength(r);
    if !Malformed((r, size)) {
      EncodeDecode(value);
    }
  }

  /** The worst case is a control byte, eight characters for one. */
  lemma {:induction false} OutputIsBounded(formats: FormatTable, value: seq<Byte>)
    ensures |Sanitized(formats, value)| <= 8 * |value|
  {
    if value != [] {
      var (r, size) := DecodeRune(value);
      PieceIsShort(formats, value);
      OutputIsBounded(formats, value[size..]);
    }
  }

  method SanitizeText(formats: FormatTable, value: seq<Byte>) returns (result: seq<Byte>)
    ensures result == Sanitized(formats, value)
  {
    result := [];
    var rest := value;
    while |rest| > 0
      invariant result + Sanitized(formats, rest) == Sanitized(formats, value)
      decreases |rest|
    {
      var firstByte := rest[0];
      var (r, size) := DecodeRune(rest);
      ghost var piece := Piece(formats, firstByte, r, size);
      assert result + Sanitized(formats, rest) == (result + piece) + Sanitized(formats, rest[size..]);
      rest := rest[size..];
      if r == RUNE_ERROR && size == 1 {
        result := result + ([BACKSLASH, 0x78] + Hex(firstByte, 2));
      } else if r == TAB {
        result := result + [TAB];
      } else if r == NEWLINE {
        result := result + [BACKSLASH, 0x6e];
      } else if r == RETURN {
        result := result + [BACKSLASH, 0x72];
      } else if IsControl(r) || formats(r) {
        result := result + ([BACKSLASH, 0x75, 0x7b] + Hex(r, 4) + [0x7d]);
      } else {
        result := result + Encode(r);
      }
    }
  }
}
