/** Reading sanitized text back: what the escapes stand for, and when they can be told from the text around them
    (internal/client/terminal/terminal.go). */
module Escapes {
  import opened Bytes
  import opened Utf8
  import opened Sanitize

  // ---- a reader of the four escapes ----

  predicate IsHex(b: Byte) {
    0x30 <= b <= 0x39 || 0x41 <= b <= 0x46
  }

  /** How many hexadecimal digits come first. */
  function HexRun(s: seq<Byte>): (n: nat)
    ensures n <= |s| && forall i | 0 <= i < n :: IsHex(s[i])
  {
    if s != [] && IsHex(s[0]) then 1 + HexRun(s[1..]) else 0
  }

  function DigitValue(b: Byte): (value: nat)
    requires IsHex(b)
    ensures value < 0x10
  {
    if b <= 0x39 then b - 0x30 else b - 0x41 + 10
  }

  function HexValue(digits: seq<Byte>): nat
    requires forall i | 0 <= i < |digits| :: IsHex(digits[i])
  {
    if digits == [] then 0
    else 0x10 * HexValue(digits[..|digits| - 1]) + DigitValue(digits[|digits| - 1])
  }

  datatype Escape = NoEscape | Escape(size: nat, bytes: seq<Byte>)

  /** The escape a text starts with, and the bytes it stands for: \n, \r, \xHH, or \u{H...} of four to six digits. */
  function FrontEscape(s: seq<Byte>): (escape: Escape)
    ensures escape.Escape? ==> 1 <= |escape.bytes| < escape.size <= |s| && s[0] == '\\' as int
  {
    if |s| < 2 || s[0] != '\\' as int then NoEscape
    else if s[1] == 'n' as int then Escape(2, [0x0a])
    else if s[1] == 'r' as int then Escape(2, [0x0d])
    else if s[1] == 'x' as int then ByteEscape(s[2..])
    else if s[1] == 'u' as int && |s| > 2 && s[2] == '{' as int then UnicodeEscape(s[3..])
    else NoEscape
  }

  /** What follows \x, read. */
  function ByteEscape(s: seq<Byte>): (escape: Escape)
    ensures escape.Escape? ==> |escape.bytes| == 1 && escape.size == 4 <= |s| + 2
  {
    if |s| >= 2 && IsHex(s[0]) && IsHex(s[1]) then Escape(4, [0x10 * DigitValue(s[0]) + DigitValue(s[1])]) else NoEscape
  }

  /** What follows \u{, read. */
  function UnicodeEscape(s: seq<Byte>): (escape: Escape)
    ensures escape.Escape? ==> 1 <= |escape.bytes| <= 4 && 8 <= escape.size <= |s| + 3
  {
    var n := HexRun(s);
    if n < 4 || n > 6 || n == |s| || s[n] != '}' as int then NoEscape
    else
      var value := HexValue(s[..n]);
      if value <= 0x10ffff && !(0xd800 <= value <= 0xdfff) then Escape(n + 4, Encode(value)) else NoEscape
  }

  /** Every escape replaced by what it stands for. */
  function Unescape(s: seq<Byte>): seq<Byte> {
    if s == [] then []
    else
      match FrontEscape(s)
      case NoEscape => [s[0]] + Unescape(s[1..])
      case Escape(size, bytes) => bytes + Unescape(s[size..])
  }

  /** No escape starts anywhere in the text. */
  ghost predicate EscapeFree(s: seq<Byte>) {
    forall i | 0 <= i < |s| :: FrontEscape(s[i..]).NoEscape?
  }

  // ---- the pieces ----

  lemma {:induction false} HexRunStops(a: seq<Byte>, rest: seq<Byte>)
    requires rest == [] || !IsHex(rest[0])
    ensures HexRun(a + rest) == HexRun(a)
  {
    if a == [] {
      assert a + rest == rest;
    } else {
      HexRunStops(a[1..], rest);
      assert (a + rest)[1..] == a[1..] + rest;
    }
  }

  lemma {:induction false} AllHex(digits: seq<Byte>)
    requires forall i | 0 <= i < |digits| :: IsHex(digits[i])
    ensures HexRun(digits) == |digits|
  {
    if digits != [] {
      AllHex(digits[1..]);
    }
  }

  lemma {:induction false} HexIsRead(n: nat, width: nat)
    ensures forall i | 0 <= i < |Hex(n, width)| :: IsHex(Hex(n, width)[i])
    ensures HexValue(Hex(n, width)) == n
    ensures |Hex(n, width)| >= width
    decreases width, n
  {
    if n != 0 || width != 0 {
      var high := Hex(n / 16, if width == 0 then 0 else width - 1);
      HexIsRead(n / 16, if width == 0 then 0 else width - 1);
      assert Hex(n, width) == high + [HexDigit(n % 16)];
      assert Hex(n, width)[..|high|] == high;
    }
  }

  lemma PairIsRead(digits: seq<Byte>, b: Byte, rest: seq<Byte>)
    requires |digits| == 2 && (forall i | 0 <= i < |digits| :: IsHex(digits[i])) && HexValue(digits) == b
    ensures FrontEscape([BACKSLASH, 0x78] + digits + rest) == Escape(4, [b])
  {
    var s := [BACKSLASH, 0x78] + digits + rest;
    assert s[2..] == digits + rest && s[0] == BACKSLASH && s[1] == 0x78;
    assert HexValue(digits[..1]) == 0x10 * HexValue(digits[..1][..0]) + DigitValue(digits[0]);
    assert HexValue(digits[..1][..0]) == 0;
  }

  lemma DigitsAreRead(digits: seq<Byte>, rest: seq<Byte>, r: Scalar)
    requires 4 <= |digits| <= 6 && (forall i | 0 <= i < |digits| :: IsHex(digits[i])) && HexValue(digits) == r
    ensures UnicodeEscape(digits + [0x7d] + rest) == Escape(|digits| + 4, Encode(r))
  {
    var s := digits + [0x7d] + rest;
    AllHex(digits);
    HexRunStops(digits, [0x7d] + rest);
    assert s == digits + ([0x7d] + rest);
    assert s[..|digits|] == digits && s[|digits|] == 0x7d;
  }

  lemma BracesAreRead(digits: seq<Byte>, rest: seq<Byte>, r: Scalar)
    requires 4 <= |digits| <= 6 && (forall i | 0 <= i < |digits| :: IsHex(digits[i])) && HexValue(digits) == r
    ensures FrontEscape([BACKSLASH, 0x75, 0x7b] + digits + [0x7d] + rest) == Escape(|digits| + 4, Encode(r))
  {
    DigitsAreRead(digits, rest, r);
    var inner := digits + [0x7d] + rest;
    assert [BACKSLASH, 0x75, 0x7b] + digits + [0x7d] + rest == [BACKSLASH, 0x75, 0x7b] + inner;
    BraceFront(inner);
  }

  lemma BraceFront(inner: seq<Byte>)
    ensures FrontEscape([BACKSLASH, 0x75, 0x7b] + inner) == UnicodeEscape(inner)
  {
    assert ([BACKSLASH, 0x75, 0x7b] + inner)[3..] == inner;
  }

  /** The character at the front is put into the output as it is. */
  predicate Kept(formats: FormatTable, value: seq<Byte>)
    requires value != []
  {
    var (r, size) := DecodeRune(value);
    !Malformed((r, size)) && Harmless(formats, r)
  }

  lemma KeptPiece(formats: FormatTable, value: seq<Byte>)
    requires value != [] && Kept(formats, value)
    ensures var (r, size) := DecodeRune(value); Piece(formats, value[0], r, size) == value[..size]
    ensures Sanitized(formats, value) == value[..DecodeRune(value).1] + Sanitized(formats, value[DecodeRune(value).1..])
  {
    EncodeDecode(value);
  }

  /** An escape names the bytes it replaces. */
  lemma EscapedPiece(formats: FormatTable, value: seq<Byte>, rest: seq<Byte>)
    requires value != [] && !Kept(formats, value)
    ensures var (r, size) := DecodeRune(value);
            var piece := Piece(formats, value[0], r, size);
            FrontEscape(piece + rest) == Escape(|piece|, value[..size])
  {
    var (r, size) := DecodeRune(value);
    if Malformed((r, size)) {
      HexLength(value[0]);
      HexIsRead(value[0], 2);
      PairIsRead(Hex(value[0], 2), value[0], rest);
    } else {
      EncodeDecode(value);
      HexLength(r);
      HexIsRead(r, 4);
      BracesAreRead(Hex(r, 4), rest, r);
    }
  }

  // ---- text between them ----

  predicate Plain(b: Byte) {
    0x20 <= b <= 0x7e && b != BACKSLASH
  }

  function PlainRun(s: seq<Byte>): (n: nat)
    ensures n <= |s| && (forall i | 0 <= i < n :: Plain(s[i])) && (n < |s| ==> !Plain(s[n]))
  {
    if s != [] && Plain(s[0]) then 1 + PlainRun(s[1..]) else 0
  }

  lemma AsciiPiece(formats: FormatTable, s: seq<Byte>)
    requires s != [] && 0x20 <= s[0] <= 0x7e
    ensures Sanitized(formats, s) == [s[0]] + Sanitized(formats, s[1..])
  {
    assert DecodeRune(s) == (s[0] as Scalar, 1);
    assert !formats(s[0]) && Encode(s[0]) == [s[0]];
  }

  /** The first `n` bytes are in the output as they are. */
  ghost predicate KeptUpTo(formats: FormatTable, value: seq<Byte>, n: nat) {
    n <= |value| && Sanitized(formats, value) == value[..n] + Sanitized(formats, value[n..])
  }

  lemma KeptOneMore(formats: FormatTable, value: seq<Byte>, n: nat)
    requires n < |value| && 0x20 <= value[n] <= 0x7e && KeptUpTo(formats, value, n)
    ensures KeptUpTo(formats, value, n + 1)
  {
    AsciiPiece(formats, value[n..]);
    assert value[n..][1..] == value[n + 1..];
    MoveOne(value, n, Sanitized(formats, value[n + 1..]));
  }

  lemma MoveOne(value: seq<Byte>, n: nat, tail: seq<Byte>)
    requires n < |value|
    ensures value[..n] + ([value[n..][0]] + tail) == value[..n + 1] + tail
  {
  }

  lemma AsciiIsKept(formats: FormatTable, value: seq<Byte>, n: nat)
    requires n <= |value| && forall i | 0 <= i < n :: 0x20 <= value[i] <= 0x7e
    ensures KeptUpTo(formats, value, n)
  {
    assert value[0..] == value;
    for k := 0 to n
      invariant KeptUpTo(formats, value, k)
    {
      KeptOneMore(formats, value, k);
    }
  }

  lemma StillNotPlain(formats: FormatTable, rest: seq<Byte>)
    requires rest == [] || !Plain(rest[0])
    ensures var s := Sanitized(formats, rest); s == [] || !Plain(s[0])
  {
    if rest != [] {
      if Kept(formats, rest) {
        KeptPiece(formats, rest);
      }
    }
  }

  lemma UnicodeIsLocal(head: seq<Byte>, rest: seq<Byte>)
    requires rest == [] || !Plain(rest[0])
    ensures UnicodeEscape(head + rest) == UnicodeEscape(head)
  {
    HexRunStops(head, rest);
    assert (head + rest)[..HexRun(head)] == head[..HexRun(head)];
  }

  lemma ByteIsLocal(head: seq<Byte>, rest: seq<Byte>)
    requires rest == [] || !Plain(rest[0])
    ensures ByteEscape(head + rest) == ByteEscape(head)
  {
  }

  /** Whether an escape comes first is decided before the first byte that is not plain. */
  lemma EscapeIsLocal(head: seq<Byte>, rest: seq<Byte>)
    requires head != [] && (rest == [] || !Plain(rest[0]))
    ensures FrontEscape(head + rest) == FrontEscape(head)
  {
    if |head| >= 2 && head[1] == 'x' as int {
      assert (head + rest)[2..] == head[2..] + rest;
      ByteIsLocal(head[2..], rest);
    } else if |head| >= 3 && head[1] == 'u' as int {
      assert (head + rest)[3..] == head[3..] + rest;
      UnicodeIsLocal(head[3..], rest);
    }
  }

  lemma EscapeIsPlain(s: seq<Byte>)
    requires FrontEscape(s).Escape?
    ensures forall i | 0 <= i < FrontEscape(s).size :: 0x20 <= s[i] <= 0x7e
  {
  }

  /** A backslash in the input starts an escape of the output exactly when it starts one of the input. */
  lemma SameFront(formats: FormatTable, value: seq<Byte>)
    requires value != [] && value[0] == BACKSLASH
    ensures FrontEscape(Sanitized(formats, value)) == FrontEscape(value)
  {
    var n := 1 + PlainRun(value[1..]);
    var head, rest := value[..n], value[n..];
    assert value == head + rest;
    assert forall i | 1 <= i < n :: Plain(value[1..][i - 1]) && value[i] == value[1..][i - 1];
    AsciiIsKept(formats, value, n);
    StillNotPlain(formats, rest);
    EscapeIsLocal(head, rest);
    EscapeIsLocal(head, Sanitized(formats, rest));
  }

  lemma EscapeIsKept(formats: FormatTable, value: seq<Byte>)
    requires FrontEscape(value).Escape?
    ensures var n := FrontEscape(value).size;
            Sanitized(formats, value) == value[..n] + Sanitized(formats, value[n..])
  {
    var n := FrontEscape(value).size;
    EscapeIsPlain(value);
    AsciiIsKept(formats, value, n);
  }

  lemma {:induction false} UnescapeKeeps(s: seq<Byte>, n: nat)
    requires n <= |s| && forall i | 0 <= i < n :: s[i] != BACKSLASH
    ensures Unescape(s) == s[..n] + Unescape(s[n..])
  {
    if n == 0 {
      assert s[0..] == s;
    } else {
      UnescapeKeeps(s, n - 1);
      assert s[n - 1..][1..] == s[n..];
    }
  }

  lemma EscapeFreeFrom(s: seq<Byte>, n: nat)
    requires n <= |s| && forall i | 0 <= i < n :: FrontEscape(s[i..]).NoEscape?
    ensures EscapeFree(s) <==> EscapeFree(s[n..])
  {
    assert forall i | 0 <= i < |s| - n :: s[n..][i..] == s[n + i..];
    assert forall i | n <= i < |s| :: s[i..] == s[n..][i - n..];
  }

  /** What reading back gives: the input, or something shorter. */
  ghost predicate ReadBack(formats: FormatTable, value: seq<Byte>) {
    var back := Unescape(Sanitized(formats, value));
    if EscapeFree(value) then back == value else |back| < |value|
  }

  lemma {:induction false} ReadsBack(formats: FormatTable, value: seq<Byte>)
    ensures ReadBack(formats, value)
    decreases |value|
  {
    if value != [] {
      var size := DecodeRune(value).1;
      if !Kept(formats, value) {
        ReadsBack(formats, value[size..]);
        ReadEscaped(formats, value);
      } else if value[0] != BACKSLASH {
        ReadsBack(formats, value[size..]);
        ReadKept(formats, value);
      } else if FrontEscape(value).Escape? {
        ReadsBack(formats, value[FrontEscape(value).size..]);
        ReadEscape(formats, value);
      } else {
        ReadsBack(formats, value[1..]);
        ReadBackslash(formats, value);
      }
    }
  }

  lemma NotBackslash(formats: FormatTable, value: seq<Byte>)
    requires value != [] && (value[0] != BACKSLASH || !Kept(formats, value))
    ensures forall i | 0 <= i < DecodeRune(value).1 ::
              value[i] != BACKSLASH && FrontEscape(value[i..]).NoEscape?
  {
    assert forall i | 0 <= i < DecodeRune(value).1 :: value[i..][0] == value[i] != BACKSLASH;
  }

  lemma ReadFrom(formats: FormatTable, value: seq<Byte>, n: nat)
    requires n <= |value| && ReadBack(formats, value[n..])
    requires Unescape(Sanitized(formats, value)) == value[..n] + Unescape(Sanitized(formats, value[n..]))
    requires forall i | 0 <= i < n :: FrontEscape(value[i..]).NoEscape?
    ensures ReadBack(formats, value)
  {
    EscapeFreeFrom(value, n);
    assert value == value[..n] + value[n..];
  }

  lemma UnescapeFront(piece: seq<Byte>, rest: seq<Byte>, bytes: seq<Byte>)
    requires piece != [] && FrontEscape(piece + rest) == Escape(|piece|, bytes)
    ensures Unescape(piece + rest) == bytes + Unescape(rest)
  {
    assert (piece + rest)[|piece|..] == rest;
  }

  lemma ReadEscaped(formats: FormatTable, value: seq<Byte>)
    requires value != [] && !Kept(formats, value) && ReadBack(formats, value[DecodeRune(value).1..])
    ensures ReadBack(formats, value)
  {
    var (r, size) := DecodeRune(value);
    var rest := Sanitized(formats, value[size..]);
    EscapedPiece(formats, value, rest);
    UnescapeFront(Piece(formats, value[0], r, size), rest, value[..size]);
    NotBackslash(formats, value);
    ReadFrom(formats, value, size);
  }

  lemma ReadKept(formats: FormatTable, value: seq<Byte>)
    requires value != [] && Kept(formats, value) && value[0] != BACKSLASH
    requires ReadBack(formats, value[DecodeRune(value).1..])
    ensures ReadBack(formats, value)
  {
    var size := DecodeRune(value).1;
    var s := Sanitized(formats, value);
    KeptPiece(formats, value);
    NotBackslash(formats, value);
    assert s[..size] == value[..size] && s[size..] == Sanitized(formats, value[size..]);
    assert forall i | 0 <= i < size :: s[i] == value[i];
    UnescapeKeeps(s, size);
    ReadFrom(formats, value, size);
  }

  lemma ReadEscape(formats: FormatTable, value: seq<Byte>)
    requires FrontEscape(value).Escape? && ReadBack(formats, value[FrontEscape(value).size..])
    ensures ReadBack(formats, value)
  {
    var size := FrontEscape(value).size;
    SameFront(formats, value);
    EscapeIsKept(formats, value);
    assert Sanitized(formats, value)[size..] == Sanitized(formats, value[size..]);
    assert value[0..] == value && !EscapeFree(value);
  }

  lemma ReadBackslash(formats: FormatTable, value: seq<Byte>)
    requires value != [] && value[0] == BACKSLASH && FrontEscape(value).NoEscape? && ReadBack(formats, value[1..])
    ensures ReadBack(formats, value)
  {
    var s := Sanitized(formats, value);
    SameFront(formats, value);
    AsciiPiece(formats, value);
    assert s[1..] == Sanitized(formats, value[1..]) && value[..1] == [value[0]];
    assert value[0..] == value;
    ReadFrom(formats, value, 1);
  }

  /** Sanitized text can be read back, byte for byte, if and only if the original contained nothing that looks like an
      escape: a backslash of the original is shown as it is. */
  lemma ReadsBackIff(formats: FormatTable, value: seq<Byte>)
    ensures Unescape(Sanitized(formats, value)) == value <==> EscapeFree(value)
  {
    ReadsBack(formats, value);
  }

  /** So two such texts that look the same are the same. */
  lemma SanitizeIsInjective(formats: FormatTable, a: seq<Byte>, b: seq<Byte>)
    requires EscapeFree(a) && EscapeFree(b) && Sanitized(formats, a) == Sanitized(formats, b)
    ensures a == b
  {
    ReadsBack(formats, a);
    ReadsBack(formats, b);
  }

  /** An instance of the other kind: a line feed, and a backslash with the letter n, look the same. */
  lemma TwoLookTheSame(formats: FormatTable)
    ensures var letters := ['\\' as int, 'n' as int];
            Sanitized(formats, [0x0a]) == Sanitized(formats, letters) == letters && !EscapeFree(letters)
  {
    var letters: seq<Byte> := ['\\' as int, 'n' as int];
    AsciiIsKept(formats, letters, 2);
    assert letters[0..] == letters;
  }
}
