/** A small terminal: what a byte stream means to the person looking at the screen. It knows printing with
    deferred wrap at the right margin, scrolling, and the control sequences CUP (section 8.3.21 of ECMA-48),
    save cursor and restore cursor; every other control function is ignored. */
module Terminal {
  import opened Bytes
  import opened Frame

  const ESC: Byte := 0x1b
  const BRACKET: Byte := 0x5b    // [
  const SEMICOLON: Byte := 0x3b
  const ZERO: Byte := 0x30
  const FINAL_CUP: Byte := 0x48      // H
  const FINAL_SAVE: Byte := 0x73     // s
  const FINAL_RESTORE: Byte := 0x75  // u
  const BLANK: Byte := 0x20

  /** Where the parser is: in text, after ESC, or inside a control sequence with its parameters so far. */
  datatype Mode = Ground | Escape | Control(params: seq<nat>)

  /** A cursor column equal to the width means that the next character wraps first. */
  datatype Term = Term(
    width: nat, height: nat, grid: seq<seq<Byte>>, row: nat, col: nat, savedRow: nat, savedCol: nat, mode: Mode)
  {
    ghost predicate Valid() {
      && width > 0 && |grid| == height
      && (forall r | 0 <= r < height :: |grid[r]| == width)
      && row < height && col <= width
      && savedRow < height && savedCol <= width
      && (mode.Control? ==> mode.params != [])
    }
  }

  /** A parameter of a control sequence; absent or zero means one. */
  function Param(params: seq<nat>, i: nat): (p: nat)
    ensures p > 0
  {
    if i < |params| && params[i] > 0 then params[i] else 1
  }

  function Min(a: nat, b: nat): nat {
    if a < b then a else b
  }

  /** Overwrites part of one row. */
  function Write(grid: seq<seq<Byte>>, row: nat, col: nat, cells: seq<Byte>): seq<seq<Byte>>
    requires row < |grid| && col + |cells| <= |grid[row]|
  {
    grid[row := grid[row][..col] + cells + grid[row][col + |cells|..]]
  }

  /** Moves to the start of the next line, scrolling at the bottom. */
  function Wrap(t: Term): (t': Term)
    requires t.Valid()
    ensures t'.Valid() && t'.col == 0
  {
    if t.row + 1 < t.height then t.(row := t.row + 1, col := 0)
    else t.(grid := t.grid[1..] + [seq(t.width, _ => BLANK)], col := 0)
  }

  function Print(t: Term, cell: Byte): (t': Term)
    requires t.Valid()
    ensures t'.Valid()
  {
    var at := if t.col == t.width then Wrap(t) else t;
    at.(grid := Write(at.grid, at.row, at.col, [cell]), col := at.col + 1)
  }

  function Dispatch(t: Term, final: Byte, params: seq<nat>): (t': Term)
    requires t.Valid()
    ensures t'.Valid()
  {
    var t := t.(mode := Ground);
    if final == FINAL_CUP then
      t.(row := Min(Param(params, 0), t.height) - 1, col := Min(Param(params, 1), t.width) - 1)
    else if final == FINAL_SAVE then t.(savedRow := t.row, savedCol := t.col)
    else if final == FINAL_RESTORE then t.(row := t.savedRow, col := t.savedCol)
    else t
  }

  function Feed(t: Term, b: Byte): (t': Term)
    requires t.Valid()
    ensures t'.Valid()
  {
    match t.mode
    case Ground =>
      if b == ESC then t.(mode := Escape)
      else if Printable(b) then Print(t, b)
      else t
    case Escape =>
      if b == BRACKET then t.(mode := Control([0]))
      else if b == ESC then t
      else t.(mode := Ground)
    case Control(params) =>
      var last := |params| - 1;
      if ZERO <= b <= ZERO + 9 then t.(mode := Control(params[last := params[last] * 10 + (b - ZERO)]))
      else if b == SEMICOLON then t.(mode := Control(params + [0]))
      else if 0x40 <= b <= 0x7e then Dispatch(t, b, params)
      else t
  }

  function FeedAll(t: Term, bytes: seq<Byte>): (t': Term)
    requires t.Valid()
    ensures t'.Valid()
  {
    if bytes == [] then t
    else Feed(FeedAll(t, bytes[..|bytes| - 1]), bytes[|bytes| - 1])
  }

  lemma {:induction false} FeedConcat(t: Term, a: seq<Byte>, b: seq<Byte>)
    requires t.Valid()
    ensures FeedAll(t, a + b) == FeedAll(FeedAll(t, a), b)
  {
    if b == [] {
      assert a + b == a;
    } else {
      FeedConcat(t, a, b[..|b| - 1]);
      assert (a + b)[..|a + b| - 1] == a + b[..|b| - 1];
    }
  }

  /** The decimal digits of a number, as %d prints it. */
  function Decimal(n: nat): (digits: seq<Byte>)
    ensures |digits| >= 1
  {
    if n < 10 then [ZERO + n] else Decimal(n / 10) + [ZERO + n % 10]
  }

  /** A number printed inside a control sequence is read back as the parameter being collected. */
  lemma {:induction false} FeedDecimal(t: Term, params: seq<nat>, n: nat)
    requires t.Valid() && t.mode == Control(params + [0])
    ensures FeedAll(t, Decimal(n)) == t.(mode := Control(params + [n]))
  {
    if n < 10 {
      FeedOne(t, ZERO + n);
      assert (params + [0])[|params| := n] == params + [n];
    } else {
      FeedDecimal(t, params, n / 10);
      assert Decimal(n)[..|Decimal(n)| - 1] == Decimal(n / 10);
      assert (params + [n / 10])[|params| := n] == params + [n];
    }
  }

  lemma FeedOne(t: Term, b: Byte)
    requires t.Valid()
    ensures FeedAll(t, [b]) == Feed(t, b)
  {
    assert [b][..0] == [];
    assert FeedAll(t, []) == t;
  }

  const INTRODUCER: seq<Byte> := [ESC, BRACKET]
  const SAVE: seq<Byte> := INTRODUCER + [FINAL_SAVE]
  const RESTORE: seq<Byte> := INTRODUCER + [FINAL_RESTORE]

  /** CUP with zero-based coordinates: ESC [ row+1 ; column+1 H. */
  function MoveTo(row: nat, column: nat): seq<Byte> {
    INTRODUCER + Decimal(row + 1) + [SEMICOLON] + Decimal(column + 1) + [FINAL_CUP]
  }

  lemma FeedIntroducer(t: Term)
    requires t.Valid() && t.mode == Ground
    ensures FeedAll(t, INTRODUCER) == t.(mode := Control([0]))
  {
    assert INTRODUCER == [ESC] + [BRACKET];
    FeedConcat(t, [ESC], [BRACKET]);
    FeedOne(t, ESC);
    FeedOne(t.(mode := Escape), BRACKET);
  }

  lemma FeedFinal(t: Term, params: seq<nat>, final: Byte)
    requires t.Valid() && t.mode == Control(params) && 0x40 <= final <= 0x7e
    ensures FeedAll(t, [final]) == Dispatch(t, final, params)
  {
    FeedOne(t, final);
  }

  lemma {:induction false} FeedPlain(t: Term, final: Byte)
    requires t.Valid() && t.mode == Ground && 0x40 <= final <= 0x7e
    ensures FeedAll(t, INTRODUCER + [final]) == Dispatch(t.(mode := Control([0])), final, [0])
  {
    FeedConcat(t, INTRODUCER, [final]);
    FeedIntroducer(t);
    FeedFinal(t.(mode := Control([0])), [0], final);
  }

  lemma {:induction false} FeedSave(t: Term)
    requires t.Valid() && t.mode == Ground
    ensures FeedAll(t, SAVE) == t.(savedRow := t.row, savedCol := t.col)
  {
    FeedPlain(t, FINAL_SAVE);
  }

  lemma {:induction false} FeedRestore(t: Term)
    requires t.Valid() && t.mode == Ground
    ensures FeedAll(t, RESTORE) == t.(row := t.savedRow, col := t.savedCol)
  {
    FeedPlain(t, FINAL_RESTORE);
  }

  /** The first parameter and its separator. */
  lemma FeedFirstParameter(t: Term, n: nat)
    requires t.Valid() && t.mode == Ground
    ensures FeedAll(t, INTRODUCER + Decimal(n) + [SEMICOLON]) == t.(mode := Control([n, 0]))
  {
    FeedConcat(t, INTRODUCER + Decimal(n), [SEMICOLON]);
    FeedConcat(t, INTRODUCER, Decimal(n));
    FeedIntroducer(t);
    assert [] + [0] == [0] && [] + [n] == [n] && [n] + [0] == [n, 0];
    FeedDecimal(t.(mode := Control([0])), [], n);
    FeedOne(t.(mode := Control([n])), SEMICOLON);
  }

  lemma {:induction false} FeedParameters(t: Term, n: nat, m: nat)
    requires t.Valid() && t.mode == Ground
    ensures FeedAll(t, INTRODUCER + Decimal(n) + [SEMICOLON] + Decimal(m)) == t.(mode := Control([n, m]))
  {
    FeedConcat(t, INTRODUCER + Decimal(n) + [SEMICOLON], Decimal(m));
    FeedFirstParameter(t, n);
    assert [n] + [0] == [n, 0] && [n] + [m] == [n, m];
    FeedDecimal(t.(mode := Control([n, 0])), [n], m);
  }

  lemma FeedCup(t: Term, prefix: seq<Byte>, n: nat, m: nat)
    requires t.Valid() && 1 <= n <= t.height && 1 <= m <= t.width
    requires FeedAll(t, prefix) == t.(mode := Control([n, m]))
    ensures FeedAll(t, prefix + [FINAL_CUP]) == t.(row := n - 1, col := m - 1, mode := Ground)
  {
    FeedConcat(t, prefix, [FINAL_CUP]);
    FeedFinal(t.(mode := Control([n, m])), [n, m], FINAL_CUP);
  }

  lemma {:induction false} FeedMoveTo(t: Term, row: nat, column: nat)
    requires t.Valid() && t.mode == Ground && row < t.height && column < t.width
    ensures FeedAll(t, MoveTo(row, column)) == t.(row := row, col := column)
  {
    FeedParameters(t, row + 1, column + 1);
    FeedCup(t, INTRODUCER + Decimal(row + 1) + [SEMICOLON] + Decimal(column + 1), row + 1, column + 1);
  }

  lemma WriteNothing(grid: seq<seq<Byte>>, row: nat, col: nat)
    requires row < |grid| && col <= |grid[row]|
    ensures Write(grid, row, col, []) == grid
  {
    assert grid[row][..col] + [] + grid[row][col..] == grid[row];
  }

  /** Two adjacent writes on a line are one. */
  lemma WriteAdjacent(grid: seq<seq<Byte>>, row: nat, col: nat, a: seq<Byte>, b: seq<Byte>)
    requires row < |grid| && col + |a| + |b| <= |grid[row]|
    ensures Write(Write(grid, row, col, a), row, col + |a|, b) == Write(grid, row, col, a + b)
  {
    var line := grid[row];
    var once := line[..col] + a + line[col + |a|..];
    assert once[..col + |a|] + b + once[col + |a| + |b|..] == line[..col] + (a + b) + line[col + |a| + |b|..];
  }

  /** Text that fits on the line overwrites exactly its cells. */
  lemma {:induction false} FeedText(t: Term, cells: seq<Byte>)
    requires t.Valid() && t.mode == Ground && t.col + |cells| <= t.width && AllPrintable(cells)
    ensures FeedAll(t, cells) == t.(grid := Write(t.grid, t.row, t.col, cells), col := t.col + |cells|)
  {
    if cells == [] {
      WriteNothing(t.grid, t.row, t.col);
    } else {
      var n := |cells| - 1;
      FeedText(t, cells[..n]);
      assert Printable(cells[n]);
      assert cells[..n] + [cells[n]] == cells;
      WriteAdjacent(t.grid, t.row, t.col, cells[..n], [cells[n]]);
    }
  }
}
