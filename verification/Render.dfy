/** Drawing a picture with as few bytes as possible (internal/client/terminal/terminal.go). */
module Render {
  import opened Bytes
  import opened Frame
  import opened Terminal

  const BYTES_PER_ROW := 12

  predicate Same(full: bool, was: seq<Byte>, now: seq<Byte>, column: nat)
    requires full || |was| == |now|
    requires column < |now|
  {
    !full && was[column] == now[column]
  }

  function ChangeEnd(full: bool, was: seq<Byte>, now: seq<Byte>, column: nat): (end: nat)
    requires full || |was| == |now|
    requires column <= |now|
    ensures column <= end <= |now|
    ensures full ==> end == |now|
    ensures forall c | column <= c < end :: !Same(full, was, now, c)
    ensures end < |now| ==> Same(full, was, now, end)
    decreases |now| - column
  {
    if column < |now| && !Same(full, was, now, column) then ChangeEnd(full, was, now, column + 1) else column
  }

  /** The updates for one line: each maximal changed stretch, preceded by a cursor move. */
  function Stretches(full: bool, was: seq<Byte>, now: seq<Byte>, row: nat, column: nat): seq<Byte>
    requires full || |was| == |now|
    requires column <= |now|
    decreases |now| - column
  {
    if column == |now| then []
    else if Same(full, was, now, column) then Stretches(full, was, now, row, column + 1)
    else
      var end := ChangeEnd(full, was, now, column);
      MoveTo(row, column) + now[column..end] + Stretches(full, was, now, row, end)
  }

  lemma RowFits(size: nat, columns: nat, rows: nat, row: nat)
    requires size == columns * rows && row < rows
    ensures row * columns + columns == (row + 1) * columns <= size
  {
    assert (row + 1) * columns <= rows * columns;
  }

  /** Line `row` of a picture. */
  function Line(cells: seq<Byte>, columns: nat, rows: nat, row: nat): (line: seq<Byte>)
    requires |cells| == columns * rows && row < rows
    ensures |line| == columns
    ensures AllPrintable(cells) ==> AllPrintable(line)
  {
    RowFits(|cells|, columns, rows, row);
    cells[row * columns..row * columns + columns]
  }

  /** The previous content of a line, when there is one to compare with. */
  function OldLine(full: bool, previous: seq<Byte>, columns: nat, rows: nat, row: nat): (line: seq<Byte>)
    requires full || |previous| == columns * rows
    requires row < rows
    ensures full || |line| == columns
  {
    if full then [] else Line(previous, columns, rows, row)
  }

  function Lines(full: bool, previous: seq<Byte>, cells: seq<Byte>, columns: nat, rows: nat, count: nat): seq<Byte>
    requires |cells| == columns * rows && count <= rows
    requires full || |previous| == |cells|
  {
    if count == 0 then []
    else Lines(full, previous, cells, columns, rows, count - 1)
         + Stretches(full, OldLine(full, previous, columns, rows, count - 1), Line(cells, columns, rows, count - 1),
             count - 1, 0)
  }

  function Redraw(full: bool, previous: seq<Byte>, cells: seq<Byte>, columns: nat, rows: nat): seq<Byte>
    requires |cells| == columns * rows
    requires full || |previous| == |cells|
  {
    SAVE + Lines(full, previous, cells, columns, rows, rows) + RESTORE
  }

  predicate MustRedraw(previous: seq<Byte>, previousColumns: int, previousRows: int, columns: int, rows: int,
                       cells: seq<Byte>)
  {
    previousColumns != columns || previousRows != rows || |previous| != |cells|
  }

  /** The incremental update, unless it is longer than the bound, in which case everything is redrawn. */
  function Update(previous: seq<Byte>, previousColumns: int, previousRows: int, columns: nat, rows: nat,
                  cells: seq<Byte>)
    : seq<Byte>
    requires |cells| == columns * rows
  {
    var full := MustRedraw(previous, previousColumns, previousRows, columns, rows, cells);
    var output := Redraw(full, previous, cells, columns, rows);
    if full || |output| <= |cells| + rows * BYTES_PER_ROW then output
    else Redraw(true, [], cells, columns, rows)
  }

  // ---- what the bytes mean ----

  /** `t'` is `t` with another grid; only the cursor is left open. */
  ghost predicate Drew(t: Term, t': Term, grid: seq<seq<Byte>>) {
    && t'.grid == grid
    && (t'.width, t'.height, t'.savedRow, t'.savedCol, t'.mode) == (t.width, t.height, t.savedRow, t.savedCol, t.mode)
  }

  /** One changed stretch, drawn. */
  lemma {:induction false} DrawStretch(t: Term, row: nat, column: nat, stretch: seq<Byte>)
    requires t.Valid() && t.mode == Ground && row < t.height
    requires column < t.width && column + |stretch| <= t.width && AllPrintable(stretch)
    ensures FeedAll(t, MoveTo(row, column) + stretch)
         == t.(grid := Write(t.grid, row, column, stretch), row := row, col := column + |stretch|)
    ensures FeedAll(t, MoveTo(row, column) + stretch).grid[row]
         == t.grid[row][..column] + stretch + t.grid[row][column + |stretch|..]
  {
    FeedConcat(t, MoveTo(row, column), stretch);
    FeedMoveTo(t, row, column);
    FeedText(t.(row := row, col := column), stretch);
  }

  /** A line after its updates from `column` on, whatever it showed: the cells that are redrawn are new and the others
      are as they were. */
  function Patched(full: bool, shown: seq<Byte>, was: seq<Byte>, now: seq<Byte>, column: nat): (line: seq<Byte>)
    requires full || |was| == |now|
    requires |now| <= |shown|
    ensures |line| == |shown|
  {
    seq(|shown|, c requires 0 <= c < |shown| =>
      if column <= c < |now| && !Same(full, was, now, c) then now[c] else shown[c])
  }

  lemma PatchStretch(full: bool, shown: seq<Byte>, was: seq<Byte>, now: seq<Byte>, column: nat, end: nat)
    requires full || |was| == |now|
    requires column < |now| <= |shown| && end == ChangeEnd(full, was, now, column)
    ensures Patched(full, shown[..column] + now[column..end] + shown[end..], was, now, end)
         == Patched(full, shown, was, now, column)
  {
  }

  /** The rest of a line, drawn after a stretch of it. */
  lemma {:induction false} JoinStretch(t: Term, head: seq<Byte>, rest: seq<Byte>, row: nat, before: seq<Byte>,
                                       after: seq<Byte>)
    requires t.Valid() && row < t.height && Drew(t, FeedAll(t, head), t.grid[row := before])
    requires var drawn := FeedAll(t, head); Drew(drawn, FeedAll(drawn, rest), drawn.grid[row := after])
    ensures Drew(t, FeedAll(t, head + rest), t.grid[row := after])
  {
    FeedConcat(t, head, rest);
  }

  lemma {:induction false} DrawLine(t: Term, full: bool, was: seq<Byte>, now: seq<Byte>, row: nat, column: nat)
    requires t.Valid() && t.mode == Ground && row < t.height && column <= |now| <= t.width
    requires full || |was| == |now|
    requires AllPrintable(now)
    ensures Drew(t, FeedAll(t, Stretches(full, was, now, row, column)),
        t.grid[row := Patched(full, t.grid[row], was, now, column)])
    decreases |now| - column
  {
    if column == |now| {
      assert Patched(full, t.grid[row], was, now, column) == t.grid[row];
    } else if Same(full, was, now, column) {
      assert Patched(full, t.grid[row], was, now, column) == Patched(full, t.grid[row], was, now, column + 1);
      DrawLine(t, full, was, now, row, column + 1);
    } else {
      var end := ChangeEnd(full, was, now, column);
      var head := MoveTo(row, column) + now[column..end];
      DrawHead(t, row, column, now, end);
      DrawLine(FeedAll(t, head), full, was, now, row, end);
      PatchStretch(full, t.grid[row], was, now, column, end);
      JoinStretch(t, head, Stretches(full, was, now, row, end), row, FeedAll(t, head).grid[row],
                  Patched(full, t.grid[row], was, now, column));
    }
  }

  /** The stretch from `column` to `end`. */
  lemma {:induction false} DrawHead(t: Term, row: nat, column: nat, now: seq<Byte>, end: nat)
    requires t.Valid() && t.mode == Ground && row < t.height
    requires column < end <= |now| <= t.width && AllPrintable(now)
    ensures var t', line := FeedAll(t, MoveTo(row, column) + now[column..end]), t.grid[row];
            t'.mode == Ground && Drew(t, t', t.grid[row := line[..column] + now[column..end] + line[end..]])
  {
    DrawStretch(t, row, column, now[column..end]);
  }

  /** The screen after the updates of the first `count` lines. */
  function PatchedScreen(grid: seq<seq<Byte>>, full: bool, previous: seq<Byte>, cells: seq<Byte>, columns: nat,
                         rows: nat, count: nat)
    : (patched: seq<seq<Byte>>)
    requires |cells| == columns * rows && count <= rows <= |grid|
    requires full || |previous| == |cells|
    requires forall r | 0 <= r < |grid| :: columns <= |grid[r]|
    ensures |patched| == |grid|
    ensures forall r | 0 <= r < |grid| :: |patched[r]| == |grid[r]|
  {
    seq(|grid|, r requires 0 <= r < |grid| =>
      if r < count
      then Patched(full, grid[r], OldLine(full, previous, columns, rows, r), Line(cells, columns, rows, r), 0)
      else grid[r])
  }

  /** The screen with the first `count` lines of a picture in its top left corner. */
  function Overlay(grid: seq<seq<Byte>>, cells: seq<Byte>, columns: nat, rows: nat, count: nat)
    : (overlaid: seq<seq<Byte>>)
    requires |cells| == columns * rows && count <= rows <= |grid|
    requires forall r | 0 <= r < |grid| :: columns <= |grid[r]|
    ensures |overlaid| == |grid|
    ensures forall r | 0 <= r < |grid| ::
              overlaid[r] == if r < count then Line(cells, columns, rows, r) + grid[r][columns..] else grid[r]
  {
    if count == 0 then grid
    else Write(Overlay(grid, cells, columns, rows, count - 1), count - 1, 0, Line(cells, columns, rows, count - 1))
  }

  /** The viewport shows a picture. */
  ghost predicate Shows(t: Term, columns: nat, rows: nat, cells: seq<Byte>)
    requires t.Valid() && |cells| == columns * rows
  {
    && rows <= t.height && columns <= t.width
    && forall r | 0 <= r < rows :: t.grid[r][..columns] == Line(cells, columns, rows, r)
  }

  /** One more line, drawn below the others. */
  lemma {:induction false} JoinLine(t: Term, head: seq<Byte>, tail: seq<Byte>, row: nat, now: seq<Byte>,
                                    above: seq<seq<Byte>>)
    requires t.Valid() && row < |above| == t.height
    requires Drew(t, FeedAll(t, head), above)
    requires var drawn := FeedAll(t, head); Drew(drawn, FeedAll(drawn, tail), above[row := now])
    ensures Drew(t, FeedAll(t, head + tail), above[row := now])
  {
    FeedConcat(t, head, tail);
  }

  lemma NextPatched(grid: seq<seq<Byte>>, full: bool, previous: seq<Byte>, cells: seq<Byte>, columns: nat, rows: nat,
                    row: nat)
    requires |cells| == columns * rows && row < rows <= |grid|
    requires full || |previous| == |cells|
    requires forall r | 0 <= r < |grid| :: columns <= |grid[r]|
    ensures var was, now := OldLine(full, previous, columns, rows, row), Line(cells, columns, rows, row);
            var above := PatchedScreen(grid, full, previous, cells, columns, rows, row);
            PatchedScreen(grid, full, previous, cells, columns, rows, row + 1)
            == above[row := Patched(full, above[row], was, now, 0)]
  {
  }

  /** The first `count` lines have been drawn. */
  ghost predicate DrewLines(t: Term, full: bool, previous: seq<Byte>, cells: seq<Byte>, columns: nat, rows: nat,
                            count: nat)
    requires t.Valid() && rows <= t.height && columns <= t.width
    requires |cells| == columns * rows && count <= rows
    requires full || |previous| == |cells|
  {
    Drew(t, FeedAll(t, Lines(full, previous, cells, columns, rows, count)),
      PatchedScreen(t.grid, full, previous, cells, columns, rows, count))
  }

  lemma DrawNoLine(t: Term, full: bool, previous: seq<Byte>, cells: seq<Byte>, columns: nat, rows: nat)
    requires t.Valid() && rows <= t.height && columns <= t.width
    requires |cells| == columns * rows
    requires full || |previous| == |cells|
    ensures DrewLines(t, full, previous, cells, columns, rows, 0)
  {
    assert PatchedScreen(t.grid, full, previous, cells, columns, rows, 0) == t.grid;
    assert FeedAll(t, []) == t;
  }

  lemma {:induction false} DrawLines(t: Term, full: bool, previous: seq<Byte>, cells: seq<Byte>, columns: nat,
                                     rows: nat, count: nat)
    requires t.Valid() && t.mode == Ground && rows <= t.height && columns <= t.width
    requires |cells| == columns * rows && count <= rows && AllPrintable(cells)
    requires full || |previous| == |cells|
    ensures DrewLines(t, full, previous, cells, columns, rows, count)
  {
    DrawNoLine(t, full, previous, cells, columns, rows);
    for row := 0 to count
      invariant DrewLines(t, full, previous, cells, columns, rows, row)
    {
      DrawRow(t, full, previous, cells, columns, rows, row);
    }
  }

  lemma {:induction false} DrawRow(t: Term, full: bool, previous: seq<Byte>, cells: seq<Byte>, columns: nat, rows: nat,
                                   row: nat)
    requires t.Valid() && t.mode == Ground && rows <= t.height && columns <= t.width
    requires |cells| == columns * rows && row < rows && AllPrintable(cells)
    requires full || |previous| == |cells|
    requires DrewLines(t, full, previous, cells, columns, rows, row)
    ensures DrewLines(t, full, previous, cells, columns, rows, row + 1)
  {
    NextPatched(t.grid, full, previous, cells, columns, rows, row);
    var was, now := OldLine(full, previous, columns, rows, row), Line(cells, columns, rows, row);
    DrawNextLine(t, Lines(full, previous, cells, columns, rows, row), full, was, now, row,
                 PatchedScreen(t.grid, full, previous, cells, columns, rows, row));
  }

  lemma {:induction false} DrawNextLine(t: Term, head: seq<Byte>, full: bool, was: seq<Byte>, now: seq<Byte>, row: nat,
                                        above: seq<seq<Byte>>)
    requires t.Valid() && t.mode == Ground && row < t.height && |now| <= t.width
    requires full || |was| == |now|
    requires AllPrintable(now)
    requires Drew(t, FeedAll(t, head), above)
    ensures |above| == t.height && |above[row]| == t.width
    ensures Drew(t, FeedAll(t, head + Stretches(full, was, now, row, 0)),
        above[row := Patched(full, above[row], was, now, 0)])
  {
    DrawLine(FeedAll(t, head), full, was, now, row, 0);
    JoinLine(t, head, Stretches(full, was, now, row, 0), row, Patched(full, above[row], was, now, 0), above);
  }

  /** A redraw on any screen, whatever it shows: the cursor is back where it was, and the saved position is the only
      trace outside the cells redrawn. */
  lemma {:induction false} RedrawPatches(t: Term, full: bool, previous: seq<Byte>, cells: seq<Byte>, columns: nat,
                                         rows: nat)
    requires t.Valid() && t.mode == Ground && rows <= t.height && columns <= t.width
    requires |cells| == columns * rows && AllPrintable(cells)
    requires full || |previous| == |cells|
    ensures FeedAll(t, Redraw(full, previous, cells, columns, rows))
         == t.(grid := PatchedScreen(t.grid, full, previous, cells, columns, rows, rows),
               savedRow := t.row, savedCol := t.col)
  {
    var lines := Lines(full, previous, cells, columns, rows, rows);
    FeedConcat(t, SAVE + lines, RESTORE);
    FeedConcat(t, SAVE, lines);
    FeedSave(t);
    var saved := t.(savedRow := t.row, savedCol := t.col);
    DrawLines(saved, full, previous, cells, columns, rows, rows);
    FeedRestore(FeedAll(saved, lines));
  }

  lemma LinePatched(full: bool, shown: seq<Byte>, was: seq<Byte>, now: seq<Byte>)
    requires |now| <= |shown| && (full || was == shown[..|now|])
    ensures Patched(full, shown, was, now, 0) == now + shown[|now|..]
  {
  }

  /** A redraw of a screen that shows the previous picture, or of the whole picture: the viewport shows the picture and
      nothing else has changed. */
  lemma {:induction false} RedrawDraws(t: Term, full: bool, previous: seq<Byte>, cells: seq<Byte>, columns: nat,
                                       rows: nat)
    requires t.Valid() && t.mode == Ground && rows <= t.height && columns <= t.width
    requires |cells| == columns * rows && AllPrintable(cells)
    requires full || |previous| == |cells|
    requires full || Shows(t, columns, rows, previous)
    ensures FeedAll(t, Redraw(full, previous, cells, columns, rows))
         == t.(grid := Overlay(t.grid, cells, columns, rows, rows), savedRow := t.row, savedCol := t.col)
  {
    RedrawPatches(t, full, previous, cells, columns, rows);
    forall r | 0 <= r < rows {
      LinePatched(full, t.grid[r], OldLine(full, previous, columns, rows, r), Line(cells, columns, rows, r));
    }
    assert PatchedScreen(t.grid, full, previous, cells, columns, rows, rows)
        == Overlay(t.grid, cells, columns, rows, rows);
  }

  /** The viewport shows a picture, cell by cell. */
  ghost predicate Displays(t: Term, columns: nat, rows: nat, cells: seq<Byte>)
    requires t.Valid()
  {
    && rows <= t.height && columns <= t.width
    && forall r, c | 0 <= r < rows && 0 <= c < columns :: CellDisplayed(t.grid[r][c], columns, cells, r, c)
  }

  predicate CellDisplayed(shown: Byte, columns: nat, cells: seq<Byte>, r: nat, c: nat) {
    r * columns + c < |cells| && shown == cells[r * columns + c]
  }

  lemma ShownIsDisplayed(t: Term, columns: nat, rows: nat, cells: seq<Byte>)
    requires t.Valid() && |cells| == columns * rows && Shows(t, columns, rows, cells)
    ensures Displays(t, columns, rows, cells)
  {
    forall r, c | 0 <= r < rows && 0 <= c < columns
      ensures CellDisplayed(t.grid[r][c], columns, cells, r, c)
    {
      RowFits(|cells|, columns, rows, r);
      assert t.grid[r][c] == t.grid[r][..columns][c] == Line(cells, columns, rows, r)[c];
    }
  }

  /** The rendering law, on both the incremental and the fallback path. */
  lemma {:induction false} UpdateDraws(t: Term, previous: seq<Byte>, previousColumns: int, previousRows: int,
                                       columns: nat, rows: nat, cells: seq<Byte>)
    requires t.Valid() && t.mode == Ground && rows <= t.height && columns <= t.width
    requires |cells| == columns * rows && AllPrintable(cells)
    requires MustRedraw(previous, previousColumns, previousRows, columns, rows, cells)
        || Shows(t, columns, rows, previous)
    ensures var t' := FeedAll(t, Update(previous, previousColumns, previousRows, columns, rows, cells));
            && t' == t.(grid := Overlay(t.grid, cells, columns, rows, rows), savedRow := t.row, savedCol := t.col)
            && Shows(t', columns, rows, cells) && Displays(t', columns, rows, cells)
  {
    var full := MustRedraw(previous, previousColumns, previousRows, columns, rows, cells);
    RedrawDraws(t, full, previous, cells, columns, rows);
    RedrawDraws(t, true, [], cells, columns, rows);
    ShownIsDisplayed(FeedAll(t, Update(previous, previousColumns, previousRows, columns, rows, cells)), columns, rows,
                     cells);
  }

  // ---- how many bytes ----

  lemma {:induction false} DigitsOf(n: nat, width: nat)
    requires n < Power10(width) && width >= 1
    ensures |Decimal(n)| <= width
  {
    if n >= 10 {
      DigitsOf(n / 10, width - 1);
    }
  }

  ghost function Power10(width: nat): (p: nat)
    ensures p > 0
  {
    if width == 0 then 1 else 10 * Power10(width - 1)
  }

  const SEVEN_DIGITS := 9_999_999

  lemma LineNumberIsShort(row: nat)
    requires row < SEVEN_DIGITS
    ensures |Decimal(row + 1)| <= if row == 0 then 1 else 7
  {
    assert Power10(7) == 10_000_000 by {
      assert Power10(1) == 10 * Power10(0) && Power10(2) == 10 * Power10(1) && Power10(3) == 10 * Power10(2);
      assert Power10(4) == 10 * Power10(3) && Power10(5) == 10 * Power10(4) && Power10(6) == 10 * Power10(5);
    }
    DigitsOf(row + 1, 7);
  }

  lemma LineIsShort(now: seq<Byte>, row: nat)
    requires row < SEVEN_DIGITS
    ensures |Stretches(true, [], now, row, 0)| <= |now| + if row == 0 then 6 else BYTES_PER_ROW
  {
    WholeLine(now, row);
    LineNumberIsShort(row);
    assert Decimal(1) == [ZERO + 1];
  }

  lemma {:induction false} LinesAreShort(previous: seq<Byte>, cells: seq<Byte>, columns: nat, rows: nat, count: nat)
    requires |cells| == columns * rows && 1 <= count <= rows <= SEVEN_DIGITS
    ensures |Lines(true, previous, cells, columns, rows, count)| + |SAVE| + |RESTORE|
         <= count * columns + count * BYTES_PER_ROW
  {
    var row := count - 1;
    var above := Lines(true, previous, cells, columns, rows, row);
    var now := Line(cells, columns, rows, row);
    LineIsShort(now, row);
    assert Lines(true, previous, cells, columns, rows, count) == above + Stretches(true, [], now, row, 0);
    if row > 0 {
      LinesAreShort(previous, cells, columns, rows, row);
    }
    Distribute(row, columns);
  }

  lemma Distribute(row: nat, columns: nat)
    ensures (row + 1) * columns == row * columns + columns
  {
  }

  /** Redrawing a line takes one cursor move to its first column. */
  lemma WholeLine(now: seq<Byte>, row: nat)
    ensures Stretches(true, [], now, row, 0) == if now == [] then [] else MoveTo(row, 0) + now
  {
    assert Stretches(true, [], now, row, |now|) == [];
    assert now[0..|now|] == now;
  }

  /** Whichever path is taken, an update is never longer than the bound; the full redraw, which is returned
      without testing it, meets it because one cursor move a line is short. */
  lemma UpdateIsBounded(previous: seq<Byte>, previousColumns: int, previousRows: int, columns: nat, rows: nat,
                        cells: seq<Byte>)
    requires |cells| == columns * rows && 1 <= rows <= SEVEN_DIGITS
    ensures |Update(previous, previousColumns, previousRows, columns, rows, cells)| <= |cells| + 12 * rows
  {
    LinesAreShort(previous, cells, columns, rows, rows);
    LinesAreShort([], cells, columns, rows, rows);
  }

  // ---- what is left alone ----

  /** The bytes an incremental update spends on the cell numbered `i`: none if it has not changed; one, and a cursor
      move unless the cell to its left has changed too. */
  function CellCost(previous: seq<Byte>, cells: seq<Byte>, columns: nat, i: nat): nat
    requires |previous| == |cells| && columns > 0 && i < |cells|
  {
    if previous[i] == cells[i] then 0
    else if i % columns > 0 && previous[i - 1] != cells[i - 1] then 1
    else |MoveTo(i / columns, i % columns)| + 1
  }

  function Cost(previous: seq<Byte>, cells: seq<Byte>, columns: nat, from: nat, to: nat): nat
    requires |previous| == |cells| && columns > 0 && from <= to <= |cells|
    decreases |cells| - from
  {
    if from == to then 0 else CellCost(previous, cells, columns, from) + Cost(previous, cells, columns, from + 1, to)
  }

  lemma {:induction false} CostAdds(previous: seq<Byte>, cells: seq<Byte>, columns: nat, from: nat, via: nat, to: nat)
    requires |previous| == |cells| && columns > 0 && from <= via <= to <= |cells|
    ensures Cost(previous, cells, columns, from, to)
         == Cost(previous, cells, columns, from, via) + Cost(previous, cells, columns, via, to)
    decreases |cells| - from
  {
    if from < via {
      CostAdds(previous, cells, columns, from + 1, via, to);
    }
  }

  lemma {:induction false} Below(a: nat, b: nat, columns: nat)
    requires a < b
    ensures a * columns + columns <= b * columns
    decreases b
  {
    Distribute(a, columns);
    if a < b - 1 {
      Below(a, b - 1, columns);
      Distribute(b - 1, columns);
    }
  }

  lemma Position(columns: nat, row: nat, column: nat)
    requires column < columns
    ensures (row * columns + column) / columns == row && (row * columns + column) % columns == column
  {
    var i := row * columns + column;
    var q := i / columns;
    assert i == q * columns + i % columns;
    if q < row {
      Below(q, row, columns);
    } else if row < q {
      Below(row, q, columns);
    }
  }

  /** What one cell of a line that starts at `start` costs. */
  lemma CellOfLine(previous: seq<Byte>, cells: seq<Byte>, columns: nat, row: nat, start: nat, column: nat)
    requires |previous| == |cells| && column < columns && start == row * columns && start + columns <= |cells|
    ensures CellCost(previous, cells, columns, start + column)
         == if previous[start + column] == cells[start + column] then 0
            else if column > 0 && previous[start + column - 1] != cells[start + column - 1] then 1
            else |MoveTo(row, column)| + 1
  {
    Position(columns, row, column);
  }

  /** Inside a stretch every cell costs one byte. */
  lemma {:induction false} InnerCost(previous: seq<Byte>, cells: seq<Byte>, columns: nat, row: nat, start: nat,
                                     column: nat, end: nat)
    requires |previous| == |cells| && 0 < column <= end <= columns && start == row * columns
    requires start + columns <= |cells|
    requires forall i | start + column - 1 <= i < start + end :: previous[i] != cells[i]
    ensures Cost(previous, cells, columns, start + column, start + end) == end - column
    decreases |cells| - column
  {
    if column < end {
      CellOfLine(previous, cells, columns, row, start, column);
      InnerCost(previous, cells, columns, row, start, column + 1, end);
    }
  }

  /** No stretch of changes runs on into the cell at `column`. */
  predicate StretchMayStart(previous: seq<Byte>, cells: seq<Byte>, start: nat, columns: nat, column: nat)
    requires |previous| == |cells| && column <= columns && start + columns <= |cells|
  {
    0 < column < columns && previous[start + column] != cells[start + column] ==>
      previous[start + column - 1] == cells[start + column - 1]
  }

  lemma {:induction false} StretchCost(previous: seq<Byte>, cells: seq<Byte>, columns: nat, row: nat, start: nat,
                                       column: nat, end: nat)
    requires |previous| == |cells| && column < end <= columns && start == row * columns && start + columns <= |cells|
    requires forall i | start + column <= i < start + end :: previous[i] != cells[i]
    requires StretchMayStart(previous, cells, start, columns, column)
    ensures Cost(previous, cells, columns, start + column, start + columns)
         == |MoveTo(row, column)| + end - column + Cost(previous, cells, columns, start + end, start + columns)
  {
    CellOfLine(previous, cells, columns, row, start, column);
    InnerCost(previous, cells, columns, row, start, column + 1, end);
    CostAdds(previous, cells, columns, start + column, start + end, start + columns);
  }

  lemma {:induction false} LineCost(previous: seq<Byte>, cells: seq<Byte>, columns: nat, row: nat, start: nat,
                                    column: nat, was: seq<Byte>, now: seq<Byte>)
    requires |previous| == |cells| && column <= columns && start == row * columns && start + columns <= |cells|
    requires was == previous[start..start + columns] && now == cells[start..start + columns]
    requires StretchMayStart(previous, cells, start, columns, column) && columns > 0
    ensures |Stretches(false, was, now, row, column)|
         == Cost(previous, cells, columns, start + column, start + columns)
    decreases |now| - column
  {
    if column < |now| {
      var next := if Same(false, was, now, column) then column + 1 else ChangeEnd(false, was, now, column);
      StepCost(previous, cells, columns, row, start, column, was, now, next);
      LineCost(previous, cells, columns, row, start, next, was, now);
    }
  }

  lemma SameStep(previous: seq<Byte>, cells: seq<Byte>, columns: nat, row: nat, start: nat, column: nat,
                 was: seq<Byte>, now: seq<Byte>)
    requires |previous| == |cells| && column < columns && start == row * columns && start + columns <= |cells|
    requires was == previous[start..start + columns] && now == cells[start..start + columns]
    requires Same(false, was, now, column)
    ensures previous[start + column] == cells[start + column]
    ensures Stretches(false, was, now, row, column) == Stretches(false, was, now, row, column + 1)
    ensures Cost(previous, cells, columns, start + column, start + columns)
         == Cost(previous, cells, columns, start + column + 1, start + columns)
  {
    CellOfLine(previous, cells, columns, row, start, column);
  }

  /** Up to the next place where a stretch may start. */
  lemma StepCost(previous: seq<Byte>, cells: seq<Byte>, columns: nat, row: nat, start: nat, column: nat,
                 was: seq<Byte>, now: seq<Byte>, next: nat)
    requires |previous| == |cells| && column < columns && start == row * columns && start + columns <= |cells|
    requires was == previous[start..start + columns] && now == cells[start..start + columns]
    requires StretchMayStart(previous, cells, start, columns, column)
    requires next == if Same(false, was, now, column) then column + 1 else ChangeEnd(false, was, now, column)
    ensures column < next <= columns && StretchMayStart(previous, cells, start, columns, next)
    ensures |Stretches(false, was, now, row, column)| + Cost(previous, cells, columns, start + next, start + columns)
         == Cost(previous, cells, columns, start + column, start + columns) + |Stretches(false, was, now, row, next)|
  {
    if Same(false, was, now, column) {
      SameStep(previous, cells, columns, row, start, column, was, now);
    } else {
      StretchStep(previous, cells, columns, row, start, column, was, now);
    }
  }

  lemma StretchStep(previous: seq<Byte>, cells: seq<Byte>, columns: nat, row: nat, start: nat, column: nat,
                    was: seq<Byte>, now: seq<Byte>)
    requires |previous| == |cells| && column < columns && start == row * columns && start + columns <= |cells|
    requires was == previous[start..start + columns] && now == cells[start..start + columns]
    requires StretchMayStart(previous, cells, start, columns, column) && !Same(false, was, now, column)
    ensures var next := ChangeEnd(false, was, now, column);
            && column < next && StretchMayStart(previous, cells, start, columns, next)
            && |Stretches(false, was, now, row, column)| - |Stretches(false, was, now, row, next)|
               == |MoveTo(row, column)| + next - column
               == Cost(previous, cells, columns, start + column, start + columns)
                  - Cost(previous, cells, columns, start + next, start + columns)
  {
    ChangesFound(previous, cells, columns, start, column, was, now);
    StretchCost(previous, cells, columns, row, start, column, ChangeEnd(false, was, now, column));
    StretchLength(was, now, row, column);
  }

  lemma StretchLength(was: seq<Byte>, now: seq<Byte>, row: nat, column: nat)
    requires |was| == |now| && column < |now| && !Same(false, was, now, column)
    ensures var end := ChangeEnd(false, was, now, column);
            |Stretches(false, was, now, row, column)|
            == |MoveTo(row, column)| + end - column + |Stretches(false, was, now, row, end)|
  {
  }

  lemma ChangesFound(previous: seq<Byte>, cells: seq<Byte>, columns: nat, start: nat, column: nat, was: seq<Byte>,
                     now: seq<Byte>)
    requires |previous| == |cells| && column < columns && start + columns <= |cells|
    requires was == previous[start..start + columns] && now == cells[start..start + columns]
    requires !Same(false, was, now, column)
    ensures var end := ChangeEnd(false, was, now, column);
            && column < end
            && (forall i | start + column <= i < start + end :: previous[i] != cells[i])
            && StretchMayStart(previous, cells, start, columns, end)
  {
    var end := ChangeEnd(false, was, now, column);
    forall i | start + column <= i < start + end
      ensures previous[i] != cells[i]
    {
      assert !Same(false, was, now, i - start);
    }
    if end < columns {
      assert Same(false, was, now, end);
      assert was[end] == previous[start + end] && now[end] == cells[start + end];
    }
  }

  lemma RowCost(previous: seq<Byte>, cells: seq<Byte>, columns: nat, rows: nat, row: nat)
    requires |previous| == |cells| == columns * rows && row < rows && columns > 0
    ensures row * columns + columns <= |cells|
    ensures |Stretches(false, OldLine(false, previous, columns, rows, row), Line(cells, columns, rows, row), row, 0)|
         == Cost(previous, cells, columns, row * columns, row * columns + columns)
  {
    RowFits(|cells|, columns, rows, row);
    LineCost(previous, cells, columns, row, row * columns, 0, Line(previous, columns, rows, row),
             Line(cells, columns, rows, row));
  }

  lemma NextRowCost(previous: seq<Byte>, cells: seq<Byte>, columns: nat, rows: nat, row: nat, size: nat)
    requires |previous| == |cells| == columns * rows && row < rows && columns > 0
    requires size == row * columns && size + columns <= |cells|
    ensures |Lines(false, previous, cells, columns, rows, row + 1)|
         == |Lines(false, previous, cells, columns, rows, row)|
            + Cost(previous, cells, columns, 0, size + columns) - Cost(previous, cells, columns, 0, size)
  {
    RowCost(previous, cells, columns, rows, row);
    CostAdds(previous, cells, columns, 0, size, size + columns);
  }

  lemma {:induction false} LinesCost(previous: seq<Byte>, cells: seq<Byte>, columns: nat, rows: nat, count: nat,
                                     size: nat)
    requires |previous| == |cells| == columns * rows && count <= rows && columns > 0
    requires size == count * columns <= |cells|
    ensures |Lines(false, previous, cells, columns, rows, count)| == Cost(previous, cells, columns, 0, size)
  {
    if count > 0 {
      Distribute(count - 1, columns);
      LinesCost(previous, cells, columns, rows, count - 1, size - columns);
      NextRowCost(previous, cells, columns, rows, count - 1, size - columns);
    }
  }

  lemma RedrawCost(previous: seq<Byte>, cells: seq<Byte>, columns: nat, rows: nat)
    requires |previous| == |cells| == columns * rows && columns > 0
    ensures |Redraw(false, previous, cells, columns, rows)| == 6 + Cost(previous, cells, columns, 0, |cells|)
  {
    LinesCost(previous, cells, columns, rows, rows, |cells|);
  }

  /** The bytes of a redraw of the whole picture. */
  function WholeCost(columns: nat, rows: nat): nat {
    if rows == 0 then 0 else WholeCost(columns, rows - 1) + |MoveTo(rows - 1, 0)| + columns
  }

  lemma {:induction false} WholeLinesCost(previous: seq<Byte>, cells: seq<Byte>, columns: nat, rows: nat, count: nat)
    requires |cells| == columns * rows && count <= rows && columns > 0
    ensures |Lines(true, previous, cells, columns, rows, count)| == WholeCost(columns, count)
  {
    if count > 0 {
      WholeLinesCost(previous, cells, columns, rows, count - 1);
      WholeLine(Line(cells, columns, rows, count - 1), count - 1);
    }
  }

  /** The exact length of an update: the cost of the changes, when there is a previous picture of the same dimensions
      and that is within the bound, and of the whole picture otherwise. */
  lemma UpdateLength(previous: seq<Byte>, previousColumns: int, previousRows: int, columns: nat, rows: nat,
                     cells: seq<Byte>)
    requires |cells| == columns * rows && columns > 0
    ensures |Update(previous, previousColumns, previousRows, columns, rows, cells)|
         == if (previousColumns, previousRows) == (columns, rows) && |previous| == |cells|
               && 6 + Cost(previous, cells, columns, 0, |cells|) <= |cells| + 12 * rows
            then 6 + Cost(previous, cells, columns, 0, |cells|)
            else 6 + WholeCost(columns, rows)
  {
    WholeLinesCost(previous, cells, columns, rows, rows);
    WholeLinesCost([], cells, columns, rows, rows);
    if |previous| == |cells| {
      RedrawCost(previous, cells, columns, rows);
    }
  }

  /** The cell at `r`, `c` of the screen, before and after an update: the new cell where the pictures differ, and
      otherwise whatever it was. */
  predicate CellUpdated(before: Byte, after: Byte, previous: seq<Byte>, columns: nat, rows: nat, cells: seq<Byte>,
                        r: nat, c: nat)
  {
    var i := r * columns + c;
    if r < rows && c < columns && i < |previous| && i < |cells| && previous[i] != cells[i] then after == cells[i]
    else after == before
  }

  ghost predicate ScreenUpdated(before: seq<seq<Byte>>, after: seq<seq<Byte>>, previous: seq<Byte>, columns: nat,
                                rows: nat, cells: seq<Byte>)
  {
    && |after| == |before| && (forall r | 0 <= r < |before| :: |after[r]| == |before[r]|)
    && forall r, c | 0 <= r < |before| && 0 <= c < |before[r]| ::
         CellUpdated(before[r][c], after[r][c], previous, columns, rows, cells, r, c)
  }

  lemma PatchedCells(grid: seq<seq<Byte>>, previous: seq<Byte>, columns: nat, rows: nat, cells: seq<Byte>)
    requires |previous| == |cells| == columns * rows && rows <= |grid|
    requires forall r | 0 <= r < |grid| :: columns <= |grid[r]|
    ensures ScreenUpdated(grid, PatchedScreen(grid, false, previous, cells, columns, rows, rows), previous, columns,
                rows, cells)
  {
    var patched := PatchedScreen(grid, false, previous, cells, columns, rows, rows);
    forall r, c | 0 <= r < |grid| && 0 <= c < |grid[r]|
      ensures CellUpdated(grid[r][c], patched[r][c], previous, columns, rows, cells, r, c)
    {
      if r < rows {
        RowFits(|cells|, columns, rows, r);
      }
    }
  }

  lemma IncrementalWithinBound(previous: seq<Byte>, columns: nat, rows: nat, cells: seq<Byte>)
    requires |previous| == |cells| == columns * rows && columns > 0
    requires 6 + Cost(previous, cells, columns, 0, |cells|) <= |cells| + 12 * rows
    ensures Update(previous, columns, rows, columns, rows, cells) == Redraw(false, previous, cells, columns, rows)
  {
    RedrawCost(previous, cells, columns, rows);
  }

  /** An update writes the cells that have changed and no others: fed to any screen at all, whatever that shows, it puts
      the new cells in the places where the pictures differ and leaves everything else. */
  lemma OnlyChangesAreWritten(t: Term, previous: seq<Byte>, columns: nat, rows: nat, cells: seq<Byte>)
    requires t.Valid() && t.mode == Ground && rows <= t.height && columns <= t.width
    requires |previous| == |cells| == columns * rows && AllPrintable(cells) && columns > 0
    requires 6 + Cost(previous, cells, columns, 0, |cells|) <= |cells| + 12 * rows
    ensures var t' := FeedAll(t, Update(previous, columns, rows, columns, rows, cells));
            && (t'.width, t'.height, t'.row, t'.col, t'.mode) == (t.width, t.height, t.row, t.col, t.mode)
            && ScreenUpdated(t.grid, t'.grid, previous, columns, rows, cells)
  {
    IncrementalWithinBound(previous, columns, rows, cells);
    RedrawPatches(t, false, previous, cells, columns, rows);
    PatchedCells(t.grid, previous, columns, rows, cells);
  }

  // ---- the code ----

  /** The body of the row loop: appends the updates of one line. */
  method RenderLine(full: bool, was: seq<Byte>, now: seq<Byte>, row: nat, before: seq<Byte>) returns (output: seq<Byte>)
    requires full || |was| == |now|
    ensures output == before + Stretches(full, was, now, row, 0)
  {
    output := before;
    var column := 0;
    while column < |now|
      invariant column <= |now|
      invariant output + Stretches(full, was, now, row, column) == before + Stretches(full, was, now, row, 0)
    {
      if !full && was[column] == now[column] {
        column := column + 1;
        continue;
      }
      var start := column;
      while column < |now|
        invariant start <= column <= |now|
        invariant ChangeEnd(full, was, now, column) == ChangeEnd(full, was, now, start)
      {
        if !full && was[column] == now[column] { break; }
        column := column + 1;
      }
      var segment := MoveTo(row, start) + now[start..column];
      assert Stretches(full, was, now, row, start) == segment + Stretches(full, was, now, row, column);
      output := output + segment;
    }
  }

  /** The incremental pass over all lines. */
  method RenderChanges(full: bool, previous: seq<Byte>, columns: nat, rows: nat, cells: seq<Byte>)
      returns (output: seq<Byte>)
    requires |cells| == columns * rows
    requires full || |previous| == |cells|
    ensures output == Redraw(full, previous, cells, columns, rows)
  {
    output := SAVE;
    for row := 0 to rows
      invariant output == SAVE + Lines(full, previous, cells, columns, rows, row)
    {
      var was, now := OldLine(full, previous, columns, rows, row), Line(cells, columns, rows, row);
      output := RenderLine(full, was, now, row, output);
    }
    output := output + RESTORE;
  }

  lemma NextWholeLine(columns: nat, rows: nat, cells: seq<Byte>, row: nat)
    requires |cells| == columns * rows && columns >= 1 && row < rows
    ensures Lines(true, [], cells, columns, rows, row + 1)
         == Lines(true, [], cells, columns, rows, row) + (MoveTo(row, 0) + Line(cells, columns, rows, row))
  {
    WholeLine(Line(cells, columns, rows, row), row);
  }

  /** The fallback: one cursor move and the whole line, for every line. */
  method RenderWhole(columns: nat, rows: nat, cells: seq<Byte>) returns (output: seq<Byte>)
    requires |cells| == columns * rows && columns >= 1
    ensures output == Redraw(true, [], cells, columns, rows)
  {
    output := SAVE;
    for row := 0 to rows
      invariant output == SAVE + Lines(true, [], cells, columns, rows, row)
    {
      var now := Line(cells, columns, rows, row);
      NextWholeLine(columns, rows, cells, row);
      output := output + (MoveTo(row, 0) + now);
    }
    output := output + RESTORE;
  }

  method RenderVideoUpdate(previous: seq<Byte>, previousColumns: int, previousRows: int, columns: nat, rows: nat,
                           cells: seq<Byte>)
    returns (output: seq<Byte>)
    requires |cells| == columns * rows && columns >= 1
    ensures output == Update(previous, previousColumns, previousRows, columns, rows, cells)
  {
    var full := previousColumns != columns || previousRows != rows || |previous| != |cells|;
    output := RenderChanges(full, previous, columns, rows, cells);
    if full || |output| <= |cells| + rows * BYTES_PER_ROW { return; }
    output := RenderWhole(columns, rows, cells);
  }
}
