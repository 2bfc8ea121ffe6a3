/** Grayscale pixels to terminal cells (internal/client/asciivideo/convert.go). */
module Gray {
  import opened Bytes
  import opened Clock
  import opened Frame
  import Codec

  // " .,:;irsXA253hMHGS#9B&@"
  const CHARSET: seq<Byte> := [
    0x20, 0x2e, 0x2c, 0x3a, 0x3b, 0x69, 0x72, 0x73, 0x58, 0x41, 0x32, 0x35,
    0x33, 0x68, 0x4d, 0x48, 0x47, 0x53, 0x23, 0x39, 0x42, 0x26, 0x40]

  predicate Matches(pixels: seq<Byte>, sourceColumns: int, sourceRows: int, columns: int, rows: int) {
    sourceColumns == columns && sourceRows == rows * 2 && |pixels| == sourceColumns * sourceRows
  }

  /** The charset entry for the mean of two vertically adjacent pixels. */
  function Shade(top: Byte, bottom: Byte): (cell: Byte)
    ensures cell in CHARSET && Printable(cell)
  {
    CHARSET[Density(top, bottom)]
  }

  /** How far along the charset, from blank to densest. */
  function Density(top: Byte, bottom: Byte): (density: nat)
    ensures density < |CHARSET|
  {
    (top + bottom) / 2 * (|CHARSET| - 1) / 255
  }

  /** Which means call for the `density`-th character. */
  lemma DensityBounds(top: Byte, bottom: Byte)
    ensures Density(top, bottom) * 255 <= (top + bottom) / 2 * (|CHARSET| - 1) < (Density(top, bottom) + 1) * 255
  {
  }

  /** Brighter pixels never print a lighter character; black is blank, and only full brightness is densest. */
  lemma DensityFollowsBrightness(top: Byte, bottom: Byte, top': Byte, bottom': Byte)
    ensures (top + bottom) / 2 <= (top' + bottom') / 2 ==> Density(top, bottom) <= Density(top', bottom')
    ensures top == bottom == 0 ==> Shade(top, bottom) == 0x20
    ensures Density(top, bottom) == |CHARSET| - 1 <==> top == bottom == 255
  {
    DensityBounds(top, bottom);
    DensityBounds(top', bottom');
  }

  lemma PixelInside(columns: nat, rows: nat, row: nat, column: nat)
    requires row < rows && column < columns
    ensures 0 <= row * 2 * columns + column < (row * 2 + 1) * columns + column < columns * (rows * 2)
  {
    var bound := (rows - 1) * 2 + 1;
    assert (row * 2 + 1) * columns <= bound * columns;
    assert columns * (rows * 2) == bound * columns + columns;
    assert (row * 2 + 1) * columns == row * 2 * columns + columns;
  }

  lemma RowFits(columns: nat, rows: nat, row: nat)
    requires row < rows
    ensures row * columns + columns == (row + 1) * columns <= rows * columns
  {
  }

  function CellAt(pixels: seq<Byte>, columns: nat, rows: nat, row: nat, column: nat): (cell: Byte)
    requires |pixels| == columns * (rows * 2) && row < rows && column < columns
    ensures Printable(cell)
  {
    PixelInside(columns, rows, row, column);
    Shade(pixels[row * 2 * columns + column], pixels[(row * 2 + 1) * columns + column])
  }

  function Row(pixels: seq<Byte>, columns: nat, rows: nat, row: nat): (cells: seq<Byte>)
    requires |pixels| == columns * (rows * 2) && row < rows
    ensures |cells| == columns && AllPrintable(cells)
  {
    seq(columns, column requires 0 <= column < columns => CellAt(pixels, columns, rows, row, column))
  }

  function Rows(pixels: seq<Byte>, columns: nat, rows: nat, count: nat): (cells: seq<Byte>)
    requires |pixels| == columns * (rows * 2) && count <= rows
    ensures |cells| == count * columns && AllPrintable(cells)
  {
    if count == 0 then [] else Rows(pixels, columns, rows, count - 1) + Row(pixels, columns, rows, count - 1)
  }

  /** The picture of a matching pixel buffer, row by row. */
  function Convert(pixels: seq<Byte>, sourceColumns: int, sourceRows: int, columns: nat, rows: nat)
    : (r: Result<seq<Byte>>)
    ensures r.Ok? <==> Matches(pixels, sourceColumns, sourceRows, columns, rows)
    ensures r.Ok? ==> |r.value| == columns * rows && AllPrintable(r.value)
  {
    if !Matches(pixels, sourceColumns, sourceRows, columns, rows) then Err(InvalidFrame)
    else Ok(Rows(pixels, columns, rows, rows))
  }

  /** Where a cell lies in the rows down to its own. */
  lemma CellIndex(columns: nat, count: nat, row: nat, column: nat)
    requires row < count && column < columns
    ensures row == count - 1 ==> row * columns + column == (count - 1) * columns + column < count * columns
    ensures row < count - 1 ==> row * columns + column < (count - 1) * columns <= count * columns
  {
    RowFits(columns, count, row);
    if row < count - 1 {
      RowFits(columns, count - 1, row);
    }
  }

  /** Row by row: the cell at (row, column) shows the two pixels that lie under it. */
  lemma {:induction false} CellsLieOverTheirPixels(
      pixels: seq<Byte>, columns: nat, rows: nat, count: nat, row: nat, column: nat)
    requires |pixels| == columns * (rows * 2) && row < count <= rows && column < columns
    ensures row * columns + column < |Rows(pixels, columns, rows, count)|
    ensures Rows(pixels, columns, rows, count)[row * columns + column] == CellAt(pixels, columns, rows, row, column)
  {
    var above, last := Rows(pixels, columns, rows, count - 1), Row(pixels, columns, rows, count - 1);
    var at := row * columns + column;
    CellIndex(columns, count, row, column);
    if row < count - 1 {
      CellsLieOverTheirPixels(pixels, columns, rows, count - 1, row, column);
      CellOfJoined(above, last, at, 0);
    } else {
      CellOfJoined(above, last, at, column);
    }
  }

  lemma CellOfJoined(above: seq<Byte>, last: seq<Byte>, at: nat, column: nat)
    requires at < |above| || (column < |last| && at == |above| + column)
    ensures at < |above + last| && (above + last)[at] == if at < |above| then above[at] else last[column]
  {
  }

  // ---- what a picture shows, on the pixels alone ----

  /** The characters from blank to densest, as text. */
  const INK := " .,:;irsXA253hMHGS#9B&@"

  /** The character for two pixels is as far along the ink as their mean is along the brightness scale. */
  ghost predicate Inked(cell: Byte, top: Byte, bottom: Byte) {
    exists d :: InkedAs(d, cell, top, bottom)
  }

  ghost predicate InkedAs(d: int, cell: Byte, top: Byte, bottom: Byte) {
    && 0 <= d < |INK| && INK[d] as int == cell
    && d * 255 <= (top + bottom) / 2 * 22 < (d + 1) * 255
  }

  /** One cell of a picture, and the two pixels under it. */
  ghost predicate DepictsAt(cells: seq<Byte>, pixels: seq<Byte>, columns: nat, row: nat, column: nat) {
    && row * columns + column < |cells|
    && (2 * row + 1) * columns + column < |pixels|
    && 2 * row * columns + column < |pixels|
    && Inked(cells[row * columns + column], pixels[2 * row * columns + column],
             pixels[(2 * row + 1) * columns + column])
  }

  /** A picture of `columns` by `rows` cells shows these pixels. */
  ghost predicate Depicts(cells: seq<Byte>, pixels: seq<Byte>, columns: nat, rows: nat) {
    && |cells| == columns * rows
    && |pixels| == columns * (rows * 2)
    && forall row, column | 0 <= row < rows && 0 <= column < columns :: DepictsAt(cells, pixels, columns, row, column)
  }

  lemma ShadeIsInk(top: Byte, bottom: Byte)
    ensures Inked(Shade(top, bottom), top, bottom)
  {
    InkIsCharset();
    DensityBounds(top, bottom);
    assert InkedAs(Density(top, bottom), Shade(top, bottom), top, bottom);
  }

  lemma InkIsCharset()
    ensures |INK| == |CHARSET| == 23
    ensures forall d | 0 <= d < |INK| :: INK[d] as int == CHARSET[d]
  {
  }

  lemma CellDepicts(pixels: seq<Byte>, columns: nat, rows: nat, row: nat, column: nat)
    requires |pixels| == columns * (rows * 2) && row < rows && column < columns
    ensures DepictsAt(Rows(pixels, columns, rows, rows), pixels, columns, row, column)
  {
    CellsLieOverTheirPixels(pixels, columns, rows, rows, row, column);
    PixelInside(columns, rows, row, column);
    assert 2 * row == row * 2;
    ShadeIsInk(pixels[row * 2 * columns + column], pixels[(row * 2 + 1) * columns + column]);
  }

  /** A pixel buffer converts exactly when it has twice as many rows as the picture and all its pixels, and every
      converted picture shows its pixels: each cell is the ink for the mean of the two pixels that lie under it, in the
      same column and in the rows 2 * row and 2 * row + 1. */
  lemma ConvertDepicts(pixels: seq<Byte>, sourceColumns: int, sourceRows: int, columns: nat, rows: nat)
    ensures var r := Convert(pixels, sourceColumns, sourceRows, columns, rows);
            && (r.Ok? <==> sourceColumns == columns && sourceRows == rows * 2 && |pixels| == columns * (rows * 2))
            && (r.Ok? ==> Depicts(r.value, pixels, columns, rows))
  {
    if sourceColumns == columns && sourceRows == rows * 2 && |pixels| == columns * (rows * 2) {
      var cells := Rows(pixels, columns, rows, rows);
      forall row, column | 0 <= row < rows && 0 <= column < columns
        ensures DepictsAt(cells, pixels, columns, row, column)
      {
        CellDepicts(pixels, columns, rows, row, column);
      }
    }
  }

  /** A picture made for an encoder's dimensions is always accepted by it, and the frame stays small. */
  lemma ConvertedPictureEncodes(e: Codec.EncoderState, pixels: seq<Byte>, sourceColumns: int, sourceRows: int,
                                timestamp: Time, wallClock: Time)
    requires e.Valid() && Matches(pixels, sourceColumns, sourceRows, e.columns, e.rows)
    ensures var cells := Convert(pixels, sourceColumns, sourceRows, e.columns, e.rows).value;
            var r := Codec.EncodeStep(e, cells, timestamp, wallClock).1;
            && r.Ok?
            && |r.value| <= HEADER_SIZE + e.columns * e.rows < MAX_ENCODED_SIZE
            && Unmarshal(r.value).Ok?
            && (Unmarshal(r.value).value.frameType == FRAME_DELTA ==> |r.value| < HEADER_SIZE + |cells|)
  {
    var cells := Convert(pixels, sourceColumns, sourceRows, e.columns, e.rows).value;
    Codec.EncodeMakesAFrame(e, cells, timestamp, wallClock);
  }

  method ConvertCell(pixels: seq<Byte>, columns: nat, rows: nat, row: nat, column: nat) returns (cell: Byte)
    requires |pixels| == columns * (rows * 2) && row < rows && column < columns
    ensures cell == CellAt(pixels, columns, rows, row, column)
  {
    PixelInside(columns, rows, row, column);
    var top: int := pixels[row * 2 * columns + column];
    var bottom: int := pixels[(row * 2 + 1) * columns + column];
    var brightness := (top + bottom) / 2;
    cell := CHARSET[brightness * (|CHARSET| - 1) / 255];
  }

  /** The inner loop: one row of the picture. */
  method ConvertRow(pixels: seq<Byte>, columns: nat, rows: nat, row: nat, result: array<Byte>, base: nat)
    requires |pixels| == columns * (rows * 2) && row < rows
    requires base + columns <= result.Length
    modifies result
    ensures result[..] == old(result[..base]) + Row(pixels, columns, rows, row) + old(result[base + columns..])
  {
    var column := 0;
    ghost var cells := Row(pixels, columns, rows, row);
    while column < columns
      invariant 0 <= column <= columns
      invariant result[..base] == old(result[..base])
      invariant result[base..base + column] == cells[..column]
      invariant result[base + columns..] == old(result[base + columns..])
    {
      var cell := ConvertCell(pixels, columns, rows, row, column);
      result[base + column] := cell;
      column := column + 1;
    }
    assert result[..] == result[..base] + result[base..base + columns] + result[base + columns..];
  }

  /** The outer loop over matching pixels. */
  method ConvertRows(pixels: seq<Byte>, columns: nat, rows: nat, result: array<Byte>)
    requires |pixels| == columns * (rows * 2) && result.Length == rows * columns
    modifies result
    ensures result[..] == Rows(pixels, columns, rows, rows)
  {
    var row, base := 0, 0;
    while row < rows
      invariant row <= rows && base == row * columns <= result.Length
      invariant result[..base] == Rows(pixels, columns, rows, row)
    {
      RowFits(columns, rows, row);
      ghost var above := result[..base];
      ConvertRow(pixels, columns, rows, row, result, base);
      assert result[..base + columns] == above + Row(pixels, columns, rows, row);
      row, base := row + 1, base + columns;
    }
    assert result[..] == result[..base];
  }

  /** Fills the picture cell by cell. Two negative dimensions can pass the size test; neither loop then runs and
      the picture is zero bytes. */
  method FromGray(pixels: seq<Byte>, sourceColumns: int, sourceRows: int, columns: int, rows: int)
    returns (r: Result<seq<Byte>>)
    ensures columns >= 0 && rows >= 0 ==> r == Convert(pixels, sourceColumns, sourceRows, columns, rows)
    ensures columns >= 0 && rows >= 0 && r.Ok? ==> Depicts(r.value, pixels, columns, rows)
    ensures columns < 0 || rows < 0 ==>
              if Matches(pixels, sourceColumns, sourceRows, columns, rows)
              then r.Ok? && |r.value| == columns * rows && forall i | 0 <= i < |r.value| :: r.value[i] == 0
              else r == Err(InvalidFrame)
  {
    if sourceColumns != columns || sourceRows != rows * 2 || |pixels| != sourceColumns * sourceRows {
      return Err(InvalidFrame);
    }
    assert |pixels| == columns * rows * 2;
    var result := new Byte[columns * rows](_ => 0);
    if columns >= 0 && rows >= 0 {
      ConvertRows(pixels, columns, rows, result);
      ConvertDepicts(pixels, sourceColumns, sourceRows, columns, rows);
    }
    return Ok(result[..]);
  }
}
