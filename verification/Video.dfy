/** The video half of the terminal UI: what RenderVideo remembers and what the screen shows
    (internal/client/terminal/terminal.go). */
module Video {
  import opened Bytes
  import opened Frame
  import opened Terminal
  import opened Render

  /** What the UI remembers of the last picture. */
  datatype Memory = Memory(cells: seq<Byte>, width: int, height: int)

  const NO_PICTURE := Memory([], 0, 0)

  datatype Request = Request(columns: int, rows: int, cells: seq<Byte>)

  /** Pictures of the wrong size or with an unsafe cell are ignored. */
  predicate Drawable(r: Request) {
    r.columns >= 1 && r.rows >= 1 && |r.cells| == r.columns * r.rows && AllPrintable(r.cells)
  }

  function Draw(m: Memory, r: Request): (Memory, seq<Byte>) {
    if !Drawable(r) then (m, [])
    else (Memory(r.cells, r.columns, r.rows), Update(m.cells, m.width, m.height, r.columns, r.rows, r.cells))
  }

  function DrawAll(m: Memory, requests: seq<Request>): (Memory, seq<Byte>) {
    if requests == [] then (m, [])
    else
      var (before, written) := DrawAll(m, requests[..|requests| - 1]);
      var (after, output) := Draw(before, requests[|requests| - 1]);
      (after, written + output)
  }

  ghost predicate FitsScreen(t: Term, r: Request) {
    Drawable(r) ==> r.columns <= t.width && r.rows <= t.height
  }

  /** The screen shows what the UI remembers. */
  ghost predicate OnScreen(t: Term, m: Memory) {
    && t.Valid() && t.mode == Ground
    && m.width >= 0 && m.height >= 0 && |m.cells| == m.width * m.height
    && Shows(t, m.width, m.height, m.cells)
  }

  /** Everything outside the largest picture drawn so far is as it was. */
  ghost predicate OutsideKept(t: Term, t': Term, columns: nat, rows: nat)
    requires t.Valid() && t'.Valid()
  {
    && (t'.width, t'.height, t'.row, t'.col) == (t.width, t.height, t.row, t.col)
    && forall r | 0 <= r < t.height ::
         if r < rows && columns <= t.width then t'.grid[r][columns..] == t.grid[r][columns..]
         else t'.grid[r] == t.grid[r]
  }

  lemma {:induction false} DrawKeepsScreen(t: Term, m: Memory, r: Request)
    requires OnScreen(t, m) && FitsScreen(t, r)
    ensures var (m', output) := Draw(m, r);
            var t' := FeedAll(t, output);
            && OnScreen(t', m')
            && (Drawable(r) ==>
                  t' == t.(grid := Overlay(t.grid, r.cells, r.columns, r.rows, r.rows),
                           savedRow := t.row, savedCol := t.col))
            && (!Drawable(r) ==> t' == t && m' == m)
  {
    if Drawable(r) {
      UpdateDraws(t, m.cells, m.width, m.height, r.columns, r.rows, r.cells);
    }
  }

  lemma OverlayStaysInside(t: Term, r: Request, columns: nat, rows: nat)
    requires t.Valid() && Drawable(r) && r.columns <= columns <= t.width && r.rows <= rows <= t.height
    ensures var t' := t.(grid := Overlay(t.grid, r.cells, r.columns, r.rows, r.rows),
                         savedRow := t.row, savedCol := t.col);
            t'.Valid() && OutsideKept(t, t', columns, rows)
  {
    var grid := Overlay(t.grid, r.cells, r.columns, r.rows, r.rows);
    forall k | 0 <= k < t.height
      ensures |grid[k]| == t.width
      ensures if k < rows then grid[k][columns..] == t.grid[k][columns..] else grid[k] == t.grid[k]
    {
      if k < r.rows {
        assert (Line(r.cells, r.columns, r.rows, k) + t.grid[k][r.columns..])[columns..] == t.grid[k][columns..];
      }
    }
  }

  /** Over every run of RenderVideo calls the screen shows exactly the remembered picture, cell by cell, cells outside a
      columns-by-rows viewport that holds every picture are untouched, and the cursor has not moved. */
  lemma {:induction false} ScreenShowsMemory(t: Term, requests: seq<Request>, columns: nat, rows: nat)
    requires t.Valid() && t.mode == Ground && columns <= t.width && rows <= t.height
    requires forall i | 0 <= i < |requests| && Drawable(requests[i]) ::
               requests[i].columns <= columns && requests[i].rows <= rows
    ensures var (m, written) := DrawAll(NO_PICTURE, requests);
            && OnScreen(FeedAll(t, written), m) && Displays(FeedAll(t, written), m.width, m.height, m.cells)
            && OutsideKept(t, FeedAll(t, written), columns, rows)
  {
    if requests != [] {
      var earlier, last := requests[..|requests| - 1], requests[|requests| - 1];
      assert requests[|requests| - 1] == last;
      ScreenShowsMemory(t, earlier, columns, rows);
      var (before, written) := DrawAll(NO_PICTURE, earlier);
      var shown := FeedAll(t, written);
      FeedConcat(t, written, Draw(before, last).1);
      DrawKeepsScreen(shown, before, last);
      if Drawable(last) {
        OverlayStaysInside(shown, last, columns, rows);
      }
    }
    var (m, written) := DrawAll(NO_PICTURE, requests);
    ShownIsDisplayed(FeedAll(t, written), m.width, m.height, m.cells);
  }

  /** The interactive UI; `output` is everything written to the terminal so far. */
  class UI {
    const interactive: bool
    var output: seq<Byte>
    var videoCells: seq<Byte>
    var videoWidth: int
    var videoHeight: int

    function Remembered(): Memory
      reads this
    {
      Memory(videoCells, videoWidth, videoHeight)
    }

    constructor (interactive: bool)
      ensures this.interactive == interactive && output == [] && Remembered() == NO_PICTURE
    {
      this.interactive := interactive;
      output, videoCells, videoWidth, videoHeight := [], [], 0, 0;
    }

    method RenderVideo(columns: int, rows: int, cells: seq<Byte>)
      modifies this
      ensures interactive ==>
                var (m, bytes) := Draw(old(Remembered()), Request(columns, rows, cells));
                Remembered() == m && output == old(output) + bytes
      ensures !interactive ==> Remembered() == old(Remembered()) && output == old(output)
    {
      if !interactive || columns < 1 || rows < 1 || |cells| != columns * rows { return; }
      for i := 0 to |cells|
        invariant AllPrintable(cells[..i])
      {
        if cells[i] < 0x20 || cells[i] > 0x7e {
          assert !Printable(cells[i]);
          return;
        }
        assert cells[..i + 1] == cells[..i] + [cells[i]];
      }
      assert cells == cells[..|cells|];
      var update := RenderVideoUpdate(videoCells, videoWidth, videoHeight, columns, rows, cells);
      output := output + update;
      videoCells := cells;
      videoWidth, videoHeight := columns, rows;
    }
  }
}
