/** What the primary paint shows on a terminal of the same size, and exactly when that is the screen it came from. */
module PrimaryRoundTrip {
  import opened Wrappers
  import opened Cells
  import opened Paint
  import opened Terminal
  import opened Emission
  import opened RowPainting

  // What the paint shows, without reference to any terminal

  /** Lines left behind, and the line the paint has filled without moving on. */
  datatype Canvas = Canvas(done: seq<Line>, hanging: Option<Line>)

  /** A row continues a hanging line only by painting something; a row that paints nothing melts into it. */
  function Show(c: Canvas, row: Row, last: bool): Canvas {
    if c.hanging.Some? && PaintedEnd(row) == 0 then
      if last then c else Canvas(c.done + [c.hanging.value], None)
    else
      var done := if c.hanging.Some? then c.done + [c.hanging.value.(wrapped := true)] else c.done;
      var line := Line(Tiles(row), false);
      if Wrapped(row) || last then Canvas(done, Some(line)) else Canvas(done + [line], None)
  }

  function ShowUpTo(rows: seq<Row>, k: nat): Canvas
    requires k <= |rows|
  {
    if k == 0 then Canvas([], None) else Show(ShowUpTo(rows, k - 1), rows[k - 1], k == |rows|)
  }

  /** The lines the paint of `rows` shows, oldest first. */
  function ShownLines(rows: seq<Row>): seq<Line> {
    var c := ShowUpTo(rows, |rows|);
    c.done + (if c.hanging.Some? then [c.hanging.value] else [])
  }

  function LinesOf(rows: seq<Row>): (lines: seq<Line>)
    ensures |lines| == |rows|
  {
    seq(|rows|, i requires 0 <= i < |rows| => LineOf(rows[i]))
  }

  /** Every wrapped row has a successor that paints at least one cell. */
  predicate WrapsContinue(rows: seq<Row>) {
    forall i | 0 <= i < |rows| && Wrapped(rows[i]) :: i + 1 < |rows| && PaintedEnd(rows[i + 1]) > 0
  }

  function Unflagged(row: Row): Line {
    Line(Tiles(row), false)
  }

  /** The first `k` rows are all shown as they are; the last of them may still be hanging. */
  ghost predicate ExactUpTo(rows: seq<Row>, k: nat, c: Canvas)
    requires k <= |rows|
  {
    if c.hanging.None? then c.done == LinesOf(rows[..k]) && (k == |rows| ==> k == 0)
    else
      && k > 0 && (Wrapped(rows[k - 1]) || k == |rows|)
      && c.done == LinesOf(rows[..k - 1]) && c.hanging.value == Unflagged(rows[k - 1])
  }

  /** Some wrapped row has been left behind without its wrap. */
  ghost predicate LostWrap(rows: seq<Row>, c: Canvas) {
    exists i :: 0 <= i < |c.done| && i < |rows| && Wrapped(rows[i]) && !c.done[i].wrapped
  }

  lemma LinesOfNext(rows: seq<Row>, k: nat)
    requires k < |rows|
    ensures LinesOf(rows[..k + 1]) == LinesOf(rows[..k]) + [LineOf(rows[k])]
  {
  }

  lemma LostWrapStays(rows: seq<Row>, c: Canvas, row: Row, last: bool)
    requires LostWrap(rows, c)
    ensures LostWrap(rows, Show(c, row, last))
  {
    var i :| 0 <= i < |c.done| && i < |rows| && Wrapped(rows[i]) && !c.done[i].wrapped;
    assert Show(c, row, last).done[i] == c.done[i];
  }

  /** From no hanging line, a row is shown as it is. */
  lemma ExactFromFresh(rows: seq<Row>, k: nat, j: nat, c: Canvas)
    requires k == j + 1 <= |rows| && ExactUpTo(rows, j, c) && c.hanging.None?
    ensures ExactUpTo(rows, k, Show(c, rows[j], k == |rows|))
  {
    LinesOfNext(rows, j);
  }

  /** A row that paints something continues the hanging line's wrap. */
  lemma ExactFromHanging(rows: seq<Row>, k: nat, j: nat, c: Canvas)
    requires k == j + 1 <= |rows| && ExactUpTo(rows, j, c) && c.hanging.Some? && PaintedEnd(rows[j]) > 0
    ensures ExactUpTo(rows, k, Show(c, rows[j], k == |rows|))
  {
    LinesOfNext(rows, j);
    LinesOfNext(rows, j - 1);
    assert c.hanging.value.(wrapped := true) == LineOf(rows[j - 1]);
    assert Show(c, rows[j], k == |rows|).done[..j] == c.done + [LineOf(rows[j - 1])];
  }

  /** One that paints nothing takes the wrap away, or if it is the last melts into the line. */
  lemma LostFromHanging(rows: seq<Row>, k: nat, j: nat, c: Canvas)
    requires k == j + 1 <= |rows| && ExactUpTo(rows, j, c) && c.hanging.Some? && PaintedEnd(rows[j]) == 0
    ensures var after := Show(c, rows[j], k == |rows|);
            && (k < |rows| ==> LostWrap(rows, after))
            && (k == |rows| ==> after == c)
  {
    var after := Show(c, rows[j], k == |rows|);
    if k < |rows| {
      assert after.done[j - 1] == Unflagged(rows[j - 1]);
    }
  }

  /** After every prefix the canvas is exact or has lost a wrap for good, and it stays exact while wraps continue. */
  lemma {:induction false} ShowUpToIsExactOrLossy(rows: seq<Row>, k: nat)
    requires k <= |rows|
    ensures ExactUpTo(rows, k, ShowUpTo(rows, k)) || LostWrap(rows, ShowUpTo(rows, k)) || MeltedEnd(rows, k)
    ensures WrapsContinue(rows) ==> ExactUpTo(rows, k, ShowUpTo(rows, k))
    decreases k
  {
    if k > 0 {
      var j := k - 1;
      var c, row := ShowUpTo(rows, j), rows[j];
      ShowUpToIsExactOrLossy(rows, j);
      if !ExactUpTo(rows, j, c) {
        LostWrapStays(rows, c, row, k == |rows|);
      } else if c.hanging.None? {
        ExactFromFresh(rows, k, j, c);
      } else if PaintedEnd(row) > 0 {
        ExactFromHanging(rows, k, j, c);
      } else {
        LostFromHanging(rows, k, j, c);
      }
    }
  }

  /** The last row painted nothing below a hanging line. */
  ghost predicate MeltedEnd(rows: seq<Row>, k: nat)
    requires k <= |rows|
  {
    && k == |rows| >= 2 && Wrapped(rows[k - 2]) && PaintedEnd(rows[k - 1]) == 0
    && var c := ShowUpTo(rows, k);
       |c.done| == k - 2 && c.hanging == Some(Unflagged(rows[k - 2]))
  }

  function Padding(shown: nat, rows: nat): nat {
    if shown < rows then rows - shown else 0
  }

  function Padded(lines: seq<Line>, cols: nat, rows: nat): seq<Line> {
    lines + BlankLines(Padding(|lines|, rows), cols)
  }

  /** Main result, first half: the paint shows exactly the screen's lines if and only if wraps continue. */
  lemma ShownExactlyWhenWrapsContinue(rows: seq<Row>, cols: nat, height: nat)
    requires 0 < height <= |rows|
    ensures Padded(ShownLines(rows), cols, height) == LinesOf(rows) <==> WrapsContinue(rows)
  {
    var n, c := |rows|, ShowUpTo(rows, |rows|);
    ShowUpToIsExactOrLossy(rows, n);
    LinesOfNext(rows, n - 1);
    assert rows[..n] == rows;
    var shown := Padded(ShownLines(rows), cols, height);
    if WrapsContinue(rows) {
      assert LineOf(rows[n - 1]) == Unflagged(rows[n - 1]);
      assert ShownLines(rows) == LinesOf(rows);
      assert BlankLines(0, cols) == [];
    } else if LostWrap(rows, c) {
      var i :| 0 <= i < |c.done| && i < |rows| && Wrapped(rows[i]) && !c.done[i].wrapped;
      assert shown[i] == c.done[i];
    } else if MeltedEnd(rows, n) {
      assert shown[n - 2] == Unflagged(rows[n - 2]);
    } else {
      LossyLast(rows, c);
      assert shown[n - 1] == Unflagged(rows[n - 1]);
    }
  }

  /** When every prefix is exact and yet a wrap does not continue, it is the last row's. */
  lemma LossyLast(rows: seq<Row>, c: Canvas)
    requires |rows| > 0 && c == ShowUpTo(rows, |rows|) && !WrapsContinue(rows)
    requires ExactUpTo(rows, |rows|, c)
    ensures Wrapped(rows[|rows| - 1]) && c.hanging.Some?
  {
    var i :| 0 <= i < |rows| && Wrapped(rows[i]) && !(i + 1 < |rows| && PaintedEnd(rows[i + 1]) > 0);
    if i + 1 < |rows| {
      BlankAfterWrapLoses(rows, i, |rows|);
    }
  }

  lemma {:induction false} LostWrapForever(rows: seq<Row>, j: nat, k: nat)
    requires j <= k <= |rows| && LostWrap(rows, ShowUpTo(rows, j))
    ensures LostWrap(rows, ShowUpTo(rows, k))
    decreases k
  {
    if j < k {
      LostWrapForever(rows, j, k - 1);
      LostWrapStays(rows, ShowUpTo(rows, k - 1), rows[k - 1], k == |rows|);
    }
  }

  lemma LostIsNotExact(rows: seq<Row>, k: nat)
    requires k <= |rows| && LostWrap(rows, ShowUpTo(rows, k))
    ensures !ExactUpTo(rows, k, ShowUpTo(rows, k))
  {
    var c := ShowUpTo(rows, k);
    var i :| 0 <= i < |c.done| && i < |rows| && Wrapped(rows[i]) && !c.done[i].wrapped;
  }

  lemma BlankAfterWrapLoses(rows: seq<Row>, i: nat, k: nat)
    requires i + 2 <= k <= |rows| && Wrapped(rows[i]) && PaintedEnd(rows[i + 1]) == 0
    ensures !ExactUpTo(rows, k, ShowUpTo(rows, k))
  {
    var j := i + 1;
    ShowUpToIsExactOrLossy(rows, j);
    if LostWrap(rows, ShowUpTo(rows, j)) {
      LostWrapForever(rows, j, k);
      LostIsNotExact(rows, k);
    } else if j + 1 < |rows| {
      WrapLeftBehind(rows, i, j, j + 1);
      LostWrapForever(rows, j + 1, k);
      LostIsNotExact(rows, k);
    } else {
      MeltedIsNotExact(rows, i, j, k);
    }
  }

  lemma MeltedIsNotExact(rows: seq<Row>, i: nat, j: nat, k: nat)
    requires j == i + 1 && k == j + 1 == |rows| && Wrapped(rows[i]) && PaintedEnd(rows[j]) == 0
    requires ExactUpTo(rows, j, ShowUpTo(rows, j))
    ensures !ExactUpTo(rows, k, ShowUpTo(rows, k))
  {
    var c := ShowUpTo(rows, j);
    assert ShowUpTo(rows, k) == Show(c, rows[j], true) == c;
    assert |c.done| == i;
  }

  lemma WrapLeftBehind(rows: seq<Row>, i: nat, j: nat, k: nat)
    requires j == i + 1 && k == j + 1 < |rows| && Wrapped(rows[i]) && PaintedEnd(rows[j]) == 0
    requires ExactUpTo(rows, j, ShowUpTo(rows, j))
    ensures LostWrap(rows, ShowUpTo(rows, k))
  {
    var c := ShowUpTo(rows, j);
    assert ShowUpTo(rows, k) == Show(c, rows[j], false);
    assert |c.done| == i;
    assert ShowUpTo(rows, k).done[i] == Unflagged(rows[i]);
  }

  // What the terminal shows

  /** The grid whose written lines are `lines`, the cursor on the last of them. */
  function GridFor(lines: seq<Line>, cols: nat, rows: nat, col: nat, pending: bool): Grid
    requires |lines| > 0 && rows > 0
  {
    Grid(Padded(lines, cols, rows), if |lines| < rows then |lines| - 1 else rows - 1, col, pending)
  }

  ghost predicate LinesFit(lines: seq<Line>, cols: nat) {
    forall l | l in lines :: |l.tiles| == cols
  }

  lemma GridForIsValid(lines: seq<Line>, cols: nat, rows: nat, col: nat, pending: bool)
    requires |lines| > 0 && rows > 0 && col < cols && LinesFit(lines, cols)
    ensures var g := GridFor(lines, cols, rows, col, pending);
            ValidGrid(g, cols, rows) && At(g, rows) == |lines| - 1 && g.lines[|lines| - 1] == lines[|lines| - 1]
  {
  }

  lemma NextLine(lines: seq<Line>, cols: nat, rows: nat, col: nat, pending: bool)
    requires |lines| > 0 && rows > 0 && col < cols && LinesFit(lines, cols)
    ensures ValidGrid(GridFor(lines, cols, rows, col, pending), cols, rows)
    ensures LineFeed(GridFor(lines, cols, rows, col, pending), cols, rows, true)
         == GridFor(lines + [BlankLine(cols)], cols, rows, col, pending)
  {
    GridForIsValid(lines, cols, rows, col, pending);
    if |lines| < rows {
      assert BlankLines(rows - |lines|, cols) == [BlankLine(cols)] + BlankLines(rows - |lines| - 1, cols);
    } else {
      assert BlankLines(0, cols) == [];
    }
  }

  lemma WrapNextLine(before: seq<Line>, line: Line, cols: nat, rows: nat, col: nat, pending: bool)
    requires rows > 0 && col < cols && LinesFit(before + [line], cols)
    ensures ValidGrid(GridFor(before + [line], cols, rows, col, pending), cols, rows)
    ensures WrapLine(GridFor(before + [line], cols, rows, col, pending), cols, rows, true)
         == GridFor(before + [line.(wrapped := true)] + [BlankLine(cols)], cols, rows, 0, false)
  {
    var lines, flagged := before + [line], before + [line.(wrapped := true)];
    GridForIsValid(lines, cols, rows, col, pending);
    var g := GridFor(lines, cols, rows, col, pending);
    assert g.lines[|lines| - 1 := line.(wrapped := true)] == Padded(flagged, cols, rows);
    NextLine(flagged, cols, rows, col, pending);
  }

  lemma WriteLine(before: seq<Line>, line: Line, tiles: seq<Tile>, cols: nat, rows: nat, col: nat, pending: bool)
    requires rows > 0 && col < cols && LinesFit(before + [line], cols)
    ensures ValidGrid(GridFor(before + [line], cols, rows, col, pending), cols, rows)
    ensures Rewritten(GridFor(before + [line], cols, rows, col, pending), rows, tiles)
         == GridFor(before + [line.(tiles := tiles)], cols, rows, col, pending)
  {
    GridForIsValid(before + [line], cols, rows, col, pending);
    assert Padded(before + [line], cols, rows)[|before| := line.(tiles := tiles)]
        == Padded(before + [line.(tiles := tiles)], cols, rows);
  }

  ghost predicate GoodRows(width: nat -> nat, cols: nat, rows: seq<Row>) {
    && width(0x20) == 1 && cols > 0
    && (forall k | 0 <= k < |rows| :: GoodRow(width, cols, rows[k]))
    && (forall k | 0 <= k < |rows| - 1 && EndsInNarrowGap(rows[k]) :: rows[k + 1][0].wide)
  }

  function CurrentLine(c: Canvas, cols: nat): Line {
    if c.hanging.Some? then c.hanging.value else BlankLine(cols)
  }

  /** The primary grid that stands for a canvas, given where the cursor is on its line. */
  function CanvasGrid(c: Canvas, cols: nat, rows: nat, col: nat, pending: bool): Grid
    requires rows > 0
  {
    GridFor(c.done + [CurrentLine(c, cols)], cols, rows, col, pending)
  }

  ghost predicate Fits(c: Canvas, cols: nat) {
    LinesFit(c.done, cols) && (c.hanging.Some? ==> |c.hanging.value.tiles| == cols)
  }

  /** Cursor state between two rows: home on a blank line, or parked at the end of a wrapped one. */
  ghost predicate Parked(c: Canvas, previous: Row, cols: nat, col: nat, pending: bool) {
    if c.hanging.None? then col == 0 && !pending
    else
      && Wrapped(previous) && |previous| == cols && c.hanging.value == Unflagged(previous)
      && col == cols - 1 && pending == !EndsInNarrowGap(previous)
  }

  /** Where the first glyph of the next painted row lands: on a fresh line, the hanging one flagged. */
  function BaseLines(c: Canvas): seq<Line> {
    if c.hanging.Some? then c.done + [c.hanging.value.(wrapped := true)] else c.done
  }

  lemma LandsOnFreshLine(t: Term, c: Canvas, previous: Row, row: Row)
    requires Valid(t) && t.alt.None? && LineWrap in t.modes && Fits(c, t.cols)
    requires t.main == CanvasGrid(c, t.cols, t.rows, t.main.col, t.main.pending)
    requires Parked(c, previous, t.cols, t.main.col, t.main.pending)
    requires GoodRow(t.width, t.cols, row)
    requires c.hanging.Some? && EndsInNarrowGap(previous) ==> row[0].wide
    ensures ReadyFor(t, GridFor(BaseLines(c) + [BlankLine(t.cols)], t.cols, t.rows, 0, false), row)
  {
    var base := GridFor(BaseLines(c) + [BlankLine(t.cols)], t.cols, t.rows, 0, false);
    GridForIsValid(BaseLines(c) + [BlankLine(t.cols)], t.cols, t.rows, 0, false);
    assert !row[0].spacer;
    if c.hanging.Some? {
      WrapNextLine(c.done, c.hanging.value, t.cols, t.rows, t.main.col, t.main.pending);
      if EndsInNarrowGap(previous) {
        GapIsBlank(t, c, previous);
      }
    }
  }

  /** The column a wide glyph did not fit into is already blank, so blanking it changes nothing. */
  lemma GapIsBlank(t: Term, c: Canvas, previous: Row)
    requires Valid(t) && t.alt.None? && Fits(c, t.cols)
    requires t.main == CanvasGrid(c, t.cols, t.rows, t.main.col, t.main.pending)
    requires c.hanging.Some? && Parked(c, previous, t.cols, t.main.col, t.main.pending) && EndsInNarrowGap(previous)
    ensures Overwrite(t.main, t.rows, t.main.col, [BLANK]) == t.main
  {
    GridForIsValid(c.done + [CurrentLine(c, t.cols)], t.cols, t.rows, t.main.col, t.main.pending);
    var tiles := c.hanging.value.tiles;
    assert tiles[t.cols - 1] == BLANK;
    assert tiles[..t.cols - 1] + [BLANK] + tiles[t.cols..] == tiles;
    assert t.main.lines[At(t.main, t.rows) := c.hanging.value] == t.main.lines;
  }

  lemma DrawnLine(width: nat -> nat, before: seq<Line>, row: Row, cols: nat, rows: nat)
    requires cols > 0 && rows > 0 && LinesFit(before, cols) && GoodRow(width, cols, row) && width(0x20) == 1
    ensures Extent(row, PaintedEnd(row)) <= cols
    ensures var base := GridFor(before + [BlankLine(cols)], cols, rows, 0, false);
            var g := Drawn(base, cols, rows, row, PaintedEnd(row));
            && ValidGrid(base, cols, rows) && g.col < cols
            && g == GridFor(before + [Unflagged(row)], cols, rows, g.col, g.pending)
            && (Wrapped(row) ==> g.col == cols - 1 && g.pending == !EndsInNarrowGap(row))
  {
    UnpaintedIsBlank(width, cols, row);
    var tiles := Tiles(row)[..Extent(row, PaintedEnd(row))];
    WriteLine(before, BlankLine(cols), tiles + Blanks(cols - |tiles|), cols, rows, 0, false);
    GridForIsValid(before + [BlankLine(cols)], cols, rows, 0, false);
  }

  ghost predicate Sits(t0: Term, t: Term, c: Canvas, current: Sgr) {
    && t0.rows > 0
    && t == t0.(main := t.main, pen := StyleOfSgr(current))
    && t.main.col < t0.cols && Fits(c, t0.cols)
    && t.main == CanvasGrid(c, t0.cols, t0.rows, t.main.col, t.main.pending)
  }

  ghost predicate PrimaryReady(t: Term) {
    Valid(t) && t.parser == Ground && t.alt.None? && LineWrap in t.modes
  }

  /** The canvas after a row that paints something, before any CRLF. */
  function Hung(c: Canvas, row: Row): Canvas {
    Canvas(BaseLines(c), Some(Unflagged(row)))
  }

  lemma PrintRow(t0: Term, t: Term, c: Canvas, previous: Row, row: Row, current: Sgr)
    requires PrimaryReady(t0) && Valid(t) && Sits(t0, t, c, current) && t0.width(0x20) == 1
    requires Parked(c, previous, t0.cols, t.main.col, t.main.pending) && GoodRow(t0.width, t0.cols, row)
    requires c.hanging.Some? && EndsInNarrowGap(previous) ==> row[0].wide
    requires PaintedEnd(row) > 0
    ensures var (bytes, pen) := PaintRow(row, current);
            var r := Feed(t, bytes);
            && Sits(t0, r, Hung(c, row), pen)
            && (Wrapped(row) ==> Parked(Hung(c, row), row, t0.cols, r.main.col, r.main.pending))
  {
    LandsOnFreshLine(t, c, previous, row);
    var base := GridFor(BaseLines(c) + [BlankLine(t.cols)], t.cols, t.rows, 0, false);
    FeedCells(t, base, row, PaintedEnd(row), current);
    DrawnLine(t.width, BaseLines(c), row, t.cols, t.rows);
  }

  /** CRLF with a reset pen: the line is closed as it stands and a blank one opened. */
  lemma CloseRow(t0: Term, t: Term, c: Canvas, current: Sgr)
    requires PrimaryReady(t0) && Valid(t) && Sits(t0, t, c, current)
    ensures var closed := Canvas(c.done + [CurrentLine(c, t0.cols)], None);
            var r := Feed(t, RESET + CRLF);
            Sits(t0, r, closed, DEFAULT_SGR) && r.main.col == 0 && !r.main.pending
  {
    var closed := Canvas(c.done + [CurrentLine(c, t0.cols)], None);
    FeedResetCrlf(t);
    DefaultSgrIsPlain();
    NextLine(closed.done, t.cols, t.rows, 0, false);
  }

  function Previous(rows: seq<Row>, k: nat): Row
    requires k <= |rows|
  {
    if k == 0 then [] else rows[k - 1]
  }

  lemma BlankRowIsBlank(width: nat -> nat, cols: nat, row: Row)
    requires GoodRow(width, cols, row) && width(0x20) == 1 && PaintedEnd(row) == 0
    ensures Unflagged(row) == BlankLine(cols) && PaintRow(row, DEFAULT_SGR).0 == []
    ensures forall current :: PaintRow(row, current) == ([], current)
  {
    UnpaintedIsBlank(width, cols, row);
    assert Tiles(row) == Blanks(cols);
    assert row[..0] == [];
  }

  /** Terminal `t` shows the first `k` rows, with pen `pen`, and is ready for the next. */
  ghost predicate Printed(t0: Term, rows: seq<Row>, k: nat, t: Term, pen: Sgr)
    requires k <= |rows|
  {
    && Sits(t0, t, ShowUpTo(rows, k), pen)
    && (k < |rows| ==> Parked(ShowUpTo(rows, k), Previous(rows, k), t0.cols, t.main.col, t.main.pending))
  }

  /** The terminal after `row` was painted on `t`, and closed unless it wraps or is the last. */
  ghost function AfterRow(row: Row, last: bool, t: Term, pen: Sgr): Term
    requires Valid(t)
  {
    var painted := Feed(t, PaintRow(row, pen).0);
    if !Wrapped(row) && !last then Feed(painted, RESET + CRLF) else painted
  }

  ghost function PenAfterRow(row: Row, last: bool, pen: Sgr): Sgr {
    if !Wrapped(row) && !last then DEFAULT_SGR else PaintRow(row, pen).1
  }

  lemma FeedNextRow(t0: Term, rows: seq<Row>, k: nat)
    requires Valid(t0) && 0 < k <= |rows|
    ensures var (before, pen) := PrimaryUpTo(rows, k - 1);
            && Feed(t0, PrimaryUpTo(rows, k).0) == AfterRow(rows[k - 1], k == |rows|, Feed(t0, before), pen)
            && PrimaryUpTo(rows, k).1 == PenAfterRow(rows[k - 1], k == |rows|, pen)
  {
    var (before, pen) := PrimaryUpTo(rows, k - 1);
    var bytes := PaintRow(rows[k - 1], pen).0;
    FeedConcat(t0, before, bytes);
    FeedConcat(t0, before + bytes, RESET + CRLF);
  }

  lemma NothingPrinted(t0: Term, rows: seq<Row>)
    requires PrimaryReady(t0) && t0.pen == PLAIN
    requires t0.main == GridFor([BlankLine(t0.cols)], t0.cols, t0.rows, 0, false)
    ensures Printed(t0, rows, 0, t0, DEFAULT_SGR)
  {
    DefaultSgrIsPlain();
    assert [] + [BlankLine(t0.cols)] == [BlankLine(t0.cols)];
  }

  /** The terminal after the first `k` rows shows the canvas after `k` rows. */
  lemma {:induction false} PrintRows(t0: Term, rows: seq<Row>, k: nat) returns (t: Term, pen: Sgr)
    requires PrimaryReady(t0) && t0.pen == PLAIN && k <= |rows| && GoodRows(t0.width, t0.cols, rows)
    requires t0.main == GridFor([BlankLine(t0.cols)], t0.cols, t0.rows, 0, false)
    ensures Valid(t) && Printed(t0, rows, k, t, pen)
    ensures t == Feed(t0, PrimaryUpTo(rows, k).0) && pen == PrimaryUpTo(rows, k).1
    decreases k
  {
    if k == 0 {
      t, pen := t0, DEFAULT_SGR;
      NothingPrinted(t0, rows);
    } else {
      var j, last := k - 1, k == |rows|;
      var before, current := PrintRows(t0, rows, j);
      FeedNextRow(t0, rows, k);
      t, pen := AfterRow(rows[j], last, before, current), PenAfterRow(rows[j], last, current);
      PrintOneMore(t0, rows, k, j, before, current, last);
    }
  }

  lemma PrintOneMore(t0: Term, rows: seq<Row>, k: nat, j: nat, t: Term, pen: Sgr, last: bool)
    requires PrimaryReady(t0) && k <= |rows| && k == j + 1 && last == (k == |rows|) && GoodRows(t0.width, t0.cols, rows)
    requires Valid(t) && Printed(t0, rows, j, t, pen)
    ensures Printed(t0, rows, k, AfterRow(rows[j], last, t, pen), PenAfterRow(rows[j], last, pen))
  {
    NextRowReady(t0, rows, j, t, pen);
    PrintNextRow(t0, ShowUpTo(rows, j), Previous(rows, j), rows[j], t, pen, last);
    RowDoneIsPrinted(t0, rows, k, j, AfterRow(rows[j], last, t, pen), PenAfterRow(rows[j], last, pen));
  }

  lemma RowDoneIsPrinted(t0: Term, rows: seq<Row>, k: nat, j: nat, r: Term, pen: Sgr)
    requires k <= |rows| && k == j + 1 && RowDone(t0, ShowUpTo(rows, j), rows[j], k == |rows|, r, pen)
    ensures Printed(t0, rows, k, r, pen)
  {
    assert ShowUpTo(rows, k) == Show(ShowUpTo(rows, j), rows[j], k == |rows|);
  }

  /** What is known after a row: the canvas it left, and where the cursor is parked unless it was the last. */
  ghost predicate RowDone(t0: Term, c: Canvas, row: Row, last: bool, r: Term, pen: Sgr) {
    && Sits(t0, r, Show(c, row, last), pen)
    && (!last ==> Parked(Show(c, row, last), row, t0.cols, r.main.col, r.main.pending))
  }

  ghost predicate RowReady(t0: Term, c: Canvas, previous: Row, row: Row, t: Term, pen: Sgr) {
    && Valid(t) && Sits(t0, t, c, pen) && Parked(c, previous, t0.cols, t.main.col, t.main.pending)
    && GoodRow(t0.width, t0.cols, row) && t0.width(0x20) == 1
    && (c.hanging.Some? && EndsInNarrowGap(previous) && PaintedEnd(row) > 0 ==> row[0].wide)
  }

  /** A row that paints something, printed and closed. */
  lemma PrintSolidRow(t0: Term, c: Canvas, previous: Row, row: Row, t: Term, pen: Sgr, last: bool)
    requires PrimaryReady(t0) && RowReady(t0, c, previous, row, t, pen) && PaintedEnd(row) > 0
    ensures RowDone(t0, c, row, last, AfterRow(row, last, t, pen), PenAfterRow(row, last, pen))
  {
    PrintRow(t0, t, c, previous, row, pen);
    var (bytes, after) := PaintRow(row, pen);
    if !Wrapped(row) && !last {
      CloseRow(t0, Feed(t, bytes), Hung(c, row), after);
    }
  }

  /** A row that paints nothing only closes the line. */
  lemma PrintEmptyRow(t0: Term, c: Canvas, previous: Row, row: Row, t: Term, pen: Sgr, last: bool)
    requires PrimaryReady(t0) && RowReady(t0, c, previous, row, t, pen) && PaintedEnd(row) == 0
    ensures RowDone(t0, c, row, last, AfterRow(row, last, t, pen), PenAfterRow(row, last, pen))
  {
    BlankRowIsBlank(t0.width, t0.cols, row);
    if !Wrapped(row) && !last {
      CloseRow(t0, t, c, pen);
    }
  }

  /** One more row, with its CRLF where it gets one. */
  lemma PrintNextRow(t0: Term, c: Canvas, previous: Row, row: Row, t: Term, pen: Sgr, last: bool)
    requires PrimaryReady(t0) && RowReady(t0, c, previous, row, t, pen)
    ensures RowDone(t0, c, row, last, AfterRow(row, last, t, pen), PenAfterRow(row, last, pen))
  {
    if PaintedEnd(row) == 0 {
      PrintEmptyRow(t0, c, previous, row, t, pen, last);
    } else {
      PrintSolidRow(t0, c, previous, row, t, pen, last);
    }
  }

  lemma NextRowReady(t0: Term, rows: seq<Row>, j: nat, t: Term, pen: Sgr)
    requires j < |rows| && GoodRows(t0.width, t0.cols, rows) && Valid(t) && Printed(t0, rows, j, t, pen)
    ensures RowReady(t0, ShowUpTo(rows, j), Previous(rows, j), rows[j], t, pen)
  {
  }
}
