/** Rehydration: a fresh terminal fed the printed screen becomes that screen. */
module Rehydration {
  import opened Wrappers
  import opened Bytes
  import opened Cells
  import opened Paint
  import opened Terminal
  import opened Emission
  import opened RowPainting
  import opened PrimaryRoundTrip

  ghost predicate WellFormed(screen: Screen, width: nat -> nat) {
    && screen.cols > 0 && |screen.viewport| == screen.rows > 0
    && screen.cursor.row < screen.rows && screen.cursor.col < screen.cols
    && GoodRows(width, screen.cols, screen.Lines())
  }

  // The alternate screen

  ghost predicate AltRowsGood(t: Term, rows: seq<Row>) {
    && t.width(0x20) == 1 && |rows| == t.rows
    && (forall k | 0 <= k < |rows| :: GoodRow(t.width, t.cols, rows[k]))
  }

  function AltLines(rows: seq<Row>, k: nat, cols: nat): (lines: seq<Line>)
    requires k <= |rows|
    ensures |lines| == |rows|
  {
    seq(|rows|, i requires 0 <= i < |rows| => if i < k then Unflagged(rows[i]) else BlankLine(cols))
  }

  ghost predicate AltShows(t0: Term, t: Term, rows: seq<Row>, k: nat, current: Sgr)
    requires k <= |rows|
  {
    && t.alt.Some? && t == t0.(alt := t.alt, pen := StyleOfSgr(current))
    && t.alt.value.lines == AltLines(rows, k, t0.cols)
    && t.alt.value.row < t0.rows && t.alt.value.col < t0.cols
  }

  lemma {:induction false} PaintsSomething(row: Row, i: nat, current: Sgr)
    requires 0 < i <= |row| && !row[0].spacer
    ensures PaintCells(row[..i], current).0 != []
    decreases i
  {
    PaintCellsStep(row, i - 1, current);
    if i > 1 {
      PaintsSomething(row, i - 1, current);
    } else {
      assert row[..0] == [];
    }
  }

  lemma AltLinesNext(rows: seq<Row>, k: nat, cols: nat)
    requires k < |rows|
    ensures AltLines(rows, k, cols)[k := Unflagged(rows[k])] == AltLines(rows, k + 1, cols)
  {
  }

  lemma AltRowReady(t0: Term, t: Term, rows: seq<Row>, k: nat, current: Sgr)
    requires Valid(t0) && t0.parser == Ground && AltRowsGood(t0, rows) && k < |rows|
    requires Valid(t) && AltShows(t0, t, rows, k, current) && PaintedEnd(rows[k]) > 0
    ensures var moved := Moved(t, Position(k, 0));
            && Active(moved) == Grid(AltLines(rows, k, t0.cols), k, 0, false)
            && ReadyFor(moved, Active(moved), rows[k])
  {
    var row, moved := rows[k], Moved(t, Position(k, 0));
    assert Active(moved).lines[k] == BlankLine(t.cols);
    assert !row[0].spacer;
    LandsInPlace(moved, Active(moved), row[0]);
  }

  lemma AltRowDrawn(width: nat -> nat, rows: seq<Row>, k: nat, cols: nat)
    requires k < |rows| && GoodRow(width, cols, rows[k]) && width(0x20) == 1 && cols > 0
    ensures Extent(rows[k], PaintedEnd(rows[k])) <= cols
    ensures var base := Grid(AltLines(rows, k, cols), k, 0, false);
            && ValidGrid(base, cols, |rows|) ==>
               Drawn(base, cols, |rows|, rows[k], PaintedEnd(rows[k])).lines == AltLines(rows, k + 1, cols)
  {
    UnpaintedIsBlank(width, cols, rows[k]);
    AltLinesNext(rows, k, cols);
  }

  /** A painted row lands on its own, still blank, line whatever the cursor did before. */
  lemma DrawAltRow(t0: Term, t: Term, rows: seq<Row>, k: nat, current: Sgr)
    requires Valid(t0) && t0.parser == Ground && AltRowsGood(t0, rows) && k < |rows|
    requires Valid(t) && AltShows(t0, t, rows, k, current) && PaintedEnd(rows[k]) > 0
    ensures var (bytes, pen) := PaintRow(rows[k], current);
            AltShows(t0, Feed(Moved(t, Position(k, 0)), bytes), rows, k + 1, pen)
  {
    var moved := Moved(t, Position(k, 0));
    AltRowReady(t0, t, rows, k, current);
    FeedCells(moved, Active(moved), rows[k], PaintedEnd(rows[k]), current);
    AltRowDrawn(t0.width, rows, k, t0.cols);
  }

  /** The terminal after alternate row `j` was addressed and painted on `t`, or skipped. */
  ghost function AfterAltRow(row: Row, j: nat, t: Term, pen: Sgr): Term
    requires Valid(t)
  {
    var bytes := PaintRow(row, pen).0;
    if bytes == [] then t else Feed(t, Cup(Position(j, 0)) + bytes)
  }

  lemma FeedNextAltRow(t0: Term, rows: seq<Row>, k: nat, j: nat)
    requires Valid(t0) && k == j + 1 <= |rows|
    ensures var (before, pen) := AltUpTo(rows, j);
            && Feed(t0, AltUpTo(rows, k).0) == AfterAltRow(rows[j], j, Feed(t0, before), pen)
            && AltUpTo(rows, k).1 == PaintRow(rows[j], pen).1
  {
    var (before, pen) := AltUpTo(rows, j);
    FeedConcat(t0, before, Cup(Position(j, 0)) + PaintRow(rows[j], pen).0);
  }

  lemma AltErased(t0: Term, rows: seq<Row>)
    requires Valid(t0) && t0.parser == Ground && t0.alt.Some? && t0.pen == PLAIN && AltRowsGood(t0, rows)
    ensures AltShows(t0, Feed(t0, ERASE_ALL), rows, 0, DEFAULT_SGR)
  {
    FeedEraseAll(t0);
    DefaultSgrIsPlain();
    assert t0.alt.value.lines[..0] + BlankLines(t0.rows, t0.cols) == AltLines(rows, 0, t0.cols);
  }

  lemma {:induction false} PrintAltRows(t0: Term, rows: seq<Row>, k: nat) returns (t: Term, pen: Sgr)
    requires Valid(t0) && t0.parser == Ground && t0.alt.Some? && t0.pen == PLAIN
    requires AltRowsGood(t0, rows) && k <= |rows|
    ensures Valid(t) && AltShows(t0, t, rows, k, pen)
    ensures t == Feed(t0, AltUpTo(rows, k).0) && pen == AltUpTo(rows, k).1
    decreases k
  {
    if k == 0 {
      t, pen := Feed(t0, ERASE_ALL), DEFAULT_SGR;
      AltErased(t0, rows);
    } else {
      var j := k - 1;
      var before, current := PrintAltRows(t0, rows, j);
      FeedNextAltRow(t0, rows, k, j);
      t, pen := AfterAltRow(rows[j], j, before, current), PaintRow(rows[j], current).1;
      PrintNextAltRow(t0, rows, k, j, before, current);
    }
  }

  lemma PrintNextAltRow(t0: Term, rows: seq<Row>, k: nat, j: nat, t: Term, pen: Sgr)
    requires Valid(t0) && t0.parser == Ground && AltRowsGood(t0, rows) && k == j + 1 <= |rows|
    requires Valid(t) && AltShows(t0, t, rows, j, pen)
    ensures AltShows(t0, AfterAltRow(rows[j], j, t, pen), rows, k, PaintRow(rows[j], pen).1)
  {
    if PaintedEnd(rows[j]) == 0 {
      SkipAltRow(t0, rows, k, j, t, pen);
    } else {
      PaintAltRow(t0, rows, k, j, t, pen);
    }
  }

  lemma SkipAltRow(t0: Term, rows: seq<Row>, k: nat, j: nat, t: Term, pen: Sgr)
    requires AltRowsGood(t0, rows) && k == j + 1 <= |rows|
    requires Valid(t) && AltShows(t0, t, rows, j, pen) && PaintedEnd(rows[j]) == 0
    ensures AltShows(t0, AfterAltRow(rows[j], j, t, pen), rows, k, PaintRow(rows[j], pen).1)
  {
    BlankRowIsBlank(t0.width, t0.cols, rows[j]);
    AltLinesNext(rows, j, t0.cols);
    assert AltLines(rows, j, t0.cols) == AltLines(rows, k, t0.cols);
  }

  lemma PaintAltRow(t0: Term, rows: seq<Row>, k: nat, j: nat, t: Term, pen: Sgr)
    requires Valid(t0) && t0.parser == Ground && AltRowsGood(t0, rows) && k == j + 1 <= |rows|
    requires Valid(t) && AltShows(t0, t, rows, j, pen) && PaintedEnd(rows[j]) > 0
    ensures AltShows(t0, AfterAltRow(rows[j], j, t, pen), rows, k, PaintRow(rows[j], pen).1)
  {
    var row := rows[j];
    PaintsSomething(row, PaintedEnd(row), pen);
    FeedConcat(t, Cup(Position(j, 0)), PaintRow(row, pen).0);
    FeedCup(t, Position(j, 0));
    DrawAltRow(t0, t, rows, j, pen);
  }

  // Whole screens

  lemma FreshIsOneBlankLine(cols: nat, rows: nat, width: nat -> nat)
    requires cols > 0 && rows > 0
    ensures Fresh(cols, rows, width).main == GridFor([BlankLine(cols)], cols, rows, 0, false)
  {
    assert BlankLines(rows, cols) == [BlankLine(cols)] + BlankLines(rows - 1, cols);
  }

  /** The primary paint by itself. */
  lemma PrintPrimaryScreen(t0: Term, rows: seq<Row>)
    requires PrimaryReady(t0) && t0.pen == PLAIN && GoodRows(t0.width, t0.cols, rows) && |rows| > 0
    requires t0.main == GridFor([BlankLine(t0.cols)], t0.cols, t0.rows, 0, false)
    ensures var t := Feed(t0, PaintPrimary(rows));
            && t == t0.(main := t.main)
            && t.main.lines == Padded(ShownLines(rows), t0.cols, t0.rows)
  {
    var printed, pen := PrintRows(t0, rows, |rows|);
    FeedConcat(t0, PrimaryUpTo(rows, |rows|).0, RESET);
    FeedReset(printed);
    LastRowHangs(rows);
  }

  lemma LastRowHangs(rows: seq<Row>)
    requires |rows| > 0
    ensures ShowUpTo(rows, |rows|).hanging.Some?
  {
  }

  ghost predicate SameCursor(g: Grid, at: Position) {
    g.row == at.row && g.col == at.col && !g.pending
  }

  /** Modes and cursor style follow the screen and touch nothing else. */
  lemma FeedTrailer(t: Term, screen: Screen)
    requires Valid(t) && t.parser == Ground && t.modes == FRESH_MODES
    ensures Feed(t, ModeSets(screen.modes) + CursorStyleSet(screen.cursorStyle))
         == t.(modes := screen.modes, cursorStyle := screen.cursorStyle)
  {
    FeedConcat(t, ModeSets(screen.modes), CursorStyleSet(screen.cursorStyle));
    FeedModeSets(t, screen.modes);
    FeedCursorStyle(t.(modes := screen.modes), screen.cursorStyle);
  }

  lemma FeedParts(t: Term, body: seq<byte>, trailer: seq<byte>)
    requires Valid(t) && t.parser == Ground && t.pen == PLAIN
    ensures Feed(t, RESET + (body + trailer)) == Feed(Feed(t, body), trailer)
  {
    FeedConcat(t, RESET, body + trailer);
    FeedReset(t);
    assert t.(pen := PLAIN) == t;
    FeedConcat(t, body, trailer);
  }

  /** Everything but the lines is restored on every well-formed primary screen. */
  ghost predicate RestoresAround(t: Term, screen: Screen, at: Grid) {
    && SameCursor(at, screen.cursor)
    && t.modes == screen.modes && t.cursorStyle == screen.cursorStyle
    && t.pen == PLAIN && t.parser == Ground
  }

  /** Main result for the primary screen: cursor, modes and cursor style always come back, and every
      history and viewport line does, with its styles, marks, wide glyphs and wrap flag, exactly when
      each wrapped row is followed by a row that paints something. */
  lemma PrimaryScreenRoundTrip(screen: Screen, frozen: Option<FrozenPrimary>, width: nat -> nat)
    requires WellFormed(screen, width) && !screen.altActive
    ensures var t := Feed(Fresh(screen.cols, screen.rows, width), Rehydrate(screen, frozen));
            && RestoresAround(t, screen, t.main) && t.alt.None?
            && t.main.lines == Padded(ShownLines(screen.Lines()), screen.cols, screen.rows)
            && (t.main.lines == LinesOf(screen.Lines()) <==> WrapsContinue(screen.Lines()))
  {
    var t0, rows := Fresh(screen.cols, screen.rows, width), screen.Lines();
    FreshIsOneBlankLine(screen.cols, screen.rows, width);
    var body := PaintPrimary(rows) + Cup(screen.cursor);
    FeedParts(t0, body, ModeSets(screen.modes) + CursorStyleSet(screen.cursorStyle));
    FeedConcat(t0, PaintPrimary(rows), Cup(screen.cursor));
    PrintPrimaryScreen(t0, rows);
    FeedCup(Feed(t0, PaintPrimary(rows)), screen.cursor);
    FeedTrailer(Feed(t0, body), screen);
    ShownExactlyWhenWrapsContinue(rows, screen.cols, screen.rows);
  }

  ghost predicate SameSize(a: Screen, b: Screen) {
    a.cols == b.cols && a.rows == b.rows
  }

  /** The frozen primary screen, fed before the alternate one is entered. */
  lemma PrintFrozen(t0: Term, primary: Screen)
    requires WellFormed(primary, t0.width) && t0 == Fresh(primary.cols, primary.rows, t0.width)
    ensures var f := Freeze(primary);
            var t := Feed(t0, f.paint + Cup(f.cursor));
            && t == t0.(main := t.main) && SameCursor(t.main, primary.cursor)
            && t.main.lines == Padded(ShownLines(primary.Lines()), primary.cols, primary.rows)
  {
    var rows := primary.Lines();
    FreshIsOneBlankLine(primary.cols, primary.rows, t0.width);
    FeedConcat(t0, PaintPrimary(rows), Cup(primary.cursor));
    PrintPrimaryScreen(t0, rows);
    FeedCup(Feed(t0, PaintPrimary(rows)), primary.cursor);
  }

  /** The alternate screen painted over a blank one. */
  lemma PrintAltScreen(t1: Term, screen: Screen)
    requires Valid(t1) && t1.parser == Ground && t1.pen == PLAIN && t1.alt.None?
    requires WellFormed(screen, t1.width) && t1.cols == screen.cols && t1.rows == screen.rows
    ensures var t := Feed(t1, ENTER_ALT + (PaintAlt(screen.viewport) + Cup(screen.cursor)));
            && t.alt.Some? && t == t1.(alt := t.alt)
            && t.alt.value.lines == AltLines(screen.viewport, screen.rows, screen.cols)
            && SameCursor(t.alt.value, screen.cursor)
  {
    var rows := screen.viewport;
    AltRowsAreGood(t1, screen);
    FeedConcat(t1, ENTER_ALT, PaintAlt(rows) + Cup(screen.cursor));
    FeedEnterAlt(t1);
    var t2 := SwitchScreen(t1, true);
    FeedConcat(t2, PaintAlt(rows), Cup(screen.cursor));
    var printed, pen := PrintAltRows(t2, rows, |rows|);
    FeedConcat(t2, AltUpTo(rows, |rows|).0, RESET);
    FeedReset(printed);
    FeedCup(Feed(t2, PaintAlt(rows)), screen.cursor);
  }

  lemma AltRowsAreGood(t: Term, screen: Screen)
    requires WellFormed(screen, t.width) && t.cols == screen.cols && t.rows == screen.rows
    ensures AltRowsGood(t, screen.viewport)
  {
    forall k | 0 <= k < |screen.viewport| ensures GoodRow(t.width, t.cols, screen.viewport[k]) {
      assert screen.Lines()[|screen.history| + k] == screen.viewport[k];
    }
  }

  /** No row of an alternate screen is wrapped. */
  predicate NoneWraps(rows: seq<Row>) {
    forall k | 0 <= k < |rows| :: !Wrapped(rows[k])
  }

  /** Addressed rows come back with their wrap flags exactly when none has one. */
  lemma AltLinesAreLinesExactly(rows: seq<Row>, cols: nat)
    ensures AltLines(rows, |rows|, cols) == LinesOf(rows) <==> NoneWraps(rows)
  {
    var lines := AltLines(rows, |rows|, cols);
    if NoneWraps(rows) {
      forall k | 0 <= k < |rows| ensures lines[k] == LinesOf(rows)[k] {
        assert !Wrapped(rows[k]);
      }
    } else {
      var k :| 0 <= k < |rows| && Wrapped(rows[k]);
      assert lines[k] == Unflagged(rows[k]) && LinesOf(rows)[k] == LineOf(rows[k]);
    }
  }

  /** An alternate screen painted over whatever lies under it. */
  lemma AltScreenOver(screen: Screen, under: seq<byte>, t0: Term, t1: Term)
    requires screen.cols > 0 && screen.rows > 0 && t0 == Fresh(screen.cols, screen.rows, t0.width)
    requires WellFormed(screen, t0.width) && screen.altActive
    requires t1 == Feed(t0, under) && t1 == t0.(main := t1.main)
    ensures var over := ENTER_ALT + (PaintAlt(screen.viewport) + Cup(screen.cursor));
            var t := Feed(t0, RESET + ((under + over) + (ModeSets(screen.modes) + CursorStyleSet(screen.cursorStyle))));
            && t.alt.Some? && RestoresAround(t, screen, t.alt.value)
            && t.alt.value.lines == AltLines(screen.viewport, screen.rows, screen.cols)
            && Feed(t, LEAVE_ALT) == t.(alt := None) && t.main == t1.main
  {
    var over := ENTER_ALT + (PaintAlt(screen.viewport) + Cup(screen.cursor));
    FeedParts(t0, under + over, ModeSets(screen.modes) + CursorStyleSet(screen.cursorStyle));
    FeedConcat(t0, under, over);
    PrintAltScreen(t1, screen);
    var shown := Feed(t0, under + over);
    FeedTrailer(shown, screen);
    FeedLeaveAlt(Feed(shown, ModeSets(screen.modes) + CursorStyleSet(screen.cursorStyle)));
  }

  lemma AltScreenRestored(screen: Screen, primary: Screen, width: nat -> nat)
    requires WellFormed(screen, width) && screen.altActive
    requires WellFormed(primary, width) && SameSize(screen, primary)
    ensures var t := Feed(Fresh(screen.cols, screen.rows, width), Rehydrate(screen, Some(Freeze(primary))));
            && t.alt.Some? && RestoresAround(t, screen, t.alt.value)
            && t.alt.value.lines == AltLines(screen.viewport, screen.rows, screen.cols)
            && var left := Feed(t, LEAVE_ALT);
               && left.alt.None? && SameCursor(left.main, primary.cursor)
               && (left.main.lines == LinesOf(primary.Lines()) <==> WrapsContinue(primary.Lines()))
  {
    var t0, f := Fresh(screen.cols, screen.rows, width), Freeze(primary);
    var under := f.paint + Cup(f.cursor);
    PrintFrozen(t0, primary);
    AltScreenOver(screen, under, t0, Feed(t0, under));
    ShownExactlyWhenWrapsContinue(primary.Lines(), primary.cols, primary.rows);
  }

  /** Main result for the alternate screen: its rows, cursor, modes and cursor style come back, its wrap flags
      exactly when no row has one, and leaving it uncovers the frozen primary screen with the frozen cursor. */
  lemma AltScreenRoundTrip(screen: Screen, primary: Screen, width: nat -> nat)
    requires WellFormed(screen, width) && screen.altActive
    requires WellFormed(primary, width) && SameSize(screen, primary)
    ensures var t := Feed(Fresh(screen.cols, screen.rows, width), Rehydrate(screen, Some(Freeze(primary))));
            && t.alt.Some? && RestoresAround(t, screen, t.alt.value)
            && t.alt.value.lines == AltLines(screen.viewport, screen.rows, screen.cols)
            && (t.alt.value.lines == LinesOf(screen.viewport) <==> NoneWraps(screen.viewport))
            && var left := Feed(t, LEAVE_ALT);
               && left.alt.None? && SameCursor(left.main, primary.cursor)
               && (left.main.lines == LinesOf(primary.Lines()) <==> WrapsContinue(primary.Lines()))
  {
    AltScreenRestored(screen, primary, width);
    AltLinesAreLinesExactly(screen.viewport, screen.cols);
  }

  // Terminals that are not fresh

  lemma ResetFirst(t: Term, pen: Style, bytes: seq<byte>)
    requires Valid(t) && t.parser == Ground && |bytes| >= |RESET| && bytes[..|RESET|] == RESET
    ensures Feed(t.(pen := pen), bytes) == Feed(t, bytes)
  {
    var rest := bytes[|RESET|..];
    assert bytes == RESET + rest;
    FeedConcat(t, RESET, rest);
    FeedConcat(t.(pen := pen), RESET, rest);
    FeedReset(t);
    FeedReset(t.(pen := pen));
  }

  /** Whatever pen a terminal was left with, a rehydration and an archive do to it what they do with a plain one. */
  lemma AnyPenWillDo(t: Term, pen: Style, screen: Screen, frozen: Option<FrozenPrimary>)
    requires Valid(t) && t.parser == Ground
    ensures Feed(t.(pen := pen), Rehydrate(screen, frozen)) == Feed(t, Rehydrate(screen, frozen))
    ensures Feed(t.(pen := pen), ColdPaint(screen, frozen)) == Feed(t, ColdPaint(screen, frozen))
  {
    ResetFirst(t, pen, Rehydrate(screen, frozen));
    ResetFirst(t, pen, ColdPaint(screen, frozen));
  }
}
