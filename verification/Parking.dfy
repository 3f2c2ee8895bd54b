/** A new shell inherits the archive as scrollback: nothing printed in it is lost or reordered, at any width. */
module Parking {
  import opened Wrappers
  import opened Bytes
  import opened Cells
  import opened Paint
  import opened Terminal
  import opened Emission
  import opened RowPainting
  import opened PrimaryRoundTrip

  /** A way of reading tiles that sees nothing in blanks and right halves. */
  type Reading = Tile -> seq<Tile>

  ghost predicate SkipsBlanks(read: Reading) {
    read(BLANK) == [] && read(Tail) == []
  }

  /** Looks at characters, marks and width only. */
  ghost predicate StyleBlind(read: Reading) {
    forall ch, marks, wide, a, b :: read(Glyph(ch, marks, a, wide)) == read(Glyph(ch, marks, b, wide))
  }

  ghost function Ink(read: Reading, tiles: seq<Tile>): seq<Tile> {
    if tiles == [] then [] else Ink(read, tiles[..|tiles| - 1]) + read(tiles[|tiles| - 1])
  }

  ghost function LinesInk(read: Reading, lines: seq<Line>): seq<Tile> {
    if lines == [] then [] else LinesInk(read, lines[..|lines| - 1]) + Ink(read, lines[|lines| - 1].tiles)
  }

  lemma {:induction false} InkConcat(read: Reading, a: seq<Tile>, b: seq<Tile>)
    ensures Ink(read, a + b) == Ink(read, a) + Ink(read, b)
    decreases |b|
  {
    if b == [] {
      assert a + b == a;
    } else {
      var n := |b| - 1;
      InkConcat(read, a, b[..n]);
      assert (a + b)[..|a + b| - 1] == a + b[..n];
    }
  }

  lemma LinesInkNext(read: Reading, lines: seq<Line>, line: Line)
    ensures LinesInk(read, lines + [line]) == LinesInk(read, lines) + Ink(read, line.tiles)
  {
    assert (lines + [line])[..|lines|] == lines;
  }

  lemma {:induction false} LinesInkConcat(read: Reading, a: seq<Line>, b: seq<Line>)
    ensures LinesInk(read, a + b) == LinesInk(read, a) + LinesInk(read, b)
    decreases |b|
  {
    if b == [] {
      assert a + b == a;
    } else {
      var init, last := b[..|b| - 1], b[|b| - 1];
      LinesInkConcat(read, a, init);
      LinesInkNext(read, a + init, last);
      assert a + init + [last] == a + b;
      Assoc(LinesInk(read, a), LinesInk(read, init), Ink(read, last.tiles));
    }
  }

  lemma {:induction false} BlankInk(read: Reading, tiles: seq<Tile>)
    requires SkipsBlanks(read) && forall i | 0 <= i < |tiles| :: tiles[i] == BLANK
    ensures Ink(read, tiles) == []
    decreases |tiles|
  {
    if tiles != [] {
      BlankInk(read, tiles[..|tiles| - 1]);
    }
  }

  ghost predicate IsBlankLine(line: Line) {
    forall i | 0 <= i < |line.tiles| :: line.tiles[i] == BLANK
  }

  lemma {:induction false} BlankLinesInk(read: Reading, lines: seq<Line>)
    requires SkipsBlanks(read) && forall i | 0 <= i < |lines| :: IsBlankLine(lines[i])
    ensures LinesInk(read, lines) == []
    decreases |lines|
  {
    if lines != [] {
      BlankLinesInk(read, lines[..|lines| - 1]);
      BlankInk(read, lines[|lines| - 1].tiles);
    }
  }

  // Writing forward only

  /** First column the next glyph may touch on the cursor's line. */
  function Front(g: Grid, cols: nat): nat {
    if g.pending then cols else g.col
  }

  /** Nothing is written at or after the cursor. */
  ghost predicate ClearAhead(g: Grid, cols: nat, rows: nat) {
    && ValidGrid(g, cols, rows) && (g.pending ==> g.col == cols - 1)
    && (forall i | Front(g, cols) <= i < cols :: g.lines[At(g, rows)].tiles[i] == BLANK)
    && (forall k | At(g, rows) < k < |g.lines| :: IsBlankLine(g.lines[k]))
  }

  /** Everything a grid shows is before its cursor. */
  lemma InkBehind(read: Reading, g: Grid, cols: nat, rows: nat)
    requires SkipsBlanks(read) && ClearAhead(g, cols, rows)
    ensures LinesInk(read, g.lines)
         == LinesInk(read, g.lines[..At(g, rows)]) + Ink(read, g.lines[At(g, rows)].tiles[..Front(g, cols)])
  {
    var at := At(g, rows);
    var line := g.lines[at];
    assert g.lines == g.lines[..at] + [line] + g.lines[at + 1..];
    LinesInkConcat(read, g.lines[..at] + [line], g.lines[at + 1..]);
    LinesInkConcat(read, g.lines[..at], [line]);
    BlankLinesInk(read, g.lines[at + 1..]);
    LineInk(read, line);
    var f := Front(g, cols);
    assert line.tiles == line.tiles[..f] + line.tiles[f..];
    InkConcat(read, line.tiles[..f], line.tiles[f..]);
    BlankInk(read, line.tiles[f..]);
  }

  lemma LineInk(read: Reading, line: Line)
    ensures LinesInk(read, [line]) == Ink(read, line.tiles)
  {
    assert [line][..0] == [];
  }

  lemma PutStaysClear(g: Grid, cols: nat, rows: nat, tiles: seq<Tile>)
    requires ClearAhead(g, cols, rows) && !g.pending && g.col + |tiles| <= cols
    ensures var p, at := Put(g, cols, rows, tiles), At(g, rows);
            && ClearAhead(p, cols, rows) && At(p, rows) == at && p.lines[..at] == g.lines[..at]
            && Front(p, cols) == g.col + |tiles|
            && p.lines[at].tiles[..Front(p, cols)] == g.lines[at].tiles[..g.col] + tiles
  {
    var p, at := Put(g, cols, rows, tiles), At(g, rows);
    var was := g.lines[at].tiles;
    assert p.lines[at].tiles == was[..g.col] + tiles + was[g.col + |tiles|..];
  }

  /** Two grids that agree behind, one having `tiles` more on the cursor's line. */
  lemma MoreInk(read: Reading, g: Grid, p: Grid, cols: nat, rows: nat, tiles: seq<Tile>)
    requires SkipsBlanks(read) && ClearAhead(g, cols, rows) && ClearAhead(p, cols, rows)
    requires At(p, rows) == At(g, rows) && p.lines[..At(g, rows)] == g.lines[..At(g, rows)]
    requires p.lines[At(g, rows)].tiles[..Front(p, cols)] == g.lines[At(g, rows)].tiles[..Front(g, cols)] + tiles
    ensures LinesInk(read, p.lines) == LinesInk(read, g.lines) + Ink(read, tiles)
  {
    var behind, was := g.lines[..At(g, rows)], g.lines[At(g, rows)].tiles[..Front(g, cols)];
    InkBehind(read, g, cols, rows);
    InkBehind(read, p, cols, rows);
    InkConcat(read, was, tiles);
    Assoc(LinesInk(read, behind), Ink(read, was), Ink(read, tiles));
  }

  lemma PutInk(read: Reading, g: Grid, cols: nat, rows: nat, tiles: seq<Tile>)
    requires SkipsBlanks(read) && ClearAhead(g, cols, rows) && !g.pending && g.col + |tiles| <= cols
    ensures ClearAhead(Put(g, cols, rows, tiles), cols, rows)
    ensures LinesInk(read, Put(g, cols, rows, tiles).lines) == LinesInk(read, g.lines) + Ink(read, tiles)
  {
    PutStaysClear(g, cols, rows, tiles);
    MoreInk(read, g, Put(g, cols, rows, tiles), cols, rows, tiles);
  }

  /** Moving to the next line from anywhere on a line that ends the writing. */
  lemma LineFeedInk(read: Reading, g: Grid, cols: nat, rows: nat)
    requires SkipsBlanks(read) && ValidGrid(g, cols, rows) && g.col == 0 && !g.pending
    requires forall k | At(g, rows) < k < |g.lines| :: IsBlankLine(g.lines[k])
    ensures ClearAhead(LineFeed(g, cols, rows, true), cols, rows)
    ensures LinesInk(read, LineFeed(g, cols, rows, true).lines) == LinesInk(read, g.lines)
  {
    if g.row + 1 == rows {
      LinesInkConcat(read, g.lines, [BlankLine(cols)]);
      BlankLinesInk(read, [BlankLine(cols)]);
    }
  }

  /** A wrap flag is not ink. */
  lemma FlagInk(read: Reading, g: Grid, rows: nat)
    requires g.row < rows <= |g.lines|
    ensures LinesInk(read, g.lines[At(g, rows) := g.lines[At(g, rows)].(wrapped := true)]) == LinesInk(read, g.lines)
  {
    var at := At(g, rows);
    var line := g.lines[at];
    var flagged := line.(wrapped := true);
    assert g.lines == g.lines[..at] + [line] + g.lines[at + 1..];
    assert g.lines[at := flagged] == g.lines[..at] + [flagged] + g.lines[at + 1..];
    LinesInkConcat(read, g.lines[..at] + [line], g.lines[at + 1..]);
    LinesInkConcat(read, g.lines[..at] + [flagged], g.lines[at + 1..]);
    LinesInkConcat(read, g.lines[..at], [line]);
    LinesInkConcat(read, g.lines[..at], [flagged]);
    LineInk(read, line);
    LineInk(read, flagged);
  }

  lemma WrapInk(read: Reading, g: Grid, cols: nat, rows: nat)
    requires SkipsBlanks(read) && ClearAhead(g, cols, rows)
    ensures ClearAhead(WrapLine(g, cols, rows, true), cols, rows)
    ensures LinesInk(read, WrapLine(g, cols, rows, true).lines) == LinesInk(read, g.lines)
  {
    var at := At(g, rows);
    var flagged := g.(lines := g.lines[at := g.lines[at].(wrapped := true)], col := 0, pending := false);
    FlagInk(read, g, rows);
    LineFeedInk(read, flagged, cols, rows);
  }

  /** A glyph always lands clear of everything written, on this line or the next. */
  lemma LandingInk(read: Reading, g: Grid, cols: nat, rows: nat, w: nat)
    requires SkipsBlanks(read) && ClearAhead(g, cols, rows) && 1 <= w <= cols
    ensures var landed := Landing(g, cols, rows, true, true, w);
            && ClearAhead(landed, cols, rows) && !landed.pending && landed.col + w <= cols
            && LinesInk(read, landed.lines) == LinesInk(read, g.lines)
  {
    var g1 := if g.pending then WrapLine(g, cols, rows, true) else g;
    if g.pending {
      WrapInk(read, g, cols, rows);
    }
    if g1.col + w > cols {
      var tiles := g1.lines[At(g1, rows)].tiles;
      assert tiles[..g1.col] + [BLANK] + tiles[g1.col + 1..] == tiles;
      assert Overwrite(g1, rows, g1.col, [BLANK]).lines == g1.lines;
      WrapInk(read, g1, cols, rows);
    }
  }

  // Printing cells

  ghost predicate Scribing(t: Term) {
    PrimaryReady(t) && ClearAhead(t.main, t.cols, t.rows)
  }

  /** `r` is `t` after printing, with `added` as the only new ink. */
  ghost predicate Wrote(read: Reading, t: Term, r: Term, added: seq<Tile>) {
    && Scribing(r) && r == t.(main := r.main, pen := r.pen)
    && LinesInk(read, r.main.lines) == LinesInk(read, t.main.lines) + added
  }

  lemma WroteThen(read: Reading, t: Term, r: Term, s: Term, a: seq<Tile>, b: seq<Tile>)
    requires Wrote(read, t, r, a) && Wrote(read, r, s, b)
    ensures Wrote(read, t, s, a + b)
  {
    Assoc(LinesInk(read, t.main.lines), a, b);
  }

  lemma WroteNothing(read: Reading, t: Term)
    requires Scribing(t)
    ensures Wrote(read, t, t, [])
  {
    assert LinesInk(read, t.main.lines) + [] == LinesInk(read, t.main.lines);
  }

  /** The tiles `cells` are printed as, and the pen afterwards. */
  function Inked(cells: Row, current: Sgr, pen: Style): (seq<Tile>, Style) {
    if cells == [] then ([], pen)
    else
      var init, last := cells[..|cells| - 1], cells[|cells| - 1];
      var (tiles, before) := Inked(init, current, pen);
      if last.spacer then (tiles, before)
      else
        var style := PenFor(last, PaintCells(init, current).1, before);
        (tiles + InkedTiles(last, style), style)
  }

  /** Sees neither wide glyphs nor marks. */
  ghost predicate Coarse(read: Reading) {
    && (forall ch, marks, style :: read(Glyph(ch, marks, style, true)) == [])
    && (forall ch, marks, others, style, wide ::
       read(Glyph(ch, marks, style, wide)) == read(Glyph(ch, others, style, wide)))
  }

  /** In one column a wide glyph is not printed, and its marks join the glyph before. */
  ghost predicate Fits(read: Reading, width: nat -> nat, cols: nat, cell: Cell) {
    GoodCell(width, cell) && (cell.wide ==> cols >= 2 || Coarse(read))
  }

  lemma TileSwapInk(read: Reading, tiles: seq<Tile>, col: nat, tile: Tile, now: seq<Tile>)
    requires col < |tiles| && read(tile) == read(tiles[col]) && now == tiles[..col] + [tile] + tiles[col + 1..]
    ensures Ink(read, now) == Ink(read, tiles)
  {
    assert tiles == tiles[..col] + [tiles[col]] + tiles[col + 1..];
    OneTileInk(read, tiles[..col], tiles[col], tiles[col + 1..]);
    OneTileInk(read, tiles[..col], tile, tiles[col + 1..]);
  }

  lemma OneTileInk(read: Reading, before: seq<Tile>, tile: Tile, after: seq<Tile>)
    ensures Ink(read, before + [tile] + after) == Ink(read, before) + read(tile) + Ink(read, after)
  {
    InkConcat(read, before + [tile], after);
    InkConcat(read, before, [tile]);
    assert [tile][..0] == [] && [] + read(tile) == read(tile);
  }

  lemma LineSwapInk(read: Reading, lines: seq<Line>, at: nat, now: Line)
    requires at < |lines| && Ink(read, now.tiles) == Ink(read, lines[at].tiles)
    ensures LinesInk(read, lines[at := now]) == LinesInk(read, lines)
  {
    assert lines == lines[..at] + [lines[at]] + lines[at + 1..];
    assert lines[at := now] == lines[..at] + [now] + lines[at + 1..];
    OneLineInk(read, lines[..at], lines[at], lines[at + 1..]);
    OneLineInk(read, lines[..at], now, lines[at + 1..]);
  }

  lemma OneLineInk(read: Reading, before: seq<Line>, line: Line, after: seq<Line>)
    ensures LinesInk(read, before + [line] + after) ==
            LinesInk(read, before) + Ink(read, line.tiles) + LinesInk(read, after)
  {
    LinesInkConcat(read, before + [line], after);
    LinesInkNext(read, before, line);
  }

  lemma RetouchedInk(read: Reading, g: Grid, cols: nat, rows: nat, col: nat, tile: Tile)
    requires ClearAhead(g, cols, rows) && col < Front(g, cols) <= cols
    requires read(tile) == read(g.lines[At(g, rows)].tiles[col])
    ensures ClearAhead(Overwrite(g, rows, col, [tile]), cols, rows)
    ensures LinesInk(read, Overwrite(g, rows, col, [tile]).lines) == LinesInk(read, g.lines)
  {
    var at := At(g, rows);
    var now := g.lines[at].tiles[..col] + [tile] + g.lines[at].tiles[col + 1..];
    TileSwapInk(read, g.lines[at].tiles, col, tile, now);
    LineSwapInk(read, g.lines, at, g.lines[at].(tiles := now));
  }

  lemma MarkInk(read: Reading, g: Grid, cols: nat, rows: nat, z: nat)
    requires Coarse(read) && ClearAhead(g, cols, rows)
    ensures ClearAhead(Mark(g, cols, rows, z), cols, rows)
    ensures LinesInk(read, Mark(g, cols, rows, z).lines) == LinesInk(read, g.lines)
  {
    var tiles := g.lines[At(g, rows)].tiles;
    if g.pending || g.col > 0 {
      var last := if g.pending then g.col else g.col - 1;
      var base := if tiles[last].Tail? && last > 0 then last - 1 else last;
      if tiles[base].Glyph? {
        RetouchedInk(read, g, cols, rows, base, tiles[base].(marks := tiles[base].marks + [z]));
      }
    }
  }

  /** Marks with no glyph of their own leave no ink for a coarse reading. */
  lemma {:induction false} MarksInk(read: Reading, t: Term, text: seq<scalar>)
    requires Coarse(read) && Scribing(t) && forall y | y in text :: t.width(y as nat) == 0
    ensures Wrote(read, t, PrintAll(t, text), []) && PrintAll(t, text).pen == t.pen
    decreases |text|
  {
    if text == [] {
      WroteNothing(read, t);
    } else {
      var z, rest := text[0], text[1..];
      assert text[0] in text && forall y | y in rest :: y in text;
      MarkInk(read, t.main, t.cols, t.rows, z as nat);
      PrintMark(t, z as nat);
      var t1 := Print(t, z as nat);
      assert LinesInk(read, t.main.lines) + [] == LinesInk(read, t.main.lines);
      MarksInk(read, t1, rest);
      WroteThen(read, t, t1, PrintAll(t1, rest), [], []);
    }
  }

  lemma DroppedCellInk(read: Reading, t: Term, cell: Cell, current: Sgr)
    requires Coarse(read) && Scribing(t) && t.cols == 1 && !cell.spacer && cell.wide && GoodCell(t.width, cell)
    ensures var pen := PenFor(cell, current, t.pen);
            var r := Feed(t, PaintCell(cell, current));
            r.pen == pen && Wrote(read, t, r, [])
  {
    var styled := t.(pen := PenFor(cell, current, t.pen));
    FeedStyled(t, cell, current);
    FeedConcat(styled, Utf8(cell.ch), Utf8All(cell.zerowidth));
    FeedUtf8(styled, cell.ch);
    OneColumnDropsWideGlyphs(styled, cell.ch as nat);
    FeedText(styled, cell.zerowidth);
    MarksInk(read, styled, cell.zerowidth);
  }

  lemma CellInk(read: Reading, t: Term, cell: Cell, current: Sgr)
    requires SkipsBlanks(read) && Scribing(t) && !cell.spacer && Fits(read, t.width, t.cols, cell)
    ensures var pen := PenFor(cell, current, t.pen);
            var r := Feed(t, PaintCell(cell, current));
            r.pen == pen && Wrote(read, t, r, Ink(read, InkedTiles(cell, pen)))
  {
    if cell.wide && t.cols == 1 {
      DroppedCellInk(read, t, cell, current);
      GlyphInk(read, cell, PenFor(cell, current, t.pen));
    } else {
      LandingInk(read, t.main, t.cols, t.rows, Columns(cell));
      FeedCell(t, cell, current);
      PutInk(read, Landed(t, cell), t.cols, t.rows, InkedTiles(cell, PenFor(cell, current, t.pen)));
    }
  }

  ghost predicate GoodCells(read: Reading, width: nat -> nat, cols: nat, row: Row) {
    forall i | 0 <= i < |row| :: Fits(read, width, cols, row[i])
  }

  lemma {:induction false} CellsInk(read: Reading, t: Term, cells: Row, current: Sgr)
    requires SkipsBlanks(read) && Scribing(t) && GoodCells(read, t.width, t.cols, cells)
    ensures var r := Feed(t, PaintCells(cells, current).0);
            var (tiles, pen) := Inked(cells, current, t.pen);
            r.pen == pen && Wrote(read, t, r, Ink(read, tiles))
    decreases |cells|
  {
    if cells == [] {
      WroteNothing(read, t);
    } else {
      var init, last := cells[..|cells| - 1], cells[|cells| - 1];
      CellsInk(read, t, init, current);
      if !last.spacer {
        var (bytes, sgr) := PaintCells(init, current);
        FeedConcat(t, bytes, PaintCell(last, sgr));
        CellsInkStep(read, t, Feed(t, bytes), last, sgr, Inked(init, current, t.pen).0);
      }
    }
  }

  lemma CellsInkStep(read: Reading, t: Term, t1: Term, cell: Cell, sgr: Sgr, tiles: seq<Tile>)
    requires SkipsBlanks(read) && Wrote(read, t, t1, Ink(read, tiles)) && !cell.spacer &&
             Fits(read, t.width, t.cols, cell)
    ensures var style := PenFor(cell, sgr, t1.pen);
            var r := Feed(t1, PaintCell(cell, sgr));
            r.pen == style && Wrote(read, t, r, Ink(read, tiles + InkedTiles(cell, style)))
  {
    var inked := InkedTiles(cell, PenFor(cell, sgr, t1.pen));
    CellInk(read, t1, cell, sgr);
    InkConcat(read, tiles, inked);
    WroteThen(read, t, t1, Feed(t1, PaintCell(cell, sgr)), Ink(read, tiles), Ink(read, inked));
  }

  /** Printed in step, or read without styles, the cells leave exactly the ink of their row. */
  lemma {:induction false} InkedIsRowInk(read: Reading, row: Row, i: nat, current: Sgr, pen: Style)
    requires SkipsBlanks(read) && i <= |row|
    requires StyleBlind(read) || pen == StyleOfSgr(current)
    ensures Ink(read, Inked(row[..i], current, pen).0) == Ink(read, Tiles(row)[..i])
    ensures StyleBlind(read) || Inked(row[..i], current, pen).1 == StyleOfSgr(PaintCells(row[..i], current).1)
    decreases i
  {
    if i > 0 {
      var k := i - 1;
      InkedIsRowInk(read, row, k, current, pen);
      InkedStep(row, k, current, pen);
      PaintCellsStep(row, k, current);
      TilesInkStep(read, row, k);
      var (tiles, before) := Inked(row[..k], current, pen);
      var sgr := PaintCells(row[..k], current).1;
      if !row[k].spacer {
        var style := PenFor(row[k], sgr, before);
        PenInStep(row[k], sgr);
        GlyphInk(read, row[k], style);
        InkConcat(read, tiles, InkedTiles(row[k], style));
      }
    }
  }

  lemma InkedStep(row: Row, k: nat, current: Sgr, pen: Style)
    requires k < |row|
    ensures var (tiles, before) := Inked(row[..k], current, pen);
            var style := PenFor(row[k], PaintCells(row[..k], current).1, before);
            Inked(row[..k + 1], current, pen) ==
            if row[k].spacer then (tiles, before) else (tiles + InkedTiles(row[k], style), style)
  {
    assert row[..k + 1][..k] == row[..k];
  }

  lemma TilesInkStep(read: Reading, row: Row, k: nat)
    requires SkipsBlanks(read) && k < |row|
    ensures Ink(read, Tiles(row)[..k + 1]) == Ink(read, Tiles(row)[..k]) + read(TileAt(row, k))
    ensures row[k].spacer ==> Ink(read, Tiles(row)[..k + 1]) == Ink(read, Tiles(row)[..k])
  {
    assert Tiles(row)[..k + 1][..k] == Tiles(row)[..k];
  }

  lemma GlyphInk(read: Reading, cell: Cell, style: Style)
    requires SkipsBlanks(read)
    ensures Ink(read, InkedTiles(cell, style)) == read(Glyph(cell.ch as nat, Codes(cell.zerowidth), style, cell.wide))
  {
    var glyph := Glyph(cell.ch as nat, Codes(cell.zerowidth), style, cell.wide);
    assert [glyph][..0] == [];
    assert Ink(read, [glyph]) == read(glyph);
    if cell.wide {
      assert [glyph, Tail][..1] == [glyph];
    }
  }

  /** The ink of a whole row: the cells the painter leaves off have none. */
  lemma RowInk(read: Reading, width: nat -> nat, cols: nat, row: Row)
    requires SkipsBlanks(read) && GoodCells(read, width, cols, row) && width(0x20) == 1
    ensures Ink(read, Tiles(row)) == Ink(read, Tiles(row)[..PaintedEnd(row)])
  {
    var end := PaintedEnd(row);
    assert Tiles(row) == Tiles(row)[..end] + Tiles(row)[end..];
    InkConcat(read, Tiles(row)[..end], Tiles(row)[end..]);
    forall i | end <= i < |row| ensures read(TileAt(row, i)) == [] {
      assert Fits(read, width, cols, row[i]) && IsBlank(row[i]);
      assert Codes([]) == [];
    }
    NoInk(read, Tiles(row)[end..]);
  }

  lemma {:induction false} NoInk(read: Reading, tiles: seq<Tile>)
    requires forall i | 0 <= i < |tiles| :: read(tiles[i]) == []
    ensures Ink(read, tiles) == []
    decreases |tiles|
  {
    if tiles != [] {
      NoInk(read, tiles[..|tiles| - 1]);
    }
  }

  /** Painting a row adds the row's ink. */
  lemma PaintRowInk(read: Reading, t: Term, row: Row, current: Sgr)
    requires SkipsBlanks(read) && Scribing(t) && GoodCells(read, t.width, t.cols, row) && t.width(0x20) == 1
    requires StyleBlind(read) || t.pen == StyleOfSgr(current)
    ensures var (bytes, pen) := PaintRow(row, current);
            var r := Feed(t, bytes);
            Wrote(read, t, r, Ink(read, Tiles(row))) && (StyleBlind(read) || r.pen == StyleOfSgr(pen))
  {
    var end := PaintedEnd(row);
    CellsInk(read, t, row[..end], current);
    InkedIsRowInk(read, row, end, current, t.pen);
    RowInk(read, t.width, t.cols, row);
  }

  lemma CloseInk(read: Reading, t: Term)
    requires SkipsBlanks(read) && Scribing(t)
    ensures Wrote(read, t, Feed(t, RESET + CRLF), []) && Feed(t, RESET + CRLF).pen == PLAIN
    ensures Wrote(read, t, Feed(t, CRLF), []) && Feed(t, CRLF).pen == t.pen
  {
    FeedResetCrlf(t);
    FeedCrlf(t);
    LineFeedInk(read, t.main.(col := 0, pending := false), t.cols, t.rows);
  }

  // Whole archives

  ghost function RowsInk(read: Reading, rows: seq<Row>): seq<Tile> {
    LinesInk(read, LinesOf(rows))
  }

  lemma RowsInkNext(read: Reading, rows: seq<Row>, k: nat)
    requires k < |rows|
    ensures RowsInk(read, rows[..k + 1]) == RowsInk(read, rows[..k]) + Ink(read, Tiles(rows[k]))
  {
    LinesOfNext(rows, k);
  }

  ghost predicate Readable(read: Reading, width: nat -> nat, cols: nat, rows: seq<Row>) {
    width(0x20) == 1 && forall k | 0 <= k < |rows| :: GoodCells(read, width, cols, rows[k])
  }

  /** `r` is `t` after the first `k` rows of a primary paint, with pen `pen`. */
  ghost predicate PrimaryWrote(read: Reading, t: Term, rows: seq<Row>, k: nat, r: Term, pen: Sgr)
    requires k <= |rows|
  {
    Wrote(read, t, r, RowsInk(read, rows[..k])) && (StyleBlind(read) || r.pen == StyleOfSgr(pen))
  }

  lemma PrimaryInkStart(read: Reading, t: Term, rows: seq<Row>)
    requires Scribing(t) && t.pen == PLAIN
    ensures PrimaryWrote(read, t, rows, 0, t, DEFAULT_SGR)
  {
    DefaultSgrIsPlain();
    WroteNothing(read, t);
    assert LinesOf(rows[..0]) == [];
  }

  lemma {:induction false} PrimaryInk(read: Reading, t: Term, rows: seq<Row>, k: nat) returns (r: Term, pen: Sgr)
    requires SkipsBlanks(read) && Scribing(t) && Readable(read, t.width, t.cols, rows) && k <= |rows| && t.pen == PLAIN
    ensures r == Feed(t, PrimaryUpTo(rows, k).0) && pen == PrimaryUpTo(rows, k).1
    ensures PrimaryWrote(read, t, rows, k, r, pen)
    decreases k
  {
    if k == 0 {
      r, pen := t, DEFAULT_SGR;
      PrimaryInkStart(read, t, rows);
    } else {
      var j, last := k - 1, k == |rows|;
      var before, current := PrimaryInk(read, t, rows, j);
      FeedNextRow(t, rows, k);
      r, pen := AfterRow(rows[j], last, before, current), PenAfterRow(rows[j], last, current);
      PrimaryInkStep(read, t, before, rows, k, j, current, last);
    }
  }

  lemma PrimaryInkStep(read: Reading, t: Term, t1: Term, rows: seq<Row>, k: nat, j: nat, pen: Sgr, last: bool)
    requires SkipsBlanks(read) && Readable(read, t.width, t.cols, rows) && k == j + 1 <= |rows|
    requires PrimaryWrote(read, t, rows, j, t1, pen)
    ensures PrimaryWrote(read, t, rows, k, AfterRow(rows[j], last, t1, pen), PenAfterRow(rows[j], last, pen))
  {
    var row := rows[j];
    PaintRowInk(read, t1, row, pen);
    var painted := Feed(t1, PaintRow(row, pen).0);
    RowsInkNext(read, rows, j);
    var ink := RowsInk(read, rows[..k]);
    WroteThen(read, t, t1, painted, RowsInk(read, rows[..j]), Ink(read, Tiles(row)));
    assert Wrote(read, t, painted, ink);
    CloseThen(read, t, painted, ink);
    CloseInk(read, painted);
    DefaultSgrIsPlain();
  }

  lemma CloseThen(read: Reading, t: Term, r: Term, ink: seq<Tile>)
    requires SkipsBlanks(read) && Wrote(read, t, r, ink)
    ensures Wrote(read, t, Feed(r, RESET + CRLF), ink) && Wrote(read, t, Feed(r, CRLF), ink)
  {
    CloseInk(read, r);
    WroteThen(read, t, r, Feed(r, RESET + CRLF), ink, []);
    WroteThen(read, t, r, Feed(r, CRLF), ink, []);
    assert ink + [] == ink;
  }

  // The flat alternate paint

  /** The tiles row `k` of the flat paint is printed as: the pen is plain again after each join,
      the tracked rendition is not. */
  function FlatTiles(rows: seq<Row>, k: nat): seq<Tile>
    requires k < |rows|
  {
    Inked(rows[k][..PaintedEnd(rows[k])], FlatPen(rows, k), PLAIN).0
  }

  ghost function FlatInk(read: Reading, rows: seq<Row>, n: nat): seq<Tile>
    requires n <= |rows|
  {
    if n == 0 then [] else FlatInk(read, rows, n - 1) + Ink(read, FlatTiles(rows, n - 1))
  }

  lemma FlatRowWrites(read: Reading, t: Term, t1: Term, rows: seq<Row>, k: nat)
    requires SkipsBlanks(read) && Readable(read, t.width, t.cols, rows) && k < |rows| && t1.pen == PLAIN
    requires Wrote(read, t, t1, FlatInk(read, rows, k))
    ensures Wrote(read, t, Feed(t1, FlatRow(rows, k)), FlatInk(read, rows, k + 1))
  {
    CellsInk(read, t1, rows[k][..PaintedEnd(rows[k])], FlatPen(rows, k));
    WroteThen(read, t, t1, Feed(t1, FlatRow(rows, k)), FlatInk(read, rows, k), Ink(read, FlatTiles(rows, k)));
  }

  lemma JoinedRowWrites(read: Reading, t: Term, rows: seq<Row>, k: nat, before: seq<byte>)
    requires SkipsBlanks(read) && Scribing(t) && Readable(read, t.width, t.cols, rows) && 0 < k < |rows|
    requires Wrote(read, t, Feed(t, before), FlatInk(read, rows, k))
    ensures Wrote(read, t, Feed(t, before + (RESET + CRLF) + FlatRow(rows, k)), FlatInk(read, rows, k + 1))
  {
    FeedConcat(t, before + (RESET + CRLF), FlatRow(rows, k));
    FeedConcat(t, before, RESET + CRLF);
    CloseInk(read, Feed(t, before));
    CloseThen(read, t, Feed(t, before), FlatInk(read, rows, k));
    FlatRowWrites(read, t, Feed(Feed(t, before), RESET + CRLF), rows, k);
  }

  lemma {:induction false} JoinedRowsWrite(read: Reading, t: Term, rows: seq<Row>, k: nat)
    requires SkipsBlanks(read) && Scribing(t) && Readable(read, t.width, t.cols, rows) && k <= |rows| && t.pen == PLAIN
    ensures Wrote(read, t, Feed(t, JoinRows(FlatRows(rows, k))), FlatInk(read, rows, k))
    decreases k
  {
    WroteNothing(read, t);
    var flat := FlatRows(rows, k);
    if k == 1 {
      FlatRowWrites(read, t, t, rows, 0);
    } else if k > 1 {
      JoinedRowsWrite(read, t, rows, k - 1);
      assert flat[..k - 1] == FlatRows(rows, k - 1);
      JoinedRowWrites(read, t, rows, k - 1, JoinRows(flat[..k - 1]));
    }
  }

  lemma NothingAdded(read: Reading, t: Term, added: seq<Tile>)
    requires Wrote(read, t, t, added)
    ensures added == []
  {
    assert |LinesInk(read, t.main.lines)| == |LinesInk(read, t.main.lines)| + |added|;
  }

  lemma FlatInkNext(read: Reading, rows: seq<Row>, k: nat, next: nat)
    requires next == k + 1 <= |rows|
    ensures FlatInk(read, rows, next) == FlatInk(read, rows, k) + Ink(read, FlatTiles(rows, k))
  {
  }

  /** A row printed as nothing has no ink, so popping such rows from the end loses none. */
  lemma EmptyRowInk(read: Reading, t: Term, rows: seq<Row>, k: nat, next: nat)
    requires SkipsBlanks(read) && Scribing(t) && Readable(read, t.width, t.cols, rows) && next == k + 1 <= |rows| &&
             t.pen == PLAIN
    requires FlatRow(rows, k) == []
    ensures FlatInk(read, rows, next) == FlatInk(read, rows, k)
  {
    var added := Ink(read, FlatTiles(rows, k));
    CellsInk(read, t, rows[k][..PaintedEnd(rows[k])], FlatPen(rows, k));
    NothingAdded(read, t, added);
    FlatInkNext(read, rows, k, next);
    assert FlatInk(read, rows, k) + [] == FlatInk(read, rows, k);
  }

  lemma PopLast(rows: seq<Row>, k: nat, j: nat)
    requires k == j + 1 <= |rows|
    ensures DropEmptyTail(FlatRows(rows, k)) ==
            if FlatRow(rows, j) == [] then DropEmptyTail(FlatRows(rows, j)) else FlatRows(rows, k)
  {
    var flat := FlatRows(rows, k);
    assert flat[j] == FlatRow(rows, j) && flat[..j] == FlatRows(rows, j);
  }

  lemma {:induction false} DropEmptyTailInk(read: Reading, t: Term, rows: seq<Row>, k: nat) returns (kept: nat)
    requires SkipsBlanks(read) && Scribing(t) && Readable(read, t.width, t.cols, rows) && k <= |rows| && t.pen == PLAIN
    ensures kept <= k && DropEmptyTail(FlatRows(rows, k)) == FlatRows(rows, kept)
    ensures FlatInk(read, rows, kept) == FlatInk(read, rows, k)
    decreases k
  {
    kept := k;
    if k > 0 {
      var j := k - 1;
      PopLast(rows, k, j);
      if FlatRow(rows, j) == [] {
        kept := DropEmptyTailInk(read, t, rows, j);
        EmptyRowInk(read, t, rows, j, k);
      }
    }
  }

  lemma FlatPaintWrites(read: Reading, t: Term, rows: seq<Row>)
    requires SkipsBlanks(read) && Scribing(t) && Readable(read, t.width, t.cols, rows) && t.pen == PLAIN
    ensures Wrote(read, t, Feed(t, PaintAltFlat(rows)), FlatInk(read, rows, |rows|))
  {
    var kept := DropEmptyTailInk(read, t, rows, |rows|);
    JoinedRowsWrite(read, t, rows, kept);
  }

  lemma FlatTilesInk(read: Reading, width: nat -> nat, cols: nat, rows: seq<Row>, k: nat, next: nat)
    requires SkipsBlanks(read) && StyleBlind(read) && Readable(read, width, cols, rows) && next == k + 1 <= |rows|
    ensures RowsInk(read, rows[..next]) == RowsInk(read, rows[..k]) + Ink(read, FlatTiles(rows, k))
  {
    RowsInkNext(read, rows, k);
    InkedIsRowInk(read, rows[k], PaintedEnd(rows[k]), FlatPen(rows, k), PLAIN);
    RowInk(read, width, cols, rows[k]);
  }

  /** Read without styles, the flat paint holds every character of its rows. */
  lemma {:induction false} FlatInkIsRowsInk(read: Reading, width: nat -> nat, cols: nat, rows: seq<Row>, n: nat)
    requires SkipsBlanks(read) && StyleBlind(read) && Readable(read, width, cols, rows) && n <= |rows|
    ensures FlatInk(read, rows, n) == RowsInk(read, rows[..n])
    decreases n
  {
    if n == 0 {
      assert LinesOf(rows[..0]) == [];
    } else {
      var j := n - 1;
      FlatInkIsRowsInk(read, width, cols, rows, j);
      FlatTilesInk(read, width, cols, rows, j, n);
      FlatInkNext(read, rows, j, n);
    }
  }

  /** The tiles a row should be printed as: every glyph in its own style. */
  function OwnTiles(cells: Row): seq<Tile> {
    if cells == [] then []
    else
      var init, last := cells[..|cells| - 1], cells[|cells| - 1];
      if last.spacer then OwnTiles(init) else OwnTiles(init) + InkedTiles(last, StyleOf(last))
  }

  /** Row `k` does not open in the very rendition the rows before it left tracked, unless that is plain. */
  predicate OpensAfresh(rows: seq<Row>, k: nat)
    requires k < |rows|
  {
    PaintedEnd(rows[k]) > 0 ==> SgrOf(rows[k][0]) != FlatPen(rows, k) || StyleOf(rows[k][0]) == PLAIN
  }

  lemma {:induction false} InkedOwn(row: Row, i: nat, current: Sgr)
    requires 0 < i <= |row| && !row[0].spacer
    requires SgrOf(row[0]) != current || StyleOf(row[0]) == PLAIN
    ensures Inked(row[..i], current, PLAIN) == (OwnTiles(row[..i]), StyleOfSgr(PaintCells(row[..i], current).1))
    decreases i
  {
    var k := i - 1;
    InkedStep(row, k, current, PLAIN);
    PaintCellsStep(row, k, current);
    assert row[..i][..k] == row[..k];
    if k == 0 {
      assert row[..0] == [];
      PenInStep(row[0], current);
    } else {
      InkedOwn(row, k, current);
      PenInStep(row[k], PaintCells(row[..k], current).1);
    }
  }

  /** The first tile of a printed row is its first glyph, in the pen in force. */
  lemma {:induction false} FirstTile(row: Row, i: nat, current: Sgr)
    requires 0 < i <= |row| && !row[0].spacer
    ensures var tiles := Inked(row[..i], current, PLAIN).0;
            |tiles| > 0 && tiles[0] == InkedTiles(row[0], PenFor(row[0], current, PLAIN))[0]
    ensures |OwnTiles(row[..i])| > 0 && OwnTiles(row[..i])[0] == InkedTiles(row[0], StyleOf(row[0]))[0]
    decreases i
  {
    InkedStep(row, i - 1, current, PLAIN);
    assert row[..i][..i - 1] == row[..i - 1];
    if i == 1 {
      assert row[..0] == [];
    } else {
      FirstTile(row, i - 1, current);
    }
  }

  /** The flat paint prints a row in its own styles exactly when the row opens afresh. */
  lemma FlatStylesExactly(rows: seq<Row>, k: nat)
    requires k < |rows| && (|rows[k]| > 0 ==> !rows[k][0].spacer)
    ensures FlatTiles(rows, k) == OwnTiles(rows[k][..PaintedEnd(rows[k])]) <==> OpensAfresh(rows, k)
  {
    var row, end := rows[k], PaintedEnd(rows[k]);
    if end == 0 {
      assert row[..0] == [];
    } else if OpensAfresh(rows, k) {
      InkedOwn(row, end, FlatPen(rows, k));
    } else {
      FirstTile(row, end, FlatPen(rows, k));
    }
  }

  lemma {:induction false} OwnIsRowInk(read: Reading, row: Row, i: nat)
    requires SkipsBlanks(read) && i <= |row|
    ensures Ink(read, OwnTiles(row[..i])) == Ink(read, Tiles(row)[..i])
    decreases i
  {
    if i > 0 {
      var k := i - 1;
      OwnIsRowInk(read, row, k);
      TilesInkStep(read, row, k);
      assert row[..i][..k] == row[..k];
      if !row[k].spacer {
        GlyphInk(read, row[k], StyleOf(row[k]));
        InkConcat(read, OwnTiles(row[..k]), InkedTiles(row[k], StyleOf(row[k])));
      }
    }
  }

  /** Row `k` opens with a glyph, and afresh. */
  predicate KeepsStyle(rows: seq<Row>, k: nat)
    requires k < |rows|
  {
    (|rows[k]| > 0 ==> !rows[k][0].spacer) && OpensAfresh(rows, k)
  }

  lemma FlatTilesInStyle(read: Reading, width: nat -> nat, cols: nat, rows: seq<Row>, k: nat, next: nat)
    requires SkipsBlanks(read) && Readable(read, width, cols, rows) && next == k + 1 <= |rows| && KeepsStyle(rows, k)
    ensures RowsInk(read, rows[..next]) == RowsInk(read, rows[..k]) + Ink(read, FlatTiles(rows, k))
  {
    RowsInkNext(read, rows, k);
    FlatStylesExactly(rows, k);
    OwnIsRowInk(read, rows[k], PaintedEnd(rows[k]));
    RowInk(read, width, cols, rows[k]);
  }

  /** Where every row opens afresh, the flat paint holds every glyph of its rows in its own style. */
  lemma {:induction false} FlatInkInOwnStyles(read: Reading, width: nat -> nat, cols: nat, rows: seq<Row>, n: nat)
    requires SkipsBlanks(read) && Readable(read, width, cols, rows) && n <= |rows|
    requires forall k | 0 <= k < n :: KeepsStyle(rows, k)
    ensures FlatInk(read, rows, n) == RowsInk(read, rows[..n])
    decreases n
  {
    if n == 0 {
      assert LinesOf(rows[..0]) == [];
    } else {
      var j := n - 1;
      FlatInkInOwnStyles(read, width, cols, rows, j);
      FlatTilesInStyle(read, width, cols, rows, j, n);
      FlatInkNext(read, rows, j, n);
    }
  }

  function BoldLetter(): Cell {
    Cell(0x61, Default, Default, true, false, false, false, false, false, false, false, false, false, [], None)
  }

  /** Two bold rows: the second is printed plain. */
  lemma FlatPaintLosesAStyle()
    ensures var rows := [[BoldLetter()], [BoldLetter()]];
            !OpensAfresh(rows, 1) && FlatTiles(rows, 1) == [Glyph(0x61, [], PLAIN, false)]
  {
    var row := [BoldLetter()];
    var rows := [row, row];
    assert row[..1] == row && row[..0] == [];
    assert PaintedEnd(row) == 1;
    PaintCellsStep(row, 0, DEFAULT_SGR);
    assert FlatPen(rows, 0) == DEFAULT_SGR;
    assert FlatPen(rows, 1) == SgrOf(BoldLetter());
    InkedStep(row, 0, FlatPen(rows, 1), PLAIN);
    assert Codes([]) == [];
  }

  lemma PaintPrimaryInk(read: Reading, t: Term, rows: seq<Row>)
    requires SkipsBlanks(read) && Scribing(t) && Readable(read, t.width, t.cols, rows) && t.pen == PLAIN
    ensures Wrote(read, t, Feed(t, PaintPrimary(rows)), RowsInk(read, rows)) && Feed(t, PaintPrimary(rows)).pen == PLAIN
  {
    var printed, pen := PrimaryInk(read, t, rows, |rows|);
    assert rows[..|rows|] == rows;
    FeedConcat(t, PrimaryUpTo(rows, |rows|).0, RESET);
    FeedReset(printed);
  }

  /** What an archive holds: the primary lines, or the frozen ones and then the alternate rows as the flat paint
      prints them. */
  ghost function ArchivedInk(read: Reading, screen: Screen, primary: Option<Screen>): seq<Tile> {
    if screen.altActive then
      (if primary.Some? then RowsInk(read, primary.value.Lines()) else []) +
        FlatInk(read, screen.viewport, |screen.viewport|)
    else RowsInk(read, screen.Lines())
  }

  function Frozen(primary: Option<Screen>): Option<FrozenPrimary> {
    if primary.Some? then Some(Freeze(primary.value)) else None
  }

  ghost predicate ReadableScreen(read: Reading, width: nat -> nat, cols: nat, screen: Screen, primary: Option<Screen>) {
    && Readable(read, width, cols, screen.Lines()) && Readable(read, width, cols, screen.viewport)
    && (primary.Some? ==> Readable(read, width, cols, primary.value.Lines()))
  }

  /** What lies under the alternate rows: the frozen primary screen, if there is one, and a line end. */
  lemma FrozenInk(read: Reading, t: Term, primary: Option<Screen>)
    requires SkipsBlanks(read) && Scribing(t) && t.pen == PLAIN
    requires primary.Some? ==> Readable(read, t.width, t.cols, primary.value.Lines())
    ensures var under := if primary.Some? then Frozen(primary).value.paint else [];
            var r := Feed(Feed(t, under), CRLF);
            Wrote(read, t, r, if primary.Some? then RowsInk(read, primary.value.Lines()) else []) && r.pen == PLAIN
  {
    var first := if primary.Some? then RowsInk(read, primary.value.Lines()) else [];
    var t1 := Feed(t, if primary.Some? then Frozen(primary).value.paint else []);
    if primary.Some? {
      PaintPrimaryInk(read, t, primary.value.Lines());
    } else {
      WroteNothing(read, t);
    }
    CloseThen(read, t, t1, first);
    CloseInk(read, t1);
  }

  lemma AltBodyInk(read: Reading, t: Term, screen: Screen, primary: Option<Screen>)
    requires SkipsBlanks(read) && Scribing(t) && t.pen == PLAIN
    requires ReadableScreen(read, t.width, t.cols, screen, primary) && screen.altActive
    ensures var under := if primary.Some? then Frozen(primary).value.paint else [];
            Wrote(read, t, Feed(t, under + (CRLF + PaintAltFlat(screen.viewport))), ArchivedInk(read, screen, primary))
  {
    var under := if primary.Some? then Frozen(primary).value.paint else [];
    var first := if primary.Some? then RowsInk(read, primary.value.Lines()) else [];
    FrozenInk(read, t, primary);
    FeedConcat(t, under, CRLF + PaintAltFlat(screen.viewport));
    FeedConcat(Feed(t, under), CRLF, PaintAltFlat(screen.viewport));
    var t2 := Feed(Feed(t, under), CRLF);
    FlatPaintWrites(read, t2, screen.viewport);
    WroteThen(read, t, t2, Feed(t2, PaintAltFlat(screen.viewport)), first,
      FlatInk(read, screen.viewport, |screen.viewport|));
  }

  /** Feeding an archive writes its ink and nothing else. */
  lemma ColdPaintInk(read: Reading, t: Term, screen: Screen, primary: Option<Screen>)
    requires SkipsBlanks(read)
    requires Scribing(t) && t.pen == PLAIN && ReadableScreen(read, t.width, t.cols, screen, primary)
    ensures Wrote(read, t, Feed(t, ColdPaint(screen, Frozen(primary))), ArchivedInk(read, screen, primary))
  {
    var body :=
      if screen.altActive then
        (if primary.Some? then Frozen(primary).value.paint else []) + (CRLF + PaintAltFlat(screen.viewport))
      else PaintPrimary(screen.Lines());
    FeedConcat(t, RESET, body + (RESET + CRLF));
    FeedReset(t);
    assert t.(pen := PLAIN) == t;
    FeedConcat(t, body, RESET + CRLF);
    if screen.altActive {
      AltBodyInk(read, t, screen, primary);
    } else {
      PaintPrimaryInk(read, t, screen.Lines());
    }
    CloseThen(read, t, Feed(t, body), ArchivedInk(read, screen, primary));
  }

  const NOTHING: Reading := tile => []

  /** Whatever was archived, and whatever the size, the cursor ends at the start of a line with nothing written on it
      or below, in a plain pen; modes and cursor style are as before. */
  lemma ArchiveEndsOnAFreshLine(t: Term, screen: Screen, primary: Option<Screen>)
    requires Scribing(t) && t.pen == PLAIN && ReadableScreen(NOTHING, t.width, t.cols, screen, primary)
    ensures var r := Feed(t, ColdPaint(screen, Frozen(primary)));
            && r == t.(main := r.main) && r.main.col == 0 && !r.main.pending && ClearAhead(r.main, r.cols, r.rows)
  {
    var read := NOTHING;
    ColdPaintInk(read, t, screen, primary);
    ColdPaintReturns(t, screen, primary);
  }

  lemma ColdPaintReturns(t: Term, screen: Screen, primary: Option<Screen>)
    requires Scribing(t) && t.pen == PLAIN && ReadableScreen(NOTHING, t.width, t.cols, screen, primary)
    ensures var r := Feed(t, ColdPaint(screen, Frozen(primary))); r.main.col == 0 && !r.main.pending && r.pen == PLAIN
  {
    var read := NOTHING;
    var body :=
      if screen.altActive then
        (if primary.Some? then Frozen(primary).value.paint else []) + (CRLF + PaintAltFlat(screen.viewport))
      else PaintPrimary(screen.Lines());
    FeedConcat(t, RESET, body + (RESET + CRLF));
    FeedReset(t);
    assert t.(pen := PLAIN) == t;
    FeedConcat(t, body, RESET + CRLF);
    if screen.altActive {
      AltBodyInk(read, t, screen, primary);
    } else {
      PaintPrimaryInk(read, t, screen.Lines());
    }
    FeedResetCrlf(Feed(t, body));
  }

  // Scrolling the archive out of view

  /** The cursor has gone `n` lines down from line `start`, and nothing is written past `start`. */
  ghost predicate ScrolledPast(t: Term, start: nat, n: nat)
    requires Valid(t)
  {
    && At(t.main, t.rows) == start + n
    && (forall k | start < k < |t.main.lines| :: IsBlankLine(t.main.lines[k]))
  }

  lemma ScrollOne(read: Reading, t: Term, r: Term, start: nat, n: nat)
    requires SkipsBlanks(read) && Scribing(t) && Wrote(read, t, r, []) && ScrolledPast(r, start, n)
    ensures Wrote(read, t, Feed(r, CRLF), []) && ScrolledPast(Feed(r, CRLF), start, n + 1)
  {
    CloseThen(read, t, r, []);
    FeedCrlf(r);
  }

  /** `n` line ends move the cursor `n` lines down over lines nothing has been written on. */
  lemma {:induction false} LineEndsScroll(read: Reading, t: Term, n: nat, r: Term, start: nat)
    requires SkipsBlanks(read) && Scribing(t) && r == Feed(t, LineEnds(n)) && start == At(t.main, t.rows)
    ensures Wrote(read, t, r, []) && ScrolledPast(r, start, n)
    decreases n
  {
    if n == 0 {
      WroteNothing(read, t);
    } else {
      var m, before := n - 1, Feed(t, LineEnds(n - 1));
      LineEndsScroll(read, t, m, before, start);
      FeedConcat(t, LineEnds(m), CRLF);
      ScrollOne(read, t, before, start, m);
    }
  }

  lemma ViewportIsClear(g: Grid, cols: nat, rows: nat, start: nat)
    requires ValidGrid(g, cols, rows) && At(g, rows) == start + rows
    requires forall k | start < k < |g.lines| :: IsBlankLine(g.lines[k])
    ensures forall k | |g.lines| - rows <= k < |g.lines| :: IsBlankLine(g.lines[k])
  {
  }

  ghost function Scrollback(t: Term): seq<Line>
    requires Valid(t)
  {
    t.main.lines[..|t.main.lines| - t.rows]
  }

  /** A blank viewport with the cursor at home. */
  ghost predicate NewPage(t: Term)
    requires Valid(t)
  {
    && t.main.row == 0 && t.main.col == 0 && !t.main.pending
    && t.main.lines[|t.main.lines| - t.rows..] == BlankLines(t.rows, t.cols)
  }

  lemma FeedClearHome(t: Term)
    requires PrimaryReady(t)
    ensures Feed(t, ERASE_ALL + HOME) ==
            t.(main := EraseDisplay(t.main, t.cols, t.rows).(row := 0, col := 0, pending := false))
  {
    FeedConcat(t, ERASE_ALL, HOME);
    FeedEraseAll(t);
    FeedHome(Feed(t, ERASE_ALL));
  }

  lemma ClearAndHome(read: Reading, t: Term)
    requires SkipsBlanks(read) && PrimaryReady(t)
    requires forall k | |t.main.lines| - t.rows <= k < |t.main.lines| :: IsBlankLine(t.main.lines[k])
    ensures var r := Feed(t, ERASE_ALL + HOME);
            NewPage(r) && LinesInk(read, Scrollback(r)) == LinesInk(read, t.main.lines)
  {
    FeedClearHome(t);
    var top := |t.main.lines| - t.rows;
    assert t.main.lines == t.main.lines[..top] + t.main.lines[top..];
    LinesInkConcat(read, t.main.lines[..top], t.main.lines[top..]);
    BlankLinesInk(read, t.main.lines[top..]);
    var erased := EraseDisplay(t.main, t.cols, t.rows).lines;
    assert erased[..top] == t.main.lines[..top] && erased[top..] == BlankLines(t.rows, t.cols);
  }

  lemma FreshScribes(read: Reading, cols: nat, rows: nat, width: nat -> nat)
    requires SkipsBlanks(read) && cols > 0 && rows > 0
    ensures Scribing(Fresh(cols, rows, width)) && LinesInk(read, Fresh(cols, rows, width).main.lines) == []
  {
    BlankLinesInk(read, BlankLines(rows, cols));
  }

  /** One viewport of line ends, clear and home, from anywhere the writing stopped. */
  lemma ScrollAway(read: Reading, t: Term)
    requires SkipsBlanks(read) && Scribing(t)
    ensures var r := Feed(Feed(t, LineEnds(t.rows)), ERASE_ALL + HOME);
            NewPage(r) && LinesInk(read, Scrollback(r)) == LinesInk(read, t.main.lines)
  {
    var r := Feed(t, LineEnds(t.rows));
    LineEndsScroll(read, t, t.rows, r, At(t.main, t.rows));
    assert LinesInk(read, t.main.lines) + [] == LinesInk(read, t.main.lines);
    ViewportIsClear(r.main, r.cols, r.rows, At(t.main, t.rows));
    ClearAndHome(read, r);
  }

  /** Read without styles, or where its rows open afresh, an archived alternate screen holds its rows as they are. */
  lemma AlternateIsArchived(read: Reading, width: nat -> nat, cols: nat, screen: Screen, primary: Option<Screen>)
    requires SkipsBlanks(read) && ReadableScreen(read, width, cols, screen, primary) && screen.altActive
    requires StyleBlind(read) || forall k | 0 <= k < |screen.viewport| :: KeepsStyle(screen.viewport, k)
    ensures ArchivedInk(read, screen, primary) ==
            (if primary.Some? then RowsInk(read, primary.value.Lines()) else []) + RowsInk(read, screen.viewport)
  {
    var rows := screen.viewport;
    assert rows[..|rows|] == rows;
    if StyleBlind(read) {
      FlatInkIsRowsInk(read, width, cols, rows, |rows|);
    } else {
      FlatInkInOwnStyles(read, width, cols, rows, |rows|);
    }
  }

  /** In one column a wide glyph is not printed at all. */
  lemma OneColumnDropsWideGlyphs(t: Term, ch: nat)
    requires Valid(t) && t.width(ch) > 1
    ensures t.cols == 1 ==> Print(t, ch) == t
  {
    assert |[Glyph(ch, [], t.pen, true), Tail]| == 2;
  }

  /** Main result: a mirror of any size fed an archive of any size, one viewport of line ends, clear and
      home has a blank viewport, its cursor at home, and in its scrollback every printed cell of the
      archive in order: with its style on the primary screen, and as the flat paint prints it on the alternate. */
  lemma ArchiveIsParked(read: Reading, t0: Term, screen: Screen, primary: Option<Screen>)
    requires SkipsBlanks(read)
    requires t0.cols > 0 && t0.rows > 0 && t0 == Fresh(t0.cols, t0.rows, t0.width)
    requires ReadableScreen(read, t0.width, t0.cols, screen, primary)
    ensures var fed := Feed(t0, ColdPaint(screen, Frozen(primary)));
            var t := Feed(Feed(fed, LineEnds(t0.rows)), ERASE_ALL + HOME);
            NewPage(t) && LinesInk(read, Scrollback(t)) == ArchivedInk(read, screen, primary)
  {
    FreshScribes(read, t0.cols, t0.rows, t0.width);
    ColdPaintInk(read, t0, screen, primary);
    var fed := Feed(t0, ColdPaint(screen, Frozen(primary)));
    ScrollAway(read, fed);
    assert [] + ArchivedInk(read, screen, primary) == ArchivedInk(read, screen, primary);
  }
}
