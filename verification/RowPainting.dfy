/** One painted row, cell by cell, on the reference terminal. */
module RowPainting {
  import opened Bytes
  import opened Cells
  import opened Paint
  import opened Terminal
  import opened Emission

  function Codes(text: seq<scalar>): (codes: seq<nat>)
    ensures |codes| == |text|
  {
    seq(|text|, i requires 0 <= i < |text| => text[i] as nat)
  }

  /** The right half of a wide glyph, as opposed to a last column too narrow for one. */
  predicate IsTail(row: Row, i: nat)
    requires i < |row|
  {
    row[i].spacer && i > 0 && row[i - 1].wide && !row[i - 1].spacer
  }

  /** What column `i` of `row` looks like: links and colours without a code are not printed. */
  function TileAt(row: Row, i: nat): Tile
    requires i < |row|
  {
    if IsTail(row, i) then Tail
    else if row[i].spacer then BLANK
    else Glyph(row[i].ch as nat, Codes(row[i].zerowidth), StyleOf(row[i]), row[i].wide)
  }

  function Tiles(row: Row): (tiles: seq<Tile>)
    ensures |tiles| == |row|
  {
    seq(|row|, i requires 0 <= i < |row| => TileAt(row, i))
  }

  function LineOf(row: Row): Line {
    Line(Tiles(row), Wrapped(row))
  }

  function Columns(cell: Cell): nat {
    if cell.wide then 2 else 1
  }

  ghost predicate GoodCell(width: nat -> nat, cell: Cell) {
    cell.spacer ||
    (&& Printable(cell.ch)
     && width(cell.ch as nat) == Columns(cell)
     && (forall z | z in cell.zerowidth :: Printable(z) && width(z as nat) == 0))
  }

  /** A row as an engine keeps it: wide glyphs have their right half, and the only other spacer is
      the last column of a row that wrapped because a wide glyph did not fit. */
  ghost predicate GoodRow(width: nat -> nat, cols: nat, row: Row) {
    && |row| == cols
    && (forall i | 0 <= i < cols :: GoodCell(width, row[i]))
    && (forall i | 0 <= i < cols :: row[i].wide && !row[i].spacer ==> i + 1 < cols && row[i + 1].spacer)
    && (forall i | 0 <= i < cols :: row[i].spacer ==> IsTail(row, i) || (i == cols - 1 && i > 0 && Wrapped(row)))
  }

  predicate EndsInNarrowGap(row: Row) {
    |row| > 0 && row[|row| - 1].spacer && !IsTail(row, |row| - 1)
  }

  // One glyph

  function GlyphTiles(ch: nat, marks: seq<nat>, style: Style, wide: bool): seq<Tile> {
    if wide then [Glyph(ch, marks, style, true), Tail] else [Glyph(ch, marks, style, false)]
  }

  lemma OverwriteHead(g: Grid, rows: nat, col: nat, head: Tile, next: Tile, rest: seq<Tile>)
    requires g.row < rows <= |g.lines| && col + 1 + |rest| <= |g.lines[At(g, rows)].tiles|
    ensures Overwrite(Overwrite(g, rows, col, [head] + rest), rows, col, [next]) ==
            Overwrite(g, rows, col, [next] + rest)
  {
    var at := At(g, rows);
    var was := g.lines[at].tiles;
    var tail := was[col + 1 + |rest|..];
    var now := was[..col] + ([head] + rest) + tail;
    assert now[..col] == was[..col] && now[col + 1..] == rest + tail;
    assert was[..col] + [next] + (rest + tail) == was[..col] + ([next] + rest) + tail;
  }

  /** The glyph just written is the one a mark finds. */
  lemma MarkFinds(g: Grid, cols: nat, rows: nat, glyph: Tile, rest: seq<Tile>, z: nat)
    requires ValidGrid(g, cols, rows) && glyph.Glyph? && rest == (if glyph.wide then [Tail] else [])
    requires g.col + 1 + |rest| <= cols
    ensures Mark(Put(g, cols, rows, [glyph] + rest), cols, rows, z)
         == Overwrite(Put(g, cols, rows, [glyph] + rest), rows, g.col, [glyph.(marks := glyph.marks + [z])])
  {
    var put := Put(g, cols, rows, [glyph] + rest);
    var now := put.lines[At(g, rows)].tiles;
    assert now[g.col] == glyph && (glyph.wide ==> now[g.col + 1] == Tail);
    MarkReaches(put, cols, rows, g.col, z);
  }

  /** A mark reaches the glyph before the cursor, over its right half if it is wide. */
  lemma MarkReaches(g: Grid, cols: nat, rows: nat, at: nat, z: nat)
    requires ValidGrid(g, cols, rows) && at < cols
    requires var tiles := g.lines[At(g, rows)].tiles;
             && tiles[at].Glyph? && (tiles[at].wide ==> at + 1 < cols && tiles[at + 1] == Tail)
             && (if g.pending then g.col else g.col - 1) == at + (if tiles[at].wide then 1 else 0)
    ensures var glyph := g.lines[At(g, rows)].tiles[at];
            Mark(g, cols, rows, z) == Overwrite(g, rows, at, [glyph.(marks := glyph.marks + [z])])
  {
  }

  /** A mark printed right after a glyph is one more mark on that glyph. */
  lemma MarkJoins(g: Grid, cols: nat, rows: nat, ch: nat, marks: seq<nat>, style: Style, wide: bool, z: nat)
    requires ValidGrid(g, cols, rows)
    requires g.col + |GlyphTiles(ch, marks, style, wide)| <= cols
    ensures Mark(Put(g, cols, rows, GlyphTiles(ch, marks, style, wide)), cols, rows, z)
         == Put(g, cols, rows, GlyphTiles(ch, marks + [z], style, wide))
  {
    var rest := if wide then [Tail] else [];
    var glyph := Glyph(ch, marks, style, wide);
    assert GlyphTiles(ch, marks, style, wide) == [glyph] + rest;
    assert GlyphTiles(ch, marks + [z], style, wide) == [glyph.(marks := marks + [z])] + rest;
    MarkFinds(g, cols, rows, glyph, rest, z);
    OverwriteHead(g, rows, g.col, glyph, glyph.(marks := marks + [z]), rest);
  }

  lemma PrintMark(t: Term, z: nat)
    requires Valid(t) && t.width(z) == 0
    ensures Print(t, z) == WithActive(t, Mark(Active(t), t.cols, t.rows, z))
  {
  }

  lemma PrintOneMark(t: Term, g: Grid, ch: nat, marks: seq<nat>, style: Style, wide: bool, z: nat)
    requires Valid(t) && ValidGrid(g, t.cols, t.rows) && t.width(z) == 0
    requires g.col + |GlyphTiles(ch, marks, style, wide)| <= t.cols
    requires t.alt.Some? ==> |g.lines| == t.rows
    requires Active(t) == Put(g, t.cols, t.rows, GlyphTiles(ch, marks, style, wide))
    ensures Print(t, z) == WithActive(t, Put(g, t.cols, t.rows, GlyphTiles(ch, marks + [z], style, wide)))
  {
    MarkJoins(g, t.cols, t.rows, ch, marks, style, wide, z);
    PrintMark(t, z);
  }

  lemma {:induction false} MarksJoin(t: Term, g: Grid, ch: nat, marks: seq<nat>, style: Style, wide: bool,
      text: seq<scalar>)
    requires Valid(t) && ValidGrid(g, t.cols, t.rows)
    requires g.col + |GlyphTiles(ch, marks, style, wide)| <= t.cols
    requires t.alt.Some? ==> |g.lines| == t.rows
    requires Active(t) == Put(g, t.cols, t.rows, GlyphTiles(ch, marks, style, wide))
    requires forall z | z in text :: t.width(z as nat) == 0
    ensures PrintAll(t, text) == WithActive(t, Put(g, t.cols, t.rows, GlyphTiles(ch, marks + Codes(text), style, wide)))
    decreases |text|
  {
    if text == [] {
      assert marks + Codes(text) == marks;
    } else {
      var z, rest := text[0] as nat, text[1..];
      assert text[0] in text && forall y | y in rest :: y in text;
      PrintOneMark(t, g, ch, marks, style, wide, z);
      MarksJoin(Print(t, z), g, ch, marks + [z], style, wide, rest);
      CodesNext(marks, z, rest, text);
    }
  }

  lemma CodesNext(marks: seq<nat>, z: nat, rest: seq<scalar>, text: seq<scalar>)
    requires |text| > 0 && z == text[0] as nat && rest == text[1..]
    ensures marks + [z] + Codes(rest) == marks + Codes(text)
  {
  }

  /** The style a tracked rendition stands for. */
  function StyleOfSgr(value: Sgr): Style {
    ApplySgr(PLAIN, [0] + (value.attributes + (value.foreground + value.background)))
  }

  lemma DefaultSgrIsPlain()
    ensures StyleOfSgr(DEFAULT_SGR) == PLAIN
  {
    SgrCode(PLAIN, 0, []);
    assert DEFAULT_SGR.attributes + (DEFAULT_SGR.foreground + DEFAULT_SGR.background) == [];
  }

  /** Where the glyph of `cell` lands from the terminal's present cursor. */
  function Landed(t: Term, cell: Cell): (g: Grid)
    requires Valid(t)
    ensures ValidGrid(g, t.cols, t.rows)
    ensures t.alt.Some? ==> |g.lines| == t.rows
  {
    Landing(Active(t), t.cols, t.rows, t.alt.None?, LineWrap in t.modes, Columns(cell))
  }

  /** The tiles of `cell` when its glyph is printed with pen `style`. */
  function InkedTiles(cell: Cell, style: Style): seq<Tile> {
    GlyphTiles(cell.ch as nat, Codes(cell.zerowidth), style, cell.wide)
  }

  lemma FeedGlyph(t: Term, cell: Cell)
    requires Valid(t) && t.parser == Ground && !cell.spacer && GoodCell(t.width, cell)
    requires Landed(t, cell).col + Columns(cell) <= t.cols
    ensures Feed(t, Utf8(cell.ch) + Utf8All(cell.zerowidth))
         == WithActive(t, Put(Landed(t, cell), t.cols, t.rows, InkedTiles(cell, t.pen)))
  {
    FeedConcat(t, Utf8(cell.ch), Utf8All(cell.zerowidth));
    FeedUtf8(t, cell.ch);
    PrintGlyph(t, cell);
    var printed := Print(t, cell.ch as nat);
    FeedText(printed, cell.zerowidth);
    MarksJoin(printed, Landed(t, cell), cell.ch as nat, [], t.pen, cell.wide, cell.zerowidth);
    assert [] + Codes(cell.zerowidth) == Codes(cell.zerowidth);
  }

  lemma PrintGlyph(t: Term, cell: Cell)
    requires Valid(t) && !cell.spacer && GoodCell(t.width, cell)
    requires Landed(t, cell).col + Columns(cell) <= t.cols
    ensures Print(t, cell.ch as nat)
         == WithActive(t, Put(Landed(t, cell), t.cols, t.rows, GlyphTiles(cell.ch as nat, [], t.pen, cell.wide)))
  {
  }

  /** The pen a cell is printed with: its own style when that is emitted, else whatever is in force. */
  function PenFor(cell: Cell, current: Sgr, pen: Style): Style {
    if SgrOf(cell) != current then StyleOf(cell) else pen
  }

  /** The bytes of one cell put its glyph and marks where the glyph lands, whatever the pen was. */
  lemma FeedCell(t: Term, cell: Cell, current: Sgr)
    requires Valid(t) && t.parser == Ground && !cell.spacer && GoodCell(t.width, cell)
    requires Landed(t, cell).col + Columns(cell) <= t.cols
    ensures var pen := PenFor(cell, current, t.pen);
            Feed(t, PaintCell(cell, current)) ==
            WithActive(t, Put(Landed(t, cell), t.cols, t.rows, InkedTiles(cell, pen))).(pen := pen)
  {
    var styled := t.(pen := PenFor(cell, current, t.pen));
    FeedStyled(t, cell, current);
    assert Landed(styled, cell) == Landed(t, cell);
    FeedGlyph(styled, cell);
  }

  /** The rendition first, if it has changed, and then the text. */
  lemma FeedStyled(t: Term, cell: Cell, current: Sgr)
    requires Valid(t) && t.parser == Ground
    ensures var styled := t.(pen := PenFor(cell, current, t.pen));
            Valid(styled) && Feed(t, PaintCell(cell, current)) == Feed(styled, Utf8(cell.ch) + Utf8All(cell.zerowidth))
  {
    var styled := t.(pen := PenFor(cell, current, t.pen));
    var text := Utf8(cell.ch) + Utf8All(cell.zerowidth);
    if SgrOf(cell) != current {
      FeedConcat(t, EmitSgr(SgrOf(cell)), text);
      FeedSgr(t, cell);
    } else {
      assert PaintCell(cell, current) == text;
      assert styled == t;
    }
  }

  /** With the pen in step with the tracked rendition, a cell is always printed in its own style. */
  lemma PenInStep(cell: Cell, current: Sgr)
    ensures PenFor(cell, current, StyleOfSgr(current)) == StyleOf(cell)
    ensures StyleOfSgr(SgrOf(cell)) == StyleOf(cell)
  {
    SgrRestoresStyle(PLAIN, cell);
  }

  // One row

  /** How many columns the first `i` cells of `row` have filled once painted. */
  function Extent(row: Row, i: nat): nat
    requires i <= |row|
  {
    if i == 0 then 0
    else if row[i - 1].spacer then (if IsTail(row, i - 1) then i else i - 1)
    else i - 1 + Columns(row[i - 1])
  }

  ghost predicate FreshGrid(g: Grid, cols: nat, rows: nat) {
    && ValidGrid(g, cols, rows)
    && g.lines[At(g, rows)] == BlankLine(cols) && g.col == 0 && !g.pending
  }

  function Rewritten(g: Grid, rows: nat, tiles: seq<Tile>): Grid
    requires g.row < rows <= |g.lines|
  {
    g.(lines := g.lines[At(g, rows) := g.lines[At(g, rows)].(tiles := tiles)])
  }

  /** `base` with `tiles` written from its first column. */
  function AfterWriting(base: Grid, cols: nat, rows: nat, tiles: seq<Tile>): Grid
    requires ValidGrid(base, cols, rows) && |tiles| <= cols
  {
    var j := |tiles|;
    Rewritten(base, rows, tiles + Blanks(cols - j)).(col := if j == cols then cols - 1 else j, pending := j == cols)
  }

  /** `base` with the first `i` cells of `row` painted on the cursor's line. */
  function Drawn(base: Grid, cols: nat, rows: nat, row: Row, i: nat): Grid
    requires ValidGrid(base, cols, rows) && |row| == cols && i <= cols && Extent(row, i) <= cols
  {
    AfterWriting(base, cols, rows, Tiles(row)[..Extent(row, i)])
  }

  lemma ExtentOfGlyph(width: nat -> nat, cols: nat, row: Row, i: nat)
    requires GoodRow(width, cols, row) && i < cols
    ensures Extent(row, i) <= cols && Extent(row, i + 1) <= cols
    ensures !row[i].spacer ==> Extent(row, i) == i && i + Columns(row[i]) <= cols
    ensures row[i].spacer ==> Extent(row, i + 1) == Extent(row, i)
  {
    if i > 0 {
      assert row[i - 1].wide && !row[i - 1].spacer ==> row[i].spacer;
      assert row[i - 1].spacer ==> IsTail(row, i - 1) || i - 1 == cols - 1;
    }
  }

  lemma TilesOfGlyph(width: nat -> nat, cols: nat, row: Row, i: nat)
    requires GoodRow(width, cols, row) && i < cols && !row[i].spacer && i + Columns(row[i]) <= cols
    ensures Tiles(row)[..i] + InkedTiles(row[i], StyleOf(row[i])) == Tiles(row)[..i + Columns(row[i])]
  {
    if row[i].wide {
      assert IsTail(row, i + 1);
    }
  }

  lemma PutOnRewritten(base: Grid, cols: nat, rows: nat, before: seq<Tile>, tiles: seq<Tile>)
    requires ValidGrid(base, cols, rows) && |before| < cols && |before| + |tiles| <= cols && |tiles| > 0
    ensures Put(Rewritten(base, rows, before + Blanks(cols - |before|)).(col := |before|, pending := false), cols,
            rows, tiles)
         == AfterWriting(base, cols, rows, before + tiles)
  {
    var j := |before| + |tiles|;
    var was := before + Blanks(cols - |before|);
    assert was[..|before|] == before;
    assert was[j..] == Blanks(cols - j);
  }

  lemma DrawGlyph(width: nat -> nat, base: Grid, cols: nat, rows: nat, row: Row, i: nat)
    requires ValidGrid(base, cols, rows) && GoodRow(width, cols, row) && i < cols && !row[i].spacer
    requires Extent(row, i) == i && i + Columns(row[i]) <= cols
    ensures Extent(row, i + 1) == i + Columns(row[i])
    ensures Put(Drawn(base, cols, rows, row, i), cols, rows, InkedTiles(row[i], StyleOf(row[i]))) ==
            Drawn(base, cols, rows, row, i + 1)
  {
    TilesOfGlyph(width, cols, row, i);
    PutOnRewritten(base, cols, rows, Tiles(row)[..i], InkedTiles(row[i], StyleOf(row[i])));
  }

  lemma DrawNothing(base: Grid, cols: nat, rows: nat, row: Row)
    requires FreshGrid(base, cols, rows) && |row| == cols
    ensures Drawn(base, cols, rows, row, 0) == base
  {
    assert Tiles(row)[..0] + Blanks(cols) == Blanks(cols);
  }

  lemma LandsInPlace(t: Term, g: Grid, cell: Cell)
    requires Valid(t) && Active(t) == g && !g.pending && g.col + Columns(cell) <= t.cols
    ensures Landed(t, cell) == g
  {
  }

  /** The terminal once `i` cells of `row` are painted, `base` being where its first glyph lands. */
  ghost function Painted(t: Term, base: Grid, row: Row, i: nat, pen: Style): Term
    requires ValidGrid(base, t.cols, t.rows) && |row| == t.cols && i <= t.cols && Extent(row, i) <= t.cols
  {
    if i == 0 then t else WithActive(t, Drawn(base, t.cols, t.rows, row, i)).(pen := pen)
  }

  ghost predicate ReadyFor(t: Term, base: Grid, row: Row)
    requires Valid(t)
  {
    && FreshGrid(base, t.cols, t.rows)
    && (t.alt.Some? ==> |base.lines| == t.rows)
    && |row| > 0 && !row[0].spacer && Landed(t, row[0]) == base
  }

  lemma PaintedIsValid(t: Term, base: Grid, row: Row, i: nat, pen: Style)
    requires Valid(t) && t.parser == Ground && ReadyFor(t, base, row) && GoodRow(t.width, t.cols, row)
    requires i <= t.cols && Extent(row, i) <= t.cols
    ensures Valid(Painted(t, base, row, i, pen)) && Painted(t, base, row, i, pen).parser == Ground
  {
  }

  /** One more glyph of the row. */
  lemma FeedNextGlyph(t: Term, base: Grid, row: Row, i: nat, current: Sgr)
    requires Valid(t) && t.parser == Ground && ReadyFor(t, base, row) && GoodRow(t.width, t.cols, row)
    requires i < t.cols && !row[i].spacer && Extent(row, i) == i && i + Columns(row[i]) <= t.cols
    requires i == 0 ==> t.pen == StyleOfSgr(current)
    ensures Extent(row, i + 1) <= t.cols && Valid(Painted(t, base, row, i, StyleOfSgr(current)))
    ensures Feed(Painted(t, base, row, i, StyleOfSgr(current)), PaintCell(row[i], current))
         == Painted(t, base, row, i + 1, StyleOf(row[i]))
  {
    var t1 := Painted(t, base, row, i, StyleOfSgr(current));
    PaintedIsValid(t, base, row, i, StyleOfSgr(current));
    DrawGlyph(t.width, base, t.cols, t.rows, row, i);
    if i == 0 {
      DrawNothing(base, t.cols, t.rows, row);
    } else {
      LandsInPlace(t1, Drawn(base, t.cols, t.rows, row, i), row[i]);
    }
    PenInStep(row[i], current);
    FeedCell(t1, row[i], current);
  }

  /** The first `i` cells of a row, fed where the row's first glyph lands, draw those cells. */
  lemma {:induction false} FeedCells(t: Term, base: Grid, row: Row, i: nat, current: Sgr)
    requires Valid(t) && t.parser == Ground && ReadyFor(t, base, row) && GoodRow(t.width, t.cols, row)
    requires i <= t.cols && t.pen == StyleOfSgr(current)
    ensures Extent(row, i) <= t.cols
    ensures var (bytes, pen) := PaintCells(row[..i], current);
            Feed(t, bytes) == Painted(t, base, row, i, StyleOfSgr(pen))
    decreases i
  {
    if i > 0 {
      FeedCells(t, base, row, i - 1, current);
      ExtentOfGlyph(t.width, t.cols, row, i - 1);
      PaintCellsStep(row, i - 1, current);
      var (bytes, pen) := PaintCells(row[..i - 1], current);
      if row[i - 1].spacer {
        assert Drawn(base, t.cols, t.rows, row, i) == Drawn(base, t.cols, t.rows, row, i - 1);
      } else {
        FeedConcat(t, bytes, PaintCell(row[i - 1], pen));
        FeedNextGlyph(t, base, row, i - 1, pen);
        SgrRestoresStyle(PLAIN, row[i - 1]);
      }
    }
  }

  // Trailing blanks

  /** Cells the painter leaves off look like the blanks already there. */
  lemma UnpaintedIsBlank(width: nat -> nat, cols: nat, row: Row)
    requires GoodRow(width, cols, row) && width(0x20) == 1
    ensures Extent(row, PaintedEnd(row)) <= cols
    ensures var j := Extent(row, PaintedEnd(row)); Tiles(row)[..j] + Blanks(cols - j) == Tiles(row)
  {
    var end := PaintedEnd(row);
    if end > 0 {
      ExtentOfGlyph(width, cols, row, end - 1);
    }
    var j := Extent(row, end);
    forall i | j <= i < cols ensures TileAt(row, i) == BLANK {
      if i < end {
        assert row[end - 1].spacer && i == end - 1;
      } else {
        TrimmedIsNoTail(width, cols, row, i);
        TrimmedTile(width, cols, row, i);
      }
    }
    BlankFrom(row, j, cols);
  }

  lemma BlankIsNarrow(width: nat -> nat, cell: Cell)
    requires GoodCell(width, cell) && !cell.spacer && IsBlank(cell) && width(0x20) == 1
    ensures !cell.wide
  {
  }

  /** What lies beyond the printed glyphs is no right half. */
  lemma TrimmedIsNoTail(width: nat -> nat, cols: nat, row: Row, i: nat)
    requires GoodRow(width, cols, row) && width(0x20) == 1 && PaintedEnd(row) <= i < cols
    requires Extent(row, PaintedEnd(row)) <= i
    ensures !IsTail(row, i)
  {
    if i > PaintedEnd(row) {
      assert IsBlank(row[i - 1]);
      if !row[i - 1].spacer {
        BlankIsNarrow(width, row[i - 1]);
      }
    }
  }

  lemma TrimmedTile(width: nat -> nat, cols: nat, row: Row, i: nat)
    requires GoodRow(width, cols, row) && width(0x20) == 1 && PaintedEnd(row) <= i < cols && !IsTail(row, i)
    ensures TileAt(row, i) == BLANK
  {
    assert IsBlank(row[i]);
    assert Codes([]) == [];
    if !row[i].spacer {
      BlankIsNarrow(width, row[i]);
    }
  }

  lemma BlankFrom(row: Row, j: nat, cols: nat)
    requires j <= cols == |row| && forall i | j <= i < cols :: TileAt(row, i) == BLANK
    ensures Tiles(row)[..j] + Blanks(cols - j) == Tiles(row)
  {
    assert Tiles(row)[j..] == Blanks(cols - j);
  }
}
