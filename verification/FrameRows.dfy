/** The frame wire's rows: a viewport row as runs of equally styled cells. */
module FrameRows {
  import opened Wrappers
  import opened Bytes
  import opened Cells

  /** A colour as the wire names it; the sixteen named colours are the first palette slots. */
  datatype FrameColor = DefaultColor | Palette(slot: byte) | Hex(r: byte, g: byte, b: byte)

  datatype RunStyle = RunStyle(fg: FrameColor, bg: FrameColor, attrs: nat, wide: bool, link: Option<seq<scalar>>)

  /** `n` is the number of columns, and `text` the characters with their zero-width marks. */
  datatype FrameRun = FrameRun(text: seq<scalar>, style: RunStyle, n: nat)

  datatype FrameLine = FrameLine(y: nat, wrapped: bool, runs: seq<FrameRun>)

  /** What a viewer can see of one cell. */
  datatype Visible = Visible(text: seq<scalar>, style: RunStyle)

  const ATTR_BOLD := 1
  const ATTR_DIM := 2
  const ATTR_ITALIC := 4
  const ATTR_UNDERLINE := 8
  const ATTR_INVERSE := 16
  const ATTR_STRIKEOUT := 32
  const ATTR_HIDDEN := 64

  const BLANK: Visible := Visible([0x20], RunStyle(DefaultColor, DefaultColor, 0, false, None))

  function FrameColorOf(color: Color): FrameColor {
    match color
    case Default => DefaultColor
    case Named(i) => Palette(i)
    case Indexed(i) => Palette(i)
    case Rgb(r, g, b) => Hex(r, g, b)
  }

  predicate IsBlankGlyph(cell: Cell) {
    cell.ch == 0x20 && cell.zerowidth == [] && !cell.wide
  }

  function Bit(on: bool, bit: nat): nat {
    if on then bit else 0
  }

  /** Foreground and attributes a viewer can see: a blank that is not inverse shows no foreground, bold,
      dim, italic or hidden. */
  function VisibleStyle(cell: Cell): (FrameColor, nat) {
    var glyphless := IsBlankGlyph(cell) && !cell.inverse;
    (if glyphless then DefaultColor else FrameColorOf(cell.fg),
     Bit(cell.bold && !glyphless, ATTR_BOLD) + Bit(cell.dim && !glyphless, ATTR_DIM)
     + Bit(cell.italic && !glyphless, ATTR_ITALIC) + Bit(cell.underline, ATTR_UNDERLINE)
     + Bit(cell.inverse, ATTR_INVERSE) + Bit(cell.strikeout, ATTR_STRIKEOUT)
     + Bit(cell.hidden && !glyphless, ATTR_HIDDEN))
  }

  function VisibleOf(cell: Cell): Visible {
    var (fg, attrs) := VisibleStyle(cell);
    Visible([cell.ch] + cell.zerowidth, RunStyle(fg, FrameColorOf(cell.bg), attrs, cell.wide, cell.link))
  }

  predicate IsDefaultBlank(cell: Cell) {
    && IsBlankGlyph(cell)
    && cell.link == None
    && cell.bg == Default
    && !cell.underline && !cell.strikeout && !cell.inverse
  }

  /** A cell is a default blank exactly when what it shows is. */
  lemma DefaultBlankExactly(cell: Cell)
    ensures IsDefaultBlank(cell) <==> VisibleOf(cell) == BLANK
  {
    if VisibleOf(cell) == BLANK {
      assert |[cell.ch] + cell.zerowidth| == 1;
      assert ([cell.ch] + cell.zerowidth)[0] == cell.ch;
    }
  }

  function WidthOf(v: Visible): nat {
    if v.style.wide then 2 else 1
  }

  /** What the cells show, spacers left out. */
  function Visibles(cells: Row): seq<Visible> {
    if cells == [] then []
    else
      var before, last := Visibles(cells[..|cells| - 1]), cells[|cells| - 1];
      if last.spacer then before else before + [VisibleOf(last)]
  }

  /** One more cell: it joins the last run if the styles agree, and opens a run otherwise. */
  function Pushed(runs: seq<FrameRun>, v: Visible): seq<FrameRun> {
    var n := |runs|;
    if n > 0 && runs[n - 1].style == v.style then
      runs[..n - 1] + [FrameRun(runs[n - 1].text + v.text, v.style, runs[n - 1].n + WidthOf(v))]
    else
      runs + [FrameRun(v.text, v.style, WidthOf(v))]
  }

  function RunsOf(vs: seq<Visible>): seq<FrameRun> {
    if vs == [] then [] else Pushed(RunsOf(vs[..|vs| - 1]), vs[|vs| - 1])
  }

  /** Length of a row without its trailing default blanks. */
  function EncodedEnd(cells: Row): (end: nat)
    ensures end <= |cells|
    ensures end > 0 ==> !IsDefaultBlank(cells[end - 1])
    ensures forall i | end <= i < |cells| :: IsDefaultBlank(cells[i])
  {
    if cells == [] || !IsDefaultBlank(cells[|cells| - 1]) then |cells| else EncodedEnd(cells[..|cells| - 1])
  }

  function LineFor(y: nat, cells: Row): FrameLine {
    FrameLine(y, Wrapped(cells), RunsOf(Visibles(cells[..EncodedEnd(cells)])))
  }

  lemma VisiblesNext(cells: Row, i: nat)
    requires i < |cells|
    ensures Visibles(cells[..i + 1]) ==
            if cells[i].spacer then Visibles(cells[..i]) else Visibles(cells[..i]) + [VisibleOf(cells[i])]
  {
    assert cells[..i + 1][..i] == cells[..i];
  }

  lemma RunsNext(vs: seq<Visible>, v: Visible)
    ensures RunsOf(vs + [v]) == Pushed(RunsOf(vs), v)
  {
    assert (vs + [v])[..|vs|] == vs;
  }

  /** One cell pushed onto the runs. */
  method PushCell(runs: seq<FrameRun>, cell: Cell) returns (pushed: seq<FrameRun>)
    ensures pushed == Pushed(runs, VisibleOf(cell))
  {
    var (fg, attrs) := VisibleStyle(cell);
    var style := RunStyle(fg, FrameColorOf(cell.bg), attrs, cell.wide, cell.link);
    var text := [cell.ch] + cell.zerowidth;
    var width := if cell.wide then 2 else 1;
    if |runs| > 0 && runs[|runs| - 1].style == style {
      var last := runs[|runs| - 1];
      pushed := runs[..|runs| - 1] + [FrameRun(last.text + text, style, last.n + width)];
    } else {
      pushed := runs + [FrameRun(text, style, width)];
    }
  }

  /** The trailing default blanks are walked back over. */
  method FindEnd(cells: Row) returns (end: nat)
    ensures end == EncodedEnd(cells)
  {
    end := |cells|;
    while end > 0 && IsDefaultBlank(cells[end - 1])
      invariant 0 <= end <= |cells| && EncodedEnd(cells) == EncodedEnd(cells[..end])
    {
      assert cells[..end][..end - 1] == cells[..end - 1];
      end := end - 1;
    }
  }

  /** The encoding loop: runs grow in place at the end of the vector. */
  method EncodeLine(y: nat, cells: Row) returns (line: FrameLine)
    ensures line == LineFor(y, cells)
  {
    var end := FindEnd(cells);
    var runs: seq<FrameRun> := [];
    for i := 0 to end
      invariant runs == RunsOf(Visibles(cells[..i]))
    {
      VisiblesNext(cells, i);
      if !cells[i].spacer {
        RunsNext(Visibles(cells[..i]), VisibleOf(cells[i]));
        runs := PushCell(runs, cells[i]);
      }
    }
    line := FrameLine(y, Wrapped(cells), runs);
  }

  // Reading runs back

  /** Where the cell starting at `from` ends: after the marks that follow its character. */
  function CellEnd(mark: scalar -> bool, text: seq<scalar>, from: nat): (end: nat)
    requires from <= |text|
    ensures from <= end <= |text|
    decreases |text| - from
  {
    if from == |text| || !mark(text[from]) then from else CellEnd(mark, text, from + 1)
  }

  /** A run's text split into cells: a new cell at every character that is not a mark. */
  function Split(mark: scalar -> bool, text: seq<scalar>, style: RunStyle): seq<Visible>
    decreases |text|
  {
    if text == [] then []
    else
      var end := CellEnd(mark, text, 1);
      [Visible(text[..end], style)] + Split(mark, text[end..], style)
  }

  /** The cells a viewer reads out of the runs. */
  function Expand(mark: scalar -> bool, runs: seq<FrameRun>): seq<Visible> {
    if runs == [] then []
    else
      var last := runs[|runs| - 1];
      Expand(mark, runs[..|runs| - 1]) + Split(mark, last.text, last.style)
  }

  /** Characters are not marks, and what follows them in a cell are. */
  ghost predicate Marked(mark: scalar -> bool, text: seq<scalar>) {
    |text| > 0 && !mark(text[0]) && forall i | 1 <= i < |text| :: mark(text[i])
  }

  ghost predicate AllMarked(mark: scalar -> bool, vs: seq<Visible>) {
    forall i | 0 <= i < |vs| :: Marked(mark, vs[i].text)
  }

  lemma {:induction false} CellEndPast(mark: scalar -> bool, a: seq<scalar>, b: seq<scalar>, from: nat)
    requires from <= |a| && (forall i | from <= i < |a| :: mark(a[i])) && (b != [] ==> !mark(b[0]))
    ensures CellEnd(mark, a + b, from) == |a|
    decreases |a| - from
  {
    if from < |a| {
      CellEndPast(mark, a, b, from + 1);
    }
  }

  lemma {:induction false} CellEndWithin(mark: scalar -> bool, a: seq<scalar>, b: seq<scalar>, from: nat)
    requires from <= |a| && b != [] && !mark(b[0])
    ensures CellEnd(mark, a + b, from) == CellEnd(mark, a, from)
    decreases |a| - from
  {
    if from < |a| {
      CellEndWithin(mark, a, b, from + 1);
    }
  }

  /** Splitting a text to which one more cell was appended. */
  lemma {:induction false} SplitNext(mark: scalar -> bool, text: seq<scalar>, cell: seq<scalar>, style: RunStyle)
    requires Marked(mark, cell)
    ensures Split(mark, text + cell, style) == Split(mark, text, style) + [Visible(cell, style)]
    decreases |text|
  {
    var all := text + cell;
    if text == [] {
      CellEndPast(mark, cell, [], 1);
      assert cell + [] == cell && all == cell;
      assert cell[..|cell|] == cell && cell[|cell|..] == [];
    } else {
      CellEndWithin(mark, text, cell, 1);
      var end := CellEnd(mark, text, 1);
      assert all[..end] == text[..end] && all[end..] == text[end..] + cell;
      SplitNext(mark, text[end..], cell, style);
    }
  }

  lemma ExpandPushed(mark: scalar -> bool, runs: seq<FrameRun>, v: Visible)
    requires Marked(mark, v.text)
    ensures Expand(mark, Pushed(runs, v)) == Expand(mark, runs) + [v]
  {
    var n, after := |runs|, Pushed(runs, v);
    if n > 0 && runs[n - 1].style == v.style {
      SplitNext(mark, runs[n - 1].text, v.text, v.style);
      assert after[..n - 1] == runs[..n - 1];
    } else {
      SplitNext(mark, [], v.text, v.style);
      assert [] + v.text == v.text;
      assert after[..n] == runs;
    }
  }

  lemma ExpandStep(mark: scalar -> bool, before: seq<Visible>, v: Visible)
    requires Marked(mark, v.text) && Expand(mark, RunsOf(before)) == before
    ensures Expand(mark, RunsOf(before + [v])) == before + [v]
  {
    RunsNext(before, v);
    ExpandPushed(mark, RunsOf(before), v);
  }

  lemma Snoc<T>(s: seq<T>)
    requires s != []
    ensures s == s[..|s| - 1] + [s[|s| - 1]]
  {
  }

  /** Expanding the runs gives the cells back. */
  lemma {:induction false} ExpandRuns(mark: scalar -> bool, vs: seq<Visible>)
    requires AllMarked(mark, vs)
    ensures Expand(mark, RunsOf(vs)) == vs
    decreases |vs|
  {
    if vs == [] {
      assert RunsOf(vs) == [];
    } else {
      var init, last := vs[..|vs| - 1], vs[|vs| - 1];
      assert AllMarked(mark, init);
      ExpandRuns(mark, init);
      ExpandStep(mark, init, last);
      Snoc(vs);
    }
  }

  /** Runs are as long as they can be: neighbours differ in style, and none is empty. */
  ghost predicate Maximal(runs: seq<FrameRun>) {
    && (forall i | 0 <= i < |runs| :: runs[i].text != [] && runs[i].n > 0)
    && (forall i | 1 <= i < |runs| :: runs[i - 1].style != runs[i].style)
  }

  lemma PushedIsMaximal(runs: seq<FrameRun>, v: Visible)
    requires Maximal(runs) && v.text != []
    ensures Maximal(Pushed(runs, v))
  {
  }

  lemma {:induction false} RunsAreMaximal(vs: seq<Visible>)
    requires forall i | 0 <= i < |vs| :: vs[i].text != []
    ensures Maximal(RunsOf(vs))
    decreases |vs|
  {
    if vs != [] {
      RunsAreMaximal(vs[..|vs| - 1]);
      PushedIsMaximal(RunsOf(vs[..|vs| - 1]), vs[|vs| - 1]);
    }
  }

  /** The columns of the runs are those of the cells. */
  function RunColumns(runs: seq<FrameRun>): nat {
    if runs == [] then 0 else RunColumns(runs[..|runs| - 1]) + runs[|runs| - 1].n
  }

  function CellColumns(vs: seq<Visible>): nat {
    if vs == [] then 0 else CellColumns(vs[..|vs| - 1]) + WidthOf(vs[|vs| - 1])
  }

  lemma {:induction false} ColumnsAreKept(vs: seq<Visible>)
    ensures RunColumns(RunsOf(vs)) == CellColumns(vs)
    decreases |vs|
  {
    if vs != [] {
      var runs, v := RunsOf(vs[..|vs| - 1]), vs[|vs| - 1];
      ColumnsAreKept(vs[..|vs| - 1]);
      var after := Pushed(runs, v);
      assert after[..|after| - 1] == (if |after| == |runs| then runs[..|runs| - 1] else runs);
    }
  }

  // Normal form

  /** What a row shows, without trailing default blanks. */
  function Normal(vs: seq<Visible>): seq<Visible> {
    if vs == [] || vs[|vs| - 1] != BLANK then vs else Normal(vs[..|vs| - 1])
  }

  /** A spacer is the other half of a wide cell, or shows nothing itself. */
  predicate TidySpacers(cells: Row) {
    forall i | 0 <= i < |cells| && cells[i].spacer ::
      IsDefaultBlank(cells[i]) || (i > 0 && cells[i - 1].wide && !cells[i - 1].spacer)
  }

  /** Trimming cells is trimming what they show. */
  lemma {:induction false} EncodedIsNormal(cells: Row)
    requires TidySpacers(cells)
    ensures Visibles(cells[..EncodedEnd(cells)]) == Normal(Visibles(cells))
    decreases |cells|
  {
    assert cells[..|cells|] == cells;
    if cells != [] {
      var init, last := cells[..|cells| - 1], cells[|cells| - 1];
      DefaultBlankExactly(last);
      if IsDefaultBlank(last) {
        EncodedIsNormal(init);
        assert cells[..EncodedEnd(init)] == init[..EncodedEnd(init)];
        var vs := Visibles(init);
        assert (vs + [BLANK])[..|vs|] == vs;
      } else if last.spacer {
        LastIsWide(init);
      }
    }
  }

  lemma LastIsWide(cells: Row)
    requires |cells| > 0 && cells[|cells| - 1].wide && !cells[|cells| - 1].spacer
    ensures var vs := Visibles(cells); |vs| > 0 && vs[|vs| - 1].style.wide
  {
  }

  ghost predicate CellsMarked(mark: scalar -> bool, cells: Row) {
    forall i | 0 <= i < |cells| && !cells[i].spacer :: Marked(mark, [cells[i].ch] + cells[i].zerowidth)
  }

  lemma {:induction false} VisiblesMarked(mark: scalar -> bool, cells: Row)
    requires CellsMarked(mark, cells)
    ensures AllMarked(mark, Visibles(cells))
    decreases |cells|
  {
    if cells != [] {
      VisiblesMarked(mark, cells[..|cells| - 1]);
      assert cells[|cells| - 1].spacer || Marked(mark, [cells[|cells| - 1].ch] + cells[|cells| - 1].zerowidth);
    }
  }

  /** Expanding an encoded row gives its normalised visible cells; its runs are maximal and of the right width. */
  lemma ExpandedLine(mark: scalar -> bool, y: nat, cells: Row)
    requires TidySpacers(cells) && CellsMarked(mark, cells)
    ensures var runs := LineFor(y, cells).runs;
            && Expand(mark, runs) == Normal(Visibles(cells))
            && Maximal(runs) && RunColumns(runs) == CellColumns(Normal(Visibles(cells)))
  {
    var painted := cells[..EncodedEnd(cells)];
    assert CellsMarked(mark, painted);
    VisiblesMarked(mark, painted);
    ExpandRuns(mark, Visibles(painted));
    RunsAreMaximal(Visibles(painted));
    ColumnsAreKept(Visibles(painted));
    EncodedIsNormal(cells);
  }

  /** Runs are canonical: two rows have the same runs exactly when they show the same. */
  lemma SameRunsExactlyWhenSameCells(mark: scalar -> bool, y: nat, a: Row, b: Row)
    requires TidySpacers(a) && CellsMarked(mark, a) && TidySpacers(b) && CellsMarked(mark, b)
    ensures LineFor(y, a).runs == LineFor(y, b).runs <==> Normal(Visibles(a)) == Normal(Visibles(b))
  {
    ExpandedLine(mark, y, a);
    ExpandedLine(mark, y, b);
    EncodedIsNormal(a);
    EncodedIsNormal(b);
  }

  // What a viewer reads back, column by column

  /** Bit `bit` of `attrs`. */
  predicate HasBit(attrs: nat, bit: nat)
    requires bit > 0
  {
    attrs / bit % 2 == 1
  }

  /** A colour on the wire stands for that of a cell; a named one is a palette slot. */
  predicate ColorReads(wire: FrameColor, color: Color) {
    match color
    case Default => wire == DefaultColor
    case Named(slot) => wire == Palette(slot)
    case Indexed(slot) => wire == Palette(slot)
    case Rgb(r, g, b) => wire == Hex(r, g, b)
  }

  /** Ink, or a background in the foreground's colour: then the foreground shows. */
  predicate ShowsForeground(cell: Cell) {
    cell.ch != 0x20 || cell.zerowidth != [] || cell.wide || cell.inverse
  }

  /** `v` is what there is to see of `cell`, attribute by attribute with its value on the wire. */
  predicate Reads(v: Visible, cell: Cell) {
    && v.text == [cell.ch] + cell.zerowidth && v.style.wide == cell.wide && v.style.link == cell.link
    && ColorReads(v.style.bg, cell.bg)
    && (HasBit(v.style.attrs, 8) <==> cell.underline)
    && (HasBit(v.style.attrs, 16) <==> cell.inverse)
    && (HasBit(v.style.attrs, 32) <==> cell.strikeout)
    && (if ShowsForeground(cell) then
          && ColorReads(v.style.fg, cell.fg)
          && (HasBit(v.style.attrs, 1) <==> cell.bold) && (HasBit(v.style.attrs, 2) <==> cell.dim)
          && (HasBit(v.style.attrs, 4) <==> cell.italic) && (HasBit(v.style.attrs, 64) <==> cell.hidden)
        else
          && v.style.fg == DefaultColor && !HasBit(v.style.attrs, 1) && !HasBit(v.style.attrs, 2)
          && !HasBit(v.style.attrs, 4) && !HasBit(v.style.attrs, 64))
    && v.style.attrs < 128
  }

  lemma ThreeBits(a: bool, b: bool, c: bool, n: nat, rest: nat)
    requires n == Bit(a, 1) + Bit(b, 2) + Bit(c, 4) + 8 * rest
    ensures n / 8 == rest && (HasBit(n, 1) <==> a) && (HasBit(n, 2) <==> b) && (HasBit(n, 4) <==> c)
  {
  }

  lemma Eighths(n: nat, rest: nat)
    requires n / 8 == rest
    ensures n / 16 == rest / 2 && n / 32 == rest / 4 && n / 64 == rest / 8
  {
  }

  lemma SevenBits(a: bool, b: bool, c: bool, d: bool, e: bool, f: bool, g: bool, attrs: nat)
    requires attrs == Bit(a, 1) + Bit(b, 2) + Bit(c, 4) + Bit(d, 8) + Bit(e, 16) + Bit(f, 32) + Bit(g, 64)
    ensures attrs < 128 && (HasBit(attrs, 1) <==> a) && (HasBit(attrs, 2) <==> b) && (HasBit(attrs, 4) <==> c)
    ensures (HasBit(attrs, 8) <==> d) && (HasBit(attrs, 16) <==> e) && (HasBit(attrs, 32) <==> f)
    ensures HasBit(attrs, 64) <==> g
  {
    var rest := Bit(d, 1) + Bit(e, 2) + Bit(f, 4) + 8 * Bit(g, 1);
    ThreeBits(a, b, c, attrs, rest);
    ThreeBits(d, e, f, rest, Bit(g, 1));
    Eighths(attrs, rest);
  }

  lemma AttributesRead(cell: Cell, shows: bool)
    requires shows == ShowsForeground(cell)
    ensures VisibleStyle(cell).1 == Bit(cell.bold && shows, 1) + Bit(cell.dim && shows, 2) +
            Bit(cell.italic && shows, 4) + Bit(cell.underline, 8) + Bit(cell.inverse, 16) + Bit(cell.strikeout, 32) +
            Bit(cell.hidden && shows, 64)
  {
    assert shows == !(IsBlankGlyph(cell) && !cell.inverse);
  }

  /** The visible form of a cell says all there is to see of it, and nothing else. */
  lemma VisibleReads(cell: Cell)
    ensures Reads(VisibleOf(cell), cell)
  {
    var shows := ShowsForeground(cell);
    AttributesRead(cell, shows);
    SevenBits(cell.bold && shows, cell.dim && shows, cell.italic && shows, cell.underline, cell.inverse, cell.strikeout,
      cell.hidden && shows, VisibleStyle(cell).1);
  }

  /** A spacer is the right half of a wide cell, or the column a wide character would not fit into at the end. */
  predicate Paired(cells: Row) {
    && (forall i | 0 < i < |cells| :: cells[i - 1].wide && !cells[i - 1].spacer ==> cells[i].spacer)
    && (forall i | 0 <= i < |cells| - 1 && cells[i].spacer :: i > 0 && cells[i - 1].wide && !cells[i - 1].spacer)
  }

  /** A wide cell whose other half is not among the first `k`. */
  predicate HalfWide(cells: Row, k: nat)
    requires k <= |cells|
  {
    k > 0 && cells[k - 1].wide && !cells[k - 1].spacer
  }

  lemma CellColumnsNext(vs: seq<Visible>, v: Visible)
    ensures CellColumns(vs + [v]) == CellColumns(vs) + WidthOf(v)
  {
    assert (vs + [v])[..|vs|] == vs;
  }

  /** Columns are kept: what is visible of the first `k` cells takes `k` columns. */
  lemma {:induction false} VisibleColumns(cells: Row, k: nat)
    requires Paired(cells) && k <= |cells|
    requires k == |cells| && k > 0 && cells[k - 1].spacer ==> HalfWide(cells, k - 1)
    ensures CellColumns(Visibles(cells[..k])) == if HalfWide(cells, k) then k + 1 else k
    decreases k
  {
    if k > 0 {
      var j := k - 1;
      VisibleColumns(cells, j);
      VisiblesNext(cells, j);
      VisibleColumnsNext(cells[j], Visibles(cells[..j]), Visibles(cells[..k]), j, HalfWide(cells, j));
    }
  }

  lemma VisibleColumnsNext(cell: Cell, before: seq<Visible>, after: seq<Visible>, j: nat, half: bool)
    requires after == if cell.spacer then before else before + [VisibleOf(cell)]
    requires CellColumns(before) == (if half then j + 1 else j) && half == cell.spacer
    ensures CellColumns(after) == if cell.wide && !cell.spacer then j + 2 else j + 1
  {
    CellColumnsNext(before, VisibleOf(cell));
  }

  /** The cell a viewer draws after `m` others is the one in that column. */
  lemma {:induction false} VisibleAt(cells: Row, k: nat, m: nat, vs: seq<Visible>)
    requires Paired(cells) && k <= |cells| && vs == Visibles(cells[..k]) && m < |vs|
    ensures IsCellAt(vs[m], cells, k, CellColumns(vs[..m]))
    decreases k
  {
    if k > 0 {
      var j := k - 1;
      var before := Visibles(cells[..j]);
      VisiblesNext(cells, j);
      if m < |before| {
        VisibleAt(cells, j, m, before);
        assert vs[..m] == before[..m];
      } else {
        VisibleColumns(cells, j);
        LastVisible(vs, before, VisibleOf(cells[j]), m);
      }
    }
  }

  predicate IsCellAt(v: Visible, cells: Row, k: nat, col: nat)
    requires k <= |cells|
  {
    col < k && !cells[col].spacer && v == VisibleOf(cells[col])
  }

  lemma LastVisible(vs: seq<Visible>, before: seq<Visible>, v: Visible, m: nat)
    requires vs == before + [v] && |before| <= m < |vs|
    ensures vs[..m] == before && vs[m] == v
  {
  }

  lemma ExpandedVisibles(mark: scalar -> bool, y: nat, cells: Row)
    requires CellsMarked(mark, cells)
    ensures Expand(mark, LineFor(y, cells).runs) == Visibles(cells[..EncodedEnd(cells)])
  {
    var painted := cells[..EncodedEnd(cells)];
    assert CellsMarked(mark, painted);
    VisiblesMarked(mark, painted);
    ExpandRuns(mark, Visibles(painted));
  }

  /** `v`, drawn in column `col`, shows the cell that is there. */
  predicate DrawsCell(v: Visible, cells: Row, col: nat) {
    col < |cells| && !cells[col].spacer && Reads(v, cells[col])
  }

  /** The cell, if it is not half of another, shows nothing at all. */
  predicate ShowsNothing(cell: Cell) {
    cell.spacer ||
    (&& cell.ch == 0x20 && cell.zerowidth == [] && !cell.wide && cell.link == None
     && cell.bg == Default && !cell.underline && !cell.strikeout && !cell.inverse)
  }

  lemma DrawnToTheEnd(cells: Row, end: nat, vs: seq<Visible>)
    requires Paired(cells) && end <= |cells| && vs == Visibles(cells[..end])
    ensures CellColumns(vs) >= end || (end == |cells| && end > 0 && cells[end - 1].spacer && CellColumns(vs) == end - 1)
  {
    if end == |cells| && end > 0 && cells[end - 1].spacer && !HalfWide(cells, end - 1) {
      VisiblesNext(cells, end - 1);
      VisibleColumns(cells, end - 1);
    } else {
      VisibleColumns(cells, end);
    }
  }

  lemma BlankPast(cells: Row, end: nat, vs: seq<Visible>, i: nat)
    requires Paired(cells) && end == EncodedEnd(cells) && vs == Visibles(cells[..end])
    requires CellColumns(vs) <= i < |cells|
    ensures ShowsNothing(cells[i])
  {
    DrawnToTheEnd(cells, end, vs);
    assert i < end || IsDefaultBlank(cells[i]);
  }

  /** A viewer has drawn `vs` of a row: in the column it had come to, the cell that is there; past the last column it
      drew the row is blank. */
  ghost predicate DrawsRow(vs: seq<Visible>, cells: Row) {
    && (forall m | 0 <= m < |vs| :: DrawsCell(vs[m], cells, CellColumns(vs[..m])))
    && forall i | CellColumns(vs) <= i < |cells| :: ShowsNothing(cells[i])
  }

  /** End to end: a viewer that reads a row's runs back draws every cell in its own column, with every attribute there
      is to see of it. */
  lemma ViewerReadsRow(mark: scalar -> bool, y: nat, cells: Row)
    requires Paired(cells) && CellsMarked(mark, cells)
    ensures DrawsRow(Expand(mark, LineFor(y, cells).runs), cells)
    ensures LineFor(y, cells).y == y && LineFor(y, cells).wrapped == (|cells| > 0 && cells[|cells| - 1].wrapline)
  {
    ExpandedVisibles(mark, y, cells);
    VisiblesDrawRow(cells, EncodedEnd(cells), Visibles(cells[..EncodedEnd(cells)]));
  }

  lemma VisiblesDrawRow(cells: Row, end: nat, vs: seq<Visible>)
    requires Paired(cells) && end == EncodedEnd(cells) && vs == Visibles(cells[..end])
    ensures DrawsRow(vs, cells)
  {
    forall m | 0 <= m < |vs| ensures DrawsCell(vs[m], cells, CellColumns(vs[..m])) {
      VisibleAt(cells, end, m, vs);
      VisibleReads(cells[CellColumns(vs[..m])]);
    }
    forall i | CellColumns(vs) <= i < |cells| ensures ShowsNothing(cells[i]) {
      BlankPast(cells, end, vs, i);
    }
  }

  function PlainCell(ch: scalar, zerowidth: seq<scalar>): Cell {
    Cell(ch, Default, Default, false, false, false, false, false, false, false, false, false, false, zerowidth, None)
  }

  /** Without a way to tell marks from characters the runs are ambiguous: the same three scalars and two
      columns come from two different pairs of cells. */
  lemma MarksMustBeKnown()
    ensures var a, b := [PlainCell(0x61, [0x62]), PlainCell(0x63, [])], [PlainCell(0x61, []), PlainCell(0x62, [0x63])];
            && LineFor(0, a) == LineFor(0, b)
            && Visibles(a) != Visibles(b)
  {
    TwoPlainCells(0x61, [0x62], 0x63, []);
    TwoPlainCells(0x61, [], 0x62, [0x63]);
    var a, b, c, none: seq<scalar> := 0x61, 0x62, 0x63, [];
    assert [a] + [b] + ([c] + none) == [a] + none + ([b] + [c]);
    assert |[a] + [b]| != |[a] + none|;
  }

  lemma TwoPlainCells(ch: scalar, marks: seq<scalar>, next: scalar, nextMarks: seq<scalar>)
    requires ch != 0x20 && next != 0x20
    ensures var cells := [PlainCell(ch, marks), PlainCell(next, nextMarks)];
            && |Visibles(cells)| == 2 && Visibles(cells)[0].text == [ch] + marks
            && LineFor(0, cells) == FrameLine(0, false, [FrameRun([ch] + marks + ([next] + nextMarks), BLANK.style, 2)])
  {
    var p, q := PlainCell(ch, marks), PlainCell(next, nextMarks);
    assert [p, q][..2] == [p, q];
    TwoCells(p, q);
    TwoAlike(VisibleOf(p), VisibleOf(q));
    assert VisibleOf(p) == Visible([ch] + marks, BLANK.style);
    assert VisibleOf(q) == Visible([next] + nextMarks, BLANK.style);
  }

  lemma TwoCells(p: Cell, q: Cell)
    requires !p.spacer && !q.spacer
    ensures Visibles([p, q]) == [VisibleOf(p), VisibleOf(q)]
  {
    VisiblesNext([p, q], 0);
    VisiblesNext([p, q], 1);
    assert [p, q][..0] == [] && [p, q][..2] == [p, q];
    assert [] + [VisibleOf(p)] == [VisibleOf(p)];
  }

  lemma TwoAlike(v: Visible, w: Visible)
    requires v.style == w.style
    ensures RunsOf([v, w]) == [FrameRun(v.text + w.text, v.style, WidthOf(v) + WidthOf(w))]
  {
    RunsNext([], v);
    RunsNext([v], w);
    assert [] + [v] == [v] && [v] + [w] == [v, w];
    var one := FrameRun(v.text, v.style, WidthOf(v));
    assert RunsOf([v]) == [one];
    assert [one][..0] == [];
  }
}
