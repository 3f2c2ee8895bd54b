/** The damage-tracking painter: rows are hashed, and each target surface catches up on the rows it is owed. */
module Painter {
  import opened Wrappers
  import opened Cells
  import opened Bytes
  import opened RowHash
  import opened Words
  import Bands

  /** Colours the terminal's program has set, packed. */
  datatype Overrides = Overrides(
    foreground: Option<nat>, background: Option<nat>, cursor: Option<nat>, ansi: seq<Option<nat>>)

  function Or<T>(override: Option<T>, otherwise: T): T {
    match override case Some(value) => value case None => otherwise
  }

  function Resolve(base: Palette, overrides: Overrides): Palette {
    base.(fg := Or(overrides.foreground, base.fg),
          bg := Or(overrides.background, base.bg),
          cursor := Or(overrides.cursor, base.cursor),
          ansi := seq(|base.ansi|, i requires 0 <= i < |base.ansi| =>
            if i < |overrides.ansi| then Or(overrides.ansi[i], base.ansi[i]) else base.ansi[i]))
  }

  /** One instance handed to the kernel. */
  datatype GpuCell = GpuCell(
    glyphX: nat, glyphY: nat, glyphW: nat, glyphH: nat, inkLeft: int, inkTop: int,
    fg: nat, bg: nat, flags: nat, link: nat, reserved: nat)

  /** What a surface shows of one row: its cells, and the background beside the grid. */
  datatype RowPixels = RowPixels(cells: seq<GpuCell>, beside: nat)

  /** The mirror and the view of it at one refresh, and which glyph lookups would succeed. */
  datatype Viewing = Viewing(
    lines: seq<Row>,
    selections: seq<Option<Span>>,
    found: seq<seq<bool>>,
    overrides: Overrides,
    showCursor: bool,
    cursorRow: nat,
    cursorCol: word,
    cursorStyle: CursorStyle,
    offset: nat,
    cursorOn: bool,
    focused: bool,
    preedit: Option<Preedit>)

  /** The FNV hash of a row's cells, the row hash, the row builder, and the darkening of a colour. */
  datatype Studio = Studio(
    cells: Row -> word,
    hash: RowKey -> word,
    build: (RowInput, Palette, real) -> seq<GpuCell>,
    darken: (nat, real) -> nat)

  /** The row hash is mixed from the hash of the cells. */
  ghost predicate Mixes(e: Studio) {
    forall key {:trigger Mixed(e.cells(key.input.cells), key)} :: e.hash(key) == Mixed(e.cells(key.input.cells), key)
  }

  lemma HashIsMixed(e: Studio, key: RowKey, cells: word)
    requires Mixes(e) && cells == e.cells(key.input.cells)
    ensures e.hash(key) == Mixed(cells, key)
  {
    assert e.hash(key) == Mixed(e.cells(key.input.cells), key);
  }

  /** What row `row` is refreshed from. A composition takes the cursor's place, and neither the hash nor the
      builder looks at wrap flags. */
  function InputFor(v: Viewing, row: nat): RowInput
    requires row < |v.lines| == |v.selections| == |v.found|
  {
    var preeditHere := v.preedit.Some? && v.offset == 0 && v.cursorRow == row;
    var cursorHere := v.showCursor && v.offset == 0 && v.cursorOn && v.cursorRow == row && !preeditHere;
    RowInput(
      Unwrapped(v.lines[row]),
      if cursorHere then Some(CursorMark(v.cursorCol, v.cursorStyle, v.focused)) else None,
      if preeditHere then Some(Composition(v.preedit.value, v.cursorCol)) else None,
      v.selections[row],
      v.found[row])
  }

  /** The painter, with the key each row of its grid was built from. */
  datatype State = State(
    rows: nat,
    base: Palette,
    palette: Palette,
    paletteRevision: word,
    dim: real,
    dimRevision: word,
    hashes: seq<Option<word>>,
    grid: seq<seq<GpuCell>>,
    keys: seq<Option<RowKey>>)

  predicate Shaped(s: State) {
    |s.hashes| == |s.grid| == |s.keys| == s.rows
  }

  function NoHashes(n: nat): (hashes: seq<Option<word>>)
    ensures |hashes| == n && forall i | 0 <= i < n :: hashes[i] == None
  {
    seq(n, i => None)
  }

  function Invalidated(s: State): State {
    s.(hashes := NoHashes(|s.hashes|))
  }

  /** The least change of dim that counts: 2 to the power of -23. */
  const EPSILON: real := 1.0 / 8388608.0

  function Clamped(dim: real): real {
    if dim < 0.0 then 0.0 else if dim > 1.0 then 1.0 else dim
  }

  function Distance(a: real, b: real): real {
    if a < b then b - a else a - b
  }

  /** Revisions wrap around. */
  function NextRevision(revision: word): word {
    Wrap(revision as nat + 1)
  }

  function Dimmed(s: State, dim: real): State {
    var next := Clamped(dim);
    if Distance(next, s.dim) < EPSILON then s
    else Invalidated(s.(dim := next, dimRevision := NextRevision(s.dimRevision)))
  }

  function Recoloured(s: State, overrides: Overrides): State {
    var next := Resolve(s.base, overrides);
    if s.palette == next then s
    else Invalidated(s.(palette := next, paletteRevision := NextRevision(s.paletteRevision)))
  }

  function KeyFor(s: State, input: RowInput): RowKey {
    RowKey(input, s.palette, s.dim, s.paletteRevision, s.dimRevision)
  }

  function RowRefreshed(e: Studio, s: State, row: nat, input: RowInput): State
    requires row < s.rows && Shaped(s)
  {
    var key := KeyFor(s, input);
    var hash := e.hash(key);
    if s.hashes[row] == Some(hash) then s
    else s.(hashes := s.hashes[row := Some(hash)],
            grid := s.grid[row := e.build(input, s.palette, s.dim)],
            keys := s.keys[row := Some(key)])
  }

  /** The first `k` rows folded in. */
  function RowsRefreshed(e: Studio, s: State, v: Viewing, k: nat): (r: State)
    requires Shaped(s) && Viewable(s, v) && k <= s.rows
    ensures Shaped(r) && r.rows == s.rows
  {
    if k == 0 then s else RowRefreshed(e, RowsRefreshed(e, s, v, k - 1), k - 1, InputFor(v, k - 1))
  }

  predicate Viewable(s: State, v: Viewing) {
    |v.lines| == |v.selections| == |v.found| == s.rows
  }

  function Refreshed(e: Studio, s: State, v: Viewing): (r: State)
    requires Shaped(s) && Viewable(s, v)
    ensures Shaped(r) && r.rows == s.rows
  {
    RowsRefreshed(e, Recoloured(s, v.overrides), v, s.rows)
  }

  // Targets

  /** What is on one row of a surface: the picture of a key, beside a background. */
  datatype Shown = Shown(key: RowKey, palette: Palette, dim: real)

  /** A target with the hashes it remembers, its surface, and what each row of the surface shows. */
  datatype Target = Target(painted: seq<Option<word>>, surface: seq<RowPixels>, shown: seq<Option<Shown>>)

  predicate TargetShaped(s: State, t: Target) {
    |t.painted| == |t.surface| == |t.shown| == s.rows
  }

  predicate Owed(s: State, t: Target, row: nat)
    requires row < |s.hashes| == |t.painted|
  {
    t.painted[row] != s.hashes[row]
  }

  /** The owed rows among the first `k`, in order. */
  function OwedUpTo(s: State, t: Target, k: nat): seq<nat>
    requires k <= |s.hashes| == |t.painted|
  {
    if k == 0 then []
    else if Owed(s, t, k - 1) then OwedUpTo(s, t, k - 1) + [k - 1]
    else OwedUpTo(s, t, k - 1)
  }

  /** What painting a row now puts on a surface. */
  function PixelsOf(e: Studio, s: State, row: nat): RowPixels
    requires row < |s.grid|
  {
    RowPixels(s.grid[row], e.darken(s.palette.bg, s.dim))
  }

  function ShownOf(s: State, row: nat): Option<Shown>
    requires row < |s.keys|
  {
    match s.keys[row]
    case None => None
    case Some(key) => Some(Shown(key, s.palette, s.dim))
  }

  function AllShown(s: State): (shown: seq<Option<Shown>>)
    requires |s.keys| == s.rows
    ensures |shown| == s.rows && forall row | 0 <= row < s.rows :: shown[row] == ShownOf(s, row)
  {
    seq(s.rows, row requires 0 <= row < s.rows => ShownOf(s, row))
  }

  /** The surface once painting has reached row `reached`. */
  function OnSurface(e: Studio, s: State, t: Target, reached: nat): (r: Target)
    requires Shaped(s) && TargetShaped(s, t)
    ensures TargetShaped(s, r) && r.painted == t.painted
  {
    t.(surface := seq(s.rows, row requires 0 <= row < s.rows =>
         if Owed(s, t, row) && row < reached then PixelsOf(e, s, row) else t.surface[row]),
       shown := seq(s.rows, row requires 0 <= row < s.rows =>
         if Owed(s, t, row) && row < reached then ShownOf(s, row) else t.shown[row]))
  }

  /** A paint that succeeds: every owed row, and the target remembers the hashes. */
  function Painted(e: Studio, s: State, t: Target): (r: Target)
    requires Shaped(s) && TargetShaped(s, t)
    ensures TargetShaped(s, r)
  {
    OnSurface(e, s, t, s.rows).(painted := s.hashes)
  }

  /** What a full repaint of this view would show. */
  function FullRepaint(e: Studio, s: State, v: Viewing): (r: seq<RowPixels>)
    requires Viewable(s, v)
    ensures |r| == s.rows
  {
    seq(s.rows, row requires 0 <= row < s.rows => Look(e, KeyFor(s, InputFor(v, row))))
  }

  // What hashes stand for

  /** The picture of a key. */
  function Look(e: Studio, key: RowKey): RowPixels {
    RowPixels(e.build(key.input, key.palette, key.dim), e.darken(key.palette.bg, key.dim))
  }

  /** The picture on a row: of a key, though the background beside it may be of another palette or dim. */
  function Picture(e: Studio, shown: Shown): RowPixels {
    RowPixels(e.build(shown.key.input, shown.key.palette, shown.key.dim), e.darken(shown.palette.bg, shown.dim))
  }

  predicate Present(s: State, key: RowKey) {
    key == KeyFor(s, key.input)
  }

  /** A row holds what its key builds, and a row with a hash has the hash of a present key. */
  predicate RowFits(e: Studio, s: State, row: nat)
    requires row < s.rows && Shaped(s)
  {
    && (s.keys[row].Some? ==> var key := s.keys[row].value; s.grid[row] == e.build(key.input, key.palette, key.dim))
    && (s.hashes[row].Some? ==>
          s.keys[row].Some? && Present(s, s.keys[row].value) && e.hash(s.keys[row].value) == s.hashes[row].value)
  }

  ghost predicate Fits(e: Studio, s: State) {
    Shaped(s) && forall row | 0 <= row < s.rows :: RowFits(e, s, row)
  }

  /** A row of a target shows what it is said to show, and something if the target remembers a hash. */
  predicate TargetRowFits(e: Studio, s: State, t: Target, row: nat)
    requires row < s.rows && Shaped(s) && TargetShaped(s, t)
  {
    && (t.shown[row].Some? ==> t.surface[row] == Picture(e, t.shown[row].value))
    && (t.painted[row].Some? ==> t.shown[row].Some? && s.keys[row].Some?)
  }

  ghost predicate TargetFits(e: Studio, s: State, t: Target) {
    Shaped(s) && TargetShaped(s, t) && forall row | 0 <= row < s.rows :: TargetRowFits(e, s, t, row)
  }

  // What every operation keeps

  /** Later states of one painter: a row once built stays built. */
  ghost predicate Extends(s: State, t: State) {
    && Shaped(s) && Shaped(t) && t.rows == s.rows
    && forall row | 0 <= row < s.rows && s.keys[row].Some? :: t.keys[row].Some?
  }

  /** So a target may be left alone for as long as you like. */
  lemma TargetFitsLater(e: Studio, s: State, t: State, target: Target)
    requires Extends(s, t) && TargetFits(e, s, target)
    ensures TargetFits(e, t, target)
  {
    forall row | 0 <= row < t.rows ensures TargetRowFits(e, t, target, row) {
      assert TargetRowFits(e, s, target, row);
    }
  }

  lemma DimmedFits(e: Studio, s: State, dim: real)
    requires Fits(e, s)
    ensures Fits(e, Dimmed(s, dim)) && Extends(s, Dimmed(s, dim))
  {
    forall row | 0 <= row < s.rows ensures RowFits(e, Dimmed(s, dim), row) {
      assert RowFits(e, s, row);
    }
  }

  lemma InvalidatedFits(e: Studio, s: State)
    requires Fits(e, s)
    ensures Fits(e, Invalidated(s)) && Extends(s, Invalidated(s))
  {
    forall row | 0 <= row < s.rows ensures RowFits(e, Invalidated(s), row) {
      assert RowFits(e, s, row);
    }
  }

  lemma RecolouredFits(e: Studio, s: State, overrides: Overrides)
    requires Fits(e, s)
    ensures Fits(e, Recoloured(s, overrides)) && Extends(s, Recoloured(s, overrides))
  {
    forall row | 0 <= row < s.rows ensures RowFits(e, Recoloured(s, overrides), row) {
      assert RowFits(e, s, row);
    }
  }

  lemma RebasedFits(e: Studio, s: State, palette: Palette)
    requires Fits(e, s)
    ensures Fits(e, s.(base := palette)) && Extends(s, s.(base := palette))
  {
    forall row | 0 <= row < s.rows ensures RowFits(e, s.(base := palette), row) {
      assert RowFits(e, s, row);
    }
  }

  /** Two states of the same palettes and dim, with the same revisions. */
  predicate SameLight(s: State, t: State) {
    t.base == s.base && t.palette == s.palette && t.dim == s.dim && t.paletteRevision == s.paletteRevision &&
    t.dimRevision == s.dimRevision
  }

  predicate SameRow(s: State, t: State, row: nat)
    requires row < s.rows == t.rows && Shaped(s) && Shaped(t)
  {
    t.hashes[row] == s.hashes[row] && t.grid[row] == s.grid[row] && t.keys[row] == s.keys[row]
  }

  /** One row of a refresh: it ends with the hash of its present key, and holds what it held if it had that hash. */
  predicate RowCurrent(e: Studio, s: State, t: State, row: nat, input: RowInput)
    requires row < s.rows == t.rows && Shaped(s) && Shaped(t)
  {
    var key := KeyFor(s, input);
    && t.hashes[row] == Some(e.hash(key))
    && t.grid[row] == (if s.hashes[row] == Some(e.hash(key)) then s.grid[row] else e.build(input, s.palette, s.dim))
    && t.keys[row] == (if s.hashes[row] == Some(e.hash(key)) then s.keys[row] else Some(key))
  }

  lemma RowRefreshedFits(e: Studio, s: State, row: nat, input: RowInput)
    requires Fits(e, s) && row < s.rows
    ensures var t := RowRefreshed(e, s, row, input);
            && Fits(e, t) && Extends(s, t) && SameLight(s, t) && RowCurrent(e, s, t, row, input)
            && forall other | 0 <= other < s.rows && other != row :: SameRow(s, t, other)
  {
    var t := RowRefreshed(e, s, row, input);
    forall other | 0 <= other < s.rows ensures RowFits(e, t, other) {
      assert RowFits(e, s, other);
    }
  }

  /** One row when the first `k` have been refreshed from `s`. */
  predicate RowDone(e: Studio, s: State, t: State, v: Viewing, k: nat, row: nat)
    requires row < s.rows == t.rows && Shaped(s) && Shaped(t) && Viewable(s, v)
  {
    if row < k then RowCurrent(e, s, t, row, InputFor(v, row)) else SameRow(s, t, row)
  }

  ghost predicate RowsDone(e: Studio, s: State, t: State, v: Viewing, k: nat)
    requires Shaped(s) && Shaped(t) && s.rows == t.rows && Viewable(s, v)
  {
    SameLight(s, t) && forall row | 0 <= row < s.rows :: RowDone(e, s, t, v, k, row)
  }

  lemma RowDoneNext(e: Studio, s: State, before: State, t: State, v: Viewing, k: nat, next: nat, row: nat)
    requires row < s.rows == before.rows == t.rows && Shaped(s) && Shaped(before) && Shaped(t) && Viewable(s, v)
    requires SameLight(s, before) && RowDone(e, s, before, v, k, row) && next == k + 1
    requires if row == k then RowCurrent(e, before, t, row, InputFor(v, row)) else SameRow(before, t, row)
    ensures RowDone(e, s, t, v, next, row)
  {
    assert KeyFor(s, InputFor(v, row)) == KeyFor(before, InputFor(v, row));
  }

  lemma RowsDoneNext(e: Studio, s: State, before: State, t: State, v: Viewing, k: nat, next: nat)
    requires Shaped(s) && Fits(e, before) && s.rows == before.rows == t.rows && Viewable(s, v) && k < s.rows &&
             next == k + 1
    requires RowsDone(e, s, before, v, k) && t == RowRefreshed(e, before, k, InputFor(v, k))
    ensures Shaped(t) && RowsDone(e, s, t, v, next)
  {
    RowRefreshedFits(e, before, k, InputFor(v, k));
    forall row | 0 <= row < s.rows ensures RowDone(e, s, t, v, next, row) {
      assert RowDone(e, s, before, v, k, row);
      assert row == k || SameRow(before, t, row);
      RowDoneNext(e, s, before, t, v, k, next, row);
    }
  }

  lemma {:induction false} RowsRefreshedFits(e: Studio, s: State, v: Viewing, k: nat)
    requires Fits(e, s) && Viewable(s, v) && k <= s.rows
    ensures Fits(e, RowsRefreshed(e, s, v, k)) && Extends(s, RowsRefreshed(e, s, v, k))
    decreases k
  {
    if k > 0 {
      RowsRefreshedFits(e, s, v, k - 1);
      RowRefreshedFits(e, RowsRefreshed(e, s, v, k - 1), k - 1, InputFor(v, k - 1));
    }
  }

  lemma {:induction false} RowsRefreshedDone(e: Studio, s: State, v: Viewing, k: nat)
    requires Fits(e, s) && Viewable(s, v) && k <= s.rows
    ensures RowsDone(e, s, RowsRefreshed(e, s, v, k), v, k)
    decreases k
  {
    if k > 0 {
      var before := RowsRefreshed(e, s, v, k - 1);
      RowsRefreshedFits(e, s, v, k - 1);
      RowsRefreshedDone(e, s, v, k - 1);
      RowsDoneNext(e, s, before, RowsRefreshed(e, s, v, k), v, k - 1, k);
    }
  }

  lemma RefreshedFits(e: Studio, s: State, v: Viewing)
    requires Fits(e, s) && Viewable(s, v)
    ensures var r, t := Recoloured(s, v.overrides), Refreshed(e, s, v);
            && Fits(e, t) && Extends(s, t) && SameLight(r, t)
            && forall row | 0 <= row < s.rows :: RowCurrent(e, r, t, row, InputFor(v, row))
  {
    RecolouredFits(e, s, v.overrides);
    var r, t := Recoloured(s, v.overrides), Refreshed(e, s, v);
    RowsRefreshedFits(e, r, v, s.rows);
    RowsRefreshedDone(e, r, v, s.rows);
    forall row | 0 <= row < s.rows ensures RowCurrent(e, r, t, row, InputFor(v, row)) {
      assert RowDone(e, r, t, v, s.rows, row);
    }
  }

  /** Painting leaves a target that fits, however many of the owed rows it reached. */
  lemma OnSurfaceFits(e: Studio, s: State, t: Target, reached: nat)
    requires Fits(e, s) && TargetFits(e, s, t)
    ensures TargetFits(e, s, OnSurface(e, s, t, reached))
  {
    var r := OnSurface(e, s, t, reached);
    forall row | 0 <= row < s.rows ensures TargetRowFits(e, s, r, row) {
      assert RowFits(e, s, row) && TargetRowFits(e, s, t, row);
    }
  }

  lemma PaintedFits(e: Studio, s: State, t: Target)
    requires Fits(e, s) && TargetFits(e, s, t)
    ensures TargetFits(e, s, Painted(e, s, t))
  {
    var r := Painted(e, s, t);
    forall row | 0 <= row < s.rows ensures TargetRowFits(e, s, r, row) {
      assert RowFits(e, s, row) && TargetRowFits(e, s, t, row);
    }
  }

  // What a view is to a row, field by field

  /** The cells of a line, but for where it wraps. */
  predicate SameCells(cells: Row, line: Row) {
    && |cells| == |line|
    && forall i | 0 <= i < |cells| ::
         !cells[i].wrapline && cells[i].(wrapline := line[i].wrapline) == line[i]
  }

  /** `input` is what there is to see of line `row` of the view: its cells, selection and glyphs; the cursor exactly if
      it is shown and on, the view is not scrolled, it is on this line and nothing is composed; and a composition
      exactly if there is one, the view is not scrolled and the cursor is on this line. */
  predicate Sees(v: Viewing, row: nat, input: RowInput)
    requires row < |v.lines| == |v.selections| == |v.found|
  {
    && SameCells(input.cells, v.lines[row])
    && input.selection == v.selections[row] && input.found == v.found[row]
    && (input.cursor.Some? <==>
        v.showCursor && v.cursorOn && v.offset == 0 && v.cursorRow == row && v.preedit == None)
    && (input.cursor.Some? ==>
          && input.cursor.value.col == v.cursorCol && input.cursor.value.style == v.cursorStyle
          && input.cursor.value.focused == v.focused)
    && (input.composition.Some? <==> v.preedit.Some? && v.offset == 0 && v.cursorRow == row)
    && (input.composition.Some? ==>
        Some(input.composition.value.preedit) == v.preedit && input.composition.value.col == v.cursorCol)
  }

  lemma SameCellsExactly(cells: Row, line: Row)
    ensures SameCells(cells, line) <==> cells == Unwrapped(line)
  {
    forall i | SameCells(cells, line) && 0 <= i < |cells| ensures cells[i] == line[i].(wrapline := false) {
      assert cells[i].(wrapline := line[i].wrapline) == line[i];
    }
  }

  /** Every line is seen in one way only, the one it is refreshed from. */
  lemma SeenExactly(v: Viewing, row: nat, input: RowInput)
    requires row < |v.lines| == |v.selections| == |v.found|
    ensures Sees(v, row, input) <==> input == InputFor(v, row)
  {
    SameCellsExactly(input.cells, v.lines[row]);
    SameCellsExactly(InputFor(v, row).cells, v.lines[row]);
  }

  predicate Takes<T(==)>(value: T, override: Option<T>, otherwise: T) {
    if override.Some? then value == override.value else value == otherwise
  }

  /** `palette` is `base` with the colours the program has set in place of its own. */
  predicate IsResolved(palette: Palette, base: Palette, overrides: Overrides) {
    && Takes(palette.fg, overrides.foreground, base.fg) && Takes(palette.bg, overrides.background, base.bg)
    && Takes(palette.cursor, overrides.cursor, base.cursor) && palette.cursorAccent == base.cursorAccent
    && palette.selectionBg == base.selectionBg && palette.selectionFg == base.selectionFg
    && |palette.ansi| == |base.ansi|
    && forall i | 0 <= i < |base.ansi| ::
         Takes(palette.ansi[i], if i < |overrides.ansi| then overrides.ansi[i] else None, base.ansi[i])
  }

  lemma ResolvedExactly(palette: Palette, base: Palette, overrides: Overrides)
    ensures IsResolved(palette, base, overrides) <==> palette == Resolve(base, overrides)
  {
    if IsResolved(palette, base, overrides) {
      assert palette.ansi == Resolve(base, overrides).ansi;
    }
  }

  /** What a row of a view is to be in a palette and dim: the picture of what is seen of it. */
  ghost predicate RowShows(e: Studio, v: Viewing, row: nat, palette: Palette, dim: real, pixels: RowPixels)
    requires row < |v.lines| == |v.selections| == |v.found|
  {
    exists input {:trigger Sees(v, row, input)} | Sees(v, row, input) ::
      pixels == RowPixels(e.build(input, palette, dim), e.darken(palette.bg, dim))
  }

  /** A full repaint shows every row of the view, whatever their number, and in just the painter's palette and dim. */
  lemma FullRepaintShows(e: Studio, s: State, v: Viewing, row: nat, pixels: RowPixels)
    requires Viewable(s, v) && row < s.rows
    ensures RowShows(e, v, row, s.palette, s.dim, pixels) <==> pixels == FullRepaint(e, s, v)[row]
  {
    SeenExactly(v, row, InputFor(v, row));
    forall input | Sees(v, row, input) ensures input == InputFor(v, row) {
      SeenExactly(v, row, input);
    }
  }

  /** A refresh takes up the program's colours, and leaves every row with the hash of what is seen of it; the row is
      rebuilt from that unless it had the hash already, in unchanged colours. */
  lemma RefreshBuildsWhatIsSeen(e: Studio, s: State, v: Viewing, row: nat, input: RowInput)
    requires Fits(e, s) && Viewable(s, v) && row < s.rows && Sees(v, row, input)
    ensures var t := Refreshed(e, s, v);
            var hash := Some(e.hash(RowKey(input, t.palette, t.dim, t.paletteRevision, t.dimRevision)));
            && IsResolved(t.palette, s.base, v.overrides) && t.dim == s.dim && t.dimRevision == s.dimRevision
            && t.paletteRevision as nat ==
               (if t.palette == s.palette then s.paletteRevision as nat else (s.paletteRevision as nat + 1) % WORD)
            && t.hashes[row] == hash
            && t.grid[row] ==
               if t.palette == s.palette && s.hashes[row] == hash then s.grid[row]
               else e.build(input, t.palette, t.dim)
  {
    var r := Recoloured(s, v.overrides);
    SeenExactly(v, row, input);
    RefreshedFits(e, s, v);
    assert RowCurrent(e, r, Refreshed(e, s, v), row, input);
    ResolvedExactly(r.palette, s.base, v.overrides);
  }

  /** The first paint of a view of any number of rows shows each of its rows, in the resolved colours, undimmed. */
  lemma FirstPaintShows(e: Studio, base: Palette, surface: seq<RowPixels>, v: Viewing, row: nat, palette: Palette)
    requires |v.lines| == |v.selections| == |v.found| == |surface| && row < |surface|
    requires IsResolved(palette, base, v.overrides)
    ensures var f := Refreshed(e, FreshPainter(|surface|, base), v);
            RowShows(e, v, row, palette, 0.0, Painted(e, f, FreshTarget(surface)).surface[row])
  {
    var s, input := FreshPainter(|surface|, base), InputFor(v, row);
    FreshFits(e, base, surface);
    SeenExactly(v, row, input);
    RefreshBuildsWhatIsSeen(e, s, v, row, input);
    var f := Refreshed(e, s, v);
    ResolvedExactly(palette, base, v.overrides);
    ResolvedExactly(f.palette, base, v.overrides);
    assert Owed(f, FreshTarget(surface), row);
  }

  /** Dimming: by the amount asked for, brought between 0 and 1. A change of less than 2 to the power of -23 does
      nothing; any other is a new revision, and owes every row. */
  lemma DimmedExactly(s: State, amount: real, next: real)
    requires amount <= 0.0 ==> next == 0.0
    requires amount >= 1.0 ==> next == 1.0
    requires 0.0 <= amount <= 1.0 ==> next == amount
    ensures var t, close := Dimmed(s, amount), -1.0 / 8388608.0 < next - s.dim < 1.0 / 8388608.0;
            && t == s.(dim := t.dim, dimRevision := t.dimRevision, hashes := t.hashes)
            && t.dim == (if close then s.dim else next)
            && t.dimRevision as nat ==
               (if close then s.dimRevision as nat else (s.dimRevision as nat + 1) % 0x1_0000_0000_0000_0000)
            && |t.hashes| == |s.hashes|
            && forall row | 0 <= row < |s.hashes| :: t.hashes[row] == if close then s.hashes[row] else None
  {
  }

  // When a paint is a full repaint

  /** Where the target remembers the present hash, what it shows must look like the row; where it does not and
      the grid already had the present hash, what the grid held must. */
  predicate RowAgrees(e: Studio, s: State, t: Target, row: nat, key: RowKey)
    requires row < s.rows && Shaped(s) && TargetShaped(s, t)
  {
    if t.painted[row] == Some(e.hash(key)) then t.shown[row].Some? && Picture(e, t.shown[row].value) == Look(e, key)
    else s.hashes[row] == Some(e.hash(key)) ==> s.keys[row].Some? && Look(e, s.keys[row].value) == Look(e, key)
  }

  /** A row of `t` agrees with the view `v` that painter `s` is about to be refreshed from. */
  predicate Agrees(e: Studio, s: State, t: Target, v: Viewing, row: nat)
    requires row < s.rows && Shaped(s) && TargetShaped(s, t) && Viewable(s, v)
  {
    var r := Recoloured(s, v.overrides);
    RowAgrees(e, r, t, row, KeyFor(r, InputFor(v, row)))
  }

  /** One row after a refresh and a paint: right exactly when it agreed before. */
  lemma RowIsRightExactly(e: Studio, s: State, t: Target, v: Viewing, row: nat)
    requires Fits(e, s) && TargetFits(e, s, t) && Viewable(s, v) && row < s.rows
    ensures Painted(e, Refreshed(e, s, v), t).surface[row] == FullRepaint(e, Refreshed(e, s, v), v)[row] <==>
            Agrees(e, s, t, v, row)
  {
    var r, f := Recoloured(s, v.overrides), Refreshed(e, s, v);
    RecolouredFits(e, s, v.overrides);
    RefreshedFits(e, s, v);
    assert RowFits(e, r, row) && TargetRowFits(e, s, t, row);
    assert RowCurrent(e, r, f, row, InputFor(v, row));
  }

  /** Damage is enough, exactly: after a refresh, painting leaves a target equal to a full repaint if and only if
      each of its rows agrees. */
  lemma PaintAfterRefreshIsFullRepaint(e: Studio, s: State, t: Target, v: Viewing)
    requires Fits(e, s) && TargetFits(e, s, t) && Viewable(s, v)
    ensures Painted(e, Refreshed(e, s, v), t).surface == FullRepaint(e, Refreshed(e, s, v), v) <==>
            forall row | 0 <= row < s.rows :: Agrees(e, s, t, v, row)
  {
    forall row | 0 <= row < s.rows
      ensures Painted(e, Refreshed(e, s, v), t).surface[row] == FullRepaint(e, Refreshed(e, s, v), v)[row] <==>
              Agrees(e, s, t, v, row) {
      RowIsRightExactly(e, s, t, v, row);
    }
  }

  /** And no more than that: rows `paint_into` does not return are untouched, and the rows it returns are
      exactly those whose hash moved since this target was last painted. */
  lemma {:induction false} OnlyOwedRowsAreTouched(e: Studio, s: State, t: Target, k: nat)
    requires Shaped(s) && TargetShaped(s, t) && k <= s.rows
    ensures forall row | 0 <= row < k :: row in OwedUpTo(s, t, k) <==> Owed(s, t, row)
    ensures forall row | 0 <= row < k && row !in OwedUpTo(s, t, k) :: Painted(e, s, t).surface[row] == t.surface[row]
    ensures forall row | row in OwedUpTo(s, t, k) :: row < k
    ensures forall i, j | 0 <= i < j < |OwedUpTo(s, t, k)| :: OwedUpTo(s, t, k)[i] < OwedUpTo(s, t, k)[j]
    decreases k
  {
    if k > 0 {
      OnlyOwedRowsAreTouched(e, s, t, k - 1);
      var before := OwedUpTo(s, t, k - 1);
      assert forall i | 0 <= i < |before| :: before[i] in before;
    }
  }

  /** A fresh target is owed every row of a refreshed grid. */
  lemma FreshTargetIsOwedEverything(e: Studio, s: State, v: Viewing, surface: seq<RowPixels>)
    requires Fits(e, s) && Viewable(s, v) && |surface| == s.rows
    ensures var r, t := Refreshed(e, s, v), FreshTarget(surface);
            TargetFits(e, r, t) && forall row | 0 <= row < s.rows :: Owed(r, t, row)
  {
    RefreshedFits(e, s, v);
    var r := Refreshed(e, s, v);
    forall row | 0 <= row < s.rows ensures r.hashes[row].Some? {
      assert RowCurrent(e, Recoloured(s, v.overrides), r, row, InputFor(v, row));
    }
  }

  function FreshTarget(surface: seq<RowPixels>): Target {
    Target(NoHashes(|surface|), surface, seq(|surface|, row => None))
  }

  /** A second paint with nothing between owes nothing. */
  lemma NothingChangedNothingOwed(e: Studio, s: State, t: Target)
    requires Shaped(s) && TargetShaped(s, t)
    ensures forall row | 0 <= row < s.rows :: !Owed(s, Painted(e, s, t), row)
    ensures Painted(e, s, Painted(e, s, t)) == Painted(e, s, t)
  {
  }

  // Whole histories, with any number of targets

  /** A paint that fails has reached some row, and the target remembers none of it. */
  datatype Op =
    | Refresh(view: Viewing)
    | PaintInto(target: nat)
    | PaintFails(target: nat, reached: nat)
    | Invalidate
    | SetDim(dim: real)
    | SetBase(palette: Palette)

  datatype World = World(painter: State, targets: seq<Target>)

  ghost predicate Possible(w: World, op: Op) {
    match op
    case Refresh(v) => Viewable(w.painter, v)
    case PaintInto(i) => i < |w.targets|
    case PaintFails(i, _) => i < |w.targets|
    case _ => true
  }

  ghost predicate WorldFits(e: Studio, w: World) {
    Fits(e, w.painter) && forall i | 0 <= i < |w.targets| :: TargetFits(e, w.painter, w.targets[i])
  }

  ghost function Next(e: Studio, w: World, op: Op): World
    requires WorldFits(e, w) && Possible(w, op)
  {
    match op
    case Refresh(v) => w.(painter := Refreshed(e, w.painter, v))
    case PaintInto(i) => w.(targets := w.targets[i := Painted(e, w.painter, w.targets[i])])
    case PaintFails(i, reached) => w.(targets := w.targets[i := OnSurface(e, w.painter, w.targets[i], reached)])
    case Invalidate => w.(painter := Invalidated(w.painter))
    case SetDim(dim) => w.(painter := Dimmed(w.painter, dim))
    case SetBase(palette) => w.(painter := w.painter.(base := palette))
  }

  lemma PainterFits(e: Studio, w: World, op: Op)
    requires WorldFits(e, w) && Possible(w, op)
    ensures var next := Next(e, w, op); Fits(e, next.painter) && Extends(w.painter, next.painter)
  {
    match op {
      case Refresh(v) => RefreshedFits(e, w.painter, v);
      case Invalidate => InvalidatedFits(e, w.painter);
      case SetDim(dim) => DimmedFits(e, w.painter, dim);
      case SetBase(palette) => RebasedFits(e, w.painter, palette);
      case _ =>
    }
  }

  lemma NextFits(e: Studio, w: World, op: Op)
    requires WorldFits(e, w) && Possible(w, op)
    ensures WorldFits(e, Next(e, w, op)) && |Next(e, w, op).targets| == |w.targets|
    ensures Next(e, w, op).painter.rows == w.painter.rows
  {
    var next := Next(e, w, op);
    PainterFits(e, w, op);
    match op {
      case PaintInto(i) => PaintedFits(e, w.painter, w.targets[i]);
      case PaintFails(i, reached) => OnSurfaceFits(e, w.painter, w.targets[i], reached);
      case _ =>
        forall i | 0 <= i < |w.targets| ensures TargetFits(e, next.painter, w.targets[i]) {
          TargetFitsLater(e, w.painter, next.painter, w.targets[i]);
        }
    }
  }

  /** A history: each world follows from the one before by an operation. */
  ghost predicate History(e: Studio, worlds: seq<World>, ops: seq<Op>) {
    && |worlds| == |ops| + 1 && WorldFits(e, worlds[0])
    && forall i | 0 <= i < |ops| ::
         WorldFits(e, worlds[i]) && Possible(worlds[i], ops[i]) && worlds[i + 1] == Next(e, worlds[i], ops[i])
  }

  lemma HistoryFits(e: Studio, worlds: seq<World>, ops: seq<Op>, i: nat)
    requires History(e, worlds, ops) && i <= |ops|
    ensures WorldFits(e, worlds[i])
  {
    if i > 0 {
      NextFits(e, worlds[i - 1], ops[i - 1]);
    }
  }

  /** For any history of refreshes, paints of any targets in any order, failed or not, invalidations, dims and
      palettes: painting a target right after a refresh leaves it equal to a full repaint of that view if and
      only if its rows agree, and leaves the other targets alone. */
  lemma EveryTargetAgreesExactly(e: Studio, worlds: seq<World>, ops: seq<Op>, i: nat)
    requires History(e, worlds, ops) && i + 2 <= |ops|
    requires ops[i].Refresh? && ops[i + 1].PaintInto?
    ensures WorldFits(e, worlds[i]) && Possible(worlds[i], ops[i]) &&
            ops[i + 1].target < |worlds[i].targets| == |worlds[i + 2].targets|
    ensures var w, v, target := worlds[i], ops[i].view, ops[i + 1].target;
            && (worlds[i + 2].targets[target].surface == FullRepaint(e, worlds[i + 1].painter, v) <==>
                forall row | 0 <= row < w.painter.rows :: Agrees(e, w.painter, w.targets[target], v, row))
            && forall other | 0 <= other < |w.targets| && other != target ::
               worlds[i + 2].targets[other] == w.targets[other]
  {
    HistoryFits(e, worlds, ops, i);
    HistoryFits(e, worlds, ops, i + 1);
    PaintAfterRefreshIsFullRepaint(e, worlds[i].painter, worlds[i + 1].targets[ops[i + 1].target], ops[i].view);
  }

  // Histories without failed paints

  /** What a row shows has the hash the target remembers, and its background is of one palette and dim. */
  predicate RowKept(e: Studio, t: Target, row: nat)
    requires row < |t.painted| == |t.shown|
  {
    t.painted[row].Some? ==>
      && t.shown[row].Some?
      && var shown := t.shown[row].value;
      e.hash(shown.key) == t.painted[row].value && shown.palette == shown.key.palette && shown.dim == shown.key.dim
  }

  ghost predicate Kept(e: Studio, t: Target) {
    |t.painted| == |t.shown| && forall row | 0 <= row < |t.painted| :: RowKept(e, t, row)
  }

  ghost predicate WorldKept(e: Studio, w: World) {
    WorldFits(e, w) && forall i | 0 <= i < |w.targets| :: Kept(e, w.targets[i])
  }

  lemma PaintedIsKept(e: Studio, s: State, t: Target)
    requires Fits(e, s) && TargetShaped(s, t) && Kept(e, t)
    ensures Kept(e, Painted(e, s, t))
  {
    forall row | 0 <= row < s.rows ensures RowKept(e, Painted(e, s, t), row) {
      assert RowFits(e, s, row) && RowKept(e, t, row);
    }
  }

  lemma {:induction false} UnfailedHistoryIsKept(e: Studio, worlds: seq<World>, ops: seq<Op>, i: nat)
    requires History(e, worlds, ops) && i <= |ops| && WorldKept(e, worlds[0])
    requires forall j | 0 <= j < i :: !ops[j].PaintFails?
    ensures WorldKept(e, worlds[i])
    decreases i
  {
    if i > 0 {
      UnfailedHistoryIsKept(e, worlds, ops, i - 1);
      HistoryFits(e, worlds, ops, i);
      var w, op := worlds[i - 1], ops[i - 1];
      if op.PaintInto? {
        PaintedIsKept(e, w.painter, w.targets[op.target]);
      }
    }
  }

  /** Keys with one hash look the same. */
  predicate Alike(e: Studio, a: RowKey, b: RowKey) {
    e.hash(a) == e.hash(b) ==> Look(e, a) == Look(e, b)
  }

  /** The present key of a row is told from the key the target remembers, and, unless the target remembers it,
      from the key in the grid. */
  predicate ToldApart(e: Studio, s: State, t: Target, row: nat, key: RowKey)
    requires row < s.rows && Shaped(s) && TargetShaped(s, t)
  {
    && (t.painted[row].Some? ==> t.shown[row].Some? && Alike(e, t.shown[row].value.key, key))
    && (t.painted[row] != Some(e.hash(key)) && s.hashes[row].Some? ==>
          s.keys[row].Some? && Alike(e, s.keys[row].value, key))
  }

  /** Then a row agrees exactly when its present key is told apart. */
  lemma KeptRowAgreesExactly(e: Studio, s: State, t: Target, row: nat, key: RowKey)
    requires Fits(e, s) && TargetFits(e, s, t) && row < s.rows && RowKept(e, t, row)
    ensures RowAgrees(e, s, t, row, key) <==> ToldApart(e, s, t, row, key)
  {
    assert RowFits(e, s, row) && TargetRowFits(e, s, t, row);
    if t.painted[row].Some? {
      var shown := t.shown[row].value;
      assert Picture(e, shown) == Look(e, shown.key);
    }
  }

  /** A row of `t` is told apart in the view `v` that painter `s` is about to be refreshed from. */
  predicate Told(e: Studio, s: State, t: Target, v: Viewing, row: nat)
    requires row < s.rows && Shaped(s) && TargetShaped(s, t) && Viewable(s, v)
  {
    var r := Recoloured(s, v.overrides);
    ToldApart(e, r, t, row, KeyFor(r, InputFor(v, row)))
  }

  lemma KeptRowIsRightExactly(e: Studio, s: State, t: Target, v: Viewing, row: nat)
    requires Fits(e, s) && TargetFits(e, s, t) && Viewable(s, v) && row < s.rows && RowKept(e, t, row)
    ensures Agrees(e, s, t, v, row) <==> Told(e, s, t, v, row)
  {
    var r := Recoloured(s, v.overrides);
    RecolouredFits(e, s, v.overrides);
    TargetFitsLater(e, s, r, t);
    KeptRowAgreesExactly(e, r, t, row, KeyFor(r, InputFor(v, row)));
  }

  /** As long as no paint has failed, a paint right after a refresh is a full repaint if and only if in every row
      the present key is told from the one the target remembers and the one in the grid. */
  lemma UnfailedPaintsAgreeExactly(e: Studio, worlds: seq<World>, ops: seq<Op>, i: nat)
    requires History(e, worlds, ops) && i + 2 <= |ops| && WorldKept(e, worlds[0])
    requires forall j | 0 <= j < i :: !ops[j].PaintFails?
    requires ops[i].Refresh? && ops[i + 1].PaintInto?
    ensures WorldFits(e, worlds[i]) && Possible(worlds[i], ops[i]) &&
            ops[i + 1].target < |worlds[i].targets| == |worlds[i + 2].targets|
    ensures var w, v, target := worlds[i], ops[i].view, ops[i + 1].target;
            worlds[i + 2].targets[target].surface == FullRepaint(e, worlds[i + 1].painter, v) <==>
            forall row | 0 <= row < w.painter.rows :: Told(e, w.painter, w.targets[target], v, row)
  {
    EveryTargetAgreesExactly(e, worlds, ops, i);
    UnfailedHistoryIsKept(e, worlds, ops, i);
    var w, v, t := worlds[i], ops[i].view, worlds[i].targets[ops[i + 1].target];
    forall row | 0 <= row < w.painter.rows ensures Agrees(e, w.painter, t, v, row) <==> Told(e, w.painter, t, v, row) {
      assert RowKept(e, t, row);
      KeptRowIsRightExactly(e, w.painter, t, v, row);
    }
  }

  // What two keys take to collide

  /** A change of one thing alone: of cells only if their own hashes collide, of the palette or of the dim never,
      of the cursor if both cursors are worth the same, of a selection if 31 times its start plus its end is, and
      of a composition of as many bytes if both are worth the same over nothing; of glyph lookups always. */
  lemma OneChangeCollides(e: Studio, a: RowKey, b: RowKey)
    requires Mixes(e)
    ensures b == a.(input := a.input.(cells := b.input.cells)) ==>
            (e.hash(a) == e.hash(b) <==> e.cells(a.input.cells) == e.cells(b.input.cells))
    ensures b == a.(palette := b.palette, paletteRevision := b.paletteRevision) ==>
            (e.hash(a) == e.hash(b) <==> a.paletteRevision == b.paletteRevision)
    ensures b == a.(dim := b.dim, dimRevision := b.dimRevision) ==>
            (e.hash(a) == e.hash(b) <==> a.dimRevision == b.dimRevision)
    ensures b == a.(input := a.input.(cursor := b.input.cursor)) ==>
            (e.hash(a) == e.hash(b) <==> CursorBits(a.input.cursor) == CursorBits(b.input.cursor))
    ensures b == a.(input := a.input.(selection := b.input.selection)) &&
            a.input.selection.Some? && b.input.selection.Some? ==>
            (e.hash(a) == e.hash(b) <==> SelectionSum(a.input.selection.value) == SelectionSum(b.input.selection.value))
    ensures b == a.(input := a.input.(composition := b.input.composition)) &&
            Steps(a.input.composition, None) == Steps(b.input.composition, None) ==>
            (e.hash(a) == e.hash(b) <==> Composed(0, a.input.composition) == Composed(0, b.input.composition))
    ensures b == a.(input := a.input.(found := b.input.found)) ==> e.hash(a) == e.hash(b)
  {
    var c := e.cells(a.input.cells);
    HashIsMixed(e, a, c);
    HashIsMixed(e, b, e.cells(b.input.cells));
    if b == a.(input := a.input.(cells := b.input.cells)) {
      CellsCollide(c, e.cells(b.input.cells), a, b);
    }
    if b == a.(palette := b.palette, paletteRevision := b.paletteRevision) ||
      b == a.(dim := b.dim, dimRevision := b.dimRevision) {
      HeadsCollide(c, a, b);
      RevisionsCollide(a, b);
    }
    if b == a.(input := a.input.(cursor := b.input.cursor)) {
      HeadsCollide(c, a, b);
      XorWordsCancel(RevisionBits(a.paletteRevision, a.dimRevision), CursorBits(a.input.cursor),
        CursorBits(b.input.cursor));
    }
    if b == a.(input := a.input.(selection := b.input.selection)) &&
      a.input.selection.Some? && b.input.selection.Some? {
      SelectionsCollide(Composed(XorWords(c, Head(a)), a.input.composition), a.input.selection.value,
        b.input.selection.value);
    }
    if b == a.(input := a.input.(composition := b.input.composition)) &&
      Steps(a.input.composition, None) == Steps(b.input.composition, None) {
      TailsCollide(c, a, b);
      SelectedIsInjective(Composed(0, a.input.composition), Composed(0, b.input.composition), a.input.selection);
    }
  }

  /** A selection that appears, or goes away, is missed for just the cells' hashes for which one sum wraps around to 0,
      and never unless 31 times its start plus its end is a multiple of 32. */
  lemma SelectionAppears(e: Studio, a: RowKey, b: RowKey, span: Span, sum: nat)
    requires Mixes(e) && a.input.selection == None && b == a.(input := a.input.(selection := Some(span)))
    requires var h := Composed(XorWords(e.cells(a.input.cells), Head(a)), a.input.composition);
             sum == 960 * h as nat + 32 + SelectionSum(span)
    ensures e.hash(a) == e.hash(b) <==> sum % WORD == 0
    ensures e.hash(a) == e.hash(b) ==> SelectionSum(span) % 32 == 0
  {
    var c := e.cells(a.input.cells);
    var h := Composed(XorWords(c, Head(a)), a.input.composition);
    HashIsMixed(e, a, c);
    HashIsMixed(e, b, c);
    SelectionOrNone(h, span, sum);
    if SelectionSum(span) % 32 != 0 {
      SelectionIsSeen(h, span);
    }
  }

  /** Any two keys at all, as where a composition appears and the cursor goes, or its text grows: `x` and `y` are the
      words they are mixed to before wrapping around. */
  lemma AnyKeysCollide(e: Studio, a: RowKey, b: RowKey, m: nat, n: nat, x: nat, y: nat)
    requires Mixes(e)
    requires m == Steps(a.input.composition, a.input.selection) && n == Steps(b.input.composition, b.input.selection)
    requires x == Scaled(XorWords(e.cells(a.input.cells), Head(a)) as nat, m) +
             Tail(0, a.input.composition, a.input.selection) as nat
    requires y == Scaled(XorWords(e.cells(b.input.cells), Head(b)) as nat, n) +
             Tail(0, b.input.composition, b.input.selection) as nat
    ensures e.hash(a) == e.hash(b) <==> (x - y) % WORD == 0
  {
    HashIsMixed(e, a, e.cells(a.input.cells));
    HashIsMixed(e, b, e.cells(b.input.cells));
    KeysCollide(e.cells(a.input.cells), e.cells(b.input.cells), a, b, m, n, x, y);
  }

  /** So in one decoration two rows are alike exactly when a collision of the cells' own hashes, as of one row's cells
      with themselves, is between rows that build the same with the lookups each was built with. */
  lemma OneDecorationIsAlike(e: Studio, a: RowKey, b: RowKey)
    requires Mixes(e) && b == a.(input := a.input.(cells := b.input.cells, found := b.input.found))
    ensures Alike(e, a, b) <==>
            (e.cells(a.input.cells) == e.cells(b.input.cells) ==>
              e.build(a.input, a.palette, a.dim) == e.build(b.input, b.palette, b.dim))
  {
    HashIsMixed(e, a, e.cells(a.input.cells));
    HashIsMixed(e, b, e.cells(b.input.cells));
    CellsCollide(e.cells(a.input.cells), e.cells(b.input.cells), a, b);
  }

  // Stale rows

  /** A painter and a target that have painted nothing. */
  function FreshPainter(rows: nat, base: Palette): State {
    State(rows, base, base, 0, 0.0, 0, NoHashes(rows), seq(rows, i => []), seq(rows, i => None))
  }

  lemma FreshFits(e: Studio, base: Palette, surface: seq<RowPixels>)
    ensures Fits(e, FreshPainter(|surface|, base)) && TargetFits(e, FreshPainter(|surface|, base), FreshTarget(surface))
    ensures Kept(e, FreshTarget(surface))
  {
  }

  /** The first paint of a row is right, and remembered. */
  lemma FirstPaint(e: Studio, s: State, t: Target, v: Viewing, row: nat, f: State, key: RowKey)
    requires Fits(e, s) && TargetFits(e, s, t) && Viewable(s, v) && row < s.rows &&
             s.hashes[row] == t.painted[row] == None
    requires f == Refreshed(e, s, v) && key == KeyFor(Recoloured(s, v.overrides), InputFor(v, row))
    ensures Fits(e, f) && TargetFits(e, f, t) && f.rows == s.rows && Present(f, key)
    ensures f.hashes[row] == Some(e.hash(key)) && f.keys[row] == Some(key)
    ensures ShowsKey(e, f, Painted(e, f, t), row, key)
  {
    RefreshedFits(e, s, v);
    TargetFitsLater(e, s, f, t);
    assert RowCurrent(e, Recoloured(s, v.overrides), f, row, InputFor(v, row));
    assert RowFits(e, f, row);
  }

  /** A row shows the key it remembers. */
  predicate ShowsKey(e: Studio, s: State, t: Target, row: nat, key: RowKey)
    requires row < s.rows && Shaped(s) && TargetShaped(s, t)
  {
    t.painted[row] == Some(e.hash(key)) && t.surface[row] == Look(e, key) &&
      t.shown[row] == Some(Shown(key, key.palette, key.dim))
  }

  /** Two views refreshed and painted one after the other, on a painter and a target that had painted nothing
      of the row: if their keys collide, the row still shows the first. */
  lemma CollisionGoesStale(e: Studio, s: State, t: Target, v: Viewing, w: Viewing, row: nat, first: RowKey,
      second: RowKey)
    requires Fits(e, s) && TargetFits(e, s, t) && Viewable(s, v) && Viewable(s, w) && row < s.rows
    requires s.hashes[row] == t.painted[row] == None
    requires var f := Refreshed(e, s, v);
             first == KeyFor(Recoloured(s, v.overrides), InputFor(v, row)) &&
               second == KeyFor(Recoloured(f, w.overrides), InputFor(w, row))
    requires e.hash(first) == e.hash(second)
    ensures var f := Refreshed(e, s, v); var p, g := Painted(e, f, t), Refreshed(e, f, w);
            (Painted(e, g, p).surface[row] == FullRepaint(e, g, w)[row] <==> Look(e, first) == Look(e, second))
            && Painted(e, g, p).surface[row] == p.surface[row] == Look(e, first)
  {
    var f := Refreshed(e, s, v);
    var p := Painted(e, f, t);
    FirstPaint(e, s, t, v, row, f, first);
    PaintedFits(e, f, t);
    RowIsRightExactly(e, f, p, w, row);
    RefreshedFits(e, f, w);
    assert RowCurrent(e, Recoloured(f, w.overrides), Refreshed(e, f, w), row, InputFor(w, row));
  }

  /** No colours set by the program, and just another background. */
  const NO_COLOURS: Overrides := Overrides(None, None, None, [])

  function Background(colour: nat): Overrides {
    NO_COLOURS.(background := Some(colour))
  }

  /** A screen of one line, with a selection or with a cursor. */
  function Selecting(line: Row, selection: Option<Span>): Viewing {
    Viewing([line], [selection], [[]], NO_COLOURS, false, 0, 0, CursorStyle(Block, false), 0, true, true, None)
  }

  function Pointing(line: Row, overrides: Overrides, shown: bool, col: word, style: CursorStyle): Viewing {
    Viewing([line], [None], [[]], overrides, shown, 0, col, style, 0, true, true, None)
  }

  function Composing(line: Row, kana: scalar, col: word): Viewing {
    Viewing([line], [None], [[]], NO_COLOURS, true, 0, col, CursorStyle(Block, false), 0, true, true,
      Some(Preedit([kana], 1)))
  }

  /** Nothing but cells, with the lookups that succeed. */
  function Looking(line: Row, found: seq<bool>): Viewing {
    Selecting(line, None).(found := [found])
  }

  predicate OneLine(v: Viewing) {
    |v.lines| == |v.selections| == |v.found| == 1
  }

  function FreshKey(base: Palette, input: RowInput): RowKey {
    RowKey(input, base, 0.0, 0, 0)
  }

  lemma UnsetColours(base: Palette)
    ensures Resolve(base, NO_COLOURS) == base
    ensures forall colour :: Resolve(base, Background(colour)) == base.(bg := colour)
  {
    assert Resolve(base, NO_COLOURS).ansi == base.ansi;
    forall colour ensures Resolve(base, Background(colour)).ansi == base.ansi {}
  }

  /** What one line shows after two views, each refreshed and painted. */
  function ShownAfter(e: Studio, base: Palette, blank: RowPixels, v: Viewing, w: Viewing): RowPixels
    requires OneLine(v) && OneLine(w)
  {
    var s, t := FreshPainter(1, base), FreshTarget([blank]);
    var f := Refreshed(e, s, v);
    Painted(e, Refreshed(e, f, w), Painted(e, f, t)).surface[0]
  }

  /** What a full repaint of the second view would show. */
  function RepaintAfter(e: Studio, base: Palette, v: Viewing, w: Viewing): RowPixels
    requires OneLine(v) && OneLine(w)
  {
    FullRepaint(e, Refreshed(e, Refreshed(e, FreshPainter(1, base), v), w), w)[0]
  }

  lemma LineGoesStale(e: Studio, base: Palette, blank: RowPixels, v: Viewing, w: Viewing, first: RowKey, second: RowKey)
    requires OneLine(v) && OneLine(w) && v.overrides == NO_COLOURS
    requires first == FreshKey(base, InputFor(v, 0))
    requires second.input == InputFor(w, 0) && second.dim == 0.0 && second.dimRevision == 0
    requires second.palette == Resolve(base, w.overrides) &&
             second.paletteRevision == (if second.palette == base then 0 else 1)
    requires e.hash(first) == e.hash(second)
    ensures ShownAfter(e, base, blank, v, w) == Look(e, first) && RepaintAfter(e, base, v, w) == Look(e, second)
  {
    var s, t := FreshPainter(1, base), FreshTarget([blank]);
    FreshFits(e, base, [blank]);
    UnsetColours(base);
    var r, f := Recoloured(s, v.overrides), Refreshed(e, s, v);
    assert r == s;
    RefreshedFits(e, s, v);
    NextKey(f, w, base, second);
    CollisionGoesStale(e, s, t, v, w, 0, first, second);
    RefreshedFits(e, f, w);
  }

  /** The key of a line refreshed on a painter that has changed no colour so far. */
  lemma NextKey(f: State, w: Viewing, base: Palette, key: RowKey)
    requires OneLine(w)
    requires f.base == f.palette == base && f.dim == 0.0 && f.paletteRevision == f.dimRevision == 0
    requires key.input == InputFor(w, 0) && key.dim == 0.0 && key.dimRevision == 0
    requires key.palette == Resolve(base, w.overrides) && key.paletteRevision == (if key.palette == base then 0 else 1)
    ensures key == KeyFor(Recoloured(f, w.overrides), InputFor(w, 0))
  {
  }

  /** A selection of columns 0 to 40 changed to one of columns 1 to 9 is not repainted, whatever the cells. */
  lemma SelectionGoesStale(e: Studio, base: Palette, blank: RowPixels, line: Row)
    requires Mixes(e)
    ensures var v, w := Selecting(line, Some(Span(0, 40))), Selecting(line, Some(Span(1, 9)));
            ShownAfter(e, base, blank, v, w) == Look(e, FreshKey(base, InputFor(v, 0))) &&
              RepaintAfter(e, base, v, w) == Look(e, FreshKey(base, InputFor(w, 0)))
  {
    var v, w := Selecting(line, Some(Span(0, 40))), Selecting(line, Some(Span(1, 9)));
    var first, second := FreshKey(base, InputFor(v, 0)), FreshKey(base, InputFor(w, 0));
    UnsetColours(base);
    OneChangeCollides(e, first, second);
    LineGoesStale(e, base, blank, v, w, first, second);
  }

  /** Nor is a steady cursor in column 1 that becomes a blinking one in column 2. */
  lemma CursorGoesStale(e: Studio, base: Palette, blank: RowPixels, line: Row, shape: CursorShape)
    requires Mixes(e)
    ensures var v, w := Pointing(line, NO_COLOURS, true, 1, CursorStyle(shape, false)),
            Pointing(line, NO_COLOURS, true, 2, CursorStyle(shape, true));
            ShownAfter(e, base, blank, v, w) == Look(e, FreshKey(base, InputFor(v, 0))) &&
              RepaintAfter(e, base, v, w) == Look(e, FreshKey(base, InputFor(w, 0)))
  {
    var v, w := Pointing(line, NO_COLOURS, true, 1, CursorStyle(shape, false)),
      Pointing(line, NO_COLOURS, true, 2, CursorStyle(shape, true));
    var first, second := FreshKey(base, InputFor(v, 0)), FreshKey(base, InputFor(w, 0));
    UnsetColours(base);
    BlinkingNextDoorCollides(1, shape, true);
    OneChangeCollides(e, first, second);
    LineGoesStale(e, base, blank, v, w, first, second);
  }

  /** Nor a composition of one kana that becomes another. */
  lemma CompositionGoesStale(e: Studio, base: Palette, blank: RowPixels, line: Row, col: word)
    requires Mixes(e)
    ensures var v, w := Composing(line, 0x3065, col), Composing(line, 0x3086, col);
            ShownAfter(e, base, blank, v, w) == Look(e, FreshKey(base, InputFor(v, 0))) &&
              RepaintAfter(e, base, v, w) == Look(e, FreshKey(base, InputFor(w, 0)))
  {
    var v, w := Composing(line, 0x3065, col), Composing(line, 0x3086, col);
    var first, second := FreshKey(base, InputFor(v, 0)), FreshKey(base, InputFor(w, 0));
    var cells := e.cells(Unwrapped(line));
    UnsetColours(base);
    HashIsMixed(e, first, cells);
    HashIsMixed(e, second, cells);
    KanaCollide(XorWords(cells, Head(first)), 1, col);
    LineGoesStale(e, base, blank, v, w, first, second);
  }

  /** The lookups of glyphs are in no hash. A row built while one failed is not rebuilt when it would succeed, and stays
      as it is: without the glyph, if the two pictures differ. */
  lemma MissingGlyphStays(e: Studio, base: Palette, blank: RowPixels, line: Row, missing: seq<bool>, found: seq<bool>)
    requires Mixes(e)
    ensures var v, w := Looking(line, missing), Looking(line, found);
            && ShownAfter(e, base, blank, v, w) == Look(e, FreshKey(base, InputFor(v, 0)))
            && RepaintAfter(e, base, v, w) == Look(e, FreshKey(base, InputFor(w, 0)))
  {
    var v, w := Looking(line, missing), Looking(line, found);
    var first, second := FreshKey(base, InputFor(v, 0)), FreshKey(base, InputFor(w, 0));
    UnsetColours(base);
    OneChangeCollides(e, first, second);
    LineGoesStale(e, base, blank, v, w, first, second);
  }

  /** Nor an underline in column 32 that goes away together with the background's colour. */
  lemma PaletteGoesStale(e: Studio, base: Palette, blank: RowPixels, line: Row, colour: nat)
    requires Mixes(e)
    requires colour != base.bg
    ensures var v, w := Pointing(line, NO_COLOURS, true, 32, CursorStyle(Underline, false)),
            Pointing(line, Background(colour), false, 32, CursorStyle(Underline, false));
            && ShownAfter(e, base, blank, v, w) == Look(e, FreshKey(base, InputFor(v, 0)))
            && RepaintAfter(e, base, v, w) == Look(e, RowKey(InputFor(w, 0), base.(bg := colour), 0.0, 1, 0))
  {
    var v, w := Pointing(line, NO_COLOURS, true, 32, CursorStyle(Underline, false)),
      Pointing(line, Background(colour), false, 32, CursorStyle(Underline, false));
    var first, second := FreshKey(base, InputFor(v, 0)), RowKey(InputFor(w, 0), base.(bg := colour), 0.0, 1, 0);
    UnsetColours(base);
    HashIsMixed(e, first, e.cells(Unwrapped(line)));
    HashIsMixed(e, second, e.cells(Unwrapped(line)));
    RevisionHidesACursor(0);
    HeadsCollide(e.cells(Unwrapped(line)), first, second);
    LineGoesStale(e, base, blank, v, w, first, second);
  }

  /** A builder that shows selections shows the difference. */
  function SelectionStudio(): Studio {
    Studio(
      (cells: Row) => 0,
      (key: RowKey) => Mixed(0, key),
      (input: RowInput, palette: Palette, dim: real) =>
        if input.selection.Some? then [SelectedCell(input.selection.value)] else [],
      (colour: nat, dim: real) => colour)
  }

  function SelectedCell(span: Span): GpuCell {
    GpuCell(0, 0, 0, 0, 0, 0, span.start as nat, span.end as nat, 0, 0, 0)
  }

  lemma StaleSelectionIsWrong(base: Palette, blank: RowPixels, line: Row)
    ensures var e, v, w := SelectionStudio(), Selecting(line, Some(Span(0, 40))), Selecting(line, Some(Span(1, 9)));
            ShownAfter(e, base, blank, v, w) != RepaintAfter(e, base, v, w)
  {
    var e, v, w := SelectionStudio(), Selecting(line, Some(Span(0, 40))), Selecting(line, Some(Span(1, 9)));
    SelectionGoesStale(e, base, blank, line);
    assert Look(e, FreshKey(base, InputFor(v, 0))).cells == [SelectedCell(Span(0, 40))];
    assert Look(e, FreshKey(base, InputFor(w, 0))).cells == [SelectedCell(Span(1, 9))];
    assert SelectedCell(Span(0, 40)) != SelectedCell(Span(1, 9));
  }

  /** A refresh that changes no colour. */
  lemma RefreshedRow(e: Studio, s: State, v: Viewing, row: nat, key: RowKey, r: State)
    requires Fits(e, s) && Viewable(s, v) && row < s.rows && Resolve(s.base, v.overrides) == s.palette
    requires r == Refreshed(e, s, v) && key == KeyFor(s, InputFor(v, row))
    ensures Fits(e, r) && Extends(s, r) && SameLight(s, r) && r.hashes[row] == Some(e.hash(key))
    ensures s.hashes[row] != Some(e.hash(key)) ==> PixelsOf(e, r, row) == Look(e, key) && r.keys[row] == Some(key)
  {
    RefreshedFits(e, s, v);
    assert Recoloured(s, v.overrides) == s;
    assert RowCurrent(e, s, r, row, InputFor(v, row));
  }

  /** A change that fails to be painted and is taken back: the next paint owes the row nothing and leaves it as
      the failed paint left it, right exactly if both look the same. */
  lemma FailedPaintGoesStale(e: Studio, s: State, t: Target, v: Viewing, w: Viewing, row: nat, reached: nat,
      key: RowKey, changed: RowKey)
    requires Fits(e, s) && TargetFits(e, s, t) && Viewable(s, v) && Viewable(s, w) && row < s.rows && row < reached
    requires s.hashes[row] == t.painted[row] == None
    requires Resolve(s.base, v.overrides) == Resolve(s.base, w.overrides) == s.palette
    requires key == KeyFor(s, InputFor(v, row)) && changed == KeyFor(s, InputFor(w, row)) &&
             e.hash(key) != e.hash(changed)
    ensures var f := Refreshed(e, s, v); var g := Refreshed(e, f, w); var back := Refreshed(e, g, v);
            var failed := OnSurface(e, g, Painted(e, f, t), reached);
            && Painted(e, back, failed).surface[row] == Look(e, changed)
            && FullRepaint(e, back, v)[row] == Look(e, key)
  {
    var f := Refreshed(e, s, v);
    RefreshedRow(e, s, v, row, key, f);
    var g := Refreshed(e, f, w);
    assert KeyFor(f, InputFor(w, row)) == changed;
    RefreshedRow(e, f, w, row, changed, g);
    var back := Refreshed(e, g, v);
    assert KeyFor(g, InputFor(v, row)) == key;
    RefreshedRow(e, g, v, row, key, back);
    assert KeyFor(back, InputFor(v, row)) == key;
    Unpainted(e, f, g, back, t, row, reached);
  }

  lemma Unpainted(e: Studio, f: State, g: State, back: State, t: Target, row: nat, reached: nat)
    requires Shaped(f) && Shaped(g) && Shaped(back) && f.rows == g.rows == back.rows && TargetShaped(f, t)
    requires row < f.rows && row < reached
    requires f.hashes[row] == back.hashes[row] != g.hashes[row]
    ensures Painted(e, back, OnSurface(e, g, Painted(e, f, t), reached)).surface[row] == PixelsOf(e, g, row)
  {
  }

  /** For one: a selection grown by a column, a failed paint, and the selection shrunk back. */
  lemma FailedPaintOfASelection(e: Studio, base: Palette, blank: RowPixels, line: Row)
    requires Mixes(e)
    ensures var s, t, v, w := FreshPainter(1, base), FreshTarget([blank]), Selecting(line, Some(Span(0, 0))),
            Selecting(line, Some(Span(0, 1)));
            var f := Refreshed(e, s, v); var g := Refreshed(e, f, w); var back := Refreshed(e, g, v);
            && Painted(e, back, OnSurface(e, g, Painted(e, f, t), 1)).surface[0] ==
               Look(e, FreshKey(base, InputFor(w, 0)))
            && FullRepaint(e, back, v)[0] == Look(e, FreshKey(base, InputFor(v, 0)))
  {
    var s, t, v, w := FreshPainter(1, base), FreshTarget([blank]), Selecting(line, Some(Span(0, 0))),
      Selecting(line, Some(Span(0, 1)));
    UnsetColours(base);
    FreshFits(e, base, [blank]);
    OneChangeCollides(e, FreshKey(base, InputFor(v, 0)), FreshKey(base, InputFor(w, 0)));
    FailedPaintGoesStale(e, s, t, v, w, 0, 1, FreshKey(base, InputFor(v, 0)), FreshKey(base, InputFor(w, 0)));
  }

  // The painter and its targets as objects

  datatype Error = TargetRowsMismatch | PaintFailed

  class TargetSurface {
    var painted: seq<Option<word>>
    var surface: seq<RowPixels>
    ghost var shown: seq<Option<Shown>>

    ghost function Contents(): Target
      reads this
    {
      Target(painted, surface, shown)
    }

    constructor (surface: seq<RowPixels>)
      ensures Contents() == FreshTarget(surface)
    {
      this.painted, this.surface, shown := NoHashes(|surface|), surface, seq(|surface|, row => None);
    }

    /** One call of the kernel: `count` rows of the grid from `start` on. */
    method PaintBand(grid: seq<seq<GpuCell>>, beside: nat, start: nat, count: nat, ghost showing: seq<Option<Shown>>)
      requires start + count <= |grid| == |surface| == |shown| == |showing|
      modifies `surface, `shown
      ensures |surface| == |shown| == old(|surface|)
      ensures forall row | 0 <= row < |shown| ::
              shown[row] == if start <= row < start + count then showing[row] else old(shown[row])
      ensures forall row | 0 <= row < |surface| ::
                surface[row] == if start <= row < start + count then RowPixels(grid[row], beside) else old(surface[row])
    {
      for k := 0 to count
        invariant |surface| == |shown| == old(|surface|)
        invariant forall row | 0 <= row < |shown| ::
                  shown[row] == if start <= row < start + k then showing[row] else old(shown[row])
        invariant forall row | 0 <= row < |surface| ::
                    surface[row] == if start <= row < start + k then RowPixels(grid[row], beside) else old(surface[row])
      {
        surface := surface[start + k := RowPixels(grid[start + k], beside)];
        shown := shown[start + k := showing[start + k]];
      }
    }
  }

  class SurfacePainter {
    const studio: Studio
    const rows: nat
    var base: Palette
    var palette: Palette
    var paletteRevision: word
    var dim: real
    var dimRevision: word
    var hashes: seq<Option<word>>
    var grid: seq<seq<GpuCell>>
    ghost var keys: seq<Option<RowKey>>

    ghost function Contents(): State
      reads this
    {
      State(rows, base, palette, paletteRevision, dim, dimRevision, hashes, grid, keys)
    }

    ghost predicate Valid()
      reads this
    {
      Fits(studio, Contents())
    }

    constructor (studio: Studio, rows: nat, palette: Palette)
      ensures Valid() && this.studio == studio && Contents() == FreshPainter(rows, palette)
    {
      this.studio, this.rows := studio, rows;
      base, this.palette, paletteRevision := palette, palette, 0;
      dim, dimRevision := 0.0, 0;
      hashes, grid := NoHashes(rows), seq(rows, i => []);
      keys := seq(rows, i => None);
    }

    method SetBasePalette(palette: Palette)
      requires Valid()
      modifies `base
      ensures Valid() && Contents() == old(Contents()).(base := palette)
    {
      RebasedFits(studio, Contents(), palette);
      base := palette;
    }

    /** Everything repaints on the next call. */
    method Invalidate()
      requires |hashes| == rows
      modifies `hashes
      ensures Contents() == Invalidated(old(Contents()))
    {
      for row := 0 to rows
        invariant |hashes| == rows && forall i | 0 <= i < row :: hashes[i] == None
      {
        hashes := hashes[row := None];
      }
      assert hashes == NoHashes(rows);
    }

    method SetDim(amount: real)
      requires Valid()
      modifies this
      ensures Valid() && Contents() == Dimmed(old(Contents()), amount)
    {
      DimmedFits(studio, Contents(), amount);
      var next := if amount < 0.0 then 0.0 else if amount > 1.0 then 1.0 else amount;
      if Distance(next, dim) < EPSILON { return; }
      dim := next;
      dimRevision := NextRevision(dimRevision);
      Invalidate();
    }

    /** Takes up the colours the terminal's program has set. */
    method Recolour(overrides: Overrides)
      requires Valid()
      modifies this
      ensures Valid() && Contents() == Recoloured(old(Contents()), overrides)
    {
      RecolouredFits(studio, Contents(), overrides);
      var next := Resolve(base, overrides);
      if palette != next {
        palette := next;
        paletteRevision := NextRevision(paletteRevision);
        Invalidate();
      }
    }

    /** One row of a refresh: rebuilt unless its hash stayed the same. */
    method RefreshRow(row: nat, input: RowInput)
      requires Mixes(studio) && Shaped(Contents()) && row < rows
      modifies `hashes, `grid, `keys
      ensures Contents() == RowRefreshed(studio, old(Contents()), row, input)
    {
      var key := RowKey(input, palette, dim, paletteRevision, dimRevision);
      var hash := Mix(studio.cells(input.cells), key);
      if hashes[row] == Some(hash) { return; }
      grid, keys := grid[row := studio.build(input, palette, dim)], keys[row := Some(key)];
      hashes := hashes[row := Some(hash)];
    }

    /** All rows of a refresh, from the top. */
    method RefreshRows(view: Viewing)
      requires Mixes(studio) && Shaped(Contents()) && Viewable(Contents(), view)
      modifies `hashes, `grid, `keys
      ensures Contents() == RowsRefreshed(studio, old(Contents()), view, rows)
    {
      ghost var start := Contents();
      for row := 0 to rows
        invariant Contents() == RowsRefreshed(studio, start, view, row)
      {
        RefreshRow(row, InputFor(view, row));
      }
    }

    /** Folds a view into the grid. */
    method Refresh(view: Viewing)
      requires Mixes(studio) && Valid() && Viewable(Contents(), view)
      modifies this
      ensures Valid() && Contents() == Refreshed(studio, old(Contents()), view)
    {
      RefreshedFits(studio, Contents(), view);
      Recolour(view.overrides);
      RefreshRows(view);
    }

    /** The rows a target is owed. */
    method Dirty(target: TargetSurface) returns (dirty: seq<nat>)
      requires |hashes| == rows == |target.painted|
      ensures dirty == OwedUpTo(Contents(), target.Contents(), rows)
    {
      dirty := [];
      for row := 0 to rows
        invariant dirty == OwedUpTo(Contents(), target.Contents(), row)
      {
        if target.painted[row] != hashes[row] {
          dirty := dirty + [row];
        }
      }
    }

    /** Paints the owed rows band by band, until the kernel refuses band number `failing`. */
    method PaintBands(target: TargetSurface, dirty: seq<nat>, failing: Option<nat>)
      returns (ok: bool, ghost reached: nat)
      requires Shaped(Contents()) && |target.surface| == |target.shown| == rows
      requires Bands.Ascending(dirty) && forall row | row in dirty :: row < rows
      modifies target`surface, target`shown
      ensures failing == None ==> ok
      ensures ok ==> reached == rows
      ensures |target.surface| == |target.shown| == rows
      ensures forall row | 0 <= row < rows ::
                && target.surface[row] ==
                   (if row in dirty && row < reached then PixelsOf(studio, Contents(), row)
                     else old(target.surface[row]))
                && target.shown[row] ==
                   (if row in dirty && row < reached then ShownOf(Contents(), row) else old(target.shown[row]))
    {
      var beside := studio.darken(palette.bg, dim);
      ghost var now := Contents();
      var index, bands := 0, 0;
      while index < |dirty|
        invariant 0 <= index <= |dirty| && |target.surface| == |target.shown| == rows
        invariant forall row | 0 <= row < rows ::
                    && target.surface[row] ==
                       (if row in dirty[..index] then RowPixels(grid[row], beside) else old(target.surface[row]))
                    && target.shown[row] ==
                       (if row in dirty[..index] then ShownOf(now, row) else old(target.shown[row]))
      {
        if failing == Some(bands) {
          ok, reached := false, dirty[index];
          BelowIsBefore(dirty, index);
          return;
        }
        var first := index;
        var start := dirty[first];
        index := Bands.RunEnd(dirty, first);
        var end := dirty[index];
        assert end in dirty;
        InRun(dirty, first, index);
        target.PaintBand(grid, beside, start, end - start + 1, AllShown(now));
        index, bands := index + 1, bands + 1;
      }
      assert dirty[..|dirty|] == dirty;
      ok, reached := true, rows;
    }

    /** The target remembers the hashes it was painted with. */
    method Remember(target: TargetSurface, dirty: seq<nat>)
      requires |hashes| == rows == |target.painted| && forall row | row in dirty :: row < rows
      modifies target`painted
      ensures |target.painted| == rows
      ensures forall row | 0 <= row < rows ::
              target.painted[row] == if row in dirty then hashes[row] else old(target.painted[row])
    {
      for i := 0 to |dirty|
        invariant |target.painted| == rows
        invariant forall row | 0 <= row < rows ::
                    target.painted[row] == if row in dirty[..i] then hashes[row] else old(target.painted[row])
      {
        assert dirty[i] in dirty && dirty[..i + 1] == dirty[..i] + [dirty[i]];
        target.painted := target.painted[dirty[i] := hashes[dirty[i]]];
      }
      assert dirty[..|dirty|] == dirty;
    }

    /** Brings one target up to the grid, and returns the rows it was owed. If the kernel refuses a band, the
        bands before it are on the surface, and the target remembers none of them. */
    method PaintInto(target: TargetSurface, failing: Option<nat>)
      returns (r: Result<seq<nat>, Error>, ghost reached: nat)
      requires Valid() && |target.painted| == |target.surface| == |target.shown|
      modifies target
      ensures |old(target.painted)| != rows ==>
              r == Err(TargetRowsMismatch) && target.Contents() == old(target.Contents())
      ensures |old(target.painted)| == rows && failing == None ==> r.Ok?
      ensures |old(target.painted)| == rows && r.Ok? ==>
        && r.value == OwedUpTo(Contents(), old(target.Contents()), rows)
        && target.Contents() == Painted(studio, Contents(), old(target.Contents()))
      ensures |old(target.painted)| == rows && r.Err? ==>
        && r.error == PaintFailed
        && target.Contents() == OnSurface(studio, Contents(), old(target.Contents()), reached)
    {
      reached := 0;
      if |target.painted| != rows { return Err(TargetRowsMismatch), 0; }
      ghost var before := target.Contents();
      OnlyOwedRowsAreTouched(studio, Contents(), before, rows);
      var dirty := Dirty(target);
      var ok;
      ok, reached := PaintBands(target, dirty, failing);
      ghost var surface := OnSurface(studio, Contents(), before, reached);
      assert target.surface == surface.surface && target.shown == surface.shown;
      if !ok { return Err(PaintFailed), reached; }
      Remember(target, dirty);
      assert target.painted == hashes;
      r := Ok(dirty);
    }
  }

  /** Among ascending rows, those below one of them are those before it. */
  lemma BelowIsBefore(dirty: seq<nat>, index: nat)
    requires Bands.Ascending(dirty) && index < |dirty|
    ensures forall row :: row in dirty[..index] <==> row in dirty && row < dirty[index]
  {
    forall row ensures row in dirty[..index] <==> row in dirty && row < dirty[index] {
      if row in dirty {
        var i :| 0 <= i < |dirty| && dirty[i] == row;
        assert i < index ==> dirty[..index][i] == row;
      }
    }
  }

  /** The rows of a run are those from its first to its last. */
  lemma InRun(dirty: seq<nat>, first: nat, last: nat)
    requires first <= last < |dirty| && dirty[first..last + 1] == Bands.RowsFrom(dirty[first], last + 1 - first)
    ensures dirty[last] == dirty[first] + (last - first)
    ensures forall row :: row in dirty[..last + 1] <==> row in dirty[..first] || dirty[first] <= row <= dirty[last]
  {
    var run := dirty[first..last + 1];
    assert run[last - first] == dirty[last];
    assert dirty[..last + 1] == dirty[..first] + run;
    forall row ensures row in run <==> dirty[first] <= row <= dirty[last] {
      if dirty[first] <= row <= dirty[last] {
        assert run[row - dirty[first]] == row;
      }
    }
  }
}
