/** What a painted row depends on, and the 64-bit value its hash mixes that into. */
module RowHash {
  import opened Wrappers
  import opened Bytes
  import opened Cells
  import opened Words

  datatype Palette = Palette(
    fg: nat, bg: nat, cursor: nat, cursorAccent: nat, selectionBg: nat, selectionFg: nat, ansi: seq<nat>)

  /** A cursor drawn on a row; its column is the source's `usize`. */
  datatype CursorMark = CursorMark(col: word, style: CursorStyle, focused: bool)

  datatype Preedit = Preedit(text: seq<scalar>, caret: word)

  datatype Composition = Composition(preedit: Preedit, col: word)

  /** First and last selected column. */
  datatype Span = Span(start: u16, end: u16)

  /** The cells as the row hash reads them: it does not look at the wrap flag. */
  function Unwrapped(row: Row): (r: Row)
    ensures |r| == |row| && forall i | 0 <= i < |row| :: r[i] == row[i].(wrapline := false)
  {
    seq(|row|, i requires 0 <= i < |row| => row[i].(wrapline := false))
  }

  /** Everything a row's picture depends on besides palette and dim: also in which columns the lookup of the glyph
      succeeded when the row was built. A composition takes the cursor's place. */
  datatype RowInput = RowInput(
    cells: Row,
    cursor: Option<CursorMark>,
    composition: Option<Composition>,
    selection: Option<Span>,
    found: seq<bool>)

  /** A row as it is built: its input, and the palette and dim in force with their revisions. */
  datatype RowKey = RowKey(input: RowInput, palette: Palette, dim: real, paletteRevision: word, dimRevision: word)

  // The mixing

  function StyleBits(style: CursorStyle): word {
    match style
    case CursorStyle(Block, false) => 0x10
    case CursorStyle(Block, true) => 0x11
    case CursorStyle(Underline, false) => 0x20
    case CursorStyle(Underline, true) => 0x21
    case CursorStyle(Bar, false) => 0x30
    case CursorStyle(Bar, true) => 0x31
  }

  function MarkBits(mark: CursorMark): word {
    XorWords(StyleBits(mark.style), if mark.focused then 0 else 0x40)
  }

  function ColumnBits(col: word): word {
    Wrap(0x9E37_79B9_7F4A_7C15 + col as nat)
  }

  /** What the cursor is worth. */
  function CursorBits(cursor: Option<CursorMark>): word {
    match cursor
    case None => 0
    case Some(mark) => XorWords(ColumnBits(mark.col), MarkBits(mark))
  }

  function PaletteBits(revision: word): word {
    Wrap(revision as nat * 0x9E37_79B9_7F4A_7C15)
  }

  function DimBits(revision: word): word {
    Wrap(revision as nat * 0xC2B2_AE3D_27D4_EB4F)
  }

  /** What the revisions are worth. */
  function RevisionBits(palette: word, dim: word): word {
    XorWords(PaletteBits(palette), DimBits(dim))
  }

  function Head(key: RowKey): word {
    XorWords(RevisionBits(key.paletteRevision, key.dimRevision), CursorBits(key.input.cursor))
  }

  function Step(h: word, x: nat): word {
    Wrap(h as nat * 31 + x)
  }

  function Text(h: word, bytes: seq<byte>): word {
    if bytes == [] then h else Step(Text(h, bytes[..|bytes| - 1]), bytes[|bytes| - 1] as nat + 1)
  }

  function Composed(h: word, composition: Option<Composition>): word {
    match composition
    case None => h
    case Some(c) => Composing(h, c.preedit.caret as nat, Utf8All(c.preedit.text), c.col as nat + 1)
  }

  function Composing(h: word, caret: nat, bytes: seq<byte>, last: nat): word {
    Step(Text(Step(h, caret), bytes), last)
  }

  function Selected(h: word, selection: Option<Span>): word {
    match selection
    case None => h
    case Some(span) => Step(Step(h, span.start as nat + 1), span.end as nat + 1)
  }

  function Tail(h: word, composition: Option<Composition>, selection: Option<Span>): word {
    Selected(Composed(h, composition), selection)
  }

  /** The row hash, from the hash of the cells. */
  function Mixed(cells: word, key: RowKey): word {
    Tail(XorWords(cells, Head(key)), key.input.composition, key.input.selection)
  }

  // The mixing as it is done

  method MixHead(cells: word, key: RowKey) returns (hash: word)
    ensures hash == XorWords(cells, Head(key))
  {
    var palette := PaletteBits(key.paletteRevision);
    var dim := DimBits(key.dimRevision);
    hash := XorWords(cells, palette);
    hash := XorWords(hash, dim);
    XorWordsAssoc(cells, palette, dim);
    ghost var revisions := RevisionBits(key.paletteRevision, key.dimRevision);
    if key.input.cursor.Some? {
      var mark := key.input.cursor.value;
      hash := MixCursor(hash, mark);
      XorWordsAssoc(cells, revisions, CursorBits(Some(mark)));
    } else {
      XorWordsZero(revisions);
    }
  }

  method MixCursor(h: word, mark: CursorMark) returns (hash: word)
    ensures hash == XorWords(h, CursorBits(Some(mark)))
  {
    var column, style := ColumnBits(mark.col), StyleBits(mark.style);
    hash := XorWords(h, column);
    hash := XorWords(hash, style);
    XorWordsAssoc(h, column, style);
    if !mark.focused {
      hash := XorWords(hash, 0x40);
      XorWordsAssoc(h, XorWords(column, style), 0x40);
      XorWordsAssoc(column, style, 0x40);
    } else {
      XorWordsZero(style);
    }
  }

  method MixComposition(h: word, composition: Composition) returns (hash: word)
    ensures hash == Composed(h, Some(composition))
  {
    hash := Step(h, composition.preedit.caret as nat);
    ghost var start := hash;
    var bytes := Utf8All(composition.preedit.text);
    for i := 0 to |bytes|
      invariant hash == Text(start, bytes[..i])
    {
      assert bytes[..i + 1][..i] == bytes[..i];
      hash := Step(hash, bytes[i] as nat + 1);
    }
    assert bytes[..|bytes|] == bytes;
    hash := Step(hash, composition.col as nat + 1);
  }

  method MixSelection(h: word, span: Span) returns (hash: word)
    ensures hash == Selected(h, Some(span))
  {
    hash := Step(h, span.start as nat + 1);
    hash := Step(hash, span.end as nat + 1);
  }

  /** The mixing, step by step. */
  method Mix(cells: word, key: RowKey) returns (hash: word)
    ensures hash == Mixed(cells, key)
  {
    hash := MixHead(cells, key);
    if key.input.composition.Some? {
      hash := MixComposition(hash, key.input.composition.value);
    }
    if key.input.selection.Some? {
      hash := MixSelection(hash, key.input.selection.value);
    }
  }

  // Steps and factors can be undone

  /** An odd factor with its inverse loses nothing. */
  lemma StepIsInjective(g: word, h: word, x: nat)
    ensures Step(g, x) == Step(h, x) <==> g == h
  {
    if Step(g, x) == Step(h, x) {
      var d, e := g as int - h as int, (g as int * 31 + x) / WORD - (h as int * 31 + x) / WORD;
      assert 31 * d == WORD * e;
      assert 0xEF7B_DEF7_BDEF_7BDF * 31 == 29 * WORD + 1;
      assert d == WORD * (0xEF7B_DEF7_BDEF_7BDF * e - 29 * d);
    }
  }

  lemma PaletteFactorIsInjective(a: word, b: word)
    ensures PaletteBits(a) == PaletteBits(b) <==> a == b
  {
    var x, y := a as nat * 0x9E37_79B9_7F4A_7C15, b as nat * 0x9E37_79B9_7F4A_7C15;
    if Wrap(x) == Wrap(y) {
      var d, e := a as int - b as int, x / WORD - y / WORD;
      assert 0x9E37_79B9_7F4A_7C15 * d == WORD * e;
      assert d == WORD * (0xF1DE_83E1_9937_733D * e - 0x957bbf35006ed677 * d);
    }
  }

  lemma DimFactorIsInjective(a: word, b: word)
    ensures DimBits(a) == DimBits(b) <==> a == b
  {
    var x, y := a as nat * 0xC2B2_AE3D_27D4_EB4F, b as nat * 0xC2B2_AE3D_27D4_EB4F;
    if Wrap(x) == Wrap(y) {
      var d, e := a as int - b as int, x / WORD - y / WORD;
      assert 0xC2B2_AE3D_27D4_EB4F * d == WORD * e;
      assert d == WORD * (0x0BA7_9078_168D_4BAF * e - 0x8dd1dec21860607 * d);
    }
  }

  lemma {:induction false} TextIsInjective(g: word, h: word, bytes: seq<byte>)
    ensures Text(g, bytes) == Text(h, bytes) <==> g == h
    decreases |bytes|
  {
    if bytes != [] {
      var init := bytes[..|bytes| - 1];
      TextIsInjective(g, h, init);
      StepIsInjective(Text(g, init), Text(h, init), bytes[|bytes| - 1] as nat + 1);
    }
  }

  lemma ComposedIsInjective(g: word, h: word, composition: Option<Composition>)
    ensures Composed(g, composition) == Composed(h, composition) <==> g == h
  {
    if composition.Some? {
      var caret, bytes := composition.value.preedit.caret as nat, Utf8All(composition.value.preedit.text);
      StepIsInjective(g, h, caret);
      TextIsInjective(Step(g, caret), Step(h, caret), bytes);
      StepIsInjective(Text(Step(g, caret), bytes), Text(Step(h, caret), bytes), composition.value.col as nat + 1);
    }
  }

  lemma SelectedIsInjective(g: word, h: word, selection: Option<Span>)
    ensures Selected(g, selection) == Selected(h, selection) <==> g == h
  {
    if selection.Some? {
      var start := selection.value.start as nat + 1;
      StepIsInjective(g, h, start);
      StepIsInjective(Step(g, start), Step(h, start), selection.value.end as nat + 1);
    }
  }

  lemma TailIsInjective(g: word, h: word, composition: Option<Composition>, selection: Option<Span>)
    ensures Tail(g, composition, selection) == Tail(h, composition, selection) <==> g == h
  {
    ComposedIsInjective(g, h, composition);
    SelectedIsInjective(Composed(g, composition), Composed(h, composition), selection);
  }

  // Which keys mix to the same value

  /** In one decoration, rows collide exactly when the hashes of their cells do. */
  lemma CellsCollide(c: word, d: word, a: RowKey, b: RowKey)
    requires Head(a) == Head(b) && a.input.composition == b.input.composition && a.input.selection == b.input.selection
    ensures Mixed(c, a) == Mixed(d, b) <==> c == d
  {
    XorWordsCancel(Head(a), c, d);
    TailIsInjective(XorWords(c, Head(a)), XorWords(d, Head(b)), a.input.composition, a.input.selection);
  }

  /** With the same cells, composition and selection: exactly when cursors and revisions are worth the same. */
  lemma HeadsCollide(c: word, a: RowKey, b: RowKey)
    requires a.input.composition == b.input.composition && a.input.selection == b.input.selection
    ensures Mixed(c, a) == Mixed(c, b) <==> Head(a) == Head(b)
  {
    XorWordsCancel(c, Head(a), Head(b));
    TailIsInjective(XorWords(c, Head(a)), XorWords(c, Head(b)), a.input.composition, a.input.selection);
  }

  /** A new palette alone, and a new dim alone, never collide. */
  lemma RevisionsCollide(a: RowKey, b: RowKey)
    requires a.input.cursor == b.input.cursor
    ensures a.dimRevision == b.dimRevision ==> (Head(a) == Head(b) <==> a.paletteRevision == b.paletteRevision)
    ensures a.paletteRevision == b.paletteRevision ==> (Head(a) == Head(b) <==> a.dimRevision == b.dimRevision)
  {
    var p, q := PaletteBits(a.paletteRevision), PaletteBits(b.paletteRevision);
    var d, e := DimBits(a.dimRevision), DimBits(b.dimRevision);
    PaletteFactorIsInjective(a.paletteRevision, b.paletteRevision);
    DimFactorIsInjective(a.dimRevision, b.dimRevision);
    XorWordsCancel(CursorBits(a.input.cursor), XorWords(p, d), XorWords(q, e));
    XorWordsCancel(d, p, q);
    XorWordsCancel(p, d, e);
  }

  // Cursors

  lemma {:induction false} XorItself(a: nat)
    ensures Xor(a, a) == 0
  {
    if a > 0 {
      XorItself(a / 2);
    }
  }

  /** The low bits of an exclusive or come from the low bits alone. */
  lemma XorAbove(a: nat, b: nat)
    ensures Xor(a, b) / 128 == Xor(a / 128, b / 128)
  {
    XorQuarters(a, b);
    XorQuarters(a / 4, b / 4);
    XorQuarters(a / 16, b / 16);
    XorHalves(a / 64, b / 64);
    Divided(a);
    Divided(b);
    Divided(Xor(a, b));
  }

  lemma XorQuarters(a: nat, b: nat)
    ensures Xor(a, b) / 4 == Xor(a / 4, b / 4)
  {
    XorHalves(a, b);
    XorHalves(a / 2, b / 2);
  }

  lemma Divided(a: nat)
    ensures a / 4 / 4 == a / 16 && a / 16 / 4 == a / 64 && a / 64 / 2 == a / 128
  {
  }

  predicate BitIsClear(a: nat, n: nat) {
    if n == 0 then a % 2 == 0 else BitIsClear(a / 2, n - 1)
  }

  lemma {:induction false} XorAdds(a: nat, n: nat)
    requires BitIsClear(a, n)
    ensures Xor(a, Pow2(n)) == a + Pow2(n)
    decreases n
  {
    if n == 0 {
      XorHalves(a, 1);
      XorZero(a / 2);
    } else {
      XorAdds(a / 2, n - 1);
      XorDoubled(a, Pow2(n - 1), Pow2(n));
    }
  }

  lemma XorDoubled(a: nat, half: nat, p: nat)
    requires p == 2 * half && Xor(a / 2, half) == a / 2 + half
    ensures Xor(a, p) == a + p
  {
    XorHalves(a, p);
    assert p / 2 == half && p % 2 == 0;
  }

  lemma MarkBitsValue(mark: CursorMark)
    ensures MarkBits(mark) as nat == StyleBits(mark.style) as nat + (if mark.focused then 0 else 0x40)
  {
    if mark.focused {
      XorZero(StyleBits(mark.style) as nat);
    } else {
      assert Pow2(6) == 0x40;
      assert BitIsClear(0x10, 6) && BitIsClear(0x11, 6);
      assert BitIsClear(0x20, 6) && BitIsClear(0x21, 6);
      assert BitIsClear(0x30, 6) && BitIsClear(0x31, 6);
      XorAdds(StyleBits(mark.style) as nat, 6);
    }
  }

  /** When two cursors are worth the same. In one style exactly when the columns are equal, and in one column
      exactly when style and focus are; otherwise exactly when what tells the columns apart is what tells the
      marks apart, which takes columns that agree above seven bits. */
  lemma CursorsCollide(a: CursorMark, b: CursorMark)
    ensures CursorBits(Some(a)) == CursorBits(Some(b)) <==>
            XorWords(ColumnBits(a.col), ColumnBits(b.col)) == XorWords(MarkBits(a), MarkBits(b))
    ensures a.style == b.style && a.focused == b.focused ==>
            (CursorBits(Some(a)) == CursorBits(Some(b)) <==> a.col == b.col)
    ensures a.col == b.col ==>
            (CursorBits(Some(a)) == CursorBits(Some(b)) <==> a.style == b.style && a.focused == b.focused)
    ensures CursorBits(Some(a)) == CursorBits(Some(b)) ==> ColumnBits(a.col) / 128 == ColumnBits(b.col) / 128
  {
    var p, q, m, n := ColumnBits(a.col), ColumnBits(b.col), MarkBits(a), MarkBits(b);
    RotateXor(p, m, q, n);
    XorWordsCancel(m, p, q);
    XorWordsCancel(p, m, n);
    MarkBitsTellApart(a, b);
    AboveMarks(a);
    AboveMarks(b);
  }

  lemma MarkBitsTellApart(a: CursorMark, b: CursorMark)
    ensures MarkBits(a) == MarkBits(b) <==> a.style == b.style && a.focused == b.focused
  {
    MarkBitsValue(a);
    MarkBitsValue(b);
  }

  lemma AboveMarks(mark: CursorMark)
    ensures CursorBits(Some(mark)) / 128 == ColumnBits(mark.col) / 128
  {
    MarkBitsValue(mark);
    XorLow(ColumnBits(mark.col) as nat, MarkBits(mark) as nat);
  }

  lemma XorLow(a: nat, b: nat)
    requires b < 128
    ensures Xor(a, b) / 128 == a / 128
  {
    XorAbove(a, b);
    XorZero(a / 128);
  }

  lemma RotateXor(p: word, m: word, q: word, n: word)
    ensures XorWords(p, m) == XorWords(q, n) <==> XorWords(p, q) == XorWords(m, n)
  {
    // Both say that the exclusive or of all four is 0.
    XorIsZero(XorWords(p, m), XorWords(q, n));
    XorIsZero(XorWords(p, q), XorWords(m, n));
    Swap(p, m, q, n);
  }

  lemma XorIsZero(a: word, b: word)
    ensures XorWords(a, b) == 0 <==> a == b
  {
    XorItself(a as nat);
    XorWordsCancel(a, a, b);
  }

  lemma Swap(p: word, m: word, q: word, n: word)
    ensures XorWords(XorWords(p, m), XorWords(q, n)) == XorWords(XorWords(p, q), XorWords(m, n))
  {
    XorWordsAssoc(p, m, XorWords(q, n));
    XorWordsAssoc(m, q, n);
    XorCommutes(m as nat, q as nat);
    XorWordsAssoc(q, m, n);
    XorWordsAssoc(p, q, XorWords(m, n));
  }

  /** A cursor passes for none exactly in the column where the sum wraps around to its mark. */
  lemma CursorOrNone(mark: CursorMark)
    ensures CursorBits(Some(mark)) == CursorBits(None) <==> ColumnBits(mark.col) == MarkBits(mark)
    ensures mark.col < 0x61C8_8646_80B5_83EB ==> CursorBits(Some(mark)) != CursorBits(None)
  {
    XorIsZero(ColumnBits(mark.col), MarkBits(mark));
    MarkBitsValue(mark);
  }

  // Selections

  function SelectionSum(span: Span): nat {
    31 * span.start as nat + span.end as nat
  }

  /** Two selections collide exactly when `31 * start + end` is the same, whatever the cells. */
  lemma SelectionsCollide(h: word, a: Span, b: Span)
    ensures Selected(h, Some(a)) == Selected(h, Some(b)) <==> SelectionSum(a) == SelectionSum(b)
  {
    TwoStepsCollide(h, a.start as nat + 1, a.end as nat + 1, b.start as nat + 1, b.end as nat + 1);
  }

  lemma TwoStepsCollide(h: word, x: nat, y: nat, u: nat, v: nat)
    requires 31 * x + y < WORD && 31 * u + v < WORD
    ensures Step(Step(h, x), y) == Step(Step(h, u), v) <==> 31 * x + y == 31 * u + v
  {
    var base, m, n := 961 * h as nat, 31 * x + y, 31 * u + v;
    TwoSteps(h, x, y, h as nat * 31 + x, base + m);
    TwoSteps(h, u, v, h as nat * 31 + u, base + n);
    SumsCollide(base, m, n);
  }

  lemma TwoSteps(h: word, x: nat, y: nat, once: nat, twice: nat)
    requires once == h as nat * 31 + x && twice == 31 * once + y
    ensures Step(Step(h, x), y) == Wrap(twice)
  {
    StepSum(once, y);
  }

  lemma StepSum(x: nat, y: nat)
    ensures Step(Wrap(x), y) == Wrap(31 * x + y)
  {
    var q := x / WORD;
    assert 31 * x + y == (x % WORD) * 31 + y + WORD * (31 * q);
    WrapAround((x % WORD) * 31 + y, 31 * q);
  }

  lemma WrapAround(x: nat, q: nat)
    ensures Wrap(x + WORD * q) == Wrap(x)
  {
  }

  lemma SumsCollide(base: nat, x: nat, y: nat)
    requires x < WORD && y < WORD
    ensures Wrap(base + x) == Wrap(base + y) <==> x == y
  {
  }

  /** A selection passes for none exactly when this sum wraps around to 0, which takes a multiple of 32. */
  lemma SelectionOrNone(h: word, span: Span, sum: nat)
    requires sum == 960 * h as nat + 32 + SelectionSum(span)
    ensures Selected(h, Some(span)) == h <==> sum % WORD == 0
  {
    var x, y := span.start as nat + 1, span.end as nat + 1;
    StepsOrNone(h, x, y, sum);
    assert Selected(h, Some(span)) == Step(Step(h, x), y);
  }

  lemma SelectionIsSeen(h: word, span: Span)
    requires SelectionSum(span) % 32 != 0
    ensures Selected(h, Some(span)) != Selected(h, None)
  {
    var sum := 960 * h as nat + 32 + SelectionSum(span);
    SelectionOrNone(h, span, sum);
    Residues(h as nat, SelectionSum(span), sum);
  }

  lemma StepsOrNone(h: word, x: nat, y: nat, sum: nat)
    requires sum == 960 * h as nat + 31 * x + y
    ensures Step(Step(h, x), y) == h <==> sum % WORD == 0
  {
    TwoSteps(h, x, y, h as nat * 31 + x, sum + h as nat);
    WrapsToItself(sum, h);
  }

  lemma WrapsToItself(sum: nat, h: word)
    ensures Wrap(sum + h as nat) == h <==> sum % WORD == 0
  {
  }

  lemma Residues(h: nat, x: nat, sum: nat)
    requires sum == 960 * h + 32 + x
    ensures sum % WORD == 0 ==> x % 32 == 0
  {
    var q := sum / WORD;
    if sum % WORD == 0 {
      MultipleOf32(x, 0x800_0000_0000_0000 * q - 30 * h - 1);
    }
  }

  lemma MultipleOf32(x: nat, m: int)
    requires x == 32 * m
    ensures x % 32 == 0
  {
  }

  // Compositions

  /** How many times the running hash is multiplied by 31. */
  function Steps(composition: Option<Composition>, selection: Option<Span>): nat {
    (if composition.Some? then |Utf8All(composition.value.preedit.text)| + 2 else 0) +
      (if selection.Some? then 2 else 0)
  }

  /** `h` times 31 to the power of `n`. */
  function Scaled(h: nat, n: nat): nat {
    if n == 0 then h else 31 * Scaled(h, n - 1)
  }

  function Affine(h: nat, n: nat, shift: word): word {
    Wrap(Scaled(h, n) + shift as nat)
  }

  lemma StepIsAffine(h: nat, n: nat, next: nat, shift: word, x: nat)
    requires next == n + 1
    ensures Step(Affine(h, n, shift), x) == Affine(h, next, Step(shift, x))
  {
    ScaledNext(h, n, next);
    ShiftedStep(Scaled(h, n), Scaled(h, next), shift, x, Affine(h, n, shift), Affine(h, next, Step(shift, x)));
  }

  lemma {:induction false} ScaledNext(h: nat, n: nat, next: nat)
    requires next == n + 1
    ensures Scaled(h, next) == 31 * Scaled(h, n)
  {
  }

  lemma ShiftedStep(p: nat, q: nat, shift: word, x: nat, from: word, to: word)
    requires q == 31 * p && from == Wrap(p + shift as nat) && to == Wrap(q + Step(shift, x) as nat)
    ensures Step(from, x) == to
  {
    var sum, rest := shift as nat * 31 + x, Step(shift, x) as nat;
    StepSum(p + shift as nat, x);
    assert 31 * (p + shift as nat) + x == (q + rest) + WORD * (sum / WORD);
    WrapAround(q + rest, sum / WORD);
  }

  lemma {:induction false} TextIsAffine(h: nat, n: nat, end: nat, shift: word, bytes: seq<byte>)
    requires end == n + |bytes|
    ensures Text(Affine(h, n, shift), bytes) == Affine(h, end, Text(shift, bytes))
    decreases |bytes|
  {
    if bytes != [] {
      var init := bytes[..|bytes| - 1];
      TextIsAffine(h, n, end - 1, shift, init);
      StepIsAffine(h, end - 1, end, Text(shift, init), bytes[|bytes| - 1] as nat + 1);
    }
  }

  lemma ComposedIsAffine(h: nat, shift: word, composition: Option<Composition>, n: nat)
    requires n == Steps(composition, None)
    ensures Composed(Affine(h, 0, shift), composition) == Affine(h, n, Composed(shift, composition))
  {
    if composition.Some? {
      var caret, bytes, last := composition.value.preedit.caret as nat, Utf8All(composition.value.preedit.text),
        composition.value.col as nat + 1;
      ComposingIsAffine(h, shift, caret, bytes, last, n - 1, n);
    }
  }

  lemma ComposingIsAffine(h: nat, shift: word, caret: nat, bytes: seq<byte>, last: nat, m: nat, n: nat)
    requires m == 1 + |bytes| && n == m + 1
    ensures Composing(Affine(h, 0, shift), caret, bytes, last) == Affine(h, n, Composing(shift, caret, bytes, last))
  {
    StepIsAffine(h, 0, 1, shift, caret);
    TextIsAffine(h, 1, m, Step(shift, caret), bytes);
    StepIsAffine(h, m, n, Text(Step(shift, caret), bytes), last);
  }

  lemma SelectedIsAffine(h: nat, n: nat, end: nat, shift: word, selection: Option<Span>)
    requires end == n + Steps(None, selection)
    ensures Selected(Affine(h, n, shift), selection) == Affine(h, end, Selected(shift, selection))
  {
    if selection.Some? {
      var start := selection.value.start as nat + 1;
      StepIsAffine(h, n, end - 1, shift, start);
      StepIsAffine(h, end - 1, end, Step(shift, start), selection.value.end as nat + 1);
    }
  }

  /** Composition and selection scale the hash by a power of 31 and shift it. */
  lemma TailIsAffine(h: word, composition: Option<Composition>, selection: Option<Span>, n: nat)
    requires n == Steps(composition, selection)
    ensures Tail(h, composition, selection) == Affine(h as nat, n, Tail(0, composition, selection))
  {
    var composed := Steps(composition, None);
    assert Affine(h as nat, 0, 0) == h;
    ComposedIsAffine(h as nat, 0, composition, composed);
    SelectedIsAffine(h as nat, composed, n, Composed(0, composition), selection);
  }

  /** Any two keys over any cells: exactly when the words they are mixed to, before wrapping around, differ by a
      multiple of 2 to the power of 64. */
  lemma KeysCollide(c: word, d: word, a: RowKey, b: RowKey, m: nat, n: nat, x: nat, y: nat)
    requires m == Steps(a.input.composition, a.input.selection) && n == Steps(b.input.composition, b.input.selection)
    requires x == Scaled(XorWords(c, Head(a)) as nat, m) + Tail(0, a.input.composition, a.input.selection) as nat
    requires y == Scaled(XorWords(d, Head(b)) as nat, n) + Tail(0, b.input.composition, b.input.selection) as nat
    ensures Mixed(c, a) == Mixed(d, b) <==> (x - y) % WORD == 0
  {
    TailIsAffine(XorWords(c, Head(a)), a.input.composition, a.input.selection, m);
    TailIsAffine(XorWords(d, Head(b)), b.input.composition, b.input.selection, n);
    WrapsAlike(x, y);
  }

  lemma WrapsAlike(x: nat, y: nat)
    ensures Wrap(x) == Wrap(y) <==> (x - y) % WORD == 0
  {
    var p, q := x / WORD, y / WORD;
    assert x - y == WORD * (p - q) + (x % WORD - y % WORD);
    Multiple(x - y, p - q, x % WORD - y % WORD);
  }

  lemma Multiple(x: int, q: int, rest: int)
    requires x == WORD * q + rest && -(WORD as int) < rest < WORD
    ensures x % WORD == 0 <==> rest == 0
  {
    var k := x / WORD;
    if x % WORD == 0 {
      assert rest == WORD * (k - q);
    }
  }

  /** With the same cells and head: as many steps collide exactly when they do from nothing. */
  lemma TailsCollide(c: word, a: RowKey, b: RowKey)
    requires Head(a) == Head(b)
    requires Steps(a.input.composition, a.input.selection) == Steps(b.input.composition, b.input.selection)
    ensures Mixed(c, a) == Mixed(c, b) <==>
            Tail(0, a.input.composition, a.input.selection) == Tail(0, b.input.composition, b.input.selection)
  {
    var h, n := XorWords(c, Head(a)), Steps(a.input.composition, a.input.selection);
    TailIsAffine(h, a.input.composition, a.input.selection, n);
    TailIsAffine(h, b.input.composition, b.input.selection, n);
    ShiftsCollide(h as nat, n, Tail(0, a.input.composition, a.input.selection),
      Tail(0, b.input.composition, b.input.selection));
  }

  lemma ShiftsCollide(h: nat, n: nat, a: word, b: word)
    ensures Affine(h, n, a) == Affine(h, n, b) <==> a == b
  {
    SumsCollide(Scaled(h, n), a as nat, b as nat);
  }

  /** Text that differs in its last two bytes collides exactly when 31 times the first plus the second is the same. */
  lemma LastBytesCollide(h: word, init: seq<byte>, a: byte, b: byte, c: byte, d: byte)
    ensures Text(h, init + [a, b]) == Text(h, init + [c, d]) <==> 31 * a as nat + b as nat == 31 * c as nat + d as nat
  {
    TextOfTwo(h, init, a, b);
    TextOfTwo(h, init, c, d);
    TwoStepsCollide(Text(h, init), a as nat + 1, b as nat + 1, c as nat + 1, d as nat + 1);
  }

  lemma TextOfTwo(h: word, init: seq<byte>, a: byte, b: byte)
    ensures Text(h, init + [a, b]) == Step(Step(Text(h, init), a as nat + 1), b as nat + 1)
  {
    assert (init + [a, b])[..|init| + 1] == init + [a];
    assert (init + [a])[..|init|] == init;
  }

  // Different pictures, equal hashes

  /** Two kana in the same place of a composition. */
  lemma KanaCollide(h: word, caret: word, col: word)
    ensures Composed(h, Some(Composition(Preedit([0x3065], caret), col))) ==
            Composed(h, Some(Composition(Preedit([0x3086], caret), col)))
  {
    assert Utf8All([0x3065]) == [0xe3] + [0x81, 0xa5];
    assert Utf8All([0x3086]) == [0xe3] + [0x82, 0x86];
    LastBytesCollide(Step(h, caret as nat), [0xe3], 0x81, 0xa5, 0x82, 0x86);
  }

  /** A steady cursor in any odd column, and a blinking one in the next. */
  lemma BlinkingNextDoorCollides(col: word, shape: CursorShape, focused: bool)
    requires col % 2 == 1 && col < 0x1_0000
    ensures CursorBits(Some(CursorMark(col, CursorStyle(shape, false), focused))) ==
            CursorBits(Some(CursorMark(col + 1, CursorStyle(shape, true), focused)))
  {
    var steady, blinking := CursorMark(col, CursorStyle(shape, false), focused),
      CursorMark(col + 1, CursorStyle(shape, true), focused);
    NextColumn(col);
    NextMark(shape, focused, col);
    XorNextDoor(ColumnBits(col), ColumnBits(col + 1), MarkBits(steady), MarkBits(blinking));
  }

  lemma NextColumn(col: word)
    requires col % 2 == 1 && col < 0x1_0000
    ensures ColumnBits(col) % 2 == 0 && ColumnBits(col + 1) as nat == ColumnBits(col) as nat + 1
  {
  }

  lemma NextMark(shape: CursorShape, focused: bool, col: word)
    requires col < 0x1_0000
    ensures var m := MarkBits(CursorMark(col, CursorStyle(shape, false), focused));
            m % 2 == 0 && MarkBits(CursorMark(col + 1, CursorStyle(shape, true), focused)) as nat == m as nat + 1
  {
    MarkBitsValue(CursorMark(col, CursorStyle(shape, false), focused));
    MarkBitsValue(CursorMark(col + 1, CursorStyle(shape, true), focused));
  }

  lemma XorNextDoor(a: word, next: word, b: word, last: word)
    requires a % 2 == b % 2 == 0 && next as nat == a as nat + 1 && last as nat == b as nat + 1
    ensures XorWords(next, last) == XorWords(a, b)
  {
    XorHalves(a as nat, b as nat);
    XorHalves(next as nat, last as nat);
    assert next as nat / 2 == a as nat / 2 && last as nat / 2 == b as nat / 2;
  }

  /** A block in column 0 and an underline in column 16. */
  lemma UnderlineFurtherOnCollides(focused: bool)
    ensures CursorBits(Some(CursorMark(0, CursorStyle(Block, false), focused))) ==
            CursorBits(Some(CursorMark(16, CursorStyle(Underline, false), focused)))
  {
    var block, underline := CursorMark(0, CursorStyle(Block, false), focused),
      CursorMark(16, CursorStyle(Underline, false), focused);
    var focus: word := if focused then 0 else 0x40;
    BitsTakenAway();
    XorWordsAssoc(ColumnBits(0), 0x10, focus);
    XorWordsAssoc(ColumnBits(16), 0x20, focus);
  }

  lemma BitsTakenAway()
    ensures XorWords(ColumnBits(0), 0x10) == XorWords(ColumnBits(16), 0x20)
  {
    var rest: word := 0x9E37_79B9_7F4A_7C05;
    XorTwice(rest, 4);
    XorTwice(rest, 5);
    assert Pow2(4) == 0x10 && Pow2(5) == 0x20;
  }

  /** An underline in column 32 under palette revision 0, and no cursor under revision 1. */
  lemma RevisionHidesACursor(dim: word)
    ensures XorWords(RevisionBits(0, dim), CursorBits(Some(CursorMark(32, CursorStyle(Underline, false), true)))) ==
            XorWords(RevisionBits(1, dim), CursorBits(None))
  {
    var mark := CursorMark(32, CursorStyle(Underline, false), true);
    ColumnPassesForRevision();
    assert CursorBits(Some(mark)) == PaletteBits(1) by { XorWordsZero(StyleBits(mark.style)); }
    XorWordsZero(DimBits(dim));
    XorWordsZero(RevisionBits(1, dim));
    XorCommutes(PaletteBits(1) as nat, DimBits(dim) as nat);
  }

  lemma ColumnPassesForRevision()
    ensures XorWords(ColumnBits(32), 0x20) == PaletteBits(1)
  {
    var p: word := 0x9E37_79B9_7F4A_7C15;
    XorTwice(p, 5);
    assert Pow2(5) == 0x20;
  }

  lemma XorTwice(p: word, n: nat)
    requires BitIsClear(p as nat, n)
    ensures Xor(p as nat + Pow2(n), Pow2(n)) == p as nat
  {
    XorAdds(p as nat, n);
    XorIsAssociative(p as nat, Pow2(n), Pow2(n));
    XorItself(Pow2(n));
    XorZero(p as nat);
  }
}
