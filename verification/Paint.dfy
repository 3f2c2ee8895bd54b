/** The printer: a screen as the bytes that redraw it. */
module Paint {
  import opened Wrappers
  import opened Bytes
  import opened Cells

  /** A rendition as parameter groups; an absent colour is the empty group. */
  datatype Sgr = Sgr(foreground: seq<nat>, background: seq<nat>, attributes: seq<nat>)

  const DEFAULT_SGR := Sgr([], [], [])

  const RESET: seq<byte> := [ESC, 0x5b, 0x30, 0x6d]
  const CRLF: seq<byte> := [0x0d, 0x0a]
  const ERASE_ALL: seq<byte> := [ESC, 0x5b, 0x32, 0x4a]
  const HOME: seq<byte> := [ESC, 0x5b, 0x48]
  const ENTER_ALT: seq<byte> := [ESC, 0x5b, 0x3f] + Decimal(1049) + [0x68]
  const LEAVE_ALT: seq<byte> := [ESC, 0x5b, 0x3f] + Decimal(1049) + [0x6c]

  function Flag(on: bool, code: nat): seq<nat> {
    if on then [code] else []
  }

  function Attributes(cell: Cell): seq<nat> {
    Flag(cell.bold, 1) + (Flag(cell.dim, 2) + (Flag(cell.italic, 3) + (Flag(cell.underline, 4)
    + (Flag(cell.inverse, 7) + (Flag(cell.hidden, 8) + Flag(cell.strikeout, 9))))))
  }

  function ColorCode(color: Color, background: bool): seq<nat> {
    var base := if background then 40 else 30;
    var bright := if background then 100 else 90;
    var extended := if background then 48 else 38;
    match color
    case Default => []
    case Named(index) =>
      if index < 8 then [base + index as nat] else if index < 16 then [bright + index as nat - 8] else []
    case Indexed(slot) => [extended, 5, slot as nat]
    case Rgb(r, g, b) => [extended, 2, r as nat, g as nat, b as nat]
  }

  function SgrOf(cell: Cell): Sgr {
    Sgr(ColorCode(cell.fg, false), ColorCode(cell.bg, true), Attributes(cell))
  }

  /** Numbers joined by `;`. */
  function Joined(ns: seq<nat>): seq<byte>
    requires |ns| > 0
  {
    if |ns| == 1 then Decimal(ns[0])
    else Joined(ns[..|ns| - 1]) + [0x3b] + Decimal(ns[|ns| - 1])
  }

  function EmitSgr(value: Sgr): seq<byte> {
    [ESC, 0x5b] + Joined([0] + (value.attributes + (value.foreground + value.background))) + [0x6d]
  }

  function Cup(at: Position): seq<byte> {
    [ESC, 0x5b] + Joined([at.row + 1, at.col + 1]) + [0x48]
  }

  predicate IsBlank(cell: Cell) {
    && cell.ch == 0x20
    && cell.zerowidth == []
    && cell.fg == Default
    && cell.bg == Default
    && !cell.bold && !cell.dim && !cell.italic && !cell.underline
    && !cell.inverse && !cell.strikeout && !cell.hidden
  }

  /** Length of `row` without its trailing blank cells. */
  function Trimmed(row: Row): (end: nat)
    ensures end <= |row|
    ensures end > 0 ==> !IsBlank(row[end - 1])
    ensures forall i | end <= i < |row| :: IsBlank(row[i])
  {
    if row == [] || !IsBlank(row[|row| - 1]) then |row| else Trimmed(row[..|row| - 1])
  }

  /** How many cells of `row` are painted: all of a wrapped row, the rest up to its blanks. */
  function PaintedEnd(row: Row): (end: nat)
    ensures end <= |row|
  {
    if Wrapped(row) then |row| else Trimmed(row)
  }

  function PaintCell(cell: Cell, current: Sgr): seq<byte> {
    (if SgrOf(cell) != current then EmitSgr(SgrOf(cell)) else []) + (Utf8(cell.ch) + Utf8All(cell.zerowidth))
  }

  /** The bytes and the final rendition of painting `cells` from rendition `current`. */
  function PaintCells(cells: Row, current: Sgr): (seq<byte>, Sgr) {
    if cells == [] then ([], current)
    else
      var last := cells[|cells| - 1];
      var (bytes, pen) := PaintCells(cells[..|cells| - 1], current);
      if last.spacer then (bytes, pen) else (bytes + PaintCell(last, pen), SgrOf(last))
  }

  function PaintRow(row: Row, current: Sgr): (seq<byte>, Sgr) {
    PaintCells(row[..PaintedEnd(row)], current)
  }

  /** The first `k` of `rows`, each closed by CRLF unless it wraps or is the last of all. */
  function PrimaryUpTo(rows: seq<Row>, k: nat): (seq<byte>, Sgr)
    requires k <= |rows|
  {
    if k == 0 then ([], DEFAULT_SGR)
    else
      var (before, pen) := PrimaryUpTo(rows, k - 1);
      var (bytes, after) := PaintRow(rows[k - 1], pen);
      if !Wrapped(rows[k - 1]) && k != |rows| then (before + bytes + (RESET + CRLF), DEFAULT_SGR)
      else (before + bytes, after)
  }

  function PaintPrimary(rows: seq<Row>): seq<byte> {
    PrimaryUpTo(rows, |rows|).0 + RESET
  }

  /** The first `k` alternate-screen rows, each addressed by CUP; a row that paints nothing is skipped. */
  function AltUpTo(rows: seq<Row>, k: nat): (seq<byte>, Sgr)
    requires k <= |rows|
  {
    if k == 0 then (ERASE_ALL, DEFAULT_SGR)
    else
      var (before, pen) := AltUpTo(rows, k - 1);
      var (bytes, after) := PaintRow(rows[k - 1], pen);
      (if bytes == [] then before else before + (Cup(Position(k - 1, 0)) + bytes), after)
  }

  function PaintAlt(rows: seq<Row>): seq<byte> {
    AltUpTo(rows, |rows|).0 + RESET
  }

  /** The rendition in force when row `k` of the flat alternate paint begins. */
  function FlatPen(rows: seq<Row>, k: nat): Sgr
    requires k <= |rows|
  {
    if k == 0 then DEFAULT_SGR else PaintRow(rows[k - 1], FlatPen(rows, k - 1)).1
  }

  function FlatRow(rows: seq<Row>, k: nat): seq<byte>
    requires k < |rows|
  {
    PaintRow(rows[k], FlatPen(rows, k)).0
  }

  /** The first `n` rows of the flat alternate paint, in one running rendition. */
  function FlatRows(rows: seq<Row>, n: nat): (r: seq<seq<byte>>)
    requires n <= |rows|
    ensures |r| == n
  {
    if n == 0 then [] else FlatRows(rows, n - 1) + [FlatRow(rows, n - 1)]
  }

  function DropEmptyTail(rows: seq<seq<byte>>): seq<seq<byte>> {
    if rows == [] || rows[|rows| - 1] != [] then rows else DropEmptyTail(rows[..|rows| - 1])
  }

  function JoinRows(rows: seq<seq<byte>>): seq<byte> {
    if rows == [] then []
    else if |rows| == 1 then rows[0]
    else JoinRows(rows[..|rows| - 1]) + (RESET + CRLF) + rows[|rows| - 1]
  }

  function PaintAltFlat(rows: seq<Row>): seq<byte> {
    JoinRows(DropEmptyTail(FlatRows(rows, |rows|)))
  }

  function DecSet(mode: nat): seq<byte> {
    [ESC, 0x5b, 0x3f] + Joined([mode]) + [0x68]
  }

  function DecReset(mode: nat): seq<byte> {
    [ESC, 0x5b, 0x3f] + Joined([mode]) + [0x6c]
  }

  /** `n` line ends, as a new shell's mirror is scrolled by one viewport. */
  function LineEnds(n: nat): seq<byte> {
    if n == 0 then [] else LineEnds(n - 1) + CRLF
  }

  const KEYPAD_APPLICATION: seq<byte> := [ESC, 0x3d]
  const INSERT_SET: seq<byte> := [ESC, 0x5b, 0x34, 0x68]

  const MODE_TABLE: seq<Mode> :=
    [BracketedPaste, AppCursor, AppKeypad, MouseX10, MouseClick, MouseHighlight, MouseDrag, MouseMotion,
     SgrMouse, Utf8Mouse, FocusInOut, Insert, AlternateScroll, LineWrap, ShowCursor]

  /** The two modes a fresh terminal has on; they are emitted when off, the others when on. */
  predicate StartsOn(mode: Mode) {
    mode == LineWrap || mode == ShowCursor
  }

  /** The private-mode number of `mode`; application keypad and insert are not private modes. */
  function ModeNumber(mode: Mode): nat {
    match mode
    case BracketedPaste => 2004
    case AppCursor => 1
    case MouseX10 => 9
    case MouseClick => 1000
    case MouseHighlight => 1001
    case MouseDrag => 1002
    case MouseMotion => 1003
    case SgrMouse => 1006
    case Utf8Mouse => 1005
    case FocusInOut => 1004
    case AlternateScroll => 1007
    case LineWrap => 7
    case ShowCursor => 25
    case AppKeypad => 0
    case Insert => 0
  }

  /** The bytes that move `mode` away from its fresh setting. */
  function SwitchBytes(mode: Mode): seq<byte> {
    if mode == AppKeypad then KEYPAD_APPLICATION
    else if mode == Insert then INSERT_SET
    else if StartsOn(mode) then DecReset(ModeNumber(mode))
    else DecSet(ModeNumber(mode))
  }

  predicate Enabled(modes: Modes, mode: Mode) {
    (mode in modes) != StartsOn(mode)
  }

  /** The switches of the first `k` table entries, in order. */
  function SwitchesUpTo(modes: Modes, k: nat): seq<byte>
    requires k <= |MODE_TABLE|
  {
    if k == 0 then []
    else
      SwitchesUpTo(modes, k - 1)
      + (if Enabled(modes, MODE_TABLE[k - 1]) then SwitchBytes(MODE_TABLE[k - 1]) else [])
  }

  function ModeSets(modes: Modes): seq<byte> {
    SwitchesUpTo(modes, |MODE_TABLE|)
  }

  function StyleCode(style: CursorStyle): nat {
    match style
    case CursorStyle(Block, true) => 1
    case CursorStyle(Block, false) => 2
    case CursorStyle(Underline, true) => 3
    case CursorStyle(Underline, false) => 4
    case CursorStyle(Bar, true) => 5
    case CursorStyle(Bar, false) => 6
  }

  function CursorStyleSet(style: CursorStyle): seq<byte> {
    [ESC, 0x5b] + Joined([StyleCode(style)]) + [0x20, 0x71]
  }

  /** The primary screen as it was printed just before the alternate screen was entered. */
  datatype FrozenPrimary = FrozenPrimary(paint: seq<byte>, cursor: Position)

  function Freeze(screen: Screen): FrozenPrimary {
    FrozenPrimary(PaintPrimary(screen.Lines()), screen.cursor)
  }

  /** Everything a fresh terminal needs to show `screen` and carry on from it. */
  function Rehydrate(screen: Screen, frozen: Option<FrozenPrimary>): seq<byte> {
    var body :=
      if screen.altActive then
        (if frozen.Some? then frozen.value.paint + Cup(frozen.value.cursor) else [])
        + (ENTER_ALT + (PaintAlt(screen.viewport) + Cup(screen.cursor)))
      else
        PaintPrimary(screen.Lines()) + Cup(screen.cursor);
    RESET + (body + (ModeSets(screen.modes) + CursorStyleSet(screen.cursorStyle)))
  }

  /** The archived form: every line as text, no cursor and no modes. */
  function ColdPaint(screen: Screen, frozen: Option<FrozenPrimary>): seq<byte> {
    var body :=
      if screen.altActive then
        (if frozen.Some? then frozen.value.paint else []) + (CRLF + PaintAltFlat(screen.viewport))
      else
        PaintPrimary(screen.Lines());
    RESET + (body + (RESET + CRLF))
  }

  lemma PaintCellsStep(row: Row, i: nat, current: Sgr)
    requires i < |row|
    ensures PaintCells(row[..i + 1], current) ==
            var (bytes, pen) := PaintCells(row[..i], current);
            if row[i].spacer then (bytes, pen) else (bytes + PaintCell(row[i], pen), SgrOf(row[i]))
  {
    assert row[..i + 1][..i] == row[..i];
  }

  /** How far the painter goes: the trailing blanks of an unwrapped row are walked back over. */
  method FindEnd(row: Row) returns (end: nat)
    ensures end == PaintedEnd(row)
  {
    end := |row|;
    if !Wrapped(row) {
      while end > 0 && IsBlank(row[end - 1])
        invariant 0 <= end <= |row|
        invariant Trimmed(row) == Trimmed(row[..end])
      {
        assert row[..end][..end - 1] == row[..end - 1];
        end := end - 1;
      }
    }
  }

  /** One cell pushed onto `output`: its rendition if that changed, its character, its marks. */
  method PushCell(output: seq<byte>, cell: Cell, current: Sgr) returns (pushed: seq<byte>, pen: Sgr)
    ensures pushed == output + PaintCell(cell, current)
    ensures pen == SgrOf(cell)
  {
    pushed, pen := output, SgrOf(cell);
    ghost var style := if pen != current then EmitSgr(pen) else [];
    if pen != current {
      pushed := pushed + EmitSgr(pen);
    }
    assert pushed == output + style;
    ghost var ch, marks := Utf8(cell.ch), Utf8All(cell.zerowidth);
    pushed := pushed + Utf8(cell.ch);
    pushed := pushed + Utf8All(cell.zerowidth);
    Assoc(output + style, ch, marks);
    Assoc(output, style, ch + marks);
  }

  /** One row pushed onto `output`, `current` being the rendition already in force. */
  method PushRow(output: seq<byte>, row: Row, current: Sgr)
    returns (pushed: seq<byte>, pen: Sgr, wrapped: bool)
    ensures pushed == output + PaintRow(row, current).0
    ensures pen == PaintRow(row, current).1
    ensures wrapped == Wrapped(row)
  {
    wrapped := Wrapped(row);
    var end := FindEnd(row);
    pushed, pen := output, current;
    for i := 0 to end
      invariant pushed == output + PaintCells(row[..i], current).0
      invariant pen == PaintCells(row[..i], current).1
    {
      PaintCellsStep(row, i, current);
      if !row[i].spacer {
        Assoc(output, PaintCells(row[..i], current).0, PaintCell(row[i], pen));
        pushed, pen := PushCell(pushed, row[i], pen);
      }
    }
  }

  /** The primary loop of the printer, line by line. */
  method PrintPrimary(rows: seq<Row>) returns (output: seq<byte>)
    ensures output == PaintPrimary(rows)
  {
    output := [];
    var current := DEFAULT_SGR;
    for line := 0 to |rows|
      invariant (output, current) == PrimaryUpTo(rows, line)
    {
      var wrapped;
      output, current, wrapped := PushRow(output, rows[line], current);
      if !wrapped && line != |rows| - 1 {
        output := output + (RESET + CRLF);
        current := DEFAULT_SGR;
      }
    }
    output := output + RESET;
  }

  /** A row behind its cursor address, the address taken back when the row paints nothing. */
  method PushAddressedRow(output: seq<byte>, line: nat, row: Row, current: Sgr)
    returns (pushed: seq<byte>, pen: Sgr)
    ensures pen == PaintRow(row, current).1
    ensures pushed == if PaintRow(row, current).0 == [] then output
                      else output + (Cup(Position(line, 0)) + PaintRow(row, current).0)
  {
    var address := Cup(Position(line, 0));
    var addressed := output + address;
    var wrapped;
    pushed, pen, wrapped := PushRow(addressed, row, current);
    Assoc(output, address, PaintRow(row, current).0);
    if |pushed| == |addressed| {
      pushed := pushed[..|output|];
    }
  }

  /** The alternate-screen loop. */
  method PrintAlt(rows: seq<Row>) returns (output: seq<byte>)
    ensures output == PaintAlt(rows)
  {
    output := ERASE_ALL;
    var current := DEFAULT_SGR;
    for line := 0 to |rows|
      invariant (output, current) == AltUpTo(rows, line)
    {
      output, current := PushAddressedRow(output, line, rows[line], current);
    }
    output := output + RESET;
  }

  /** The rows of the flat paint, collected one by one. */
  method CollectFlat(rows: seq<Row>) returns (painted: seq<seq<byte>>)
    ensures painted == FlatRows(rows, |rows|)
  {
    painted := [];
    var current := DEFAULT_SGR;
    for line := 0 to |rows|
      invariant painted == FlatRows(rows, line) && current == FlatPen(rows, line)
    {
      var row, pen, wrapped := PushRow([], rows[line], current);
      assert row == [] + FlatRow(rows, line) == FlatRow(rows, line);
      painted, current := painted + [row], pen;
    }
  }

  /** The flat alternate paint: empty rows popped from the end, the rest joined. */
  method PrintAltFlat(rows: seq<Row>) returns (output: seq<byte>)
    ensures output == PaintAltFlat(rows)
  {
    var painted := CollectFlat(rows);
    while painted != [] && painted[|painted| - 1] == []
      invariant DropEmptyTail(painted) == DropEmptyTail(FlatRows(rows, |rows|))
    {
      painted := painted[..|painted| - 1];
    }
    output := JoinRows(painted);
  }

  /** The table walk that emits each enabled mode. */
  method PrintModes(modes: Modes) returns (output: seq<byte>)
    ensures output == ModeSets(modes)
  {
    output := [];
    for i := 0 to |MODE_TABLE|
      invariant output == SwitchesUpTo(modes, i)
    {
      if Enabled(modes, MODE_TABLE[i]) {
        output := output + SwitchBytes(MODE_TABLE[i]);
      }
    }
  }
}
