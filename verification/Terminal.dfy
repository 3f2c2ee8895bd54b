/**
  A reference terminal for the byte sequences the printer emits: SGR (section 8.3.117 of ECMA-48),
  CUP (8.3.21), ED (8.3.39), CR (8.3.15), LF (8.3.74), SM and RM (8.3.125, 8.3.106), DECSET, DECRST,
  DECSCUSR and DECKPAM, deferred wrap, wide and combining characters, and the 1049 alternate screen.
  It reads one byte at a time, so any split of a stream leaves it in the same state.
*/
module Terminal {
  import opened Wrappers
  import opened Bytes
  import opened Cells

  datatype Style = Style(
    fg: Color,
    bg: Color,
    bold: bool,
    dim: bool,
    italic: bool,
    underline: bool,
    inverse: bool,
    hidden: bool,
    strikeout: bool)

  const PLAIN := Style(Default, Default, false, false, false, false, false, false, false)

  /** One column: a glyph with its combining marks, or the right half of a wide glyph. */
  datatype Tile = Glyph(ch: nat, marks: seq<nat>, style: Style, wide: bool) | Tail

  const BLANK := Glyph(0x20, [], PLAIN, false)

  datatype Line = Line(tiles: seq<Tile>, wrapped: bool)

  /** Scrollback and viewport in one list: the viewport is the last `rows` lines. */
  datatype Grid = Grid(lines: seq<Line>, row: nat, col: nat, pending: bool)

  datatype Parser =
    | Ground
    | Multibyte(need: nat, acc: nat)
    | Escape
    | Control(private: bool, params: seq<nat>, space: bool)

  datatype Term = Term(
    cols: nat,
    rows: nat,
    width: nat -> nat,
    main: Grid,
    alt: Option<Grid>,
    pen: Style,
    modes: Modes,
    cursorStyle: CursorStyle,
    parser: Parser)

  // Grids

  function Blanks(n: nat): (tiles: seq<Tile>)
    ensures |tiles| == n && forall i | 0 <= i < n :: tiles[i] == BLANK
  {
    seq(n, _ => BLANK)
  }

  function BlankLine(cols: nat): (line: Line)
    ensures |line.tiles| == cols
  {
    Line(Blanks(cols), false)
  }

  function BlankLines(n: nat, cols: nat): (lines: seq<Line>)
    ensures |lines| == n && forall i | 0 <= i < n :: lines[i] == BlankLine(cols)
  {
    seq(n, _ => BlankLine(cols))
  }

  ghost predicate ValidGrid(g: Grid, cols: nat, rows: nat) {
    && 0 < cols && g.row < rows <= |g.lines| && g.col < cols
    && (forall l | l in g.lines :: |l.tiles| == cols)
  }

  /** Index of the cursor's line in the whole list. */
  function At(g: Grid, rows: nat): nat
    requires g.row < rows <= |g.lines|
  {
    |g.lines| - rows + g.row
  }

  function LineFeed(g: Grid, cols: nat, rows: nat, scrollback: bool): (r: Grid)
    requires ValidGrid(g, cols, rows)
    ensures ValidGrid(r, cols, rows)
    ensures !scrollback ==> |r.lines| == |g.lines|
  {
    if g.row + 1 < rows then g.(row := g.row + 1)
    else if scrollback then g.(lines := g.lines + [BlankLine(cols)])
    else g.(lines := g.lines[1..] + [BlankLine(cols)])
  }

  /** The deferred wrap: the line is flagged and the cursor opens the next one. */
  function WrapLine(g: Grid, cols: nat, rows: nat, scrollback: bool): (r: Grid)
    requires ValidGrid(g, cols, rows)
    ensures ValidGrid(r, cols, rows) && r.col == 0
    ensures !scrollback ==> |r.lines| == |g.lines|
  {
    var at := At(g, rows);
    LineFeed(g.(lines := g.lines[at := g.lines[at].(wrapped := true)]), cols, rows, scrollback)
      .(col := 0, pending := false)
  }

  function Overwrite(g: Grid, rows: nat, col: nat, tiles: seq<Tile>): (r: Grid)
    requires g.row < rows <= |g.lines|
    requires col + |tiles| <= |g.lines[At(g, rows)].tiles|
    ensures |r.lines| == |g.lines| && r.row == g.row && r.col == g.col
    ensures |r.lines[At(g, rows)].tiles| == |g.lines[At(g, rows)].tiles|
  {
    var at := At(g, rows);
    var line := g.lines[at];
    g.(lines := g.lines[at := line.(tiles := line.tiles[..col] + tiles + line.tiles[col + |tiles|..])])
  }

  /** Writes `tiles` at the cursor and advances; reaching the last column defers the wrap. */
  function Put(g: Grid, cols: nat, rows: nat, tiles: seq<Tile>): (r: Grid)
    requires ValidGrid(g, cols, rows) && g.col + |tiles| <= cols
    ensures ValidGrid(r, cols, rows) && |r.lines| == |g.lines|
  {
    var written := Overwrite(g, rows, g.col, tiles);
    if g.col + |tiles| >= cols then written.(col := cols - 1, pending := true)
    else written.(col := g.col + |tiles|, pending := false)
  }

  /** A combining mark joins the glyph before the cursor, stepping over a wide glyph's right half. */
  function Mark(g: Grid, cols: nat, rows: nat, mark: nat): (r: Grid)
    requires ValidGrid(g, cols, rows)
    ensures ValidGrid(r, cols, rows) && |r.lines| == |g.lines|
  {
    var tiles := g.lines[At(g, rows)].tiles;
    if !g.pending && g.col == 0 then g
    else
      var last := if g.pending then g.col else g.col - 1;
      var base := if tiles[last].Tail? && last > 0 then last - 1 else last;
      if tiles[base].Tail? then g
      else Overwrite(g, rows, base, [tiles[base].(marks := tiles[base].marks + [mark])])
  }

  function EraseDisplay(g: Grid, cols: nat, rows: nat): (r: Grid)
    requires ValidGrid(g, cols, rows)
    ensures ValidGrid(r, cols, rows) && |r.lines| == |g.lines|
  {
    g.(lines := g.lines[..|g.lines| - rows] + BlankLines(rows, cols))
  }

  function Min(a: nat, b: nat): nat {
    if a < b then a else b
  }

  // Terminals

  ghost predicate Valid(t: Term) {
    && ValidGrid(t.main, t.cols, t.rows)
    && (t.alt.Some? ==> ValidGrid(t.alt.value, t.cols, t.rows) && |t.alt.value.lines| == t.rows)
    && (t.parser.Control? ==> |t.parser.params| > 0)
  }

  const FRESH_MODES: Modes := {LineWrap, ShowCursor}

  function Fresh(cols: nat, rows: nat, width: nat -> nat): (t: Term)
    requires cols > 0 && rows > 0
    ensures Valid(t)
  {
    Term(cols, rows, width, Grid(BlankLines(rows, cols), 0, 0, false), None, PLAIN, FRESH_MODES,
         CursorStyle(Block, true), Ground)
  }

  function Active(t: Term): Grid {
    if t.alt.Some? then t.alt.value else t.main
  }

  function WithActive(t: Term, g: Grid): Term {
    if t.alt.Some? then t.(alt := Some(g)) else t.(main := g)
  }

  function NewLine(t: Term): (r: Term)
    requires Valid(t)
    ensures Valid(r)
  {
    WithActive(t, LineFeed(Active(t), t.cols, t.rows, t.alt.None?))
  }

  /** The grid a glyph of `w` columns lands on: wrapped first when a wrap is owed or it cannot fit. */
  function Landing(g: Grid, cols: nat, rows: nat, scrollback: bool, autowrap: bool, w: nat): (r: Grid)
    requires ValidGrid(g, cols, rows)
    ensures ValidGrid(r, cols, rows)
    ensures !scrollback ==> |r.lines| == |g.lines|
  {
    var g1 := if g.pending && autowrap then WrapLine(g, cols, rows, scrollback) else g;
    if autowrap && w <= cols && g1.col + w > cols then
      WrapLine(Overwrite(g1, rows, g1.col, [BLANK]), cols, rows, scrollback)
    else g1
  }

  function Print(t: Term, ch: nat): (r: Term)
    requires Valid(t)
    ensures Valid(r)
  {
    var g := Active(t);
    if t.width(ch) == 0 then WithActive(t, Mark(g, t.cols, t.rows, ch))
    else
      var tiles := if t.width(ch) == 1 then [Glyph(ch, [], t.pen, false)] else [Glyph(ch, [], t.pen, true), Tail];
      var landed := Landing(g, t.cols, t.rows, t.alt.None?, LineWrap in t.modes, |tiles|);
      if landed.col + |tiles| > t.cols then t else WithActive(t, Put(landed, t.cols, t.rows, tiles))
  }

  function Sgr1(pen: Style, code: nat): Style {
    if code == 0 then PLAIN
    else if code == 1 then pen.(bold := true)
    else if code == 2 then pen.(dim := true)
    else if code == 3 then pen.(italic := true)
    else if code == 4 then pen.(underline := true)
    else if code == 7 then pen.(inverse := true)
    else if code == 8 then pen.(hidden := true)
    else if code == 9 then pen.(strikeout := true)
    else if 30 <= code < 38 then pen.(fg := Named((code - 30) as byte))
    else if 90 <= code < 98 then pen.(fg := Named((code - 82) as byte))
    else if 40 <= code < 48 then pen.(bg := Named((code - 40) as byte))
    else if 100 <= code < 108 then pen.(bg := Named((code - 92) as byte))
    else if code == 39 then pen.(fg := Default)
    else if code == 49 then pen.(bg := Default)
    else pen
  }

  function WithColor(pen: Style, background: bool, color: Color): Style {
    if background then pen.(bg := color) else pen.(fg := color)
  }

  function ApplySgr(pen: Style, params: seq<nat>): Style
    decreases |params|
  {
    if params == [] then pen
    else if params[0] == 38 || params[0] == 48 then
      var background := params[0] == 48;
      if |params| >= 3 && params[1] == 5 && params[2] < 256 then
        ApplySgr(WithColor(pen, background, Indexed(params[2] as byte)), params[3..])
      else if |params| >= 5 && params[1] == 2 && params[2] < 256 && params[3] < 256 && params[4] < 256 then
        ApplySgr(WithColor(pen, background, Rgb(params[2] as byte, params[3] as byte, params[4] as byte)), params[5..])
      else pen
    else ApplySgr(Sgr1(pen, params[0]), params[1..])
  }

  /** What a private-mode number controls; the alternate screen is handled apart. */
  function PrivateModeOf(number: nat): Option<Mode> {
    if number == 2004 then Some(BracketedPaste)
    else if number == 1 then Some(AppCursor)
    else if number == 9 then Some(MouseX10)
    else if number == 1000 then Some(MouseClick)
    else if number == 1001 then Some(MouseHighlight)
    else if number == 1002 then Some(MouseDrag)
    else if number == 1003 then Some(MouseMotion)
    else if number == 1006 then Some(SgrMouse)
    else if number == 1005 then Some(Utf8Mouse)
    else if number == 1004 then Some(FocusInOut)
    else if number == 1007 then Some(AlternateScroll)
    else if number == 7 then Some(LineWrap)
    else if number == 25 then Some(ShowCursor)
    else None
  }

  function SetMode(modes: Modes, mode: Mode, on: bool): Modes {
    if on then modes + {mode} else modes - {mode}
  }

  /** 1049: the alternate screen opens blank at the same cursor; leaving uncovers the main one. */
  function SwitchScreen(t: Term, on: bool): (r: Term)
    requires Valid(t)
    ensures Valid(r)
  {
    if !on then t.(alt := None)
    else if t.alt.Some? then t
    else t.(alt := Some(Grid(BlankLines(t.rows, t.cols), t.main.row, t.main.col, false)))
  }

  function PrivateMode(t: Term, mode: nat, on: bool): (r: Term)
    requires Valid(t)
    ensures Valid(r)
  {
    if mode == 1049 || mode == 1047 || mode == 47 then SwitchScreen(t, on)
    else if PrivateModeOf(mode).Some? then t.(modes := SetMode(t.modes, PrivateModeOf(mode).value, on))
    else t
  }

  function PrivateModes(t: Term, modes: seq<nat>, on: bool): (r: Term)
    requires Valid(t)
    ensures Valid(r)
    decreases |modes|
  {
    if modes == [] then t else PrivateModes(PrivateMode(t, modes[0], on), modes[1..], on)
  }

  function Address(t: Term, params: seq<nat>): (r: Term)
    requires Valid(t) && |params| > 0
    ensures Valid(r)
  {
    var row := if params[0] == 0 then 0 else params[0] - 1;
    var col := if |params| < 2 || params[1] == 0 then 0 else params[1] - 1;
    WithActive(t, Active(t).(row := Min(row, t.rows - 1), col := Min(col, t.cols - 1), pending := false))
  }

  function StyleOfCode(code: nat): Option<CursorStyle> {
    if code <= 1 then Some(CursorStyle(Block, true))
    else if code == 2 then Some(CursorStyle(Block, false))
    else if code == 3 then Some(CursorStyle(Underline, true))
    else if code == 4 then Some(CursorStyle(Underline, false))
    else if code == 5 then Some(CursorStyle(Bar, true))
    else if code == 6 then Some(CursorStyle(Bar, false))
    else None
  }

  function Dispatch(t: Term, private: bool, params: seq<nat>, space: bool, final: byte): (r: Term)
    requires Valid(t) && |params| > 0
    ensures Valid(r)
  {
    if space then
      if final == 0x71 && !private && StyleOfCode(params[0]).Some?
      then t.(cursorStyle := StyleOfCode(params[0]).value) else t
    else if private then
      if final == 0x68 then PrivateModes(t, params, true)
      else if final == 0x6c then PrivateModes(t, params, false)
      else t
    else if final == 0x6d then t.(pen := ApplySgr(t.pen, params))
    else if final == 0x48 then Address(t, params)
    else if final == 0x4a then
      if params[0] == 2 then WithActive(t, EraseDisplay(Active(t), t.cols, t.rows)) else t
    else if final == 0x68 && params[0] == 4 then t.(modes := SetMode(t.modes, Insert, true))
    else if final == 0x6c && params[0] == 4 then t.(modes := SetMode(t.modes, Insert, false))
    else t
  }

  function GroundByte(t: Term, b: byte): (r: Term)
    requires Valid(t)
    ensures Valid(r)
  {
    var g := Active(t);
    if b == ESC then t.(parser := Escape)
    else if b == 0x0d then WithActive(t, g.(col := 0, pending := false))
    else if b == 0x0a then NewLine(t)
    else if b < 0x20 || b == 0x7f then t
    else if b < 0x80 then Print(t, b as nat)
    else if b < 0xc0 then t
    else if b < 0xe0 then t.(parser := Multibyte(1, b as nat - 0xc0))
    else if b < 0xf0 then t.(parser := Multibyte(2, b as nat - 0xe0))
    else if b < 0xf8 then t.(parser := Multibyte(3, b as nat - 0xf0))
    else t
  }

  function Step(t: Term, b: byte): (r: Term)
    requires Valid(t)
    ensures Valid(r)
  {
    match t.parser
    case Ground => GroundByte(t, b)
    case Multibyte(need, acc) =>
      if !(0x80 <= b < 0xc0) then GroundByte(t.(parser := Ground), b)
      else
        var value := acc * 0x40 + (b as nat - 0x80);
        if need <= 1 then Print(t.(parser := Ground), value)
        else t.(parser := Multibyte(need - 1, value))
    case Escape =>
      if b == 0x5b then t.(parser := Control(false, [0], false))
      else if b == ESC then t
      else if b == 0x3d then t.(parser := Ground, modes := SetMode(t.modes, AppKeypad, true))
      else if b == 0x3e then t.(parser := Ground, modes := SetMode(t.modes, AppKeypad, false))
      else t.(parser := Ground)
    case Control(private, params, space) =>
      if b == 0x3f then t.(parser := Control(true, params, space))
      else if IsDigit(b) then
        var last := params[|params| - 1] * 10 + (b as nat - 0x30);
        t.(parser := Control(private, params[..|params| - 1] + [last], space))
      else if b == 0x3b then t.(parser := Control(private, params + [0], space))
      else if b == 0x20 then t.(parser := Control(private, params, true))
      else if b == ESC then t.(parser := Escape)
      else Dispatch(t.(parser := Ground), private, params, space, b)
  }

  /** The terminal after reading `bytes`. */
  function Feed(t: Term, bytes: seq<byte>): (r: Term)
    requires Valid(t)
    ensures Valid(r)
    decreases |bytes|
  {
    if bytes == [] then t else Feed(Step(t, bytes[0]), bytes[1..])
  }

  lemma {:induction false} FeedConcat(t: Term, a: seq<byte>, b: seq<byte>)
    requires Valid(t)
    ensures Feed(t, a + b) == Feed(Feed(t, a), b)
    decreases |a|
  {
    if a == [] {
      assert a + b == b;
    } else {
      assert (a + b)[0] == a[0] && (a + b)[1..] == a[1..] + b;
      FeedConcat(Step(t, a[0]), a[1..], b);
    }
  }
}
