/** What a terminal engine reports: cells, modes, cursor style, and one screen of them. */
module Cells {
  import opened Wrappers
  import opened Bytes

  datatype Color = Default | Named(index: byte) | Indexed(slot: byte) | Rgb(r: byte, g: byte, b: byte)

  datatype Cell = Cell(
    ch: scalar,
    fg: Color,
    bg: Color,
    bold: bool,
    dim: bool,
    italic: bool,
    underline: bool,
    inverse: bool,
    strikeout: bool,
    hidden: bool,
    wide: bool,
    spacer: bool,
    wrapline: bool,
    zerowidth: seq<scalar>,
    link: Option<seq<scalar>>)

  type Row = seq<Cell>

  datatype Mode =
    | BracketedPaste | AppCursor | AppKeypad
    | MouseX10 | MouseClick | MouseHighlight | MouseDrag | MouseMotion
    | SgrMouse | Utf8Mouse | FocusInOut | Insert | AlternateScroll
    | LineWrap | ShowCursor

  /** The modes that are on: the true fields of the engine's mode record. */
  type Modes = set<Mode>

  datatype CursorShape = Block | Underline | Bar

  datatype CursorStyle = CursorStyle(shape: CursorShape, blinking: bool)

  /** 0-based `(row, column)`. */
  datatype Position = Position(row: nat, col: nat)

  /** One reading of the engine. `history` and `viewport` are its lines, oldest first. */
  datatype Screen = Screen(
    cols: nat,
    rows: nat,
    history: seq<Row>,
    viewport: seq<Row>,
    cursor: Position,
    cursorStyle: CursorStyle,
    modes: Modes,
    altActive: bool)
  {
    /** Lines `-history .. rows`, in the order the painter visits them. */
    function Lines(): seq<Row> {
      history + viewport
    }
  }

  /** The wrap flag lives on a row's last cell. */
  predicate Wrapped(row: Row) {
    |row| > 0 && row[|row| - 1].wrapline
  }
}
