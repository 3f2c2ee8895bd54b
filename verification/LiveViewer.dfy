/** A viewer that draws a snapshot's paint and then the live bytes, against the terminal of the session itself. */
module LiveViewer {
  import opened Wrappers
  import opened Bytes
  import opened Cells
  import opened Paint
  import opened Terminal
  import opened Emission
  import opened RowPainting
  import opened PrimaryRoundTrip
  import opened Rehydration
  import opened Mirror
  import Obs = Observation
  import Session
  import Handoff
  import Archive
  import Parking

  // Size never changes

  lemma {:induction false} PrivateModesKeepSize(t: Term, modes: seq<nat>, on: bool)
    requires Valid(t)
    ensures SameSizes(t, PrivateModes(t, modes, on))
    decreases |modes|
  {
    if modes != [] {
      PrivateModesKeepSize(PrivateMode(t, modes[0], on), modes[1..], on);
    }
  }

  ghost predicate SameSizes(t: Term, r: Term) {
    r.cols == t.cols && r.rows == t.rows && r.width == t.width
  }

  lemma DispatchKeepsSize(t: Term, private: bool, params: seq<nat>, space: bool, final: byte)
    requires Valid(t) && |params| > 0
    ensures SameSizes(t, Dispatch(t, private, params, space, final))
  {
    PrivateModesKeepSize(t, params, true);
    PrivateModesKeepSize(t, params, false);
  }

  lemma StepKeepsSize(t: Term, b: byte)
    requires Valid(t)
    ensures SameSizes(t, Step(t, b))
  {
    match t.parser
    case Ground =>
    case Multibyte(_, _) =>
    case Escape =>
    case Control(private, params, space) => DispatchKeepsSize(t.(parser := Ground), private, params, space, b);
  }

  lemma {:induction false} FeedKeepsSize(t: Term, bytes: seq<byte>)
    requires Valid(t)
    ensures SameSizes(t, Feed(t, bytes))
    decreases |bytes|
  {
    if bytes != [] {
      StepKeepsSize(t, bytes[0]);
      FeedKeepsSize(Step(t, bytes[0]), bytes[1..]);
    }
  }

  // What an engine reports of its terminal

  ghost predicate GridReports(g: Grid, rows: seq<Row>, cursor: Position) {
    g.lines == LinesOf(rows) && g.row == cursor.row && g.col == cursor.col
  }

  /** `screen` is what can be read of terminal `s`: not its pen, nor an owed wrap, nor a sequence it is in. */
  ghost predicate Reports(s: Term, screen: Screen) {
    && s.cols == screen.cols && s.rows == screen.rows && s.alt.Some? == screen.altActive
    && GridReports(Active(s), if screen.altActive then screen.viewport else screen.Lines(), screen.cursor)
    && s.modes == screen.modes && s.cursorStyle == screen.cursorStyle
  }

  /** Nothing is left that cannot be read. */
  predicate AtRest(s: Term) {
    s.parser == Ground && s.pen == PLAIN && !Active(s).pending
  }

  function Viewer(screen: Screen, frozen: Option<FrozenPrimary>, width: nat -> nat): (v: Term)
    requires screen.cols > 0 && screen.rows > 0
    ensures Valid(v)
  {
    Feed(Fresh(screen.cols, screen.rows, width), Rehydrate(screen, frozen))
  }

  /** A viewer of the primary screen is in the session terminal's very state exactly when that is settled and
      its wraps continue. */
  lemma PrimaryViewerIsExact(s: Term, screen: Screen, frozen: Option<FrozenPrimary>)
    requires Valid(s) && Reports(s, screen) && WellFormed(screen, s.width) && !screen.altActive
    ensures Viewer(screen, frozen, s.width) == s <==> AtRest(s) && WrapsContinue(screen.Lines())
  {
    var v := Viewer(screen, frozen, s.width);
    FeedKeepsSize(Fresh(screen.cols, screen.rows, s.width), Rehydrate(screen, frozen));
    PrimaryScreenRoundTrip(screen, frozen, s.width);
    assert v.main.lines == s.main.lines <==> WrapsContinue(screen.Lines());
  }

  /** A viewer of the alternate screen, exactly when also the primary screen under it owes no wrap and its own
      wraps continue, and no alternate row is wrapped. */
  lemma AlternateViewerIsExact(s: Term, screen: Screen, primary: Screen)
    requires Valid(s) && Reports(s, screen) && WellFormed(screen, s.width) && screen.altActive
    requires WellFormed(primary, s.width) && SameSize(screen, primary) &&
             GridReports(s.main, primary.Lines(), primary.cursor)
    ensures Viewer(screen, Some(Freeze(primary)), s.width) == s <==>
            AtRest(s) && NoneWraps(screen.viewport) && !s.main.pending && WrapsContinue(primary.Lines())
  {
    var v := Viewer(screen, Some(Freeze(primary)), s.width);
    FeedKeepsSize(Fresh(screen.cols, screen.rows, s.width), Rehydrate(screen, Some(Freeze(primary))));
    AltScreenRoundTrip(screen, primary, s.width);
    FeedLeaveAlt(v);
    assert v.alt.value.lines == s.alt.value.lines <==> NoneWraps(screen.viewport);
    assert v.main.lines == s.main.lines <==> WrapsContinue(primary.Lines());
  }

  // Bytes the scanner holds back

  lemma {:induction false} UndecidedTail(bytes: seq<byte>, end: nat)
    requires end <= |bytes| && Decide(bytes, end) == NeedMore
    ensures end <= 1 < |bytes| ==> bytes[1] == 0x5b
    ensures forall i | end <= i < |bytes| && i >= 2 :: bytes[i] == 0x3f || IsParameter(bytes[i])
    decreases |bytes| - end
  {
    if end < |bytes| {
      UndecidedTail(bytes, end + 1);
    }
  }

  lemma {:induction false} ParametersOnlyParse(t: Term, bytes: seq<byte>)
    requires Valid(t) && t.parser.Control? && forall i | 0 <= i < |bytes| :: bytes[i] == 0x3f || IsParameter(bytes[i])
    ensures var u := Feed(t, bytes); u == t.(parser := u.parser) && u.parser.Control?
    decreases |bytes|
  {
    if bytes != [] {
      ParametersOnlyParse(Step(t, bytes[0]), bytes[1..]);
    }
  }

  /** Bytes held back would put the terminal inside a sequence, and change nothing else. */
  lemma HeldOnlyParse(t: Term, held: seq<byte>)
    requires Valid(t) && Undecided(held) && held != []
    ensures var u := Feed(t, held); u == t.(parser := u.parser) && u.parser != Ground
  {
    UndecidedTail(held, 0);
    var t1 := Step(t, ESC);
    assert t1 == t.(parser := Escape);
    var rest := held[1..];
    if rest != [] {
      var tail := rest[1..];
      assert rest[0] == held[1] && forall i | 0 <= i < |tail| :: tail[i] == held[i + 2];
      ParametersOnlyParse(Step(t1, 0x5b), tail);
    }
  }

  // The viewer and the session

  /** The primary screen as the engine showed it when this alternate session began. */
  ghost function Under(view: View, m: State): Screen
    requires Mirror.Honest(view) && view(m.log).altActive
  {
    view(m.log[..SessionStart(view, m.log, |m.log|)])
  }

  /** The engine reports of its terminal what the mirror shows, and reported what it froze. */
  ghost predicate Reported(view: View, m: State, s: Term)
    requires Mirror.Honest(view)
  {
    var screen := view(m.log);
    && Valid(s) && WellFormed(screen, s.width) && Reports(s, screen)
    && (screen.altActive ==>
          var primary := Under(view, m);
          && WellFormed(primary, s.width) && SameSize(screen, primary)
          && GridReports(s.main, primary.Lines(), primary.cursor))
  }

  /** All there is of the terminal is in the paint. */
  ghost predicate Recoverable(view: View, m: State, s: Term)
    requires Mirror.Honest(view)
  {
    var screen := view(m.log);
    && AtRest(s)
    && if screen.altActive then
         NoneWraps(screen.viewport) && !s.main.pending && WrapsContinue(Under(view, m).Lines())
       else
         WrapsContinue(screen.Lines())
  }

  lemma ViewerIsExact(view: View, m: State, s: Term)
    requires Mirror.Honest(view) && ValidState(view, m) && Reported(view, m, s)
    ensures Viewer(view(m.log), m.frozen, s.width) == s <==> Recoverable(view, m, s)
    ensures AtRest(Viewer(view(m.log), m.frozen, s.width))
  {
    var screen := view(m.log);
    if screen.altActive {
      assert m.log[..|m.log|] == m.log;
      assert AltAt(view, m.log, |m.log|);
      AlternateViewerIsExact(s, screen, Under(view, m));
      AltScreenRoundTrip(screen, Under(view, m), s.width);
    } else {
      PrimaryViewerIsExact(s, screen, m.frozen);
      PrimaryScreenRoundTrip(screen, m.frozen, s.width);
    }
  }

  /** A viewer drawn from a snapshot is in the state of the engine's terminal exactly when that is recoverable,
      and in the state of a terminal fed all of the session's bytes so far exactly when nothing is held back
      besides. If it is recoverable and what is held back is what is still to be dropped, the viewer ends after the
      live bytes as a terminal fed everything the session ever drew. */
  lemma ViewerContinuesExactly(c: Session.Context, states: seq<Session.Live>, acts: seq<Session.Act>, i: nat, m: nat,
      t0: Term)
    requires Session.Run(c, states, acts) && i <= |acts| && states[i].entry.gaps == 0
    requires states[i].applied <= m <= |c.input| && Obs.NoGap(c.input, m)
    requires Valid(t0) && Reported(c.view, states[i].mirror, Feed(t0, states[i].mirror.log))
    ensures c.start <= states[i].progress <= c.start + |Obs.Received(c.input, m)|
    ensures var init, a := states[0], states[i];
            var s, v := Feed(t0, a.mirror.log), Viewer(c.view(a.mirror.log), a.mirror.frozen, t0.width);
            var waiting := Handoff.StillToDrop(c, init, a, m);
            && (v == s <==> Recoverable(c.view, a.mirror, s))
            && (Recoverable(c.view, a.mirror, s) && a.mirror.held == waiting ==>
                  Feed(v, Handoff.LiveFrom(c, a.progress, m)) ==
                    Feed(t0, init.mirror.Stream() + Obs.Drawn(c.input, m, init.entry.dropStale)))
            && (v == Feed(t0, a.mirror.Stream()) <==> Recoverable(c.view, a.mirror, s) && a.mirror.held == [])
  {
    Session.RunFits(c, states, acts, i);
    Handoff.BytesContinueExactly(c, states, acts, i, m);
    var a := states[i];
    var s, live := Feed(t0, a.mirror.log), Handoff.LiveFrom(c, a.progress, m);
    FeedKeepsSize(t0, a.mirror.log);
    ViewerIsExact(c.view, a.mirror, s);
    FeedConcat(t0, a.mirror.log, live);
    FeedConcat(t0, a.mirror.log, a.mirror.held);
    if a.mirror.held != [] {
      HeldOnlyParse(s, a.mirror.held);
    }
  }

  // A session restored from its own archive

  /** Where a paint leaves the cursor: on the last line shown. */
  lemma PrintedGrid(t0: Term, rows: seq<Row>)
    requires PrimaryReady(t0) && t0.pen == PLAIN && GoodRows(t0.width, t0.cols, rows) && |rows| > 0
    requires t0.main == GridFor([BlankLine(t0.cols)], t0.cols, t0.rows, 0, false)
    ensures var t := Feed(t0, PaintPrimary(rows));
            && t == t0.(main := t.main) && t.main.col < t0.cols
            && LinesFit(ShownLines(rows), t0.cols) && |ShownLines(rows)| > 0
            && t.main == GridFor(ShownLines(rows), t0.cols, t0.rows, t.main.col, t.main.pending)
  {
    var printed, pen := PrintRows(t0, rows, |rows|);
    FeedConcat(t0, PrimaryUpTo(rows, |rows|).0, RESET);
    FeedReset(printed);
    LastRowHangs(rows);
  }

  /** A restore of the same generation draws the archive of a primary screen and adds nothing. The cursor ends at the
      start of the line below the last one shown, or of the bottom line, whatever it was: it comes back exactly if
      it was there. The modes, cursor style and pen are a fresh terminal's. */
  lemma ResumedCursorExactly(screen: Screen, frozen: Option<FrozenPrimary>, width: nat -> nat)
    requires WellFormed(screen, width) && !screen.altActive
    ensures var t0 := Fresh(screen.cols, screen.rows, width);
            var t := Feed(t0, ColdPaint(screen, frozen));
            && t == t0.(main := t.main)
            && t.main ==
               GridFor(ShownLines(screen.Lines()) + [BlankLine(screen.cols)], screen.cols, screen.rows, 0, false)
            && (SameCursor(t.main, screen.cursor) <==>
                screen.cursor == Position(Min(|ShownLines(screen.Lines())|, screen.rows - 1), 0))
  {
    var t0, rows := Fresh(screen.cols, screen.rows, width), screen.Lines();
    FreshIsOneBlankLine(screen.cols, screen.rows, width);
    FeedConcat(t0, RESET, PaintPrimary(rows) + (RESET + CRLF));
    FeedReset(t0);
    assert t0.(pen := PLAIN) == t0;
    FeedConcat(t0, PaintPrimary(rows), RESET + CRLF);
    PrintedGrid(t0, rows);
    var printed := Feed(t0, PaintPrimary(rows));
    FeedResetCrlf(printed);
    NextLine(ShownLines(rows), screen.cols, screen.rows, 0, false);
  }

  /** The screen frozen under an archived mirror's alternate screen. */
  ghost function FrozenUnder(view: View, m: State): Option<Screen>
    requires Mirror.Honest(view)
  {
    if view(m.log).altActive then Some(Under(view, m)) else None
  }

  lemma ArchivedFrozen(view: View, m: State)
    requires Mirror.Honest(view) && ValidState(view, m)
    ensures ColdPaint(view(m.log), m.frozen) == ColdPaint(view(m.log), Parking.Frozen(FrozenUnder(view, m)))
  {
    if view(m.log).altActive {
      assert m.log[..|m.log|] == m.log;
      assert AltAt(view, m.log, |m.log|);
    }
  }

  /** What the archive of a run without gaps shows on a fresh terminal of any size: every printed cell of the screen
      the engine had after the bytes it had been fed, and nothing of its pen or an unfinished sequence. */
  lemma ArchiveShowsTheScreen(c: Session.Context, states: seq<Session.Live>, acts: seq<Session.Act>, i: nat,
      read: Parking.Reading, t0: Term)
    requires Session.Run(c, states, acts) && i <= |acts| && states[i].entry.gaps == 0
    requires states[i].store.archive.Some? && states[i].store.archive != states[0].store.archive
    requires t0.cols > 0 && t0.rows > 0 && t0 == Fresh(t0.cols, t0.rows, t0.width) && Parking.SkipsBlanks(read)
    requires var m := states[i].store.archive.value.content;
             Parking.ReadableScreen(read, t0.width, t0.cols, c.view(m.log), FrozenUnder(c.view, m))
    ensures var m := states[i].store.archive.value.content;
            Parking.LinesInk(read, Feed(t0, ColdPaint(c.view(m.log), m.frozen)).main.lines) ==
            Parking.ArchivedInk(read, c.view(m.log), FrozenUnder(c.view, m))
  {
    Archive.RunKeepsArchive(c, states, acts, i);
    var m := states[i].store.archive.value.content;
    ArchivedFrozen(c.view, m);
    Parking.FreshScribes(read, t0.cols, t0.rows, t0.width);
    Parking.ColdPaintInk(read, t0, c.view(m.log), FrozenUnder(c.view, m));
    var ink := Parking.ArchivedInk(read, c.view(m.log), FrozenUnder(c.view, m));
    assert [] + ink == ink;
  }

  // What is not in the paint shows later

  /** A pen that is lost shows in the next character printed. */
  lemma LostPenIsSeen(s: Term, b: byte)
    requires Valid(s) && s.parser == Ground && 0x20 <= b < 0x7f && s.width(b as nat) == 1
    ensures Active(Feed(s, [b])).lines == Active(Feed(s.(pen := PLAIN), [b])).lines <==> s.pen == PLAIN
  {
    var plain := s.(pen := PLAIN);
    FeedByte(s, b);
    FeedByte(plain, b);
    var landed := Landing(Active(s), s.cols, s.rows, s.alt.None?, LineWrap in s.modes, 1);
    PutShows(landed, s.cols, s.rows, Glyph(b as nat, [], s.pen, false));
    PutShows(landed, s.cols, s.rows, Glyph(b as nat, [], PLAIN, false));
  }

  lemma PutShows(g: Grid, cols: nat, rows: nat, tile: Tile)
    requires ValidGrid(g, cols, rows)
    ensures Put(g, cols, rows, [tile]).lines[At(g, rows)].tiles[g.col] == tile
  {
  }

  const NARROW: nat -> nat := ch => 1

  function Letter(ch: scalar): Cell {
    Cell(ch, Default, Default, false, false, false, false, false, false, false, false, false, false, [], None)
  }

  /** A screen of one line of two columns. */
  function Small(a: scalar, b: scalar, col: nat): Screen {
    Screen(2, 1, [], [[Letter(a), Letter(b)]], Position(0, col), CursorStyle(Block, true), FRESH_MODES, false)
  }

  function SmallLine(a: nat, b: nat): Line {
    Line([Glyph(a, [], PLAIN, false), Glyph(b, [], PLAIN, false)], false)
  }

  function SmallScreen(a: scalar, b: scalar, col: nat): View {
    log => Small(a, b, col)
  }

  lemma SmallIsWellFormed(a: scalar, b: scalar, col: nat)
    requires Printable(a) && Printable(b) && col < 2
    ensures WellFormed(Small(a, b, col), NARROW) && WrapsContinue(Small(a, b, col).Lines())
    ensures LinesOf(Small(a, b, col).Lines()) == [SmallLine(a as nat, b as nat)]
    ensures Mirror.Honest(SmallScreen(a, b, col))
  {
    var row := [Letter(a), Letter(b)];
    assert Small(a, b, col).Lines() == [row];
    assert Codes([]) == [];
    assert TileAt(row, 0) == Glyph(a as nat, [], PLAIN, false) && TileAt(row, 1) == Glyph(b as nat, [], PLAIN, false);
    assert Tiles(row) == [TileAt(row, 0), TileAt(row, 1)];
    assert !Wrapped(row);
  }

  /** What a viewer is that draws a small screen. */
  lemma SmallViewer(s: Term, a: scalar, b: scalar, col: nat)
    requires Printable(a) && Printable(b) && col < 2 && s.width == NARROW
    requires Valid(s) && Reports(s, Small(a, b, col)) && AtRest(s)
    ensures Viewer(Small(a, b, col), None, NARROW) == s
  {
    SmallIsWellFormed(a, b, col);
    PrimaryViewerIsExact(s, Small(a, b, col), None);
  }

  lemma FeedTwo(t: Term, a: byte, b: byte)
    requires Valid(t)
    ensures Feed(t, [a, b]) == Step(Step(t, a), b)
  {
    assert [a, b] == [a] + [b];
    FeedConcat(t, [a], [b]);
    FeedByte(t, a);
    FeedByte(Step(t, a), b);
  }

  lemma BlankSmall()
    ensures var t := Fresh(2, 1, NARROW);
            t.main.lines == [SmallLine(0x20, 0x20)] && Reports(t, Small(0x20, 0x20, 0)) && AtRest(t)
    ensures Viewer(Small(0x20, 0x20, 0), None, NARROW) == Fresh(2, 1, NARROW)
  {
    var t := Fresh(2, 1, NARROW);
    assert BlankLine(2) == SmallLine(0x20, 0x20);
    SmallIsWellFormed(0x20, 0x20, 0);
    assert t.main.lines == [SmallLine(0x20, 0x20)];
    SmallViewer(t, 0x20, 0x20, 0);
  }

  /** A small terminal in the middle of its one line. */
  function Typing(tiles: seq<Tile>, col: nat, pending: bool, pen: Style): Term {
    Fresh(2, 1, NARROW).(main := Grid([Line(tiles, false)], 0, col, pending), pen := pen)
  }

  lemma TypeFirst(b: byte, x: Tile, y: Tile, pen: Style)
    requires 0x20 <= b < 0x7f
    ensures Valid(Typing([x, y], 0, false, pen))
    ensures Step(Typing([x, y], 0, false, pen), b) == Typing([Glyph(b as nat, [], pen, false), y], 1, false, pen)
  {
    var tile := Glyph(b as nat, [], pen, false);
    assert [x, y][..0] + [tile] + [x, y][1..] == [tile, y];
  }

  lemma TypeSecond(b: byte, x: Tile, y: Tile, pen: Style)
    requires 0x20 <= b < 0x7f
    ensures Valid(Typing([x, y], 1, false, pen))
    ensures Step(Typing([x, y], 1, false, pen), b) == Typing([x, Glyph(b as nat, [], pen, false)], 1, true, pen)
  {
    var tile := Glyph(b as nat, [], pen, false);
    assert [x, y][..1] + [tile] + [x, y][2..] == [x, tile];
  }

  lemma TwoGlyphs(a: byte, b: byte)
    requires 0x20 <= a < 0x7f && 0x20 <= b < 0x7f
    ensures Feed(Fresh(2, 1, NARROW), [a, b]) ==
            Typing([Glyph(a as nat, [], PLAIN, false), Glyph(b as nat, [], PLAIN, false)], 1, true, PLAIN)
  {
    BlankSmall();
    FeedTwo(Fresh(2, 1, NARROW), a, b);
    TypeFirst(a, BLANK, BLANK, PLAIN);
    TypeSecond(b, Glyph(a as nat, [], PLAIN, false), BLANK, PLAIN);
  }

  /** Terminal `s` is where the engine stands after `log`, and the scanner in front of it holds nothing back. */
  ghost predicate Snapshot(view: View, log: seq<byte>, s: Term) {
    && Mirror.Honest(view) && Fed(view, State([], [], None), log, State(log, [], None))
    && Reported(view, State(log, [], None), s)
  }

  function SmallViewerOf(a: scalar, b: scalar, col: nat): (v: Term)
    ensures Valid(v)
  {
    Viewer(Small(a, b, col), None, NARROW)
  }

  /** Bytes with at most one ESC, at their front, that begin no entry are all passed on to the engine. */
  lemma PassedOnWhole(view: View, log: seq<byte>)
    requires Mirror.Honest(view) && !view(log).altActive
    requires log != [] && (log[0] == ESC ==> Classify(log) == No) && forall i | 0 < i < |log| :: log[i] != ESC
    ensures Fed(view, State([], [], None), log, State(log, [], None))
  {
    assert log[0..] == log;
    assert log[0] == ESC ==> SettledAt(log, 0, |log|);
    assert State(log, [], None).Stream() == log && State([], [], None).Stream() + log == log;
    assert log[..|log|] == log;
  }

  lemma ReportedPrimary(view: View, m: State, s: Term, screen: Screen)
    requires Mirror.Honest(view) && Valid(s) && screen == view(m.log) && !screen.altActive
    requires WellFormed(screen, s.width) && Reports(s, screen)
    ensures Reported(view, m, s)
  {
  }

  /** Neither the pen nor the parser is reported. */
  lemma ReportsStill(t: Term, s: Term, screen: Screen)
    requires Reports(t, screen) && s == t.(pen := s.pen, parser := s.parser)
    ensures Reports(s, screen)
  {
  }

  lemma SnapshotIs(view: View, log: seq<byte>, screen: Screen, s: Term)
    requires Mirror.Honest(view) && view(log) == screen && !screen.altActive
    requires Valid(s) && WellFormed(screen, s.width) && Reports(s, screen)
    requires log != [] && (log[0] == ESC ==> Classify(log) == No) && forall i | 0 < i < |log| :: log[i] != ESC
    ensures Snapshot(view, log, s)
  {
    PassedOnWhole(view, log);
    ReportedPrimary(view, State(log, [], None), s, screen);
  }

  /** A sequence that does not go on with a question mark is no entry. */
  lemma NoQuestionMark(log: seq<byte>)
    requires |log| >= 3 && log[2] != 0x3f
    ensures Classify(log) == No
  {
    assert Decide(log, 2) == No;
    assert Decide(log, 1) == No;
  }

  lemma Opens(t: Term)
    requires Valid(t) && t.parser == Ground
    ensures Feed(t, [ESC, 0x5b]) == t.(parser := Control(false, [0], false))
  {
    FeedTwo(t, ESC, 0x5b);
  }

  lemma Digit(t: Term, n: nat, b: byte, next: nat)
    requires Valid(t) && IsDigit(b) && next == n * 10 + (b as nat - 0x30)
    ensures Step(t.(parser := Control(false, [n], false)), b) == t.(parser := Control(false, [next], false))
  {
    assert [n][..0] + [next] == [next];
  }

  lemma Sets(t: Term, n: nat)
    requires Valid(t) && t.parser == Ground
    ensures Step(t.(parser := Control(false, [n], false)), 0x6d) == t.(pen := ApplySgr(t.pen, [n]))
  {
    assert t.(parser := Ground) == t;
  }

  /** ESC [ and a digit. */
  lemma OpensAt(t: Term, b: byte, n: nat)
    requires Valid(t) && t.parser == Ground && IsDigit(b) && n == b as nat - 0x30
    ensures Feed(t, [ESC, 0x5b, b]) == t.(parser := Control(false, [n], false))
  {
    assert [ESC, 0x5b, b] == [ESC, 0x5b] + [b];
    FeedConcat(t, [ESC, 0x5b], [b]);
    Opens(t);
    Digit(t, 0, b, n);
    FeedByte(Feed(t, [ESC, 0x5b]), b);
  }

  /** After a sequence that sets at most the pen, the screen is still blank. */
  lemma BlankSnapshot(log: seq<byte>, s: Term)
    requires |log| >= 3 && log[2] != 0x3f && forall i | 0 < i < |log| :: log[i] != ESC
    requires Valid(s) && s == Fresh(2, 1, NARROW).(pen := s.pen, parser := s.parser)
    ensures Snapshot(SmallScreen(0x20, 0x20, 0), log, s)
  {
    var blank := Small(0x20, 0x20, 0);
    BlankSmall();
    ReportsStill(Fresh(2, 1, NARROW), s, blank);
    NoQuestionMark(log);
    SmallIsWellFormed(0x20, 0x20, 0);
    SnapshotIs(SmallScreen(0x20, 0x20, 0), log, blank, s);
  }

  /** The bytes of an unfinished sequence, ESC [ 3, are passed on, and nothing is held. When the rest of it, 1 m,
      arrives the session prints nothing, and the viewer prints both bytes. */
  lemma UnfinishedSequenceIsPrinted()
    ensures Snapshot(SmallScreen(0x20, 0x20, 0), [ESC, 0x5b, 0x33], Feed(Fresh(2, 1, NARROW), [ESC, 0x5b, 0x33]))
    ensures Feed(Feed(Fresh(2, 1, NARROW), [ESC, 0x5b, 0x33]), [0x31, 0x6d]).main.lines == [SmallLine(0x20, 0x20)]
    ensures Feed(SmallViewerOf(0x20, 0x20, 0), [0x31, 0x6d]).main.lines == [SmallLine(0x31, 0x6d)]
  {
    var t0 := Fresh(2, 1, NARROW);
    BlankSmall();
    OpensAt(t0, 0x33, 3);
    BlankSnapshot([ESC, 0x5b, 0x33], t0.(parser := Control(false, [3], false)));
    Digit(t0, 3, 0x31, 31);
    Sets(t0, 31);
    FeedTwo(t0.(parser := Control(false, [3], false)), 0x31, 0x6d);
    TwoGlyphs(0x31, 0x6d);
  }

  lemma BoldStep(t: Term)
    requires Valid(t) && t.parser == Ground
    ensures Feed(t, [ESC, 0x5b, 0x31, 0x6d]) == t.(pen := t.pen.(bold := true))
  {
    assert [ESC, 0x5b, 0x31, 0x6d] == [ESC, 0x5b, 0x31] + [0x6d];
    FeedConcat(t, [ESC, 0x5b, 0x31], [0x6d]);
    OpensAt(t, 0x31, 1);
    Sets(t, 1);
    FeedByte(t.(parser := Control(false, [1], false)), 0x6d);
    assert ApplySgr(t.pen, [1]) == t.pen.(bold := true);
  }

  /** A rendition set and not yet used, ESC [ 1 m: the session prints the next character bold, the viewer plain. */
  lemma PenIsLost()
    ensures Snapshot(SmallScreen(0x20, 0x20, 0), [ESC, 0x5b, 0x31, 0x6d],
            Feed(Fresh(2, 1, NARROW), [ESC, 0x5b, 0x31, 0x6d]))
    ensures Feed(Feed(Fresh(2, 1, NARROW), [ESC, 0x5b, 0x31, 0x6d]), [0x61]).main.lines ==
            [Line([Glyph(0x61, [], PLAIN.(bold := true), false), BLANK], false)]
    ensures Feed(SmallViewerOf(0x20, 0x20, 0), [0x61]).main.lines == [SmallLine(0x61, 0x20)]
  {
    var t0, bold := Fresh(2, 1, NARROW), PLAIN.(bold := true);
    BoldSnapshot([ESC, 0x5b, 0x31, 0x6d], t0.(pen := bold));
    BlankSmall();
    TypeIn(PLAIN);
    TypeIn(bold);
  }

  lemma BoldSnapshot(log: seq<byte>, s: Term)
    requires log == [ESC, 0x5b, 0x31, 0x6d] && s == Fresh(2, 1, NARROW).(pen := PLAIN.(bold := true))
    ensures Feed(Fresh(2, 1, NARROW), log) == s && Snapshot(SmallScreen(0x20, 0x20, 0), log, s)
  {
    BoldStep(Fresh(2, 1, NARROW));
    BlankSnapshot(log, s);
  }

  lemma TypeIn(pen: Style)
    ensures Feed(Fresh(2, 1, NARROW).(pen := pen), [0x61]).main.lines ==
            [Line([Glyph(0x61, [], pen, false), BLANK], false)]
  {
    var t := Fresh(2, 1, NARROW).(pen := pen);
    BlankSmall();
    assert t == Typing([BLANK, BLANK], 0, false, pen);
    FeedByte(t, 0x61);
    TypeFirst(0x61, BLANK, BLANK, pen);
  }

  lemma TypeWrapped(c: byte, x: Tile, y: Tile)
    requires 0x20 <= c < 0x7f
    ensures Step(Typing([x, y], 1, true, PLAIN), c).main.lines ==
            [Line([x, y], true), Line([Glyph(c as nat, [], PLAIN, false), BLANK], false)]
  {
    var t := Typing([x, y], 1, true, PLAIN);
    var wrapped := WrapLine(t.main, 2, 1, true);
    assert BlankLine(2).tiles == [BLANK, BLANK];
    assert wrapped.lines == [Line([x, y], true), BlankLine(2)];
    var tile := Glyph(c as nat, [], PLAIN, false);
    assert [BLANK, BLANK][..0] + [tile] + [BLANK, BLANK][1..] == [tile, BLANK];
    assert Put(wrapped, 2, 1, [tile]).lines == [Line([x, y], true), Line([tile, BLANK], false)];
  }

  lemma OwedWrapSnapshot()
    ensures Snapshot(SmallScreen(0x61, 0x62, 1), [0x61, 0x62], Feed(Fresh(2, 1, NARROW), [0x61, 0x62]))
  {
    TwoGlyphs(0x61, 0x62);
    SmallIsWellFormed(0x61, 0x62, 1);
    var x, y := Glyph(0x61, [], PLAIN, false), Glyph(0x62, [], PLAIN, false);
    SnapshotIs(SmallScreen(0x61, 0x62, 1), [0x61, 0x62], Small(0x61, 0x62, 1), Typing([x, y], 1, true, PLAIN));
  }

  /** A full line, ab, with the wrap owed: the session prints the next character on a new line, the viewer over
      the b. */
  lemma OwedWrapIsLost()
    ensures Snapshot(SmallScreen(0x61, 0x62, 1), [0x61, 0x62], Feed(Fresh(2, 1, NARROW), [0x61, 0x62]))
    ensures Feed(Feed(Fresh(2, 1, NARROW), [0x61, 0x62]), [0x63]).main.lines ==
            [SmallLine(0x61, 0x62).(wrapped := true), SmallLine(0x63, 0x20)]
    ensures Feed(SmallViewerOf(0x61, 0x62, 1), [0x63]).main.lines == [SmallLine(0x61, 0x63)]
  {
    var x, y := Glyph(0x61, [], PLAIN, false), Glyph(0x62, [], PLAIN, false);
    OwedWrapSnapshot();
    TwoGlyphs(0x61, 0x62);
    SmallIsWellFormed(0x61, 0x62, 1);
    SmallViewer(Typing([x, y], 1, false, PLAIN), 0x61, 0x62, 1);
    FeedByte(Typing([x, y], 1, true, PLAIN), 0x63);
    FeedByte(Typing([x, y], 1, false, PLAIN), 0x63);
    TypeWrapped(0x63, x, y);
    TypeSecond(0x63, x, y, PLAIN);
  }
}
