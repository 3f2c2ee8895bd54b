/** From a stream fed in any chunks to another terminal that shows the same. */
module Recovery {
  import opened Bytes
  import opened Cells
  import opened Paint
  import opened Terminal
  import opened Emission
  import opened PrimaryRoundTrip
  import opened Rehydration
  import opened Mirror
  import Parking

  /** What a fresh terminal of the mirror's size shows after the mirror's rehydration. */
  ghost function Recovered(view: View, m: State, width: nat -> nat): (t: Term)
    requires WellFormed(view(m.log), width)
    ensures Valid(t)
  {
    var screen := view(m.log);
    Feed(Fresh(screen.cols, screen.rows, width), Rehydrate(screen, m.frozen))
  }

  /** On the primary screen, after any run of feeds, rehydration recovers the screen the engine shows. */
  lemma PrimaryIsRecovered(view: View, states: seq<State>, chunks: seq<seq<byte>>, width: nat -> nat)
    requires Honest(view) && FedInChunks(view, states, chunks)
    requires var screen := view(states[|chunks|].log); WellFormed(screen, width) && !screen.altActive
    ensures var screen, t := view(states[|chunks|].log), Recovered(view, states[|chunks|], width);
            && RestoresAround(t, screen, t.main) && t.alt.None?
            && (t.main.lines == LinesOf(screen.Lines()) <==> WrapsContinue(screen.Lines()))
  {
    PrimaryScreenRoundTrip(view(states[|chunks|].log), states[|chunks|].frozen, width);
  }

  /** On the alternate screen, after any run of feeds, rehydration recovers the alternate screen, and under
      it the primary screen as the engine showed it just before the entry that began this alternate session. */
  lemma AlternateIsRecovered(view: View, states: seq<State>, chunks: seq<seq<byte>>, width: nat -> nat)
    requires Honest(view) && FedInChunks(view, states, chunks)
    requires var log := states[|chunks|].log;
             && WellFormed(view(log), width) && view(log).altActive
             && var primary := view(log[..SessionStart(view, log, |log|)]);
                WellFormed(primary, width) && SameSize(view(log), primary)
    ensures var log := states[|chunks|].log;
            var screen, primary := view(log), view(log[..SessionStart(view, log, |log|)]);
            var t := Recovered(view, states[|chunks|], width);
            var left := Feed(t, LEAVE_ALT);
            && t.alt.Some? && RestoresAround(t, screen, t.alt.value)
            && t.alt.value.lines == AltLines(screen.viewport, screen.rows, screen.cols)
            && (t.alt.value.lines == LinesOf(screen.viewport) <==> NoneWraps(screen.viewport))
            && !primary.altActive && left.alt.None? && SameCursor(left.main, primary.cursor)
            && (left.main.lines == LinesOf(primary.Lines()) <==> WrapsContinue(primary.Lines()))
  {
    var log := states[|chunks|].log;
    FrozenThroughRuns(view, states, chunks);
    AltScreenRoundTrip(view(log), view(log[..SessionStart(view, log, |log|)]), width);
  }

  /** If the size has changed since the entry, the alternate screen is recovered all the same. Under it the frozen
      primary screen is printed at the new size: every printed cell of it is there in order, and the cursor is where
      it was, held to the new size. */
  lemma AlternateIsRecoveredAtAnySize(view: View, states: seq<State>, chunks: seq<seq<byte>>, width: nat -> nat,
      read: Parking.Reading)
    requires Honest(view) && FedInChunks(view, states, chunks) && Parking.SkipsBlanks(read)
    requires var log := states[|chunks|].log;
             && WellFormed(view(log), width) && view(log).altActive
             && Parking.Readable(read, width, view(log).cols, view(log[..SessionStart(view, log, |log|)]).Lines())
    ensures var log := states[|chunks|].log;
            var screen, primary := view(log), view(log[..SessionStart(view, log, |log|)]);
            var t := Recovered(view, states[|chunks|], width);
            var left := Feed(t, LEAVE_ALT);
            && t.alt.Some? && RestoresAround(t, screen, t.alt.value)
            && t.alt.value.lines == AltLines(screen.viewport, screen.rows, screen.cols)
            && left.alt.None? && Parking.LinesInk(read, left.main.lines) == Parking.RowsInk(read, primary.Lines())
            && left.main.row == Min(primary.cursor.row, screen.rows - 1) &&
               left.main.col == Min(primary.cursor.col, screen.cols - 1)
  {
    var log := states[|chunks|].log;
    var screen, primary := view(log), view(log[..SessionStart(view, log, |log|)]);
    FrozenThroughRuns(view, states, chunks);
    var t0, f := Fresh(screen.cols, screen.rows, width), Freeze(primary);
    FrozenAtAnySize(read, t0, primary);
    AltScreenOver(screen, f.paint + Cup(f.cursor), t0, Feed(t0, f.paint + Cup(f.cursor)));
  }

  lemma FrozenAtAnySize(read: Parking.Reading, t0: Term, primary: Screen)
    requires t0.cols > 0 && t0.rows > 0 && t0 == Fresh(t0.cols, t0.rows, t0.width)
    requires Parking.SkipsBlanks(read) && Parking.Readable(read, t0.width, t0.cols, primary.Lines())
    ensures var t := Feed(t0, Freeze(primary).paint + Cup(primary.cursor));
            && t == t0.(main := t.main)
            && Parking.LinesInk(read, t.main.lines) == Parking.RowsInk(read, primary.Lines())
            && t.main.row == Min(primary.cursor.row, t0.rows - 1) && t.main.col == Min(primary.cursor.col, t0.cols - 1)
  {
    var rows := primary.Lines();
    Parking.FreshScribes(read, t0.cols, t0.rows, t0.width);
    Parking.PaintPrimaryInk(read, t0, rows);
    FeedConcat(t0, PaintPrimary(rows), Cup(primary.cursor));
    FeedCup(Feed(t0, PaintPrimary(rows)), primary.cursor);
    assert [] + Parking.RowsInk(read, rows) == Parking.RowsInk(read, rows);
  }
}
