/** Snapshots of a running session: what they hold, and how the live stream continues them. */
module Handoff {
  import opened Wrappers
  import opened Bytes
  import opened Cells
  import opened Mirror
  import Obs = Observation
  import opened Session

  /** The stream's bytes from sequence `s` on, as far as the first `m` frames go. */
  function LiveFrom(c: Context, s: nat, m: nat): seq<byte>
    requires m <= |c.input| && c.start <= s <= c.start + |Obs.Received(c.input, m)|
  {
    Obs.Received(c.input, m)[s - c.start..]
  }

  /** A stale replay that the session is still waiting to drop, as far as the first `m` frames show it. */
  function StillToDrop(c: Context, init: Live, a: Live, m: nat): seq<byte>
    requires a.applied <= |c.input| && m <= |c.input|
  {
    if Obs.HasOutput(c.input, a.applied) then [] else Obs.Dropped(c.input, m, init.entry.dropStale)
  }

  /** Splitting the stream at what has been drawn. */
  lemma SplitStream(c: Context, n: nat, m: nat, drop: bool)
    requires Obs.Flows(c.input, c.start) && n <= m <= |c.input| && Obs.NoGap(c.input, m)
    ensures c.start <= Obs.Through(c.input, n, c.start) <= c.start + |Obs.Received(c.input, m)|
    ensures Obs.Drawn(c.input, n, drop) + LiveFrom(c, Obs.Through(c.input, n, c.start), m) ==
            (if Obs.HasOutput(c.input, n) then [] else Obs.Dropped(c.input, m, drop)) + Obs.Drawn(c.input, m, drop)
  {
    Obs.SequenceCounts(c.input, n, c.start);
    Obs.ReceivedGrows(c.input, n, m);
    Obs.DrawnIsReceived(c.input, n, drop);
    Obs.DrawnIsReceived(c.input, m, drop);
    var before, all := Obs.Received(c.input, n), Obs.Received(c.input, m);
    var dropped, drawn := Obs.Dropped(c.input, m, drop), Obs.Drawn(c.input, m, drop);
    assert LiveFrom(c, Obs.Through(c.input, n, c.start), m) == all[|before|..];
    if Obs.HasOutput(c.input, n) {
      Obs.HasOutputGrows(c.input, n, m, drop);
      Rest(dropped, Obs.Drawn(c.input, n, drop), drawn, all);
    } else {
      Obs.NothingDroppedYet(c.input, n, drop);
      assert Obs.Drawn(c.input, n, drop) == [] && all[0..] == all;
    }
  }

  lemma Rest(dropped: seq<byte>, part: seq<byte>, whole: seq<byte>, all: seq<byte>)
    requires all == dropped + whole && dropped + part <= all
    ensures part + all[|dropped + part|..] == [] + whole
  {
    assert all == dropped + part + all[|dropped + part|..];
    assert (dropped + part + all[|dropped + part|..])[|dropped|..] == part + all[|dropped + part|..];
    assert (dropped + whole)[|dropped|..] == whole;
  }

  /** Atomic handoff. At any moment of any run that has seen no gap, the mirror holds exactly what it
      started with and the stream through its sequence, but for a dropped stale replay; so the live bytes
      from that sequence continue it without loss or repeat, save that they still carry a replay that is
      yet to be dropped. */
  lemma SnapshotContinues(c: Context, states: seq<Live>, acts: seq<Act>, i: nat, m: nat)
    requires Run(c, states, acts) && i <= |acts| && states[i].entry.gaps == 0
    requires states[i].applied <= m <= |c.input| && Obs.NoGap(c.input, m)
    ensures var init, a := states[0], states[i];
            && c.start <= a.progress <= c.start + |Obs.Received(c.input, m)|
            && a.mirror.Stream() == init.mirror.Stream() + Obs.Drawn(c.input, a.applied, init.entry.dropStale)
            && a.mirror.Stream() + LiveFrom(c, a.progress, m) ==
               init.mirror.Stream() + (StillToDrop(c, init, a, m) + Obs.Drawn(c.input, m, init.entry.dropStale))
  {
    RunFits(c, states, acts, i);
    var init, a := states[0], states[i];
    SplitStream(c, a.applied, m, init.entry.dropStale);
    Assoc(init.mirror.Stream(), Obs.Drawn(c.input, a.applied, init.entry.dropStale), LiveFrom(c, a.progress, m));
  }

  /** The bytes a viewer stands for that draws a snapshot's paint and then the live bytes: those the engine had been
      fed, and the live ones. */
  function Continued(c: Context, a: Live, m: nat): seq<byte>
    requires m <= |c.input| && c.start <= a.progress <= c.start + |Obs.Received(c.input, m)|
  {
    a.mirror.log + LiveFrom(c, a.progress, m)
  }

  /** The engine has not been fed the bytes the mirror holds back, which the sequence counts. So those bytes are
      exactly the session's own if and only if what is held back is what was still to be dropped: as a rule,
      if nothing is held back and no replay is outstanding. */
  lemma BytesContinueExactly(c: Context, states: seq<Live>, acts: seq<Act>, i: nat, m: nat)
    requires Run(c, states, acts) && i <= |acts| && states[i].entry.gaps == 0
    requires states[i].applied <= m <= |c.input| && Obs.NoGap(c.input, m)
    ensures c.start <= states[i].progress <= c.start + |Obs.Received(c.input, m)|
    ensures Continued(c, states[i], m) ==
              states[0].mirror.Stream() + Obs.Drawn(c.input, m, states[0].entry.dropStale) <==>
            states[i].mirror.held == StillToDrop(c, states[0], states[i], m)
    ensures |states[i].mirror.held| <= 3 + MAX_PARAMETERS
  {
    RunFits(c, states, acts, i);
    var init, a := states[0], states[i];
    SnapshotContinues(c, states, acts, i, m);
    var waiting, drawn := StillToDrop(c, init, a, m), Obs.Drawn(c.input, m, init.entry.dropStale);
    UndecidedBytes(a.mirror.held, 0);
    var live := LiveFrom(c, a.progress, m);
    if !Obs.HasOutput(c.input, a.applied) {
      NothingShownYet(c, a.applied, m, init.entry.dropStale);
      assert init.mirror.Stream() + [] == init.mirror.Stream();
    }
    WithoutTheMiddle(a.mirror.log, a.mirror.held, live, init.mirror.Stream(), waiting, drawn);
  }

  lemma NothingShownYet(c: Context, n: nat, m: nat, drop: bool)
    requires Obs.Flows(c.input, c.start) && n <= m <= |c.input| && Obs.NoGap(c.input, m) && !Obs.HasOutput(c.input, n)
    ensures Obs.Through(c.input, n, c.start) == c.start && Obs.Drawn(c.input, n, drop) == []
    ensures LiveFrom(c, c.start, m) == Obs.Dropped(c.input, m, drop) + Obs.Drawn(c.input, m, drop)
  {
    Obs.DrawnIsReceived(c.input, n, drop);
    Obs.NothingDroppedYet(c.input, n, drop);
    Obs.DrawnIsReceived(c.input, m, drop);
    Obs.SequenceCounts(c.input, n, c.start);
  }

  lemma WithoutTheMiddle(log: seq<byte>, held: seq<byte>, live: seq<byte>, base: seq<byte>, waiting: seq<byte>,
      drawn: seq<byte>)
    requires log + held + live == base + (waiting + drawn)
    requires waiting == [] || (log + held == base && live == waiting + drawn)
    ensures log + live == base + drawn <==> held == waiting
  {
    assert |log + live| + |held| == |base + drawn| + |waiting|;
    if waiting == [] {
      assert waiting + drawn == drawn;
      assert held == [] ==> log + held == log;
    } else {
      var l, r := log + live, base + drawn;
      assert |held| == |waiting| ==> l[|log|..|log| + |held|] == waiting && r[|log|..|log| + |held|] == held;
      Assoc(log, waiting, drawn);
    }
  }

  lemma SignalFollows(c: Context, states: seq<Live>, acts: seq<Act>, i: nat)
    requires Run(c, states, acts) && i <= |acts| && states[i].entry.gaps == 0
    requires states[0].entry.signal <= c.start
    ensures states[i].entry.signal <= states[i].progress
  {
    RunFits(c, states, acts, i);
    Obs.ThroughGrows(c.input, 0, states[i].next, c.start);
    Obs.ThroughGrows(c.input, states[i].next, states[i].applied, c.start);
  }

  /** Until a gap is seen the frame signal is never ahead of the mirror, provided, and only if, a session
      that takes over another's signal starts at or after it. */
  lemma SignalIsBehindExactly(c: Context, states: seq<Live>, acts: seq<Act>)
    requires Run(c, states, acts)
    ensures (forall i | 0 <= i <= |acts| && states[i].entry.gaps == 0 :: states[i].entry.signal <= states[i].progress)
            <==> states[0].entry.signal <= c.start
  {
    if states[0].entry.signal <= c.start {
      forall i | 0 <= i <= |acts| && states[i].entry.gaps == 0 ensures states[i].entry.signal <= states[i].progress {
        SignalFollows(c, states, acts, i);
      }
    }
  }

  /** A request that waited at `i` until the signal reached `wanted` and took its frame at `j` carries a
      sequence of at least `wanted`. */
  lemma WaitIsHonoured(c: Context, states: seq<Live>, acts: seq<Act>, i: nat, j: nat, wanted: nat)
    requires Run(c, states, acts) && i <= j <= |acts|
    requires states[0].entry.signal <= c.start
    requires states[i].entry.gaps == 0 && states[i].entry.signal >= wanted
    ensures states[j].progress >= wanted
  {
    SignalFollows(c, states, acts, i);
    ProgressGrowsOverRuns(c, states, acts, i, j);
  }

  // What gaps and held bytes do: concrete runs

  function Nothing(): Screen {
    Screen(80, 24, [], [], Position(0, 0), CursorStyle(Block, true), {}, false)
  }

  /** An engine that never leaves the primary screen. */
  function Plain(): View {
    log => Nothing()
  }

  function Fresh(): Live {
    Live(true, Entry(false, 0, 0, 0), State([], [], None), 0, Idle, 0, 0, [], Waiting, Store(None, None))
  }

  lemma PlainIsHonest()
    ensures Honest(Plain()) && ValidState(Plain(), State([], [], None))
  {
    assert State([], [], None).Stream() == [];
  }

  /** A gap raises the signal alone: the wait succeeds, and the frame is older than asked for. */
  lemma GapBreaksTheWait()
    ensures var c := Context(Plain(), [Obs.Gap(5)], 0, 1);
            var b := Fresh().(entry := GapMarked(Fresh().entry, 5), next := 1, applied := 1);
            Run(c, [Fresh(), b], [SeeGap]) && b.entry.signal == 5 && b.progress == 0
  {
    PlainIsHonest();
    var c := Context(Plain(), [Obs.Gap(5)], 0, 1);
    assert ConsumerStep(c, Fresh(), SeeGap, Fresh().(entry := GapMarked(Fresh().entry, 5), next := 1, applied := 1));
  }

  /** With gaps, exactly: the signal that a gap raises stays at or below the mirror's sequence if and only if the
      gap ends at or before it. */
  lemma GapSignalExactly(c: Context, states: seq<Live>, acts: seq<Act>, i: nat)
    requires Run(c, states, acts) && i < |acts| && acts[i] == SeeGap && states[i].present
    ensures states[i].next < |c.input| && c.input[states[i].next].Gap?
    ensures states[i + 1].entry.signal <= states[i + 1].progress <==>
            c.input[states[i].next].through <= states[i].progress
  {
    assert Step(c, states[i], acts[i], states[i + 1]);
  }

  /** An output that ends inside an escape sequence: the snapshot counts the ESC but does not show it, and
      the rest of the sequence arrives without it. */
  lemma HeldBytesAreMissing()
    ensures var c := Context(Plain(), [Obs.Output(0, 1, [ESC])], 0, 1);
            var taken := Fresh().(phase := Taken(false));
            var drawn := taken.(mirror := State([], [ESC], None), progress := 1, phase := Ahead, applied := 1);
            && Run(c, [Fresh(), taken, drawn], [Take, Draw])
            && drawn.entry.gaps == 0 && drawn.progress == 1 && drawn.mirror.log == []
  {
    PlainIsHonest();
    var c := Context(Plain(), [Obs.Output(0, 1, [ESC])], 0, 1);
    var taken := Fresh().(phase := Taken(false));
    var drawn := taken.(mirror := State([], [ESC], None), progress := 1, phase := Ahead, applied := 1);
    assert Decide([ESC], 1) == NeedMore;
    assert State([], [ESC], None).Stream() == [ESC];
    assert [] + [] + [ESC] == [ESC];
    assert ConsumerStep(c, Fresh(), Take, taken);
    assert ConsumerStep(c, taken, Draw, drawn);
  }
}
