/**
  One observed session: the consumer that applies the stream, and everything that runs between its
  critical sections. A step is one critical section, under the registry lock or the mirror lock.
*/
module Session {
  import opened Wrappers
  import opened Bytes
  import opened Mirror
  import opened Observation

  /** What the checkpoint worker is told. */
  datatype Notice = Dirty(sequence: nat) | Final(sequence: nat)

  /** One archived checkpoint, with the mirror it was painted from and how many frames that had had. */
  datatype Saved = Saved(generation: nat, sequence: nat, content: State, frames: nat)

  datatype Store = Store(owner: Option<nat>, archive: Option<Saved>)

  predicate Covers(store: Store, generation: nat, sequence: nat) {
    store.archive.Some? && store.archive.value.generation == generation && store.archive.value.sequence >= sequence
  }

  /** What a write does to the store, and whether it succeeds. */
  function Commit(store: Store, saved: Saved): (Store, bool) {
    if store.owner != Some(saved.generation) then (store, false)
    else if Covers(store, saved.generation, saved.sequence) then (store, true)
    else (store.(archive := Some(saved)), true)
  }

  /** Where the consumer stands: between frames, past the registry check of an output, past feeding it, or ended. */
  datatype Phase = Idle | Taken(drop: bool) | Ahead | Stopped

  datatype Worker = Waiting | Coalescing(latest: Notice) | Finished(saved: bool)

  /** The session's fields in the registry. */
  datatype Entry = Entry(dropStale: bool, gaps: nat, source: nat, signal: nat)

  /** Past the check at an output: the stale-replay flag is taken. */
  function FlagTaken(e: Entry): Entry {
    e.(dropStale := false)
  }

  function Published(e: Entry, through: nat): Entry {
    e.(source := through, signal := through)
  }

  function GapMarked(e: Entry, through: nat): Entry {
    e.(gaps := e.gaps + 1, source := through, signal := through)
  }

  function OpenedMarked(e: Entry): Entry {
    e.(gaps := e.gaps + 1)
  }

  /** `next` frames are done with; the mirror has had `applied` of them. */
  datatype Live = Live(
    present: bool,
    entry: Entry,
    mirror: State,
    progress: nat,
    phase: Phase,
    next: nat,
    applied: nat,
    channel: seq<Notice>,
    worker: Worker,
    store: Store)

  /** The session: its stream, the sequence it starts at, and the generation it owns. */
  datatype Context = Context(view: View, input: seq<ObservationFrame>, start: nat, generation: nat)

  datatype Act =
    | Take | Draw | Publish | SeeResize | SeeGap | SeeEnd | SeeOpened | Break
    | Evict
    | Receive | Coalesce | SaveLatest | GiveUp
    | ArchiveNow | Claim(generation: nat) | Retire

  ghost predicate AtFrame(c: Context, a: Live) {
    a.phase == Idle && a.next < |c.input|
  }

  /** The consumer's steps. It stops when it finds its session gone, and when the stream breaks off. */
  ghost predicate ConsumerStep(c: Context, a: Live, act: Act, b: Live) {
    match act
    case Take =>
      AtFrame(c, a) && c.input[a.next].Output? &&
      b == if a.present then a.(entry := FlagTaken(a.entry), phase := Taken(a.entry.dropStale))
           else a.(phase := Stopped)
    case Draw =>
      a.phase.Taken? && a.next < |c.input| && c.input[a.next].Output? && Honest(c.view) &&
      b == a.(mirror := b.mirror, progress := c.input[a.next].through, phase := Ahead, applied := a.next + 1) &&
      (if a.phase.drop then b.mirror == a.mirror else Fed(c.view, a.mirror, c.input[a.next].bytes, b.mirror))
    case Publish =>
      a.phase == Ahead && a.next < |c.input| && c.input[a.next].Output? &&
      var through := c.input[a.next].through;
      b == if a.present then
             a.(entry := Published(a.entry, through), channel := a.channel + [Dirty(through)],
                phase := Idle, next := a.next + 1)
           else a.(phase := Stopped)
    case SeeResize =>
      AtFrame(c, a) && c.input[a.next] == Resize &&
      b == if a.present then a.(next := a.next + 1, applied := a.next + 1) else a.(phase := Stopped)
    case SeeGap =>
      AtFrame(c, a) && c.input[a.next].Gap? &&
      var through := c.input[a.next].through;
      b == if a.present then
             a.(entry := GapMarked(a.entry, through), next := a.next + 1, applied := a.next + 1)
           else a.(phase := Stopped)
    case SeeEnd =>
      AtFrame(c, a) && c.input[a.next] == End &&
      b == if a.present then
             a.(channel := a.channel + [Final(a.entry.source)],
                phase := Stopped, next := a.next + 1, applied := a.next + 1)
           else a.(phase := Stopped)
    case SeeOpened =>
      AtFrame(c, a) && c.input[a.next] == Opened &&
      b == if a.present then
             a.(entry := OpenedMarked(a.entry), phase := Stopped, next := a.next + 1, applied := a.next + 1)
           else a.(phase := Stopped)
    case Break => a.phase == Idle && b == a.(phase := Stopped)
    case _ => false
  }

  /** The worker's steps: it keeps only the latest notice for as long as it likes, then saves under the mirror lock. */
  ghost predicate WorkerStep(c: Context, a: Live, act: Act, b: Live) {
    match act
    case Receive =>
      a.worker == Waiting && a.channel != [] &&
      b == a.(worker := Coalescing(a.channel[0]), channel := a.channel[1..])
    case Coalesce =>
      a.worker.Coalescing? && a.worker.latest.Dirty? && a.channel != [] &&
      b == a.(worker := Coalescing(a.channel[0]), channel := a.channel[1..])
    case SaveLatest =>
      a.worker.Coalescing? &&
      var (store, saved) := Commit(a.store, Saved(c.generation, a.worker.latest.sequence, a.mirror, a.applied));
      b == a.(store := store, worker := if a.worker.latest.Final? then Finished(saved) else Waiting)
    case GiveUp =>
      a.phase == Stopped && a.channel == [] &&
        (a.worker == Waiting || (a.worker.Coalescing? && a.worker.latest.Dirty?)) &&
      b == a.(worker := Finished(false))
    case _ => false
  }

  /** Requests, and other processes at the same archive. */
  ghost predicate OutsideStep(c: Context, a: Live, act: Act, b: Live) {
    match act
    case Evict => b == a.(present := false)
    case ArchiveNow =>
      a.present && b == a.(store := Commit(a.store, Saved(c.generation, a.progress, a.mirror, a.applied)).0)
    case Claim(g) => b == a.(store := a.store.(owner := Some(g)))
    case Retire => b == a.(store := Store(None, None))
    case _ => false
  }

  ghost predicate Step(c: Context, a: Live, act: Act, b: Live) {
    ConsumerStep(c, a, act, b) || WorkerStep(c, a, act, b) || OutsideStep(c, a, act, b)
  }

  /** Where a session starts: at `start`, with whatever the mirror was restored from. */
  ghost predicate Starts(c: Context, a: Live) {
    && Honest(c.view) && Flows(c.input, c.start) && ValidState(c.view, a.mirror)
    && a.present && a.entry.gaps == 0 && a.entry.source == a.progress == c.start
    && a.phase == Idle && a.next == a.applied == 0 && a.channel == [] && a.worker == Waiting
  }

  /** A mirror that has had `applied` frames, and its sequence, agree with the stream. */
  ghost predicate MirrorFits(c: Context, init: Live, mirror: State, applied: nat, progress: nat)
    requires Honest(c.view)
  {
    && applied <= |c.input| && ValidState(c.view, mirror)
    && mirror.Stream() == init.mirror.Stream() + Observation.Drawn(c.input, applied, init.entry.dropStale)
    && progress == Through(c.input, applied, c.start)
  }

  /** The stale-replay flag falls with the first output. */
  ghost predicate FlagFits(c: Context, init: Live, a: Live)
    requires a.next <= |c.input|
  {
    match a.phase
    case Idle => a.applied == a.next && a.entry.dropStale == (init.entry.dropStale && !HasOutput(c.input, a.next))
    case Taken(drop) =>
      && a.applied == a.next < |c.input| && c.input[a.next].Output?
      && drop == (init.entry.dropStale && !HasOutput(c.input, a.next)) && !a.entry.dropStale
    case Ahead => a.applied == a.next + 1 <= |c.input| && c.input[a.next].Output? && !a.entry.dropStale
    case Stopped => a.applied == a.next || (a.applied == a.next + 1 <= |c.input| && c.input[a.next].Output?)
  }

  /** Until a gap is seen, the source sequence and the frame signal are those of the outputs published; a
      signal taken over from a session that was replaced stays until then. */
  ghost predicate EntryFits(c: Context, init: Live, a: Live)
    requires a.next <= |c.input|
  {
    a.entry.gaps == 0 ==>
      && NoGap(c.input, a.next) && a.entry.source == Through(c.input, a.next, c.start)
      && a.entry.signal == if HasOutput(c.input, a.next) then a.entry.source else init.entry.signal
  }

  ghost predicate Fits(c: Context, init: Live, a: Live) {
    Honest(c.view) && a.next <= |c.input| && MirrorFits(c, init, a.mirror, a.applied, a.progress) &&
      FlagFits(c, init, a) && EntryFits(c, init, a)
  }

  // One step keeps the session consistent

  lemma TakeFits(c: Context, init: Live, a: Live, b: Live)
    requires Flows(c.input, c.start) && Fits(c, init, a) && ConsumerStep(c, a, Take, b)
    ensures Fits(c, init, b)
  {
  }

  lemma DrawnMirrorFits(c: Context, init: Live, mirror: State, n: nat, progress: nat, drop: bool, after: State,
      next: nat)
    requires Honest(c.view) && n < |c.input| && c.input[n].Output? && next == n + 1 &&
             MirrorFits(c, init, mirror, n, progress)
    requires drop == (init.entry.dropStale && !HasOutput(c.input, n))
    requires if drop then after == mirror else Fed(c.view, mirror, c.input[n].bytes, after)
    ensures MirrorFits(c, init, after, next, c.input[n].through)
  {
    var drawn := Observation.Drawn(c.input, n, init.entry.dropStale);
    Assoc(init.mirror.Stream(), drawn, c.input[n].bytes);
    assert drawn + [] == drawn;
  }

  lemma DrawFits(c: Context, init: Live, a: Live, b: Live)
    requires Flows(c.input, c.start) && Fits(c, init, a) && ConsumerStep(c, a, Draw, b)
    ensures Fits(c, init, b)
  {
    DrawnMirrorFits(c, init, a.mirror, a.next, a.progress, a.phase.drop, b.mirror, a.next + 1);
    assert b.entry == a.entry && b.next == a.next;
  }

  lemma PublishFits(c: Context, init: Live, a: Live, b: Live)
    requires Flows(c.input, c.start) && Fits(c, init, a) && ConsumerStep(c, a, Publish, b)
    ensures Fits(c, init, b)
  {
    NextFrame(c.input, a.next, c.start, a.next + 1);
    assert b.mirror == a.mirror && b.progress == a.progress && b.applied == a.applied;
  }

  lemma SkippedFrame(c: Context, init: Live, mirror: State, n: nat, progress: nat, next: nat)
    requires Honest(c.view) && n < |c.input| && !c.input[n].Output? && MirrorFits(c, init, mirror, n, progress) &&
             next == n + 1
    ensures MirrorFits(c, init, mirror, next, progress)
  {
    var drawn := Observation.Drawn(c.input, n, init.entry.dropStale);
    assert drawn + [] == drawn;
  }

  lemma SeeResizeFits(c: Context, init: Live, a: Live, b: Live)
    requires Flows(c.input, c.start) && Fits(c, init, a) && ConsumerStep(c, a, SeeResize, b)
    ensures Fits(c, init, b)
  {
    var next := a.next + 1;
    NextFrame(c.input, a.next, c.start, next);
    SkippedFrame(c, init, a.mirror, a.next, a.progress, next);
    assert b.mirror == a.mirror && b.progress == a.progress;
    if a.present {
      assert b.applied == b.next == next;
    } else {
      assert b.applied == a.applied && b.next == a.next && b.entry == a.entry;
    }
  }

  lemma SeeGapFits(c: Context, init: Live, a: Live, b: Live)
    requires Flows(c.input, c.start) && Fits(c, init, a) && ConsumerStep(c, a, SeeGap, b)
    ensures Fits(c, init, b)
  {
    var next := a.next + 1;
    NextFrame(c.input, a.next, c.start, next);
    SkippedFrame(c, init, a.mirror, a.next, a.progress, next);
    assert b.mirror == a.mirror && b.progress == a.progress;
    if a.present {
      assert b.applied == b.next == next;
    } else {
      assert b.applied == a.applied && b.next == a.next && b.entry == a.entry;
    }
  }

  lemma SeeEndFits(c: Context, init: Live, a: Live, b: Live)
    requires Flows(c.input, c.start) && Fits(c, init, a) && ConsumerStep(c, a, SeeEnd, b)
    ensures Fits(c, init, b)
  {
    var next := a.next + 1;
    NextFrame(c.input, a.next, c.start, next);
    SkippedFrame(c, init, a.mirror, a.next, a.progress, next);
    assert b.mirror == a.mirror && b.progress == a.progress;
    if a.present {
      assert b.applied == b.next == next;
    } else {
      assert b.applied == a.applied && b.next == a.next && b.entry == a.entry;
    }
  }

  lemma SeeOpenedFits(c: Context, init: Live, a: Live, b: Live)
    requires Flows(c.input, c.start) && Fits(c, init, a) && ConsumerStep(c, a, SeeOpened, b)
    ensures Fits(c, init, b)
  {
    var next := a.next + 1;
    NextFrame(c.input, a.next, c.start, next);
    SkippedFrame(c, init, a.mirror, a.next, a.progress, next);
    assert b.mirror == a.mirror && b.progress == a.progress;
    if a.present {
      assert b.applied == b.next == next;
    } else {
      assert b.applied == a.applied && b.next == a.next && b.entry == a.entry;
    }
  }

  lemma BreakFits(c: Context, init: Live, a: Live, b: Live)
    requires Flows(c.input, c.start) && Fits(c, init, a) && ConsumerStep(c, a, Break, b)
    ensures Fits(c, init, b)
  {
  }

  lemma StepFits(c: Context, init: Live, a: Live, act: Act, b: Live)
    requires Flows(c.input, c.start) && Fits(c, init, a) && Step(c, a, act, b)
    ensures Fits(c, init, b)
  {
    if ConsumerStep(c, a, act, b) {
      match act
      case Take => TakeFits(c, init, a, b);
      case Draw => DrawFits(c, init, a, b);
      case Publish => PublishFits(c, init, a, b);
      case SeeResize => SeeResizeFits(c, init, a, b);
      case SeeGap => SeeGapFits(c, init, a, b);
      case SeeEnd => SeeEndFits(c, init, a, b);
      case SeeOpened => SeeOpenedFits(c, init, a, b);
      case Break => BreakFits(c, init, a, b);
    }
  }

  /** A consumer whose session was evicted does nothing more, save for feeding an output it had checked before. */
  lemma EvictedConsumerStops(c: Context, a: Live, b: Live, act: Act, d: Live)
    requires OutsideStep(c, a, Evict, b) && ConsumerStep(c, b, act, d)
    ensures !b.phase.Taken? ==> d == b.(phase := Stopped)
    ensures b.phase.Taken? ==> d.entry == a.entry && d.channel == a.channel && d.store == a.store && !d.present
  {
  }

  // Whole runs

  ghost predicate Run(c: Context, states: seq<Live>, acts: seq<Act>) {
    && |states| == |acts| + 1 && Starts(c, states[0])
    && forall i | 0 <= i < |acts| :: Step(c, states[i], acts[i], states[i + 1])
  }

  lemma {:induction false} RunFits(c: Context, states: seq<Live>, acts: seq<Act>, i: nat)
    requires Run(c, states, acts) && i <= |acts|
    ensures Fits(c, states[0], states[i])
    decreases i
  {
    if i == 0 {
      var init := states[0];
      assert init.mirror.Stream() + [] == init.mirror.Stream();
    } else {
      RunFits(c, states, acts, i - 1);
      StepFits(c, states[0], states[i - 1], acts[i - 1], states[i]);
    }
  }

  /** Sequences never go back. */
  lemma ProgressGrows(c: Context, init: Live, a: Live, act: Act, b: Live)
    requires Flows(c.input, c.start) && Fits(c, init, a) && Step(c, a, act, b)
    ensures a.progress <= b.progress && a.entry.gaps <= b.entry.gaps
  {
    if ConsumerStep(c, a, act, b) && act == Draw {
      assert FlowsAt(c.input, c.start, a.next);
    }
  }

  ghost predicate NotBack(a: Live, b: Live) {
    a.progress <= b.progress && a.entry.gaps <= b.entry.gaps
  }

  lemma {:induction false} ProgressGrowsOverRuns(c: Context, states: seq<Live>, acts: seq<Act>, i: nat, j: nat)
    requires Run(c, states, acts) && i <= j <= |acts|
    ensures NotBack(states[i], states[j])
    decreases j
  {
    if i < j {
      var k := j - 1;
      ProgressGrowsOverRuns(c, states, acts, i, k);
      RunFits(c, states, acts, k);
      assert Step(c, states[k], acts[k], states[k + 1]);
      ProgressGrows(c, states[0], states[k], acts[k], states[j]);
    }
  }

  // The entry follows the stream, gaps included

  predicate MovesSource(frame: ObservationFrame) {
    frame.Output? || frame.Gap?
  }

  /** How many gaps and stray openings are among the first `n` frames. */
  function GapsAmong(input: seq<ObservationFrame>, n: nat): nat
    requires n <= |input|
  {
    if n == 0 then 0 else GapsAmong(input, n - 1) + (if input[n - 1].Gap? || input[n - 1].Opened? then 1 else 0)
  }

  /** Of the first `n` frames, number `last` is the last that moves the source. */
  ghost predicate LastMove(input: seq<ObservationFrame>, n: nat, last: nat)
    requires n <= |input|
  {
    last < n && MovesSource(input[last]) && forall k | last < k < n :: !MovesSource(input[k])
  }

  /** Source and signal are where the last output or gap ends, or where the session started; gaps are counted. */
  ghost predicate EntryFollows(c: Context, init: Live, a: Live) {
    && a.next <= |c.input|
    && (forall last: nat | LastMove(c.input, a.next, last) ::
         a.entry.source == a.entry.signal == c.input[last].through)
    && ((forall k | 0 <= k < a.next :: !MovesSource(c.input[k])) ==>
        a.entry.source == c.start && a.entry.signal == init.entry.signal)
    && a.entry.gaps == GapsAmong(c.input, a.next)
  }

  lemma NextEntry(c: Context, init: Live, a: Live, b: Live)
    requires EntryFollows(c, init, a) && b.next == a.next + 1 <= |c.input|
    requires var frame := c.input[a.next];
             && (if MovesSource(frame) then b.entry.source == b.entry.signal == frame.through
                 else b.entry.source == a.entry.source && b.entry.signal == a.entry.signal)
             && b.entry.gaps == a.entry.gaps + if frame.Gap? || frame.Opened? then 1 else 0
    ensures EntryFollows(c, init, b)
  {
    forall last: nat | LastMove(c.input, b.next, last)
      ensures b.entry.source == b.entry.signal == c.input[last].through {
      if last < a.next {
        assert LastMove(c.input, a.next, last);
      }
    }
  }

  lemma StepFollows(c: Context, init: Live, a: Live, act: Act, b: Live)
    requires EntryFollows(c, init, a) && Step(c, a, act, b)
    ensures EntryFollows(c, init, b)
  {
    if b.next != a.next {
      NextEntry(c, init, a, b);
    } else {
      assert b.entry.source == a.entry.source && b.entry.signal == a.entry.signal && b.entry.gaps == a.entry.gaps;
    }
  }

  /** Over any run, through gaps and whatever else happens: the source sequence and the frame signal are where the last
      output or gap the consumer is done with ends, and every gap and stray opening is counted. */
  lemma {:induction false} EntryFollowsTheStream(c: Context, states: seq<Live>, acts: seq<Act>, i: nat)
    requires Run(c, states, acts) && i <= |acts|
    ensures EntryFollows(c, states[0], states[i])
    decreases i
  {
    if i > 0 {
      EntryFollowsTheStream(c, states, acts, i - 1);
      StepFollows(c, states[0], states[i - 1], acts[i - 1], states[i]);
    }
  }

  /** So the final notice, sent at the end of the stream, carries where its last output or gap ends. */
  lemma FinalCarriesTheLastSequence(c: Context, states: seq<Live>, acts: seq<Act>, i: nat, last: nat)
    requires Run(c, states, acts) && i < |acts| && ConsumerStep(c, states[i], acts[i], states[i + 1])
    requires acts[i] == SeeEnd && states[i].present
    requires LastMove(c.input, states[i].next, last)
    ensures states[i + 1].channel == states[i].channel + [Final(c.input[last].through)]
  {
    EntryFollowsTheStream(c, states, acts, i);
  }
}
