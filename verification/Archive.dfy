/** What a running session's archive holds, whoever writes it and however notices are merged. */
module Archive {
  import opened Wrappers
  import opened Bytes
  import opened Mirror
  import Obs = Observation
  import opened Session
  import opened Handoff
  import Record = CheckpointRecord
  import Files = CheckpointStore

  /** The worker's merging loop over what arrives before its deadline: each notice replaces the one before
      it, and a final one is never passed over. */
  method Merge(first: Notice, arrivals: seq<Notice>) returns (latest: Notice, taken: nat)
    ensures taken <= |arrivals| && latest == ([first] + arrivals)[taken]
    ensures forall i | 0 <= i < taken :: ([first] + arrivals)[i].Dirty?
    ensures latest.Final? || taken == |arrivals|
  {
    latest, taken := first, 0;
    while !latest.Final? && taken < |arrivals|
      invariant taken <= |arrivals| && latest == ([first] + arrivals)[taken]
      invariant forall i | 0 <= i < taken :: ([first] + arrivals)[i].Dirty?
    {
      latest, taken := arrivals[taken], taken + 1;
    }
  }

  /** A checkpoint was painted from a mirror that had had some of the frames, and as long as no gap was seen its
      sequence is not beyond them. */
  ghost predicate Honest(c: Context, init: Live, a: Live, saved: Saved)
    requires Mirror.Honest(c.view)
  {
    && saved.generation == c.generation && saved.frames <= a.applied && saved.frames <= |c.input|
    && MirrorFits(c, init, saved.content, saved.frames, Obs.Through(c.input, saved.frames, c.start))
    && (a.entry.gaps == 0 ==> saved.sequence <= Obs.Through(c.input, saved.frames, c.start))
  }

  /** A notice names no sequence the mirror has not reached, and the final one is the last of all. */
  ghost predicate NoticeFits(c: Context, a: Live, notice: Notice)
    requires a.next <= |c.input|
  {
    match notice
    case Dirty(sequence) => sequence <= a.progress
    case Final(sequence) => a.phase == Stopped && a.applied == a.next && sequence == a.entry.source
  }

  ghost predicate NoticesFit(c: Context, a: Live)
    requires a.next <= |c.input|
  {
    && (forall i | 0 <= i < |a.channel| :: NoticeFits(c, a, a.channel[i]))
    && (a.worker.Coalescing? ==> NoticeFits(c, a, a.worker.latest))
  }

  /** The archive is another generation's, was there at first, or is honest. */
  ghost predicate ArchiveFits(c: Context, init: Live, a: Live)
    requires Mirror.Honest(c.view)
  {
    a.store.archive.Some? && a.store.archive != init.store.archive ==> Honest(c, init, a, a.store.archive.value)
  }

  lemma HonestLater(c: Context, init: Live, a: Live, b: Live, saved: Saved)
    requires Mirror.Honest(c.view) && Honest(c, init, a, saved)
    requires a.applied <= b.applied && a.entry.gaps <= b.entry.gaps
    ensures Honest(c, init, b, saved)
  {
  }

  lemma NoticeLater(c: Context, a: Live, b: Live, notice: Notice)
    requires a.next <= |c.input| && b.next <= |c.input| && NoticeFits(c, a, notice)
    requires a.progress <= b.progress
    requires a.phase == Stopped ==>
             b.phase == Stopped && b.applied == a.applied && b.next == a.next && b.entry == a.entry
    ensures NoticeFits(c, b, notice)
  {
  }

  /** How a consumer's step changes what the archive depends on. */
  lemma ConsumerKeepsNotices(c: Context, init: Live, a: Live, act: Act, b: Live)
    requires Obs.Flows(c.input, c.start) && Fits(c, init, a) && ConsumerStep(c, a, act, b) && NoticesFit(c, a)
    ensures b.next <= |c.input| && NoticesFit(c, b) && a.applied <= b.applied && b.store == a.store
  {
    StepFits(c, init, a, act, b);
    ProgressGrows(c, init, a, act, b);
    var n := |a.channel|;
    forall i | 0 <= i < |b.channel| ensures NoticeFits(c, b, b.channel[i]) {
      if i < n {
        assert b.channel[i] == a.channel[i];
        NoticeLater(c, a, b, a.channel[i]);
      }
    }
    if a.worker.Coalescing? {
      NoticeLater(c, a, b, a.worker.latest);
    }
  }

  /** What is saved now is honest, at any sequence the mirror has reached. */
  lemma SavedNowIsHonest(c: Context, init: Live, a: Live, sequence: nat)
    requires Fits(c, init, a) && (a.entry.gaps == 0 ==> sequence <= a.progress)
    ensures Honest(c, init, a, Saved(c.generation, sequence, a.mirror, a.applied))
  {
  }

  lemma CommitKeepsArchive(c: Context, init: Live, a: Live, sequence: nat, store: Store)
    requires Fits(c, init, a) && (a.entry.gaps == 0 ==> sequence <= a.progress) && ArchiveFits(c, init, a)
    requires store == Commit(a.store, Saved(c.generation, sequence, a.mirror, a.applied)).0
    ensures store.archive.Some? && store.archive != init.store.archive ==> Honest(c, init, a, store.archive.value)
  {
    SavedNowIsHonest(c, init, a, sequence);
  }

  lemma SourceIsReached(c: Context, init: Live, a: Live, notice: Notice)
    requires Obs.Flows(c.input, c.start) && Fits(c, init, a) && NoticeFits(c, a, notice)
    ensures a.entry.gaps == 0 ==> notice.sequence <= a.progress
    ensures a.entry.gaps == 0 && notice.Final? ==> notice.sequence == a.progress
  {
  }

  lemma WorkerKeepsArchive(c: Context, init: Live, a: Live, act: Act, b: Live)
    requires Obs.Flows(c.input, c.start) && Fits(c, init, a) && WorkerStep(c, a, act, b)
    requires NoticesFit(c, a) && ArchiveFits(c, init, a)
    ensures b.next <= |c.input| && NoticesFit(c, b) && ArchiveFits(c, init, b)
  {
    assert b.entry == a.entry && b.applied == a.applied;
    if act == SaveLatest {
      SourceIsReached(c, init, a, a.worker.latest);
      CommitKeepsArchive(c, init, a, a.worker.latest.sequence, b.store);
      if b.store.archive.Some? && b.store.archive != init.store.archive {
        HonestLater(c, init, a, b, b.store.archive.value);
      }
    } else {
      assert b.store == a.store;
      if a.store.archive.Some? && a.store.archive != init.store.archive {
        HonestLater(c, init, a, b, a.store.archive.value);
      }
    }
  }

  lemma OutsideKeepsArchive(c: Context, init: Live, a: Live, act: Act, b: Live)
    requires Obs.Flows(c.input, c.start) && Fits(c, init, a) && OutsideStep(c, a, act, b)
    requires NoticesFit(c, a) && ArchiveFits(c, init, a)
    ensures b.next <= |c.input| && NoticesFit(c, b) && ArchiveFits(c, init, b)
  {
    assert b.entry == a.entry && b.applied == a.applied;
    if act == ArchiveNow {
      CommitKeepsArchive(c, init, a, a.progress, b.store);
    }
    if b.store.archive.Some? && b.store.archive != init.store.archive {
      HonestLater(c, init, a, b, b.store.archive.value);
    }
  }

  ghost predicate AllFits(c: Context, init: Live, a: Live) {
    Fits(c, init, a) && NoticesFit(c, a) && ArchiveFits(c, init, a)
  }

  lemma StepKeepsArchive(c: Context, init: Live, a: Live, act: Act, b: Live)
    requires Obs.Flows(c.input, c.start) && AllFits(c, init, a) && Step(c, a, act, b)
    ensures AllFits(c, init, b)
  {
    StepFits(c, init, a, act, b);
    ProgressGrows(c, init, a, act, b);
    if ConsumerStep(c, a, act, b) {
      ConsumerKeepsNotices(c, init, a, act, b);
      if a.store.archive.Some? && a.store.archive != init.store.archive {
        HonestLater(c, init, a, b, a.store.archive.value);
      }
    } else if WorkerStep(c, a, act, b) {
      WorkerKeepsArchive(c, init, a, act, b);
    } else {
      OutsideKeepsArchive(c, init, a, act, b);
    }
  }

  lemma {:induction false} RunKeepsArchive(c: Context, states: seq<Live>, acts: seq<Act>, i: nat)
    requires Run(c, states, acts) && i <= |acts|
    ensures AllFits(c, states[0], states[i])
    decreases i
  {
    if i == 0 {
      RunFits(c, states, acts, 0);
    } else {
      RunKeepsArchive(c, states, acts, i - 1);
      StepKeepsArchive(c, states[0], states[i - 1], acts[i - 1], states[i]);
    }
  }

  /** The bytes drawn from the first `frames` frames that lie before stream position `sequence`. */
  function DrawnTo(c: Context, init: Live, frames: nat, sequence: nat): (r: seq<byte>)
    requires frames <= |c.input|
    ensures r <= Obs.Drawn(c.input, frames, init.entry.dropStale)
  {
    var drawn := Obs.Drawn(c.input, frames, init.entry.dropStale);
    var n := sequence - c.start - |Obs.Dropped(c.input, frames, init.entry.dropStale)|;
    if n <= 0 then [] else if n < |drawn| then drawn[..n] else drawn
  }

  lemma AllDrawnTo(c: Context, init: Live, frames: nat)
    requires frames <= |c.input| && Obs.Flows(c.input, c.start) && Obs.NoGap(c.input, frames)
    ensures DrawnTo(c, init, frames, Obs.Through(c.input, frames, c.start)) ==
            Obs.Drawn(c.input, frames, init.entry.dropStale)
  {
    Obs.SequenceCounts(c.input, frames, c.start);
    Obs.DrawnIsReceived(c.input, frames, init.entry.dropStale);
  }

  /** Archive honesty, exactly. In a run that has seen no gap, at any moment, whatever notices were merged and
      whoever else archived, the archive of this session was painted from an engine that had been fed a prefix of
      what the session has drawn, short of it by at most 35 bytes held back. It had been fed everything up to the
      recorded sequence if and only if the bytes held back all lie beyond it; an archive recorded at its mirror's
      own sequence, if and only if nothing was held back. */
  lemma ArchiveIsHonest(c: Context, states: seq<Live>, acts: seq<Act>, i: nat)
    requires Run(c, states, acts) && i <= |acts| && states[i].entry.gaps == 0
    requires states[i].store.archive.Some? && states[i].store.archive != states[0].store.archive
    ensures var saved, init := states[i].store.archive.value, states[0];
            && saved.generation == c.generation && saved.frames <= |c.input|
            && var before := init.mirror.Stream();
               var drawn, due := Obs.Drawn(c.input, saved.frames, init.entry.dropStale),
                 DrawnTo(c, init, saved.frames, saved.sequence);
               && saved.content.log + saved.content.held == before + drawn
               && (before + due <= saved.content.log <==> |saved.content.held| <= |drawn| - |due|)
               && (saved.sequence == Obs.Through(c.input, saved.frames, c.start) ==>
                     due == drawn && (before + due <= saved.content.log <==> saved.content.held == []))
               && |saved.content.held| <= 3 + MAX_PARAMETERS
               && c.start + |Obs.Received(c.input, saved.frames)| >= saved.sequence
  {
    RunKeepsArchive(c, states, acts, i);
    var a, saved, init := states[i], states[i].store.archive.value, states[0];
    NoGapBefore(c, init, a, saved.frames);
    Obs.SequenceCounts(c.input, saved.frames, c.start);
    UndecidedBytes(saved.content.held, 0);
    AllDrawnTo(c, init, saved.frames);
    ReachesExactly(saved.content.log, saved.content.held, init.mirror.Stream(),
                   Obs.Drawn(c.input, saved.frames, init.entry.dropStale),
                     DrawnTo(c, init, saved.frames, saved.sequence));
  }

  /** What was fed of `before + drawn` reaches `before + due` when what is held of it leaves room. */
  lemma ReachesExactly(fed: seq<byte>, held: seq<byte>, before: seq<byte>, drawn: seq<byte>, due: seq<byte>)
    requires fed + held == before + drawn && due <= drawn
    ensures before + due <= fed <==> |held| <= |drawn| - |due|
  {
    var all := before + drawn;
    assert fed == all[..|fed|] && before + due == all[..|before| + |due|];
    assert |fed| + |held| == |all|;
    if |held| <= |drawn| - |due| {
      assert all[..|fed|][..|before| + |due|] == all[..|before| + |due|];
    }
  }

  lemma NoGapBefore(c: Context, init: Live, a: Live, n: nat)
    requires Fits(c, init, a) && a.entry.gaps == 0 && n <= a.applied
    ensures n <= |c.input| && Obs.NoGap(c.input, n)
  {
    if n > a.next {
      Obs.NextFrame(c.input, a.next, c.start, n);
    }
  }

  /** Once the worker has saved `Final` for a generation that owns the archive, in a run without gaps, the
      archive is of that generation and recorded at or beyond its last output. Either its engine had been fed
      exactly what the mirror's had, which is everything the session ever drew if and only if nothing is held
      back, and never more than 35 bytes less; or it is still the archive there at first, left by an earlier
      process of the same generation that was already as far. */
  lemma FinalCoversTheLastOutput(c: Context, states: seq<Live>, acts: seq<Act>, i: nat)
    requires Run(c, states, acts) && i < |acts| && acts[i] == SaveLatest
    requires states[i].entry.gaps == 0 && states[i + 1].worker == Finished(true)
    ensures var b := states[i + 1];
            && b.store.archive.Some? && b.store.archive.value.generation == c.generation
            && b.store.archive.value.sequence >= b.progress == b.entry.source && b.applied <= |c.input|
            && var fed := b.store.archive.value.content.log;
               var all := states[0].mirror.Stream() + Obs.Drawn(c.input, b.applied, states[0].entry.dropStale);
               (&& fed == b.mirror.log && (fed == all <==> b.mirror.held == [])
                && |all| - |fed| <= 3 + MAX_PARAMETERS)
               || b.store.archive == states[0].store.archive
  {
    RunKeepsArchive(c, states, acts, i);
    RunKeepsArchive(c, states, acts, i + 1);
    assert Step(c, states[i], acts[i], states[i + 1]);
    FinalSaved(c, states[0], states[i], states[i + 1]);
    var b := states[i + 1];
    UndecidedBytes(b.mirror.held, 0);
    assert b.mirror.log + b.mirror.held ==
           states[0].mirror.Stream() + Obs.Drawn(c.input, b.applied, states[0].entry.dropStale);
  }

  lemma FinalSaved(c: Context, init: Live, a: Live, b: Live)
    requires Obs.Flows(c.input, c.start) && Starts(c, init) && AllFits(c, init, a) && AllFits(c, init, b)
    requires WorkerStep(c, a, SaveLatest, b) && b.worker == Finished(true) && a.entry.gaps == 0
    ensures b.store.archive.Some? && b.store.archive.value.generation == c.generation
    ensures b.store.archive.value.sequence >= b.progress == b.entry.source
    ensures b.store.archive.value.content.log == b.mirror.log
         || b.store.archive == init.store.archive
  {
    SourceIsReached(c, init, a, a.worker.latest);
    var saved := b.store.archive.value;
    if b.store.archive != init.store.archive {
      NoGapBefore(c, init, b, b.applied);
      Obs.SameSequenceSameBytes(c.input, saved.frames, b.applied, c.start, init.entry.dropStale);
      SameBytesSameMirror(c.view, saved.content, b.mirror);
    }
  }

  /** An output that ends inside an escape sequence, archived on request: the archive is recorded at sequence
      1 and painted from an engine that was fed nothing, so a session resumed from it never sees the ESC. */
  lemma HeldBytesAreNotArchived()
    ensures var c := Context(Plain(), [Obs.Output(0, 1, [ESC])], 0, 1);
            var owned := Fresh().(store := Store(Some(1), None));
            var taken := owned.(phase := Taken(false));
            var drawn := taken.(mirror := State([], [ESC], None), progress := 1, phase := Ahead, applied := 1);
            var archived := drawn.(store := Store(Some(1), Some(Saved(1, 1, State([], [ESC], None), 1))));
            && Run(c, [owned, taken, drawn, archived], [Take, Draw, ArchiveNow]) && archived.entry.gaps == 0
            && archived.store.archive.value.sequence == 1 && archived.store.archive.value.content.log == []
  {
    PlainIsHonest();
    var c := Context(Plain(), [Obs.Output(0, 1, [ESC])], 0, 1);
    var owned := Fresh().(store := Store(Some(1), None));
    var taken := owned.(phase := Taken(false));
    var drawn := taken.(mirror := State([], [ESC], None), progress := 1, phase := Ahead, applied := 1);
    var archived := drawn.(store := Store(Some(1), Some(Saved(1, 1, State([], [ESC], None), 1))));
    assert Decide([ESC], 1) == NeedMore;
    assert State([], [ESC], None).Stream() == [ESC];
    assert [] + [] + [ESC] == [ESC];
    assert ConsumerStep(c, owned, Take, taken);
    assert ConsumerStep(c, taken, Draw, drawn);
    assert OutsideStep(c, drawn, ArchiveNow, archived);
  }

  // What is lost when the stream breaks off

  /** The last notice sent names the source sequence, and once it is saved the archive covers it. */
  ghost predicate KeptUp(c: Context, a: Live)
    requires a.next <= |c.input|
  {
    a.entry.gaps == 0 ==>
      if a.channel != [] then a.channel[|a.channel| - 1].sequence == a.entry.source
      else match a.worker
        case Coalescing(latest) => latest.sequence == a.entry.source
        case Waiting => Obs.HasOutput(c.input, a.next) ==> Covers(a.store, c.generation, a.entry.source)
        case Finished(_) => true
  }

  lemma CommitCovers(store: Store, saved: Saved, sequence: nat)
    requires store.owner == Some(saved.generation) && saved.sequence >= sequence
    ensures Covers(Commit(store, saved).0, saved.generation, sequence)
  {
  }

  lemma ConsumerKeepsUp(c: Context, a: Live, act: Act, b: Live)
    requires a.next <= |c.input| && b.next <= |c.input| && KeptUp(c, a) && ConsumerStep(c, a, act, b)
    ensures KeptUp(c, b)
  {
    if a.next < b.next {
      Obs.NextFrame(c.input, a.next, c.start, b.next);
    }
  }

  lemma StepKeepsUp(c: Context, init: Live, a: Live, act: Act, b: Live)
    requires Obs.Flows(c.input, c.start) && Fits(c, init, a) && Fits(c, init, b) && KeptUp(c, a) && Step(c, a, act, b)
    requires a.store.owner == b.store.owner == Some(c.generation)
    ensures KeptUp(c, b)
  {
    if ConsumerStep(c, a, act, b) {
      ConsumerKeepsUp(c, a, act, b);
    } else if act == SaveLatest {
      CommitCovers(a.store, Saved(c.generation, a.worker.latest.sequence, a.mirror, a.applied),
        a.worker.latest.sequence);
    } else if act == ArchiveNow {
      Obs.ThroughGrows(c.input, a.next, a.applied, c.start);
      if a.entry.gaps == 0 {
        CommitCovers(a.store, Saved(c.generation, a.progress, a.mirror, a.applied), a.entry.source);
      }
    }
  }

  lemma {:induction false} RunKeepsUp(c: Context, states: seq<Live>, acts: seq<Act>, i: nat)
    requires Run(c, states, acts) && i <= |acts|
    requires forall j | 0 <= j <= i :: states[j].store.owner == Some(c.generation)
    ensures Fits(c, states[0], states[i]) && KeptUp(c, states[i])
    decreases i
  {
    RunFits(c, states, acts, i);
    if i > 0 {
      RunKeepsUp(c, states, acts, i - 1);
      StepKeepsUp(c, states[0], states[i - 1], acts[i - 1], states[i]);
    }
  }

  /** What a worker that ends without a final notice leaves behind, in a run without gaps in which its
      generation owns the archive throughout: every output published is archived if and only if the worker was
      not merging a notice beyond what the archive covers. */
  lemma BreakingOffLosesExactly(c: Context, states: seq<Live>, acts: seq<Act>, i: nat)
    requires Run(c, states, acts) && i < |acts| && acts[i] == GiveUp && states[i].entry.gaps == 0
    requires forall j | 0 <= j <= i :: states[j].store.owner == Some(c.generation)
    requires states[i].next <= |c.input| && Obs.HasOutput(c.input, states[i].next)
    ensures Covers(states[i + 1].store, c.generation, states[i + 1].entry.source) <==>
            (states[i].worker.Coalescing? ==> Covers(states[i].store, c.generation, states[i].worker.latest.sequence))
  {
    RunKeepsUp(c, states, acts, i);
    assert Step(c, states[i], acts[i], states[i + 1]);
  }

  function OneOutput(): Context {
    Context(Plain(), [Obs.Output(0, 1, [0x61])], 0, 1)
  }

  /** One output is taken, drawn and published; its notice is received; the stream breaks off; the worker ends. */
  function BreakingOff(k: nat): Live {
    var owned := Fresh().(store := Store(Some(1), None));
    var drawn := State([0x61], [], None);
    if k == 0 then owned
    else if k == 1 then owned.(phase := Taken(false))
    else if k == 2 then owned.(mirror := drawn, progress := 1, phase := Ahead, applied := 1)
    else
      var published :=
        owned.(mirror := drawn, progress := 1, applied := 1, next := 1, entry := Published(owned.entry, 1));
      if k == 3 then published.(channel := [Dirty(1)])
      else if k == 4 then published.(worker := Coalescing(Dirty(1)))
      else if k == 5 then published.(worker := Coalescing(Dirty(1)), phase := Stopped)
      else published.(worker := Finished(false), phase := Stopped)
  }

  const BREAKING_OFF: seq<Act> := [Take, Draw, Publish, Receive, Break, GiveUp]

  lemma BreakingOffSteps(k: nat)
    requires k < 6
    ensures Step(OneOutput(), BreakingOff(k), BREAKING_OFF[k], BreakingOff(k + 1))
  {
    PlainIsHonest();
    assert State([0x61], [], None).Stream() == [0x61] == State([], [], None).Stream() + [0x61];
    assert [] + [Dirty(1)] == [Dirty(1)] && [Dirty(1)][1..] == [];
    assert ConsumerStep(OneOutput(), BreakingOff(k), BREAKING_OFF[k], BreakingOff(k + 1))
        || WorkerStep(OneOutput(), BreakingOff(k), BREAKING_OFF[k], BreakingOff(k + 1));
  }

  /** Merging loses nothing but this: if the stream breaks off without an end while the worker is still
      merging, the last notice is not saved at all. */
  lemma BreakingOffLosesTheLastNotice()
    ensures var states := seq(7, k requires 0 <= k < 7 => BreakingOff(k));
            && Run(OneOutput(), states, BREAKING_OFF)
            && states[6].worker == Finished(false) && states[6].store.archive == None && states[6].progress == 1
  {
    PlainIsHonest();
    forall k | 0 <= k < 6 ensures Step(OneOutput(), BreakingOff(k), BREAKING_OFF[k], BreakingOff(k + 1)) {
      BreakingOffSteps(k);
    }
  }

  // The store of this module is the files of the checkpoint store

  /** The files hold what the store says. */
  predicate Represents(disk: Files.Disk, store: Store) {
    && Files.Owner(disk.lock).Ok?
    && (store.owner == match Files.Owner(disk.lock).value case None => None case Some(g) => Some(g as nat))
    && disk.archive.Some? == store.archive.Some?
    && (store.archive.Some? ==>
          Files.Position(disk).Some?
          && Files.Position(disk).value.0 as nat == store.archive.value.generation
          && Files.Position(disk).value.1 as nat == store.archive.value.sequence)
  }

  /** Committing to the files is committing to the store. */
  lemma CommitIsCommitted(p: Files.Pane, disk: Files.Disk, store: Store, w: Files.Writing, saved: Saved)
    requires Represents(disk, store) && |w.nonce| == Record.NONCE_BYTES
    requires saved.generation == w.generation as nat && saved.sequence == w.sequence as nat
    ensures var (after, r) := Files.Committed(disk, w.generation, w.sequence, Files.RecordOf(p, w));
            Represents(after, Commit(store, saved).0) && (r == Ok(()) <==> Commit(store, saved).1)
  {
    Record.RecordLayout(w.generation, w.sequence, w.nonce,
      p.sealing.seal(w.nonce, p.aad, p.sealing.encode(w.paint, w.frame)));
  }
}
