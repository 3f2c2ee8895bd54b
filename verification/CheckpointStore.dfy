/** The archive of one pane: who owns it, what commits, and what readers see while others are at work. */
module CheckpointStore {
  import opened Wrappers
  import opened Bytes
  import opened FrameDelta
  import opened CheckpointRecord

  /** The pane's two files. An absent lock file is an empty one. */
  datatype Disk = Disk(lock: seq<byte>, archive: Option<seq<byte>>)

  /** The generation named in the lock file. */
  function Owner(lock: seq<byte>): Result<Option<word>, Error> {
    if |lock| == 0 then Ok(None) else if |lock| == 8 then Ok(Some(WordOf(lock))) else Err(InvalidOwner)
  }

  predicate OwnedBy(disk: Disk, generation: word) {
    Owner(disk.lock) == Ok(Some(generation))
  }

  /** Where the archive stands. */
  function Position(disk: Disk): Option<(word, word)> {
    if disk.archive == None then None else PositionOf(disk.archive.value)
  }

  /** The archive is already as far as `(generation, sequence)`. */
  predicate Covers(disk: Disk, generation: word, sequence: word) {
    var at := Position(disk);
    at.Some? && at.value.0 == generation && at.value.1 >= sequence
  }

  /** What one write stores, if it is allowed to and is not behind. */
  function Committed(disk: Disk, generation: word, sequence: word, bytes: seq<byte>): (Disk, Result<(), Error>) {
    match Owner(disk.lock)
    case Err(error) => (disk, Err(error))
    case Ok(owner) =>
      if owner != Some(generation) then (disk, Err(NotOwner))
      else if Covers(disk, generation, sequence) then (disk, Ok(()))
      else (disk.(archive := Some(bytes)), Ok(()))
  }

  function Claimed(disk: Disk, generation: word): Disk {
    disk.(lock := WordBytes(generation))
  }

  class CheckpointFiles {
    const sealing: Sealing
    const aad: seq<byte>
    var lock: seq<byte>
    var archive: Option<seq<byte>>

    function Contents(): Disk
      reads this
    {
      Disk(lock, archive)
    }

    constructor (sealing: Sealing, aad: seq<byte>)
      ensures this.sealing == sealing && this.aad == aad && Contents() == Disk([], None)
    {
      this.sealing, this.aad, lock, archive := sealing, aad, [], None;
    }

    /** Rewrites the lock file from its start. */
    method WriteClaimed(generation: Option<word>)
      modifies `lock
      ensures lock == if generation.Some? then WordBytes(generation.value) else []
    {
      lock := [];
      if generation.Some? {
        lock := lock + WordBytes(generation.value);
      }
    }

    method ClaimGeneration(generation: word)
      modifies this
      ensures Contents() == Claimed(old(Contents()), generation)
    {
      WriteClaimed(Some(generation));
    }

    method Remove() returns (existed: bool)
      modifies this
      ensures Contents() == Disk([], None) && existed == old(archive).Some?
    {
      WriteClaimed(None);
      existed := archive.Some?;
      archive := None;
    }

    method Commit(generation: word, sequence: word, bytes: seq<byte>) returns (r: Result<(), Error>)
      modifies this
      ensures (Contents(), r) == Committed(old(Contents()), generation, sequence, bytes)
    {
      var owner := Owner(lock);
      if owner.Err? { return Err(owner.error); }
      if owner.value != Some(generation) { return Err(NotOwner); }
      if Covers(Contents(), generation, sequence) { return Ok(()); }
      archive := Some(bytes);
      r := Ok(());
    }

    method Write(generation: word, sequence: word, nonce: seq<byte>, paint: seq<byte>, frame: Frame)
      returns (r: Result<(), Error>)
      modifies this
      ensures (Contents(), r) ==
              Committed(old(Contents()), generation, sequence,
                Written(sealing, aad, generation, sequence, nonce, paint, frame))
    {
      var text := sealing.encode(paint, frame);
      var bytes := RecordBytes(generation, sequence, nonce, sealing.seal(nonce, aad, text));
      r := Commit(generation, sequence, bytes);
    }

    method ReadArchive() returns (r: Result<Option<Archived>, Error>)
      ensures r == Read(sealing, aad, archive)
    {
      if archive == None { return Ok(None); }
      var bytes := archive.value;
      if !HeaderHolds(bytes) { return Err(InvalidHeader); }
      var generation, sequence := WordOf(bytes[9..17]), WordOf(bytes[17..25]);
      var text := sealing.open(bytes[25..HEADER_BYTES], aad, bytes[HEADER_BYTES..]);
      if text == None { return Err(AuthenticationFailed); }
      var payload := sealing.decode(text.value);
      if payload == None { return Err(InvalidPayload); }
      r := Ok(Some(Archived(generation, sequence, payload.value.0, payload.value.1)));
    }
  }

  /** A write succeeds for the owner and no one else. A read after it gives back what was written, unless the
      archive already was as far; a read after a write that was refused gives what it gave before. */
  lemma ReadAfterWriting(s: Sealing, aad: seq<byte>, disk: Disk, generation: word, sequence: word, nonce: seq<byte>,
      paint: seq<byte>, frame: Frame)
    requires Sound(s) && |nonce| == NONCE_BYTES
    ensures var (after, r) :=
            Committed(disk, generation, sequence, Written(s, aad, generation, sequence, nonce, paint, frame));
            && (r == Ok(()) <==> OwnedBy(disk, generation))
            && (r == Ok(()) ==> Covers(after, generation, sequence))
            && Read(s, aad, after.archive) ==
               if r == Ok(()) && !Covers(disk, generation, sequence) then
                 Ok(Some(Archived(generation, sequence, paint, frame)))
               else Read(s, aad, disk.archive)
  {
    RecordLayout(generation, sequence, nonce, s.seal(nonce, aad, s.encode(paint, frame)));
    ReadAfterWrite(s, aad, aad, generation, sequence, nonce, paint, frame);
  }

  /** How a write is answered, from the files alone: a lock file that is neither empty nor 8 bytes long is no owner's,
      one that is empty or holds another generation refuses, and a write to one's own is refused nothing; it is
      stored unless the archive has a header of ours with the same generation and no smaller sequence. */
  lemma AnsweredExactly(disk: Disk, generation: word, sequence: word, bytes: seq<byte>)
    ensures var (after, r) := Committed(disk, generation, sequence, bytes);
            && (r == Err(InvalidOwner) <==> |disk.lock| != 0 && |disk.lock| != 8)
            && (r == Err(NotOwner) <==> |disk.lock| == 0 || (|disk.lock| == 8 && disk.lock != WordBytes(generation)))
            && (r == Ok(()) <==> disk.lock == WordBytes(generation))
            && after.lock == disk.lock
            && (r.Err? ==> after == disk)
            && (r.Ok? ==>
                  var ahead := disk.archive.Some? && |disk.archive.value| >= 37 &&
                    disk.archive.value[..8] == Ascii("SKTERM01") && disk.archive.value[8] == 2 &&
                    disk.archive.value[9..17] == WordBytes(generation) &&
                    BigValue(disk.archive.value[17..25]) >= sequence as nat;
                  after.archive == if ahead then disk.archive else Some(bytes))
  {
    assert MAGIC == Ascii("SKTERM01");
    WordRoundTrip(generation);
    if |disk.lock| == 8 {
      WordBytesOf(disk.lock);
    }
    if disk.archive.Some? && |disk.archive.value| >= 37 {
      WordBytesOf(disk.archive.value[9..17]);
    }
  }

  /** Order follows ownership: whatever the archive holds of another generation, greater or smaller, the
      owner's write replaces it and the other generation's writes are refused. */
  lemma OwnershipDecides(disk: Disk, owner: word, other: word, sequence: word, late: word, bytes: seq<byte>)
    requires owner != other && (Position(disk).Some? ==> Position(disk).value.0 == other)
    ensures var (after, r) := Committed(Claimed(disk, owner), owner, sequence, bytes);
            r == Ok(()) && after.archive == Some(bytes)
            && Committed(after, other, late, bytes) == (after, Err(NotOwner))
  {
    WordRoundTrip(owner);
  }

  // Processes at work at the same time

  /** One write on its way, with everything its record will hold. */
  datatype Writing = Writing(generation: word, sequence: word, nonce: seq<byte>, paint: seq<byte>, frame: Frame)

  /** What the process holding the lock does next. */
  datatype Phase =
    | Claiming(generation: word)
    | Storing(generation: word)
    | Removing
    | Unlinking
    | Checking(write: Writing)
    | Comparing(write: Writing)
    | Renaming(write: Writing)

  /** The files and the holder of their lock; readers take no lock. */
  datatype Shared = Shared(disk: Disk, holder: Option<Phase>)

  datatype Event =
    | StartClaim(generation: word)
    | StartRemove
    | StartWrite(write: Writing)
    | Truncate
    | Store
    | Unlink
    | Check
    | Compare
    | Rename
    | Die(stored: nat)

  /** The store's cipher, and the pane's associated data. */
  datatype Pane = Pane(sealing: Sealing, aad: seq<byte>)

  function RecordOf(p: Pane, w: Writing): seq<byte> {
    Written(p.sealing, p.aad, w.generation, w.sequence, w.nonce, w.paint, w.frame)
  }

  function Released(disk: Disk): Shared {
    Shared(disk, None)
  }

  /** Steps between which any other process may run. A holder that dies releases the lock; if it was storing
      its generation, part of it may be left. */
  ghost predicate Step(p: Pane, a: Shared, e: Event, b: Shared) {
    match e
    case StartClaim(g) => a.holder == None && b == a.(holder := Some(Claiming(g)))
    case StartRemove => a.holder == None && b == a.(holder := Some(Removing))
    case StartWrite(w) => a.holder == None && |w.nonce| == NONCE_BYTES && b == a.(holder := Some(Checking(w)))
    case Truncate =>
      a.holder.Some? && (
        match a.holder.value
        case Claiming(g) => b == Shared(a.disk.(lock := []), Some(Storing(g)))
        case Removing => b == Shared(a.disk.(lock := []), Some(Unlinking))
        case _ => false)
    case Store => a.holder.Some? && a.holder.value.Storing? && b == Released(Claimed(a.disk, a.holder.value.generation))
    case Unlink => a.holder == Some(Unlinking) && b == Released(a.disk.(archive := None))
    case Check =>
      a.holder.Some? && a.holder.value.Checking? &&
      var w := a.holder.value.write;
      b == if OwnedBy(a.disk, w.generation) then a.(holder := Some(Comparing(w))) else Released(a.disk)
    case Compare =>
      a.holder.Some? && a.holder.value.Comparing? &&
      var w := a.holder.value.write;
      b == if Covers(a.disk, w.generation, w.sequence) then Released(a.disk) else a.(holder := Some(Renaming(w)))
    case Rename =>
      a.holder.Some? && a.holder.value.Renaming? &&
      b == Released(a.disk.(archive := Some(RecordOf(p, a.holder.value.write))))
    case Die(stored) =>
      a.holder.Some? &&
      b == if a.holder.value.Storing? && stored < 8 then
             Released(a.disk.(lock := WordBytes(a.holder.value.generation)[..stored]))
           else Released(a.disk)
  }

  /** The write in progress that the archive will hold next. */
  ghost predicate Valid(a: Shared) {
    a.holder.Some? ==>
      match a.holder.value
      case Storing(g) => a.disk.lock == []
      case Checking(w) => |w.nonce| == NONCE_BYTES
      case Comparing(w) => OwnedBy(a.disk, w.generation) && |w.nonce| == NONCE_BYTES
      case Renaming(w) =>
        OwnedBy(a.disk, w.generation) && !Covers(a.disk, w.generation, w.sequence) && |w.nonce| == NONCE_BYTES
      case _ => true
  }

  /** One step: the archive stays, is removed, or becomes the record of the owner's write, which goes beyond
      whatever of the same generation was there. */
  ghost predicate Advances(p: Pane, a: Shared, e: Event, b: Shared) {
    || b.disk.archive == a.disk.archive
    || (e == Unlink && b.disk.archive == None)
    || (e == Rename && a.holder.Some? && a.holder.value.Renaming?
        && var w := a.holder.value.write;
           OwnedBy(a.disk, w.generation) && b.disk.archive == Some(RecordOf(p, w))
           && Position(b.disk) == Some((w.generation, w.sequence))
           && (Position(a.disk).Some? && Position(a.disk).value.0 == w.generation ==>
              Position(a.disk).value.1 < w.sequence))
  }

  lemma EveryStepAdvances(p: Pane, a: Shared, e: Event, b: Shared)
    requires Valid(a) && Step(p, a, e, b)
    ensures Valid(b) && Advances(p, a, e, b)
  {
    if e == Rename {
      var w := a.holder.value.write;
      RecordLayout(w.generation, w.sequence, w.nonce,
        p.sealing.seal(w.nonce, p.aad, p.sealing.encode(w.paint, w.frame)));
    }
  }

  // Whole runs

  ghost predicate Run(p: Pane, states: seq<Shared>, events: seq<Event>) {
    && |states| == |events| + 1 && Valid(states[0])
    && forall i | 0 <= i < |events| :: Step(p, states[i], events[i], states[i + 1])
  }

  lemma {:induction false} RunIsValid(p: Pane, states: seq<Shared>, events: seq<Event>, i: nat)
    requires Run(p, states, events) && i <= |events|
    ensures Valid(states[i])
    decreases i
  {
    if i > 0 {
      RunIsValid(p, states, events, i - 1);
      EveryStepAdvances(p, states[i - 1], events[i - 1], states[i]);
    }
  }

  /** Nobody but `g` owns the pane, and nobody removes its archive, from `i` to `j`. */
  ghost predicate Undisturbed(states: seq<Shared>, events: seq<Event>, g: word, i: nat, j: nat)
    requires |states| == |events| + 1 && i <= j <= |events|
  {
    forall k | i <= k < j ::
      events[k] != Unlink &&
        (Owner(states[k].disk.lock).Ok? && Owner(states[k].disk.lock).value.Some? ==> OwnedBy(states[k].disk, g))
  }

  /** Once the archive belongs to a generation it stays with it, and its sequence never decreases, until
      another generation claims the pane or the archive is removed. */
  lemma {:induction false} SequenceNeverDecreases(p: Pane, states: seq<Shared>, events: seq<Event>, g: word, i: nat,
      j: nat)
    requires Run(p, states, events) && i <= j <= |events| && Undisturbed(states, events, g, i, j)
    requires Position(states[i].disk).Some? && Position(states[i].disk).value.0 == g
    ensures Position(states[j].disk).Some? && Position(states[j].disk).value.0 == g
    ensures Position(states[i].disk).value.1 <= Position(states[j].disk).value.1
    decreases j
  {
    if j > i {
      SequenceNeverDecreases(p, states, events, g, i, j - 1);
      RunIsValid(p, states, events, j - 1);
      EveryStepAdvances(p, states[j - 1], events[j - 1], states[j]);
    }
  }

  /** Write `w` returns without an error at this step. */
  ghost predicate Completes(a: Shared, e: Event, w: Writing) {
    || (e == Rename && a.holder == Some(Renaming(w)))
    || (e == Compare && a.holder == Some(Comparing(w)) && Covers(a.disk, w.generation, w.sequence))
  }

  /** A write that completes is the owner's, and leaves the archive at least as far as it. */
  lemma CompletedIsCovered(p: Pane, a: Shared, e: Event, b: Shared, w: Writing)
    requires Valid(a) && Step(p, a, e, b) && Completes(a, e, w)
    ensures OwnedBy(a.disk, w.generation) && Covers(b.disk, w.generation, w.sequence)
  {
    RecordLayout(w.generation, w.sequence, w.nonce, p.sealing.seal(w.nonce, p.aad, p.sealing.encode(w.paint, w.frame)));
  }

  /** While `g` owns the pane, at the end of any run the archive is at least as far as every completed write. */
  lemma NoCompletedWriteIsAhead(p: Pane, states: seq<Shared>, events: seq<Event>, g: word, k: nat, w: Writing)
    requires Run(p, states, events) && Undisturbed(states, events, g, 0, |events|)
    requires k < |events| && Completes(states[k], events[k], w)
    ensures w.generation == g && Covers(states[|events|].disk, g, w.sequence)
  {
    RunIsValid(p, states, events, k);
    CompletedIsCovered(p, states[k], events[k], states[k + 1], w);
    assert Undisturbed(states, events, g, k + 1, |events|);
    SequenceNeverDecreases(p, states, events, g, k + 1, |events|);
  }

  /** The archive at `i` is what it was at first, or the record of the last write renamed into place. */
  lemma {:induction false} ArchiveIsLastCommitted(p: Pane, states: seq<Shared>, events: seq<Event>, i: nat)
    returns (k: nat)
    requires Run(p, states, events) && i <= |events|
    ensures states[i].disk.archive == None || states[i].disk.archive == states[0].disk.archive
         || (k < i && events[k] == Rename && states[k].holder.Some? && states[k].holder.value.Renaming?
             && |states[k].holder.value.write.nonce| == NONCE_BYTES
             && OwnedBy(states[k].disk, states[k].holder.value.write.generation)
             && states[i].disk.archive == Some(RecordOf(p, states[k].holder.value.write))
             && forall m | k < m < i :: events[m] != Rename && events[m] != Unlink)
    decreases i
  {
    k := 0;
    if i > 0 {
      RunIsValid(p, states, events, i - 1);
      EveryStepAdvances(p, states[i - 1], events[i - 1], states[i]);
      if events[i - 1] == Rename {
        k := i - 1;
      } else {
        k := ArchiveIsLastCommitted(p, states, events, i - 1);
      }
    }
  }

  /** Concurrent writes end at the greatest sequence: the archive holds the record of a completed write of
      the owner, or what was there first, and no completed write is ahead of it. */
  lemma WritesEndAtTheGreatest(p: Pane, states: seq<Shared>, events: seq<Event>, g: word) returns (k: nat)
    requires Run(p, states, events) && Undisturbed(states, events, g, 0, |events|)
    ensures forall i, w | 0 <= i < |events| && Completes(states[i], events[i], w) ::
              w.generation == g && Covers(states[|events|].disk, g, w.sequence)
    ensures var last := states[|events|].disk;
            || last.archive == states[0].disk.archive
            || (k < |events| && exists w :: Completes(states[k], events[k], w) && last.archive == Some(RecordOf(p, w)))
  {
    forall i, w | 0 <= i < |events| && Completes(states[i], events[i], w)
      ensures w.generation == g && Covers(states[|events|].disk, g, w.sequence)
    {
      NoCompletedWriteIsAhead(p, states, events, g, i, w);
    }
    k := ArchiveIsLastCommitted(p, states, events, |events|);
    NothingRemoved(p, states, events, |events|);
    if states[|events|].disk.archive != states[0].disk.archive {
      assert Completes(states[k], events[k], states[k].holder.value.write);
    }
  }

  lemma {:induction false} NothingRemoved(p: Pane, states: seq<Shared>, events: seq<Event>, i: nat)
    requires Run(p, states, events) && i <= |events| && forall k | 0 <= k < i :: events[k] != Unlink
    ensures states[0].disk.archive.Some? ==> states[i].disk.archive.Some?
    decreases i
  {
    if i > 0 {
      NothingRemoved(p, states, events, i - 1);
      RunIsValid(p, states, events, i - 1);
      EveryStepAdvances(p, states[i - 1], events[i - 1], states[i]);
    }
  }

  /** A reader, which takes no lock, sees no archive, the one that was there first, or one complete committed
      record, at every moment. */
  lemma ReadsAreComplete(p: Pane, states: seq<Shared>, events: seq<Event>, i: nat) returns (k: nat)
    requires Run(p, states, events) && i <= |events| && Sound(p.sealing)
    ensures var seen := Read(p.sealing, p.aad, states[i].disk.archive);
            || seen == Ok(None) || seen == Read(p.sealing, p.aad, states[0].disk.archive)
            || (k < i && events[k] == Rename && states[k].holder.Some? && states[k].holder.value.Renaming?
                && var w := states[k].holder.value.write;
                   OwnedBy(states[k].disk, w.generation) &&
                     seen == Ok(Some(Archived(w.generation, w.sequence, w.paint, w.frame))))
  {
    k := ArchiveIsLastCommitted(p, states, events, i);
    if states[i].disk.archive != None && states[i].disk.archive != states[0].disk.archive {
      var w := states[k].holder.value.write;
      ReadAfterWrite(p.sealing, p.aad, p.aad, w.generation, w.sequence, w.nonce, w.paint, w.frame);
    }
  }

  /** Run alone, the steps of a write do what the store's `Commit` does. */
  lemma StepsMatchCommit(p: Pane, disk: Disk, w: Writing) returns (states: seq<Shared>, events: seq<Event>)
    requires |w.nonce| == NONCE_BYTES
    ensures Run(p, states, events) && states[0] == Released(disk) && |events| > 0 && events[0] == StartWrite(w)
    ensures states[|events|] == Released(Committed(disk, w.generation, w.sequence, RecordOf(p, w)).0)
    ensures (exists k | 0 <= k < |events| :: Completes(states[k], events[k], w)) <==>
            Committed(disk, w.generation, w.sequence, RecordOf(p, w)).1 == Ok(())
  {
    var s0 := Released(disk);
    var s1 := s0.(holder := Some(Checking(w)));
    if !OwnedBy(disk, w.generation) {
      states, events := [s0, s1, s0], [StartWrite(w), Check];
    } else {
      var s2 := s0.(holder := Some(Comparing(w)));
      if Covers(disk, w.generation, w.sequence) {
        states, events := [s0, s1, s2, s0], [StartWrite(w), Check, Compare];
        assert Completes(states[2], events[2], w);
      } else {
        var s3 := s0.(holder := Some(Renaming(w)));
        var s4 := Released(disk.(archive := Some(RecordOf(p, w))));
        states, events := [s0, s1, s2, s3, s4], [StartWrite(w), Check, Compare, Rename];
        assert Completes(states[3], events[3], w);
      }
    }
  }
}
