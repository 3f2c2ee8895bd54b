/** The registry of sessions, one to a pane, and the critical sections that touch it. */
module Registry {
  import opened Wrappers
  import opened Bytes
  import opened Mirror
  import Obs = Observation
  import opened Session

  type Key = (Option<string>, string)

  /** A registered session: its number, its generation, and its fields. */
  datatype Registered = Registered(session: nat, generation: nat, entry: Entry)

  datatype Error = NotFound | SourceGap

  type Sessions = map<Key, Registered>

  predicate Owns(sessions: Sessions, key: Key, session: nat) {
    key in sessions && sessions[key].session == session
  }

  /** What a consumer does in one critical section. */
  datatype Section = TakeFlag | Advance(through: nat) | MarkGap(through: nat) | MarkOpened | Look | Remove

  function Updated(entry: Entry, section: Section): Entry {
    match section
    case TakeFlag => FlagTaken(entry)
    case Advance(through) => Published(entry, through)
    case MarkGap(through) => GapMarked(entry, through)
    case MarkOpened => OpenedMarked(entry)
    case Look => entry
    case Remove => entry
  }

  /** A consumer touches the entry under its key only while that is its own session's. */
  function After(sessions: Sessions, key: Key, session: nat, section: Section): Sessions {
    if !Owns(sessions, key, session) then sessions
    else if section == Remove then sessions - {key}
    else sessions[key := sessions[key].(entry := Updated(sessions[key].entry, section))]
  }

  /** Field by field: a consumer that does not own its key changes nothing, and one that does changes nothing under
      other keys. Under its own, removing takes the key out and every other section keeps session and generation;
      taking the flag lowers it, outputs and gaps move source and signal to where they end, gaps and stray openings
      count as one gap more, and nothing else moves. */
  lemma SectionsExactly(sessions: Sessions, key: Key, session: nat, section: Section)
    ensures var after := After(sessions, key, session, section);
            && (forall other | other != key ::
                 (other in after <==> other in sessions) && (other in after ==> after[other] == sessions[other]))
            && (key !in sessions ==> key !in after)
            && (key in sessions && sessions[key].session != session ==> key in after && after[key] == sessions[key])
    ensures key in sessions && sessions[key].session == session ==>
            var after, before := After(sessions, key, session, section), sessions[key];
            && (key in after <==> !section.Remove?)
            && (key in after ==>
                  && after[key].session == session && after[key].generation == before.generation
                  && after[key].entry.dropStale == (before.entry.dropStale && !section.TakeFlag?)
                  && after[key].entry.gaps ==
                     before.entry.gaps + (if section.MarkGap? || section.MarkOpened? then 1 else 0)
                  && after[key].entry.source ==
                     (if section.Advance? || section.MarkGap? then section.through else before.entry.source)
                  && after[key].entry.signal ==
                     if section.Advance? || section.MarkGap? then section.through else before.entry.signal)
  {
  }

  class SessionRegistry {
    var sessions: Sessions

    constructor ()
      ensures sessions == map[]
    {
      sessions := map[];
    }

    method Insert(key: Key, state: Registered)
      modifies this
      ensures sessions == old(sessions)[key := state]
    {
      sessions := sessions[key := state];
    }

    /** The check at an output: is the session still there, and is this output the stale replay? */
    method TakeDropFlag(key: Key, session: nat) returns (found: bool, drop: bool)
      modifies this
      ensures found == Owns(old(sessions), key, session) && sessions == After(old(sessions), key, session, TakeFlag)
      ensures found ==> drop == old(sessions)[key].entry.dropStale
    {
      if key !in sessions { return false, false; }
      var state := sessions[key];
      if state.session != session { return false, false; }
      drop := state.entry.dropStale;
      sessions := sessions[key := state.(entry := state.entry.(dropStale := false))];
      found := true;
    }

    /** The source sequence and the signal follow an output that was drawn. */
    method PublishOutput(key: Key, session: nat, through: nat) returns (found: bool)
      modifies this
      ensures found == Owns(old(sessions), key, session) &&
              sessions == After(old(sessions), key, session, Advance(through))
    {
      if key !in sessions { return false; }
      var state := sessions[key];
      if state.session != session { return false; }
      var entry := state.entry.(source := through);
      entry := entry.(signal := through);
      sessions := sessions[key := state.(entry := entry)];
      found := true;
    }

    method NoteGap(key: Key, session: nat, through: nat) returns (found: bool)
      modifies this
      ensures found == Owns(old(sessions), key, session) &&
              sessions == After(old(sessions), key, session, MarkGap(through))
    {
      if key !in sessions { return false; }
      var state := sessions[key];
      if state.session != session { return false; }
      var entry := state.entry.(gaps := state.entry.gaps + 1);
      entry := entry.(source := through);
      entry := entry.(signal := through);
      sessions := sessions[key := state.(entry := entry)];
      found := true;
    }

    method NoteOpened(key: Key, session: nat)
      modifies this
      ensures sessions == After(old(sessions), key, session, MarkOpened)
    {
      if key in sessions && sessions[key].session == session {
        var state := sessions[key];
        sessions := sessions[key := state.(entry := state.entry.(gaps := state.entry.gaps + 1))];
      }
    }

    /** A dying consumer evicts only its own session. */
    method RemoveSessionIfOwner(key: Key, session: nat) returns (owned: bool)
      modifies this
      ensures owned == Owns(old(sessions), key, session) && sessions == After(old(sessions), key, session, Remove)
    {
      owned := key in sessions && sessions[key].session == session;
      if owned {
        sessions := sessions - {key};
      }
    }

    /** One whole output of an uninterrupted consumer: check, feed, publish. */
    method ApplyOutput(mirror: RecoveryMirror, progress: nat, key: Key, session: nat, through: nat, bytes: seq<byte>)
      returns (kept: bool, reached: nat)
      requires mirror.Valid()
      modifies this, mirror
      ensures kept == Owns(old(sessions), key, session) && mirror.Valid()
      ensures !kept ==> sessions == old(sessions) && reached == progress && mirror.Contents() == old(mirror.Contents())
      ensures kept ==>
        && sessions == After(After(old(sessions), key, session, TakeFlag), key, session, Advance(through)) &&
           reached == through
        && (if old(sessions)[key].entry.dropStale then mirror.Contents() == old(mirror.Contents())
            else Fed(mirror.view, old(mirror.Contents()), bytes, mirror.Contents()))
    {
      reached := progress;
      var drop;
      kept, drop := TakeDropFlag(key, session);
      if !kept { return; }
      if !drop {
        mirror.Feed(bytes);
      }
      reached := through;
      kept := PublishOutput(key, session, through);
    }

    /** The checks before a snapshot is handed out. */
    method CheckRehydrate(key: Key) returns (r: Result<Registered, Error>)
      ensures r == if key !in sessions then Err(NotFound)
                   else if sessions[key].entry.gaps > 0 then Err(SourceGap)
                   else Ok(sessions[key])
    {
      if key !in sessions { return Err(NotFound); }
      if sessions[key].entry.gaps > 0 { return Err(SourceGap); }
      r := Ok(sessions[key]);
    }
  }

  /** A session's steps touch the registry as the critical sections do. */
  lemma StepsAreSections(c: Context, a: Live, act: Act, b: Live, sessions: Sessions, key: Key, session: nat)
    requires ConsumerStep(c, a, act, b)
    requires a.present == Owns(sessions, key, session) && (a.present ==> sessions[key].entry == a.entry)
    ensures exists section: Section :: section != Remove &&
              var after := After(sessions, key, session, section);
              b.present == Owns(after, key, session) && (b.present ==> after[key].entry == b.entry)
  {
    var section :=
      match act
      case Take => TakeFlag
      case Publish => Advance(c.input[a.next].through)
      case SeeGap => MarkGap(c.input[a.next].through)
      case SeeOpened => MarkOpened
      case _ => Look;
    var after := After(sessions, key, session, section);
    assert b.present == Owns(after, key, session) && (b.present ==> after[key].entry == b.entry);
  }

  /** One critical section of some consumer. */
  datatype Touch = Touch(key: Key, session: nat, section: Section)

  function AfterAll(sessions: Sessions, touches: seq<Touch>): Sessions {
    if touches == [] then sessions
    else
      var last := touches[|touches| - 1];
      After(AfterAll(sessions, touches[..|touches| - 1]), last.key, last.session, last.section)
  }

  /** Isolation: whatever the consumers of other sessions still do under a pane's key, even one that was
      replaced there, the session registered now keeps its entry. */
  lemma {:induction false} OthersDoNotTouch(sessions: Sessions, key: Key, touches: seq<Touch>)
    requires key in sessions
    requires forall i | 0 <= i < |touches| && touches[i].key == key :: touches[i].session != sessions[key].session
    ensures var after := AfterAll(sessions, touches); key in after && after[key] == sessions[key]
    decreases |touches|
  {
    if touches != [] {
      OthersDoNotTouch(sessions, key, touches[..|touches| - 1]);
    }
  }
}
