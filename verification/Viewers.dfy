/** Every viewer that folds its replies holds exactly the frame it was last served. */
module Viewers {
  import opened Wrappers
  import opened Bytes
  import opened Cells
  import opened FrameRows
  import opened FrameDelta
  import opened Subscribers
  import LineHash

  /** One answered request: what the mirror showed, and the sequence read with it. */
  datatype Request = Request(name: string, frame: Frame, sequence: nat)

  /** The server's table, and what each viewer has folded so far. */
  datatype System = System(table: Table, pictures: map<string, Reply>)

  const START: System := System(EMPTY_TABLE, map[])

  /** One request, under the table's lock: the delta against the kept baseline, the new baseline recorded,
      and the reply folded by the viewer. */
  function Serve(hash: Hasher, s: System, r: Request): System {
    var (reply, next) := Delta(hash, Lookup(s.table, r.name), r.frame, r.sequence);
    var picture := if r.name in s.pictures then Applied(s.pictures[r.name], reply) else reply;
    System(Recorded(s.table, r.name, next), s.pictures[r.name := picture])
  }

  function ServeAll(hash: Hasher, requests: seq<Request>): System {
    if requests == [] then START else Serve(hash, ServeAll(hash, requests[..|requests| - 1]), requests[|requests| - 1])
  }

  /** The full frame last served to `name`. */
  function LastServed(requests: seq<Request>, name: string): Option<Reply> {
    if requests == [] then None
    else
      var last := requests[|requests| - 1];
      if last.name == name then Some(FullReply(last.frame, last.sequence))
      else LastServed(requests[..|requests| - 1], name)
  }

  /** Frames are numbered from the top, and the hash tells every two served frames apart, row by row. */
  ghost predicate Servable(hash: Hasher, requests: seq<Request>) {
    && (forall i | 0 <= i < |requests| :: Numbered(requests[i].frame.lines))
    && (forall i, j | 0 <= i < |requests| && 0 <= j < |requests| ::
          ToldApart(hash, requests[i].frame.lines, requests[j].frame.lines))
  }

  /** Every kept baseline describes its subscriber's picture, and every picture is the last frame served. */
  ghost predicate Agreed(hash: Hasher, requests: seq<Request>, s: System) {
    && (forall name | name in s.table.kept ::
       name in s.pictures && Describes(hash, s.table.kept[name], s.pictures[name]))
    && (forall name :: name in s.pictures <==> LastServed(requests, name).Some?)
    && (forall name | name in s.pictures :: LastServed(requests, name) == Some(s.pictures[name]))
  }

  lemma {:induction false} LastServedIsServed(requests: seq<Request>, name: string) returns (i: nat)
    requires LastServed(requests, name).Some?
    ensures i < |requests| && requests[i].name == name
    ensures LastServed(requests, name) == Some(FullReply(requests[i].frame, requests[i].sequence))
    decreases |requests|
  {
    i := |requests| - 1;
    if requests[i].name != name {
      i := LastServedIsServed(requests[..i], name);
    }
  }

  /** The stamp of a baseline does not show in the reply. */
  lemma StampIsInvisible(hash: Hasher, baseline: Baseline, frame: Frame, sequence: nat)
    ensures Delta(hash, Some(baseline), frame, sequence).0 == Delta(hash, Some(Unstamped(baseline)), frame, sequence).0
    ensures Unstamped(Delta(hash, Some(baseline), frame, sequence).1) ==
            Unstamped(Delta(hash, Some(Unstamped(baseline)), frame, sequence).1)
  {
  }

  /** What one request gives its viewer. */
  lemma ServedPicture(hash: Hasher, before: seq<Request>, s: System, r: Request)
    requires Servable(hash, before + [r]) && Agreed(hash, before, s)
    ensures var t := Serve(hash, s, r);
            && t.pictures[r.name] == FullReply(r.frame, r.sequence)
            && t.table.kept[r.name] == Unstamped(Delta(hash, Lookup(s.table, r.name), r.frame, r.sequence).1)
            && Describes(hash, t.table.kept[r.name], t.pictures[r.name])
  {
    var all := before + [r];
    assert all[|before|] == r;
    if r.name in s.table.kept {
      var picture := s.pictures[r.name];
      var i := LastServedIsServed(before, r.name);
      assert all[i] == before[i];
      assert ToldApart(hash, all[i].frame.lines, all[|before|].frame.lines);
      FoldIsFullExactly(hash, s.table.kept[r.name], picture, r.frame, r.sequence);
    } else {
      FirstReplyIsFull(hash, r.frame, r.sequence);
    }
  }

  lemma ServeKeepsAgreement(hash: Hasher, before: seq<Request>, s: System, r: Request)
    requires Servable(hash, before + [r]) && Agreed(hash, before, s)
    ensures Agreed(hash, before + [r], Serve(hash, s, r))
  {
    ServedPicture(hash, before, s, r);
    assert (before + [r])[..|before|] == before;
    var t := Serve(hash, s, r);
    forall name | name in t.table.kept
      ensures name in t.pictures && Describes(hash, t.table.kept[name], t.pictures[name])
    {
      if name != r.name {
        assert name in s.table.kept && t.table.kept[name] == s.table.kept[name];
      }
    }
  }

  /** For any interleaving of requests from any number of subscribers, with evictions and changes of
      geometry among them, each viewer holds exactly the full frame it was last served. */
  lemma {:induction false} ViewersAgree(hash: Hasher, requests: seq<Request>)
    requires Servable(hash, requests)
    ensures Agreed(hash, requests, ServeAll(hash, requests))
    decreases |requests|
  {
    if requests != [] {
      var init, last := requests[..|requests| - 1], requests[|requests| - 1];
      assert requests == init + [last];
      assert Servable(hash, init) by {
        forall i, j | 0 <= i < |init| && 0 <= j < |init|
          ensures ToldApart(hash, init[i].frame.lines, init[j].frame.lines)
        {
          assert ToldApart(hash, requests[i].frame.lines, requests[j].frame.lines);
        }
      }
      ViewersAgree(hash, init);
      ServeKeepsAgreement(hash, init, ServeAll(hash, init), last);
    }
  }

  lemma {:induction false} LastServedAt(requests: seq<Request>, i: nat)
    requires i < |requests| && forall j | i < j < |requests| :: requests[j].name != requests[i].name
    ensures LastServed(requests, requests[i].name) == Some(FullReply(requests[i].frame, requests[i].sequence))
    decreases |requests|
  {
    if i < |requests| - 1 {
      LastServedAt(requests[..|requests| - 1], i);
    }
  }

  /** So after a viewer's last request it holds that request's header and lines, under that request's sequence. */
  lemma LastFrameIsHeld(hash: Hasher, requests: seq<Request>, i: nat)
    requires Servable(hash, requests) && i < |requests|
    requires forall j | i < j < |requests| :: requests[j].name != requests[i].name
    ensures var pictures, r := ServeAll(hash, requests).pictures, requests[i];
            r.name in pictures && IsPictureOf(pictures[r.name], r.frame, r.sequence)
  {
    ViewersAgree(hash, requests);
    LastServedAt(requests, i);
  }

  /** FNV-1a has no collision among the byte strings of these rows. */
  ghost predicate NoCollision(lines: set<FrameLine>) {
    forall a, b | a in lines && b in lines && LineHash.HashOf(a) == LineHash.HashOf(b) ::
      LineHash.LineBytes(a) == LineHash.LineBytes(b)
  }

  /** Then, by the framing, the hash tells the rows themselves apart. */
  lemma NoCollisionTellsApart(lines: set<FrameLine>, before: seq<FrameLine>, now: seq<FrameLine>)
    requires NoCollision(lines)
    requires forall line | line in before || line in now :: line in lines && LineHash.RunsFit(line.runs)
    ensures ToldApart(LineHash.HashOf, before, now)
  {
    forall i | 0 <= i < |before| && i < |now| && LineHash.HashOf(before[i]) == LineHash.HashOf(now[i])
      ensures before[i].wrapped == now[i].wrapped && before[i].runs == now[i].runs
    {
      assert before[i] in before && now[i] in now;
      LineHash.LineBytesDecodeUniquely(before[i], now[i]);
    }
  }

  /** Rows of a frame, all among `lines`, that a terminal can have. */
  ghost predicate ServableRows(lines: set<FrameLine>, rows: seq<FrameLine>) {
    Numbered(rows) && forall line | line in rows :: line in lines && LineHash.RunsFit(line.runs)
  }

  /** What a server that hashes with FNV-1a promises: if FNV-1a has no collision among the rows it serves, then
      for any interleaving of requests each viewer holds exactly the full frame it was last served. */
  lemma FnvViewersAgree(lines: set<FrameLine>, requests: seq<Request>, hash: Hasher)
    requires NoCollision(lines) && hash == LineHash.HashOf
    requires forall i | 0 <= i < |requests| :: ServableRows(lines, requests[i].frame.lines)
    ensures Agreed(hash, requests, ServeAll(hash, requests))
  {
    forall i, j | 0 <= i < |requests| && 0 <= j < |requests|
      ensures ToldApart(hash, requests[i].frame.lines, requests[j].frame.lines)
    {
      assert ServableRows(lines, requests[i].frame.lines) && ServableRows(lines, requests[j].frame.lines);
      NoCollisionTellsApart(lines, requests[i].frame.lines, requests[j].frame.lines);
    }
    ViewersAgree(hash, requests);
  }

  /** One request as the server answers it, under the lock of its table of stamped baselines. */
  method FrameRequest(hash: Hasher, table: FrameSubscribers, r: Request) returns (reply: Reply)
    requires table.Valid()
    modifies table
    ensures table.Valid()
    ensures var (answer, next) := Delta(hash, Lookup(old(table.Contents()), r.name), r.frame, r.sequence);
            reply == answer && table.Contents() == Recorded(old(table.Contents()), r.name, next)
  {
    var baseline := if r.name in table.baselines then Some(table.baselines[r.name]) else None;
    if baseline.Some? {
      StampIsInvisible(hash, baseline.value, r.frame, r.sequence);
    }
    var (answer, next) := Delta(hash, baseline, r.frame, r.sequence);
    table.Record(r.name, next);
    reply := answer;
  }

  /** The collision the protocol cannot survive: a row replaced by a different one with the same hash is
      not sent, and the viewer keeps the old row. */
  lemma CollisionKeepsTheOldRow(hash: Hasher, header: Header, a: FrameLine, b: FrameLine, sequence: nat)
    requires a.y == 0 && b.y == 0 && a != b && hash(a) == hash(b)
    ensures var s := ServeAll(hash,
            [Request("viewer", Frame(header, [a]), sequence), Request("viewer", Frame(header, [b]), sequence + 1)]);
            "viewer" in s.pictures && s.pictures["viewer"].lines == [a] && s.pictures["viewer"].sequence == sequence + 1
  {
    var first, second := Request("viewer", Frame(header, [a]), sequence),
      Request("viewer", Frame(header, [b]), sequence + 1);
    assert [first, second][..1] == [first] && [first][..0] == [];
    var one := Serve(hash, START, first);
    assert ServeAll(hash, [first]) == one;
    assert Hashes(hash, [a]) == Hashes(hash, [b]);
    FoldedChanges(hash, [a], [b], 1);
    assert Blended(hash, [a], [b], 1) == [a];
    SortedStays([a]);
  }

  // Changes that always arrive

  /** Two rows that differ in one letter at the most, whatever else they hold. */
  ghost predicate OneLetterApart(a: Row, b: Row) {
    a == b || exists i: nat, d :: LetterChanged(a, b, i, d)
  }

  predicate LetterChanged(a: Row, b: Row, i: nat, d: scalar) {
    && i < |a| && !a[i].spacer && LineHash.Letter(a[i].ch) && LineHash.Letter(d)
    && b == a[i := a[i].(ch := d)]
  }

  lemma OneLetterIsTold(a: Row, b: Row, y: nat)
    requires OneLetterApart(a, b) && LineHash.HashOf(LineFor(y, a)) == LineHash.HashOf(LineFor(y, b))
    ensures LineFor(y, a) == LineFor(y, b)
  {
    if exists i: nat, d :: LetterChanged(a, b, i, d) {
      var i: nat, d :| LetterChanged(a, b, i, d);
      LineHash.OneLetterIsSeen(a, i, d, y, y);
      assert b == a;
    }
  }

  /** Typing always arrives, with nothing assumed of FNV-1a: a viewer that holds a full frame and folds the next
      reply holds exactly the next frame, if each row changed in one letter at the most. */
  lemma TypingAlwaysArrives(baseline: Baseline, picture: Reply, before: seq<Row>, now: seq<Row>, frame: Frame,
      sequence: nat, hash: Hasher)
    requires hash == LineHash.HashOf && Describes(hash, baseline, picture)
    requires picture.lines == FrameLines(before) && frame.lines == FrameLines(now)
    requires |before| == |now| && forall y | 0 <= y < |now| :: OneLetterApart(before[y], now[y])
    ensures Applied(picture, Delta(hash, Some(baseline), frame, sequence).0) ==
            Reply(sequence, frame.header, true, FrameLines(now))
  {
    forall y | 0 <= y < |now| && hash(picture.lines[y]) == hash(frame.lines[y])
      ensures picture.lines[y] == frame.lines[y] {
      OneLetterIsTold(before[y], now[y], y);
    }
    FoldIsFullExactly(hash, baseline, picture, frame, sequence);
  }
}
