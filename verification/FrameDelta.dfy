/** Deltas of the frame wire, and the fold a viewer applies to them. */
module FrameDelta {
  import opened Wrappers
  import opened Bytes
  import opened Cells
  import opened FrameRows

  /** A change of geometry forces a full reply. */
  datatype Geometry = Geometry(cols: nat, rows: nat, altActive: bool, offset: nat)

  /** Everything in a frame or reply but its lines. */
  datatype Header = Header(
    geometry: Geometry,
    cursor: Position,
    cursorVisible: bool,
    cursorStyle: CursorStyle,
    cursorAnimation: nat,
    historySize: nat,
    modes: Modes)

  datatype Frame = Frame(header: Header, lines: seq<FrameLine>)

  datatype Reply = Reply(sequence: nat, header: Header, full: bool, lines: seq<FrameLine>)

  datatype Baseline = Baseline(geometry: Geometry, hashes: seq<word>, lastUsed: nat)

  type Hasher = FrameLine -> word

  /** The lines of a frame are numbered from the top. */
  ghost predicate Numbered(lines: seq<FrameLine>) {
    forall i | 0 <= i < |lines| :: lines[i].y == i
  }

  /** The lines of a frame, one for each viewport row. */
  function FrameLines(rows: seq<Row>): (lines: seq<FrameLine>)
    ensures |lines| == |rows| && Numbered(lines)
    ensures forall i | 0 <= i < |rows| :: lines[i] == LineFor(i, rows[i])
  {
    seq(|rows|, i requires 0 <= i < |rows| => LineFor(i, rows[i]))
  }

  function FullReply(frame: Frame, sequence: nat): Reply {
    Reply(sequence, frame.header, true, frame.lines)
  }

  function Hashes(hash: Hasher, lines: seq<FrameLine>): (hashes: seq<word>)
    ensures |hashes| == |lines| && forall i | 0 <= i < |lines| :: hashes[i] == hash(lines[i])
  {
    seq(|lines|, i requires 0 <= i < |lines| => hash(lines[i]))
  }

  /** The first `k` lines, those whose hash stayed the same left out. */
  function Changed(lines: seq<FrameLine>, now: seq<word>, before: seq<word>, k: nat): seq<FrameLine>
    requires k <= |lines| == |now| == |before|
  {
    if k == 0 then []
    else
      var earlier := Changed(lines, now, before, k - 1);
      if now[k - 1] != before[k - 1] then earlier + [lines[k - 1]] else earlier
  }

  /** The reply to a subscriber that holds `baseline`, and the baseline it holds afterwards. */
  function Delta(hash: Hasher, baseline: Option<Baseline>, frame: Frame, sequence: nat): (Reply, Baseline) {
    var hashes := Hashes(hash, frame.lines);
    var comparable := baseline.Some? && baseline.value.geometry == frame.header.geometry &&
      |baseline.value.hashes| == |hashes|;
    var full := FullReply(frame, sequence);
    (if comparable then
       full.(full := false, lines := Changed(frame.lines, hashes, baseline.value.hashes, |hashes|))
     else full,
     Baseline(frame.header.geometry, hashes, if baseline.Some? then baseline.value.lastUsed else 0))
  }

  // The fold

  /** `line` in place of the first line with its number, or at the end if there is none. */
  function Replaced(lines: seq<FrameLine>, line: FrameLine): (r: seq<FrameLine>)
    ensures |r| >= |lines|
  {
    if lines == [] then [line]
    else if lines[0].y == line.y then [line] + lines[1..]
    else [lines[0]] + Replaced(lines[1..], line)
  }

  function ReplacedAll(lines: seq<FrameLine>, updates: seq<FrameLine>): seq<FrameLine> {
    if updates == [] then lines
    else Replaced(ReplacedAll(lines, updates[..|updates| - 1]), updates[|updates| - 1])
  }

  /** `line` put after every line not numbered higher. */
  function Inserted(sorted: seq<FrameLine>, line: FrameLine): seq<FrameLine> {
    if sorted == [] || sorted[|sorted| - 1].y <= line.y then sorted + [line]
    else Inserted(sorted[..|sorted| - 1], line) + [sorted[|sorted| - 1]]
  }

  /** Stable sort by line number. */
  function SortedByNumber(lines: seq<FrameLine>): seq<FrameLine> {
    if lines == [] then [] else Inserted(SortedByNumber(lines[..|lines| - 1]), lines[|lines| - 1])
  }

  function Applied(previous: Reply, reply: Reply): Reply {
    if reply.full then reply
    else reply.(full := true, lines := SortedByNumber(ReplacedAll(previous.lines, reply.lines)))
  }

  /** The position of the first line numbered `y`. */
  method Find(lines: seq<FrameLine>, y: nat) returns (at: nat)
    ensures at <= |lines| && (at < |lines| ==> lines[at].y == y)
    ensures forall i | 0 <= i < at :: lines[i].y != y
  {
    at := 0;
    while at < |lines| && lines[at].y != y
      invariant at <= |lines| && forall i | 0 <= i < at :: lines[i].y != y
    {
      at := at + 1;
    }
  }

  lemma {:induction false} ReplacedAt(lines: seq<FrameLine>, line: FrameLine, at: nat)
    requires at <= |lines| && (at < |lines| ==> lines[at].y == line.y)
    requires forall i | 0 <= i < at :: lines[i].y != line.y
    ensures Replaced(lines, line) == if at < |lines| then lines[at := line] else lines + [line]
    decreases |lines|
  {
    if lines == [] {
      assert lines + [line] == [line];
    } else if at > 0 {
      ReplacedAt(lines[1..], line, at - 1);
      assert lines == [lines[0]] + lines[1..];
    }
  }

  /** The reference fold: each line of a delta is stored over the slot that has its number. */
  method Apply(previous: Reply, reply: Reply) returns (applied: Reply)
    ensures applied == Applied(previous, reply)
  {
    applied := reply.(full := true);
    if reply.full { return; }
    var lines := previous.lines;
    for i := 0 to |reply.lines|
      invariant lines == ReplacedAll(previous.lines, reply.lines[..i])
    {
      var line := reply.lines[i];
      assert reply.lines[..i + 1][..i] == reply.lines[..i];
      var at := Find(lines, line.y);
      ReplacedAt(lines, line, at);
      if at < |lines| {
        lines := lines[at := line];
      } else {
        lines := lines + [line];
      }
    }
    assert reply.lines[..|reply.lines|] == reply.lines;
    applied := applied.(lines := SortedByNumber(lines));
  }

  /** A line put in place: it is there, the lines of other numbers stay, and nothing else comes in. */
  lemma {:induction false} ReplacedHolds(lines: seq<FrameLine>, line: FrameLine, other: FrameLine)
    ensures line in Replaced(lines, line)
    ensures other.y != line.y ==> (other in Replaced(lines, line) <==> other in lines)
    ensures other in Replaced(lines, line) ==> other in lines || other == line
    decreases |lines|
  {
    if lines != [] && lines[0].y != line.y {
      ReplacedHolds(lines[1..], line, other);
      assert lines == [lines[0]] + lines[1..];
    } else if lines != [] {
      assert lines == [lines[0]] + lines[1..];
    }
  }

  /** Any reply folded into any picture: the last line it has for a number is there, also where the picture had none,
      lines of numbers it does not have stay, and nothing else comes in. */
  lemma {:induction false} FoldHolds(lines: seq<FrameLine>, updates: seq<FrameLine>, line: FrameLine)
    ensures forall k | 0 <= k < |updates| && (forall j | k < j < |updates| :: updates[j].y != updates[k].y) ::
              updates[k] in ReplacedAll(lines, updates)
    ensures (forall k | 0 <= k < |updates| :: updates[k].y != line.y) ==>
              (line in ReplacedAll(lines, updates) <==> line in lines)
    ensures line in ReplacedAll(lines, updates) ==> line in lines || line in updates
    decreases |updates|
  {
    if updates != [] {
      var init, last := updates[..|updates| - 1], updates[|updates| - 1];
      var folded := ReplacedAll(lines, init);
      assert updates == init + [last];
      FoldHolds(lines, init, line);
      ReplacedHolds(folded, last, line);
      forall k | 0 <= k < |updates| && (forall j | k < j < |updates| :: updates[j].y != updates[k].y)
        ensures updates[k] in ReplacedAll(lines, updates) {
        ReplacedHolds(folded, last, updates[k]);
        if k < |init| {
          assert init[k] == updates[k];
          assert forall j | k < j < |init| :: init[j] == updates[j];
        }
      }
    }
  }

  // Sorting

  ghost predicate InOrder(lines: seq<FrameLine>) {
    forall i, j | 0 <= i < j < |lines| :: lines[i].y <= lines[j].y
  }

  ghost predicate AllUpTo(lines: seq<FrameLine>, y: nat) {
    forall i | 0 <= i < |lines| :: lines[i].y <= y
  }

  lemma AppendInOrder(lines: seq<FrameLine>, last: FrameLine)
    requires InOrder(lines) && AllUpTo(lines, last.y)
    ensures InOrder(lines + [last])
  {
  }

  lemma FrontOf(lines: seq<FrameLine>)
    requires InOrder(lines) && lines != []
    ensures InOrder(lines[..|lines| - 1]) && AllUpTo(lines, lines[|lines| - 1].y)
    ensures lines == lines[..|lines| - 1] + [lines[|lines| - 1]]
  {
  }

  lemma {:induction false} InsertedInOrder(sorted: seq<FrameLine>, line: FrameLine, top: nat)
    requires InOrder(sorted) && AllUpTo(sorted, top) && line.y <= top
    ensures InOrder(Inserted(sorted, line)) && AllUpTo(Inserted(sorted, line), top)
    decreases |sorted|
  {
    if sorted == [] {
      assert Inserted(sorted, line) == [line];
    } else {
      FrontOf(sorted);
      var init, last := sorted[..|sorted| - 1], sorted[|sorted| - 1];
      if last.y <= line.y {
        AppendInOrder(sorted, line);
      } else {
        InsertedInOrder(init, line, last.y);
        AppendInOrder(Inserted(init, line), last);
      }
    }
  }

  lemma {:induction false} InsertedKeeps(sorted: seq<FrameLine>, line: FrameLine)
    ensures multiset(Inserted(sorted, line)) == multiset(sorted) + multiset{line}
    decreases |sorted|
  {
    if sorted != [] && sorted[|sorted| - 1].y > line.y {
      var init, last := sorted[..|sorted| - 1], sorted[|sorted| - 1];
      InsertedKeeps(init, line);
      assert sorted == init + [last];
    }
  }

  /** A number no line is above. */
  function Top(lines: seq<FrameLine>, line: FrameLine): nat {
    if lines == [] || lines[|lines| - 1].y <= line.y then line.y else lines[|lines| - 1].y
  }

  /** The sort does sort, and keeps every line. */
  lemma {:induction false} SortSorts(lines: seq<FrameLine>)
    ensures InOrder(SortedByNumber(lines)) && multiset(SortedByNumber(lines)) == multiset(lines)
    decreases |lines|
  {
    if lines != [] {
      var init, last := lines[..|lines| - 1], lines[|lines| - 1];
      SortSorts(init);
      var sorted := SortedByNumber(init);
      if sorted != [] {
        FrontOf(sorted);
      }
      InsertedInOrder(sorted, last, Top(sorted, last));
      InsertedKeeps(sorted, last);
      assert lines == init + [last];
    }
  }

  /** The fold as a viewer sees it: header and sequence are the reply's, the picture is full, its lines are in order,
      and they are the reply's where it is full; else its last line for a number is there, also where the picture had
      none, lines of other numbers stay, and nothing else comes in. */
  lemma AppliedExactly(previous: Reply, reply: Reply, line: FrameLine)
    ensures var applied := Applied(previous, reply);
            && applied.full && applied.header == reply.header && applied.sequence == reply.sequence
            && (reply.full ==> applied.lines == reply.lines)
            && (!reply.full ==>
                 && InOrder(applied.lines)
                 && ((forall k | 0 <= k < |reply.lines| :: reply.lines[k].y != line.y) ==>
                     (line in applied.lines <==> line in previous.lines))
                 && (line in applied.lines ==> line in previous.lines || line in reply.lines)
                 && forall k | 0 <= k < |reply.lines| &&
                      (forall j | k < j < |reply.lines| :: reply.lines[j].y != reply.lines[k].y) ::
                      reply.lines[k] in applied.lines)
  {
    if !reply.full {
      var folded := ReplacedAll(previous.lines, reply.lines);
      FoldHolds(previous.lines, reply.lines, line);
      SortSorts(folded);
      var applied := Applied(previous, reply);
      assert forall other :: other in applied.lines <==> other in multiset(applied.lines);
      assert forall other :: other in folded <==> other in multiset(folded);
    }
  }

  lemma {:induction false} SortedStays(lines: seq<FrameLine>)
    requires InOrder(lines)
    ensures SortedByNumber(lines) == lines
    decreases |lines|
  {
    if lines != [] {
      FrontOf(lines);
      var init, last := lines[..|lines| - 1], lines[|lines| - 1];
      SortedStays(init);
      assert init != [] ==> init[|init| - 1] == lines[|lines| - 2];
      assert Inserted(init, last) == init + [last];
    }
  }

  // A delta folded into the picture it was taken against

  /** Line by line: the new line where the hash moved, the line already there elsewhere. */
  function Blended(hash: Hasher, before: seq<FrameLine>, now: seq<FrameLine>, k: nat): (r: seq<FrameLine>)
    requires k <= |now| == |before|
    ensures |r| == |now|
    ensures forall i | 0 <= i < |r| :: r[i] == if i < k && hash(now[i]) != hash(before[i]) then now[i] else before[i]
  {
    seq(|now|, i requires 0 <= i < |now| => if i < k && hash(now[i]) != hash(before[i]) then now[i] else before[i])
  }

  /** Folding the changes among the first `k` lines blends them in, for any hashes. */
  lemma {:induction false} FoldedChanges(hash: Hasher, before: seq<FrameLine>, now: seq<FrameLine>, k: nat)
    requires k <= |now| == |before| && Numbered(before) && Numbered(now)
    ensures ReplacedAll(before, Changed(now, Hashes(hash, now), Hashes(hash, before), k)) ==
            Blended(hash, before, now, k)
    decreases k
  {
    if k == 0 {
      assert Blended(hash, before, now, 0) == before;
    } else {
      var j, earlier := k - 1, Changed(now, Hashes(hash, now), Hashes(hash, before), k - 1);
      FoldedChanges(hash, before, now, j);
      BlendedNext(hash, before, now, k);
      ReplacedNext(before, earlier, now[j]);
      ChangedNext(now, Hashes(hash, now), Hashes(hash, before), k, j);
    }
  }

  lemma ChangedNext(lines: seq<FrameLine>, now: seq<word>, before: seq<word>, k: nat, j: nat)
    requires k == j + 1 <= |lines| == |now| == |before|
    ensures Changed(lines, now, before, k) ==
            if now[j] != before[j] then Changed(lines, now, before, j) + [lines[j]] else Changed(lines, now, before, j)
  {
  }

  lemma ReplacedNext(lines: seq<FrameLine>, updates: seq<FrameLine>, line: FrameLine)
    ensures ReplacedAll(lines, updates + [line]) == Replaced(ReplacedAll(lines, updates), line)
  {
    assert (updates + [line])[..|updates|] == updates;
  }

  lemma BlendedNext(hash: Hasher, before: seq<FrameLine>, now: seq<FrameLine>, k: nat)
    requires 0 < k <= |now| == |before| && Numbered(before) && Numbered(now)
    ensures Blended(hash, before, now, k) ==
            if hash(now[k - 1]) != hash(before[k - 1]) then Replaced(Blended(hash, before, now, k - 1), now[k - 1])
            else Blended(hash, before, now, k - 1)
  {
    var blended, line := Blended(hash, before, now, k - 1), now[k - 1];
    ReplacedAt(blended, line, k - 1);
  }

  lemma BlendedExactly(hash: Hasher, before: seq<FrameLine>, now: seq<FrameLine>)
    requires |now| == |before| && Numbered(before) && Numbered(now)
    ensures var blended := Blended(hash, before, now, |now|);
            InOrder(blended) && (blended == now <==> ToldApart(hash, before, now))
  {
    var blended := Blended(hash, before, now, |now|);
    assert blended == now <==> forall i | 0 <= i < |blended| :: blended[i] == now[i];
  }

  /** The baseline describes the picture. */
  ghost predicate Describes(hash: Hasher, baseline: Baseline, picture: Reply) {
    && picture.full && Numbered(picture.lines)
    && baseline.geometry == picture.header.geometry
    && baseline.hashes == Hashes(hash, picture.lines)
  }

  /** Rows at the same place with the same hash are the same row. */
  ghost predicate ToldApart(hash: Hasher, before: seq<FrameLine>, now: seq<FrameLine>) {
    forall i | 0 <= i < |before| && i < |now| && hash(before[i]) == hash(now[i]) ::
      before[i].wrapped == now[i].wrapped && before[i].runs == now[i].runs
  }

  /** A reply folded into the picture its baseline describes gives exactly the full frame, if and only if,
      where it is a delta, the hash tells the rows apart. */
  lemma FoldIsFullExactly(hash: Hasher, baseline: Baseline, picture: Reply, frame: Frame, sequence: nat)
    requires Describes(hash, baseline, picture) && Numbered(frame.lines)
    ensures var (reply, next) := Delta(hash, Some(baseline), frame, sequence);
            && (Applied(picture, reply) == FullReply(frame, sequence) <==>
               reply.full || ToldApart(hash, picture.lines, frame.lines))
            && Describes(hash, next, FullReply(frame, sequence))
  {
    var (reply, next) := Delta(hash, Some(baseline), frame, sequence);
    if !reply.full {
      FoldedChanges(hash, picture.lines, frame.lines, |frame.lines|);
      BlendedExactly(hash, picture.lines, frame.lines);
      SortedStays(Blended(hash, picture.lines, frame.lines, |frame.lines|));
    }
  }

  /** Without a baseline the reply is full and needs no picture. */
  lemma FirstReplyIsFull(hash: Hasher, frame: Frame, sequence: nat)
    requires Numbered(frame.lines)
    ensures var (reply, next) := Delta(hash, None, frame, sequence);
            reply == FullReply(frame, sequence) && Describes(hash, next, reply)
  {
  }

  /** What a frame that is served is to a viewer: its header and its lines, under the sequence read with it. */
  ghost predicate IsPictureOf(picture: Reply, frame: Frame, sequence: nat) {
    picture.sequence == sequence && picture.header == frame.header && picture.full && picture.lines == frame.lines
  }

  lemma PictureIsDetermined(a: Reply, b: Reply, frame: Frame, sequence: nat)
    requires IsPictureOf(a, frame, sequence)
    ensures a == b <==> IsPictureOf(b, frame, sequence)
  {
  }

  /** A reply is full exactly if there is no baseline, or the geometry or the number of rows is not the one the
      subscriber was last served; then it holds every line. In any case it carries the frame's header and sequence,
      and the next baseline the frame's geometry, one hash for each of its lines, and the old stamp. */
  lemma ReplyIsFullExactly(hash: Hasher, baseline: Option<Baseline>, frame: Frame, sequence: nat)
    ensures var (reply, next) := Delta(hash, baseline, frame, sequence);
            && (reply.full <==>
                baseline == None || baseline.value.geometry != frame.header.geometry ||
                |baseline.value.hashes| != |frame.lines|)
            && reply.sequence == sequence && reply.header == frame.header
            && (reply.full ==> reply.lines == frame.lines)
            && next.geometry == frame.header.geometry && |next.hashes| == |frame.lines|
            && (forall i | 0 <= i < |frame.lines| :: next.hashes[i] == hash(frame.lines[i]))
            && (baseline.Some? ==> next.lastUsed == baseline.value.lastUsed)
  {
  }

  /** A delta holds, in the order of the frame, just the lines whose hash is not the one in the baseline. */
  lemma DeltaHolds(hash: Hasher, baseline: Baseline, frame: Frame, sequence: nat)
    requires Numbered(frame.lines) && baseline.geometry == frame.header.geometry &&
             |baseline.hashes| == |frame.lines|
    ensures var lines := Delta(hash, Some(baseline), frame, sequence).0.lines;
            && (forall i | 0 <= i < |frame.lines| ::
                 frame.lines[i] in lines <==> hash(frame.lines[i]) != baseline.hashes[i])
            && (forall line | line in lines :: line.y < |frame.lines| && line == frame.lines[line.y])
            && forall i, j | 0 <= i < j < |lines| :: lines[i].y < lines[j].y
  {
    ChangedAscends(frame.lines, Hashes(hash, frame.lines), baseline.hashes, |frame.lines|);
  }

  lemma {:induction false} ChangedAscends(lines: seq<FrameLine>, now: seq<word>, before: seq<word>, k: nat)
    requires k <= |lines| == |now| == |before| && Numbered(lines)
    ensures var changed := Changed(lines, now, before, k);
            && (forall i | 0 <= i < k :: lines[i] in changed <==> now[i] != before[i])
            && (forall line | line in changed :: line.y < k && line == lines[line.y])
            && forall i, j | 0 <= i < j < |changed| :: changed[i].y < changed[j].y
    decreases k
  {
    if k > 0 {
      ChangedAscends(lines, now, before, k - 1);
      var earlier := Changed(lines, now, before, k - 1);
      assert forall i | 0 <= i < |earlier| :: earlier[i] in earlier;
    }
  }

  /** A viewer that holds a picture of the frame its baseline was taken of, and folds in the reply, holds a picture
      of the present frame: exactly if the geometry or the number of rows changed, or the hash tells the rows apart. */
  lemma ViewerSeesExactly(hash: Hasher, baseline: Baseline, picture: Reply, shown: Frame, was: nat, frame: Frame,
      sequence: nat)
    requires IsPictureOf(picture, shown, was) && Numbered(shown.lines) && Numbered(frame.lines)
    requires baseline.geometry == shown.header.geometry && baseline.hashes == Hashes(hash, shown.lines)
    ensures IsPictureOf(Applied(picture, Delta(hash, Some(baseline), frame, sequence).0), frame, sequence) <==>
            || shown.header.geometry != frame.header.geometry || |shown.lines| != |frame.lines|
            || forall i | 0 <= i < |shown.lines| && hash(shown.lines[i]) == hash(frame.lines[i]) ::
                 shown.lines[i] == frame.lines[i]
  {
    FoldIsFullExactly(hash, baseline, picture, frame, sequence);
    ReplyIsFullExactly(hash, Some(baseline), frame, sequence);
    PictureIsDetermined(FullReply(frame, sequence), Applied(picture, Delta(hash, Some(baseline), frame, sequence).0),
      frame, sequence);
    if |shown.lines| == |frame.lines| {
      assert ToldApart(hash, shown.lines, frame.lines) <==>
        forall i | 0 <= i < |shown.lines| && hash(shown.lines[i]) == hash(frame.lines[i]) ::
          shown.lines[i] == frame.lines[i];
    }
  }
}
