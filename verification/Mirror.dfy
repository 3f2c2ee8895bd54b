/**
  The recovery mirror: a resumable scanner in front of the engine. Undecided escape sequences are held
  back, and the primary screen is printed just before the alternate one is entered.
*/
module Mirror {
  import opened Wrappers
  import opened Bytes
  import opened Cells
  import opened Paint

  /** The engine as what it shows after the bytes it has been fed; feeding appends. */
  type View = seq<byte> -> Screen

  datatype AltCandidate = NeedMore | Enter(length: nat) | No

  // Classifying one escape sequence

  predicate IsParameter(b: byte) {
    IsDigit(b) || b == 0x3b
  }

  /** The fields of a parameter string, split at every `;`. */
  function Fields(s: seq<byte>): seq<seq<byte>> {
    if s == [] then [[]]
    else
      var before := Fields(s[..|s| - 1]);
      var last := s[|s| - 1];
      if last == 0x3b then before + [[]]
      else if before == [] then [[last]]
      else before[..|before| - 1] + [before[|before| - 1] + [last]]
  }

  predicate IsAltMode(field: seq<byte>) {
    field == [0x34, 0x37] || field == [0x31, 0x30, 0x34, 0x37] || field == [0x31, 0x30, 0x34, 0x39]
  }

  predicate NamesAlt(fields: seq<seq<byte>>) {
    exists i | 0 <= i < |fields| :: IsAltMode(fields[i])
  }

  const MAX_PARAMETERS := 32

  /** Reading `bytes` one at a time from `end`: an alternate-screen entry, something else, or not yet clear. */
  function Decide(bytes: seq<byte>, end: nat): AltCandidate
    requires end <= |bytes|
    decreases |bytes| - end
  {
    if end == |bytes| then NeedMore
    else if end == 0 then Decide(bytes, 1)
    else if end == 1 then (if bytes[1] == 0x5b then Decide(bytes, 2) else No)
    else if end == 2 then (if bytes[2] == 0x3f then Decide(bytes, 3) else No)
    else if IsParameter(bytes[end]) then (if end + 1 - 3 > MAX_PARAMETERS then No else Decide(bytes, end + 1))
    else if bytes[end] == 0x68 && NamesAlt(Fields(bytes[3..end])) then Enter(end + 1)
    else No
  }

  /** What the bytes from an ESC on are. */
  function Classify(bytes: seq<byte>): AltCandidate {
    Decide(bytes, 0)
  }

  /** The classifying loop of the scanner. */
  method ClassifyAltEnter(bytes: seq<byte>) returns (r: AltCandidate)
    ensures r == Classify(bytes)
  {
    assert |bytes| >= 1 ==> Decide(bytes, 0) == Decide(bytes, 1);
    if |bytes| < 2 { return NeedMore; }
    if bytes[1] != 0x5b { return No; }
    assert Decide(bytes, 1) == Decide(bytes, 2);
    if |bytes| < 3 { return NeedMore; }
    if bytes[2] != 0x3f { return No; }
    var end := 3;
    while end < |bytes| && IsParameter(bytes[end])
      invariant 3 <= end <= |bytes| && end - 3 <= MAX_PARAMETERS
      invariant Classify(bytes) == Decide(bytes, end)
    {
      end := end + 1;
      if end - 3 > MAX_PARAMETERS { return No; }
    }
    if end == |bytes| { return NeedMore; }
    if bytes[end] != 0x68 { return No; }
    r := if NamesAlt(Fields(bytes[3..end])) then Enter(end + 1) else No;
  }

  /** A decision is never revised by later bytes. */
  lemma {:induction false} DecisionIsStable(bytes: seq<byte>, more: seq<byte>, end: nat)
    requires end <= |bytes|
    ensures Decide(bytes, end) != NeedMore ==> Decide(bytes + more, end) == Decide(bytes, end)
    decreases |bytes| - end
  {
    var all := bytes + more;
    if end < |bytes| {
      DecisionIsStable(bytes, more, end + 1);
      assert all[end] == bytes[end];
      if end >= 3 {
        assert all[3..end] == bytes[3..end];
      }
    }
  }

  /** The decision on the sequence at `q`, once made on `stream[q..p]`, stands. */
  lemma DecidedEarly(stream: seq<byte>, q: nat, p: nat)
    requires q <= p <= |stream|
    ensures Classify(stream[q..p]) != NeedMore ==> Classify(stream[q..]) == Classify(stream[q..p])
  {
    assert stream[q..] == stream[q..p] + stream[p..];
    DecisionIsStable(stream[q..p], stream[p..], 0);
  }

  /** A byte an entry may hold before its last one. */
  predicate MayBegin(b: byte) {
    b == ESC || b == 0x5b || b == 0x3f || IsParameter(b)
  }

  /** Undecided bytes are all ones an entry may begin with; only the first may be an ESC. */
  lemma {:induction false} UndecidedBytes(bytes: seq<byte>, end: nat)
    requires end <= |bytes| && Decide(bytes, end) == NeedMore
    requires end - 3 <= MAX_PARAMETERS
    ensures |bytes| <= 3 + MAX_PARAMETERS
    ensures forall i | end <= i < |bytes| && i > 0 :: bytes[i] != ESC && MayBegin(bytes[i])
    decreases |bytes| - end
  {
    if end < |bytes| {
      UndecidedBytes(bytes, end + 1);
    }
  }

  /** An entry is decided by its last byte and not before, whatever follows; it holds no second ESC,
      and all its bytes but the last are ones an entry may begin with. */
  lemma {:induction false} EntryIsExact(bytes: seq<byte>, end: nat)
    requires end <= |bytes| && Decide(bytes, end).Enter?
    ensures var n := Decide(bytes, end).length;
            && end < n <= |bytes| && 3 < n && Decide(bytes[..n], end) == Enter(n)
            && (forall m | end <= m < n :: Decide(bytes[..m], end) == NeedMore)
            && (forall i | end <= i < n && i > 0 :: bytes[i] != ESC)
            && (forall i | end <= i < n - 1 && i > 0 :: MayBegin(bytes[i]))
    decreases |bytes| - end
  {
    var n := Decide(bytes, end).length;
    if end < 3 || IsParameter(bytes[end]) {
      EntryIsExact(bytes, end + 1);
      forall m | end <= m < n ensures Decide(bytes[..m], end) == NeedMore {
        if m > end {
          assert Decide(bytes[..m], end + 1) == NeedMore;
        }
      }
    } else {
      assert bytes[..n][3..end] == bytes[3..end];
    }
  }

  /** The same, for an entry found at `at` in a longer stream. */
  lemma EntryInStream(stream: seq<byte>, at: nat, n: nat)
    requires EntryAt(stream, at, n)
    ensures 3 < n && at + n <= |stream| && Classify(stream[at..at + n]) == Enter(n)
    ensures forall p | at < p < at + n :: Classify(stream[at..p]) == NeedMore
    ensures forall q | at < q < at + n :: stream[q] != ESC
    ensures forall q | at <= q < at + n - 1 :: MayBegin(stream[q])
  {
    var bytes := stream[at..];
    EntryIsExact(bytes, 0);
    assert bytes[..n] == stream[at..at + n];
    forall p | at < p < at + n ensures Classify(stream[at..p]) == NeedMore {
      assert bytes[..p - at] == stream[at..p];
    }
    assert forall q | at <= q < |stream| :: stream[q] == bytes[q - at];
  }

  /** An entry of length `n` stands at `at`. */
  predicate EntryAt(stream: seq<byte>, at: nat, n: nat) {
    at < |stream| && stream[at] == ESC && Classify(stream[at..]) == Enter(n)
  }

  // What is held back

  /** Every ESC before `limit` starts something decided, and any entry among them is over by `done`. */
  ghost predicate Settled(stream: seq<byte>, limit: nat, done: nat)
    requires limit <= |stream|
  {
    forall q {:trigger SettledAt(stream, q, done)} | 0 <= q < limit && stream[q] == ESC :: SettledAt(stream, q, done)
  }

  ghost predicate SettledAt(stream: seq<byte>, q: nat, done: nat)
    requires q <= |stream|
  {
    var c := Classify(stream[q..]);
    c.No? || (c.Enter? && q + c.length <= done)
  }

  lemma SettledLater(stream: seq<byte>, limit: nat, done: nat, later: nat)
    requires limit <= |stream| && Settled(stream, limit, done) && done <= later
    ensures Settled(stream, limit, later)
  {
    forall q | 0 <= q < limit && stream[q] == ESC ensures SettledAt(stream, q, later) {
      assert SettledAt(stream, q, done);
    }
  }

  lemma SettledGrows(stream: seq<byte>, limit: nat, done: nat, more: seq<byte>)
    requires limit <= |stream| && Settled(stream, limit, done)
    ensures Settled(stream + more, limit, done)
  {
    var all := stream + more;
    forall q | 0 <= q < limit && all[q] == ESC
      ensures SettledAt(all, q, done)
    {
      assert all[q..] == stream[q..] + more && stream[q] == ESC;
      assert SettledAt(stream, q, done);
      DecisionIsStable(stream[q..], more, 0);
    }
  }

  /** Past an entry everything is settled again. */
  lemma SettledPastEntry(stream: seq<byte>, at: nat, n: nat, next: nat)
    requires EntryAt(stream, at, n) && Settled(stream, at, at) && next == at + n
    ensures next <= |stream| && Settled(stream, next, next)
  {
    EntryInStream(stream, at, n);
    forall q | 0 <= q < next && stream[q] == ESC
      ensures SettledAt(stream, q, next)
    {
      if q < at {
        assert SettledAt(stream, q, at);
      }
    }
  }

  /** Nothing, or one undecided sequence. */
  predicate Undecided(held: seq<byte>) {
    held == [] || (held[0] == ESC && Classify(held) == NeedMore)
  }

  /** The bytes passed on and the bytes held are both determined by their concatenation. */
  lemma HeldIsDetermined(stream: seq<byte>, i: nat, j: nat)
    requires i <= |stream| && j <= |stream|
    requires Undecided(stream[i..]) && Settled(stream, i, i)
    requires Undecided(stream[j..]) && Settled(stream, j, j)
    ensures i == j
  {
    EarlierHeldIsSettled(stream, i, j);
    EarlierHeldIsSettled(stream, j, i);
  }

  lemma EarlierHeldIsSettled(stream: seq<byte>, i: nat, j: nat)
    requires i <= |stream| && j <= |stream|
    requires Undecided(stream[i..]) && Settled(stream, j, j)
    ensures i >= j
  {
    assert i < |stream| ==> stream[i] == stream[i..][0];
    assert i < |stream| && stream[i] == ESC ==> Classify(stream[i..]) == NeedMore;
    if i < |stream| && SettledAt(stream, i, j) {
    }
  }

  // When the engine enters the alternate screen

  /** The bytes just before `p` are an entry of length `n`. */
  ghost predicate EntryEndsAt(log: seq<byte>, p: nat, n: nat) {
    0 < n <= p <= |log| && log[p - n] == ESC && Classify(log[p - n..p]) == Enter(n)
  }

  lemma EntryShape(log: seq<byte>, p: nat, n: nat)
    requires EntryEndsAt(log, p, n)
    ensures n > 1 && forall q | p - n < q < p :: log[q] != ESC
    ensures forall q | p - n <= q < p - 1 :: MayBegin(log[q])
  {
    var bytes := log[p - n..p];
    EntryIsExact(bytes, 0);
    assert forall q | p - n <= q < p :: log[q] == bytes[q - (p - n)];
  }

  ghost predicate SomeEntryEndsAt(log: seq<byte>, p: nat) {
    exists n: nat :: EntryEndsAt(log, p, n)
  }

  predicate AltAt(view: View, log: seq<byte>, i: nat)
    requires i <= |log|
  {
    view(log[..i]).altActive
  }

  /** The alternate screen starts off, turns on only at a recognised entry, and does not turn off
      in the middle of one. */
  ghost predicate Honest(view: View) {
    && !view([]).altActive
    && (forall log: seq<byte>, i | 0 <= i < |log| :: HonestByte(view, log, i))
  }

  ghost predicate HonestByte(view: View, log: seq<byte>, i: nat)
    requires i < |log|
  {
    && (!AltAt(view, log, i) && AltAt(view, log, i + 1) ==> SomeEntryEndsAt(log, i + 1))
    && (AltAt(view, log, i) && !AltAt(view, log, i + 1) ==> !MayBegin(log[i]))
  }

  /** The last point up to `i` at which the alternate screen was off. */
  ghost function LastPrimary(view: View, log: seq<byte>, i: nat): (k: nat)
    requires Honest(view) && i <= |log|
    ensures k <= i && !AltAt(view, log, k)
    ensures forall j | k < j <= i :: AltAt(view, log, j)
    decreases i
  {
    assert log[..0] == [];
    if !AltAt(view, log, i) then i else LastPrimary(view, log, i - 1)
  }

  lemma {:induction false} LastPrimaryGrows(view: View, log: seq<byte>, more: seq<byte>, i: nat)
    requires Honest(view) && i <= |log|
    ensures LastPrimary(view, log + more, i) == LastPrimary(view, log, i)
    decreases i
  {
    assert (log + more)[..i] == log[..i];
    assert log[..0] == [];
    if AltAt(view, log, i) {
      LastPrimaryGrows(view, log, more, i - 1);
    }
  }

  /** The last ESC before `p`, or 0. */
  function LastEscape(log: seq<byte>, p: nat): (e: nat)
    requires p <= |log|
    ensures e <= p
    ensures forall q | e < q < p :: log[q] != ESC
  {
    if p == 0 then 0 else if log[p - 1] == ESC then p - 1 else LastEscape(log, p - 1)
  }

  lemma {:induction false} LastEscapeIs(log: seq<byte>, e: nat, p: nat)
    requires e < p <= |log| && log[e] == ESC && forall q | e < q < p :: log[q] != ESC
    ensures LastEscape(log, p) == e
    decreases p
  {
    if e < p - 1 {
      LastEscapeIs(log, e, p - 1);
    }
  }

  lemma {:induction false} LastEscapeGrows(log: seq<byte>, more: seq<byte>, p: nat)
    requires p <= |log|
    ensures LastEscape(log + more, p) == LastEscape(log, p)
    decreases p
  {
    if p > 0 {
      LastEscapeGrows(log, more, p - 1);
    }
  }

  /** Where the sequence that began the alternate session in force at `i` starts. */
  ghost function SessionStart(view: View, log: seq<byte>, i: nat): (e: nat)
    requires Honest(view) && i <= |log|
    ensures e <= i
  {
    LastEscape(log, LastPrimary(view, log, i))
  }

  /** That sequence is an entry, and it was fed on the primary screen. */
  lemma SessionsStartWithAnEntry(view: View, log: seq<byte>, i: nat)
    requires Honest(view) && i <= |log| && AltAt(view, log, i)
    ensures var e, k := SessionStart(view, log, i), LastPrimary(view, log, i);
            e < k < i && EntryEndsAt(log, k + 1, k + 1 - e) && !AltAt(view, log, e)
  {
    var k := LastPrimary(view, log, i);
    assert HonestByte(view, log, k);
    var n: nat :| EntryEndsAt(log, k + 1, n);
    var e := k + 1 - n;
    EntryShape(log, k + 1, n);
    LastEscapeIs(log, e, k);
    StaysAlt(view, log, e, k, n);
  }

  lemma {:induction false} StaysAlt(view: View, log: seq<byte>, e: nat, p: nat, n: nat)
    requires Honest(view) && e <= p < e + n <= |log| && EntryEndsAt(log, e + n, n)
    ensures AltAt(view, log, e) ==> AltAt(view, log, p)
    decreases p
  {
    if p > e {
      StaysAlt(view, log, e, p - 1, n);
      EntryShape(log, e + n, n);
      assert HonestByte(view, log, p - 1);
    }
  }

  /** Nothing that begins an alternate session happens from `i` to `j`. */
  ghost predicate SameSession(view: View, log: seq<byte>, i: nat, j: nat)
    requires Honest(view) && i <= j <= |log|
  {
    AltAt(view, log, j) ==> AltAt(view, log, i) && LastPrimary(view, log, i) == LastPrimary(view, log, j)
  }

  lemma NextByteSameSession(view: View, log: seq<byte>, i: nat)
    requires Honest(view) && i < |log| && !SomeEntryEndsAt(log, i + 1)
    ensures SameSession(view, log, i, i + 1)
  {
    assert HonestByte(view, log, i);
  }

  /** Among settled bytes no entry ends. */
  lemma NoEntryEnds(stream: seq<byte>, limit: nat, done: nat, p: nat, n: nat)
    requires limit <= |stream| && Settled(stream, limit, done) && done < p <= limit
    ensures !EntryEndsAt(stream, p, n)
  {
    if 0 < n <= p && stream[p - n] == ESC {
      DecidedEarly(stream, p - n, p);
      assert SettledAt(stream, p - n, done);
    }
  }

  /** So passing them on begins no alternate session. */
  lemma {:induction false} PlainBytes(view: View, stream: seq<byte>, limit: nat, done: nat, i: nat)
    requires Honest(view) && done <= i <= limit <= |stream| && Settled(stream, limit, done)
    ensures SameSession(view, stream, done, i)
    decreases i
  {
    if i > done {
      PlainBytes(view, stream, limit, done, i - 1);
      forall n ensures !EntryEndsAt(stream, i, n) {
        NoEntryEnds(stream, limit, done, i, n);
      }
      NextByteSameSession(view, stream, i - 1);
    }
  }

  /** Nor does an entry until its last byte. */
  lemma PartialEntryEndsNothing(stream: seq<byte>, i: nat, n: nat, p: nat, k: nat)
    requires EntryAt(stream, i, n) && Settled(stream, i, i) && i < p < i + n <= |stream|
    ensures !EntryEndsAt(stream, p, k)
  {
    EntryInStream(stream, i, n);
    if 0 < k <= p && stream[p - k] == ESC {
      if p - k < i {
        assert SettledAt(stream, p - k, i);
        DecidedEarly(stream, p - k, p);
      }
    }
  }

  lemma {:induction false} EntryHasNoEffectYet(view: View, stream: seq<byte>, i: nat, n: nat, p: nat)
    requires Honest(view) && EntryAt(stream, i, n) && Settled(stream, i, i) && i <= p < i + n <= |stream|
    ensures SameSession(view, stream, i, p) && AltAt(view, stream, p) == AltAt(view, stream, i)
    decreases p
  {
    if p > i {
      EntryHasNoEffectYet(view, stream, i, n, p - 1);
      EntryInStream(stream, i, n);
      forall k ensures !EntryEndsAt(stream, p, k) {
        PartialEntryEndsNothing(stream, i, n, p, k);
      }
      NextByteSameSession(view, stream, p - 1);
      assert HonestByte(view, stream, p - 1);
    }
  }

  /** An entry let through on the alternate screen begins nothing; on the primary screen it begins
      the session it is the entry of, if any begins. */
  lemma EntryBegins(view: View, stream: seq<byte>, i: nat, n: nat, next: nat)
    requires Honest(view) && EntryAt(stream, i, n) && Settled(stream, i, i) && next == i + n <= |stream|
    ensures AltAt(view, stream, i) ==> SameSession(view, stream, i, next)
    ensures !AltAt(view, stream, i) && AltAt(view, stream, next) ==> SessionStart(view, stream, next) == i
  {
    EntryInStream(stream, i, n);
    EntryHasNoEffectYet(view, stream, i, n, i + n - 1);
    LastEscapeIs(stream, i, i + n - 1);
  }

  // What is frozen

  /** While the alternate screen is on, the frozen screen is the engine's just before the entry that
      began this alternate session. */
  ghost predicate FrozenFits(view: View, log: seq<byte>, i: nat, frozen: Option<FrozenPrimary>)
    requires Honest(view) && i <= |log|
  {
    AltAt(view, log, i) ==> frozen == Some(Freeze(view(log[..SessionStart(view, log, i)])))
  }

  lemma SameSessionKeepsFrozen(view: View, log: seq<byte>, i: nat, j: nat, frozen: Option<FrozenPrimary>)
    requires Honest(view) && i <= j <= |log| && SameSession(view, log, i, j) && FrozenFits(view, log, i, frozen)
    ensures FrozenFits(view, log, j, frozen)
  {
  }

  lemma FrozenFitsGrown(view: View, log: seq<byte>, more: seq<byte>, i: nat, frozen: Option<FrozenPrimary>)
    requires Honest(view) && i <= |log|
    ensures FrozenFits(view, log, i, frozen) == FrozenFits(view, log + more, i, frozen)
  {
    var all, e := log + more, SessionStart(view, log, i);
    LastPrimaryGrows(view, log, more, i);
    LastEscapeGrows(log, more, LastPrimary(view, log, i));
    assert all[..i] == log[..i] && all[..e] == log[..e];
  }

  /** What is kept as frozen when an entry meets `screen`: the screen, unless it is the alternate one already. */
  function Kept(screen: Screen, frozen: Option<FrozenPrimary>): Option<FrozenPrimary> {
    if screen.altActive then frozen else Some(Freeze(screen))
  }

  /** An entry let through on the alternate screen leaves what is frozen right. */
  lemma EntryOnAlt(view: View, stream: seq<byte>, i: nat, n: nat, frozen: Option<FrozenPrimary>, next: nat)
    requires Honest(view) && EntryAt(stream, i, n) && Settled(stream, i, i) && next == i + n <= |stream|
    requires AltAt(view, stream, i) && FrozenFits(view, stream, i, frozen)
    ensures FrozenFits(view, stream, next, frozen)
  {
    EntryBegins(view, stream, i, n, next);
    SameSessionKeepsFrozen(view, stream, i, next, frozen);
  }

  /** One met on the primary screen, which is printed first, makes it right. */
  lemma EntryOnPrimary(view: View, stream: seq<byte>, i: nat, n: nat, kept: Option<FrozenPrimary>, next: nat)
    requires Honest(view) && EntryAt(stream, i, n) && Settled(stream, i, i) && next == i + n <= |stream|
    requires !AltAt(view, stream, i) && kept == Some(Freeze(view(stream[..i])))
    ensures FrozenFits(view, stream, next, kept)
  {
    EntryBegins(view, stream, i, n, next);
  }

  lemma EntryKeeps(view: View, stream: seq<byte>, i: nat, n: nat, frozen: Option<FrozenPrimary>, next: nat,
      kept: Option<FrozenPrimary>)
    requires Honest(view) && EntryAt(stream, i, n) && Settled(stream, i, i) && next == i + n <= |stream|
    requires FrozenFits(view, stream, i, frozen) && kept == Kept(view(stream[..i]), frozen)
    ensures FrozenFits(view, stream, next, kept)
  {
    if AltAt(view, stream, i) {
      EntryOnAlt(view, stream, i, n, kept, next);
    } else {
      EntryOnPrimary(view, stream, i, n, kept, next);
    }
  }

  // Mirrors

  datatype State = State(log: seq<byte>, held: seq<byte>, frozen: Option<FrozenPrimary>)
  {
    /** Every byte ever fed. */
    function Stream(): seq<byte> {
      log + held
    }
  }

  ghost predicate ValidState(view: View, m: State)
    requires Honest(view)
  {
    && Undecided(m.held)
    && Settled(m.Stream(), |m.log|, |m.log|)
    && FrozenFits(view, m.log, |m.log|, m.frozen)
  }

  /** In the middle of a scan: `stream` is every byte fed so far, scanned up to `at`, passed on up to `done`. */
  ghost predicate Scanning(view: View, stream: seq<byte>, done: nat, at: nat, frozen: Option<FrozenPrimary>) {
    && Honest(view) && done <= at <= |stream|
    && Settled(stream, at, done)
    && FrozenFits(view, stream, done, frozen)
  }

  lemma StartScan(view: View, m: State, bytes: seq<byte>)
    requires Honest(view) && ValidState(view, m)
    ensures Scanning(view, m.log + (m.held + bytes), |m.log|, |m.log|, m.frozen)
  {
    Assoc(m.log, m.held, bytes);
    SettledGrows(m.Stream(), |m.log|, |m.log|, bytes);
    FrozenFitsGrown(view, m.log, m.held + bytes, |m.log|, m.frozen);
  }

  lemma SkipByte(view: View, stream: seq<byte>, done: nat, at: nat, frozen: Option<FrozenPrimary>, next: nat)
    requires Scanning(view, stream, done, at, frozen) && at < |stream| && next == at + 1
    requires stream[at] != ESC || Classify(stream[at..]) == No
    ensures Scanning(view, stream, done, next, frozen)
  {
  }

  /** Stopping at an undecided sequence. */
  lemma Hold(view: View, stream: seq<byte>, done: nat, at: nat, frozen: Option<FrozenPrimary>)
    requires Scanning(view, stream, done, at, frozen) && at < |stream|
    requires stream[at] == ESC && Classify(stream[at..]) == NeedMore
    ensures ValidState(view, State(stream[..at], stream[at..], frozen))
    ensures stream[..at] + stream[at..] == stream
  {
    var log, held := stream[..at], stream[at..];
    assert log + held == stream;
    PlainBytes(view, stream, at, done, at);
    SameSessionKeepsFrozen(view, stream, done, at, frozen);
    FrozenFitsGrown(view, log, held, at, frozen);
    SettledLater(stream, at, done, at);
  }

  /** Letting an entry through. */
  lemma PassEntry(view: View, stream: seq<byte>, done: nat, at: nat, n: nat, frozen: Option<FrozenPrimary>, next: nat,
      kept: Option<FrozenPrimary>)
    requires Scanning(view, stream, done, at, frozen) && EntryAt(stream, at, n)
    requires next == at + n && kept == Kept(view(stream[..at]), frozen)
    ensures at < next <= |stream| && Scanning(view, stream, next, next, kept)
  {
    EntryInStream(stream, at, n);
    PlainBytes(view, stream, at, done, at);
    SameSessionKeepsFrozen(view, stream, done, at, frozen);
    SettledLater(stream, at, done, at);
    SettledPastEntry(stream, at, n, next);
    EntryKeeps(view, stream, at, n, frozen, next, kept);
  }

  /** Running out of bytes; a primary screen needs no frozen copy. */
  lemma Finish(view: View, stream: seq<byte>, done: nat, frozen: Option<FrozenPrimary>)
    requires Scanning(view, stream, done, |stream|, frozen)
    ensures ValidState(view, State(stream, [], if view(stream).altActive then frozen else None))
    ensures stream + [] == stream == stream[..|stream|]
  {
    PlainBytes(view, stream, |stream|, done, |stream|);
    SameSessionKeepsFrozen(view, stream, done, |stream|, frozen);
    assert stream + [] == stream && stream[..|stream|] == stream;
    SettledLater(stream, |stream|, done, |stream|);
  }

  /** Index `index` of the data is index `at` of the stream. */
  lemma Here(start: seq<byte>, data: seq<byte>, stream: seq<byte>, index: nat, at: nat)
    requires stream == start + data && index < |data| && at == |start| + index
    ensures at < |stream| && stream[at] == data[index] && stream[at..] == data[index..]
  {
  }

  /** The log after passing on `data[i..j]`. */
  lemma PassedOn(start: seq<byte>, data: seq<byte>, stream: seq<byte>, i: nat, j: nat, done: nat, at: nat)
    requires stream == start + data && i <= j <= |data| && done == |start| + i && at == |start| + j
    ensures done <= at <= |stream| && stream[..done] + data[i..j] == stream[..at]
  {
  }

  class RecoveryMirror {
    const view: View
    var log: seq<byte>
    var held: seq<byte>
    var frozen: Option<FrozenPrimary>

    function Contents(): State
      reads this
    {
      State(log, held, frozen)
    }

    ghost predicate Valid()
      reads this
    {
      Honest(view) && ValidState(view, Contents())
    }

    constructor (view: View)
      requires Honest(view)
      ensures this.view == view && Valid() && Contents() == State([], [], None)
    {
      this.view := view;
      log, held, frozen := [], [], None;
    }

    /** Passes on what precedes an entry, prints the primary screen if it is showing, and lets the entry through. */
    method EnterAlt(before: seq<byte>, entry: seq<byte>)
      modifies `log, `frozen
      ensures log == old(log) + before + entry && frozen == Kept(view(old(log) + before), old(frozen))
    {
      log := log + before;
      if !view(log).altActive {
        frozen := Some(Freeze(view(log)));
      }
      log := log + entry;
    }

    /** Passes on the rest of the data; a primary screen that is showing needs no frozen copy. */
    method FeedRest(rest: seq<byte>)
      modifies `log, `frozen
      ensures log == old(log) + rest && frozen == if view(log).altActive then old(frozen) else None
    {
      log := log + rest;
      if !view(log).altActive {
        frozen := None;
      }
    }

    /** What an ESC at `data[index]` leads to: the rest is held, an entry is let through, or one byte is skipped. */
    method AtEscape(ghost stream: seq<byte>, ghost start: seq<byte>, ghost done: nat, ghost at: nat,
                    data: seq<byte>, fed: nat, index: nat)
      returns (nowFed: nat, next: nat, stopped: bool, ghost nowDone: nat, ghost past: nat)
      requires fed <= index < |data| && data[index] == ESC && held == [] && stream == start + data
      requires done == |start| + fed && at == |start| + index
      requires log == stream[..done] && Scanning(view, stream, done, at, frozen)
      modifies this
      ensures stopped ==> Valid() && Contents().Stream() == stream
      ensures !stopped ==>
        && held == [] && nowFed <= next <= |data| && index < next
        && nowDone == |start| + nowFed && past == |start| + next
        && log == stream[..nowDone] && Scanning(view, stream, nowDone, past, frozen)
    {
      Here(start, data, stream, index, at);
      PassedOn(start, data, stream, fed, index, done, at);
      var candidate := ClassifyAltEnter(data[index..]);
      nowFed, next, stopped := fed, index + 1, false;
      nowDone, past := done, at + 1;
      match candidate
      case NeedMore =>
        Hold(view, stream, done, at, frozen);
        log := log + data[fed..index];
        held := data[index..];
        stopped := true;
        assert Contents() == State(stream[..at], stream[at..], frozen);
      case Enter(length) =>
        nowFed := index + length;
        past := at + length;
        nowDone := past;
        ghost var kept := Kept(view(stream[..at]), frozen);
        PassEntry(view, stream, done, at, length, frozen, past, kept);
        PassedOn(start, data, stream, index, nowFed, at, past);
        EnterAlt(data[fed..index], data[index..nowFed]);
        assert log == stream[..past] && frozen == kept;
        next := nowFed;
      case No =>
        SkipByte(view, stream, done, at, frozen, past);
    }

    /** Every byte fed is passed on in order, or held. */
    method Feed(bytes: seq<byte>)
      requires Valid()
      modifies this
      ensures Valid() && Fed(view, old(Contents()), bytes, Contents())
    {
      ghost var start := log;
      StartScan(view, Contents(), bytes);
      Assoc(log, held, bytes);
      var data := held + bytes;
      ghost var stream, done, at := start + data, |start|, |start|;
      held := [];
      var fed, index := 0, 0;
      while index < |data|
        invariant held == [] && 0 <= fed <= index <= |data|
        invariant done == |start| + fed && at == |start| + index
        invariant log == stream[..done] && Scanning(view, stream, done, at, frozen)
      {
        if data[index] != ESC {
          ghost var next := at + 1;
          SkipByte(view, stream, done, at, frozen, next);
          index, at := index + 1, next;
          continue;
        }
        var stopped;
        fed, index, stopped, done, at := AtEscape(stream, start, done, at, data, fed, index);
        if stopped {
          return;
        }
      }
      Finish(view, stream, done, frozen);
      PassedOn(start, data, stream, fed, |data|, done, |stream|);
      FeedRest(data[fed..|data|]);
      assert Contents() == State(stream, [], if view(stream).altActive then frozen else None);
    }

    /** The bytes that bring another terminal to this mirror's state. */
    method Rehydrated() returns (output: seq<byte>)
      ensures output == Rehydrate(view(log), frozen)
    {
      var screen := view(log);
      var body: seq<byte> := [];
      if screen.altActive {
        if frozen.Some? {
          body := frozen.value.paint + Cup(frozen.value.cursor);
        }
        var paint := PrintAlt(screen.viewport);
        body := body + (ENTER_ALT + (paint + Cup(screen.cursor)));
      } else {
        var paint := PrintPrimary(screen.Lines());
        body := paint + Cup(screen.cursor);
      }
      var modes := PrintModes(screen.modes);
      output := RESET + (body + (modes + CursorStyleSet(screen.cursorStyle)));
    }

    /** The bytes archived for a later shell to scroll past. */
    method ColdPainted() returns (output: seq<byte>)
      ensures output == ColdPaint(view(log), frozen)
    {
      var screen := view(log);
      var body: seq<byte> := [];
      if screen.altActive {
        if frozen.Some? {
          body := frozen.value.paint;
        }
        var paint := PrintAltFlat(screen.viewport);
        body := body + (CRLF + paint);
      } else {
        body := PrintPrimary(screen.Lines());
      }
      output := RESET + (body + (RESET + CRLF));
    }
  }

  // Whole runs

  /** What one `feed` promises. */
  ghost predicate Fed(view: View, m: State, bytes: seq<byte>, r: State)
    requires Honest(view)
  {
    ValidState(view, r) && r.Stream() == m.Stream() + bytes
  }

  /** A run of feeds: `states[i + 1]` is what feeding `chunks[i]` to `states[i]` gave. */
  ghost predicate FedInChunks(view: View, states: seq<State>, chunks: seq<seq<byte>>)
    requires Honest(view)
  {
    && |states| == |chunks| + 1 && ValidState(view, states[0])
    && forall i | 0 <= i < |chunks| :: Fed(view, states[i], chunks[i], states[i + 1])
  }

  function Joined(chunks: seq<seq<byte>>): seq<byte> {
    if chunks == [] then [] else Joined(chunks[..|chunks| - 1]) + chunks[|chunks| - 1]
  }

  /** Nothing fed is lost, repeated or reordered, and what is held back is one short sequence. */
  lemma ValidToTheEnd(view: View, states: seq<State>, chunks: seq<seq<byte>>, n: nat)
    requires Honest(view) && FedInChunks(view, states, chunks) && n <= |chunks|
    ensures ValidState(view, states[n]) && Classify(states[n].held) == NeedMore
  {
    if n > 0 {
      assert Fed(view, states[n - 1], chunks[n - 1], states[n]);
    }
  }

  lemma {:induction false} NothingIsLost(view: View, states: seq<State>, chunks: seq<seq<byte>>)
    requires Honest(view) && FedInChunks(view, states, chunks)
    ensures var last := states[|chunks|];
            && ValidState(view, last)
            && last.log + last.held == states[0].Stream() + Joined(chunks)
            && |last.held| <= 3 + MAX_PARAMETERS
    decreases |chunks|
  {
    var n := |chunks|;
    ValidToTheEnd(view, states, chunks, n);
    UndecidedBytes(states[n].held, 0);
    if n == 0 {
      assert states[0].Stream() + [] == states[0].Stream();
    } else {
      NothingIsLost(view, states[..n], chunks[..n - 1]);
      Assoc(states[0].Stream(), Joined(chunks[..n - 1]), chunks[n - 1]);
      assert Fed(view, states[n - 1], chunks[n - 1], states[n]);
    }
  }

  /** Two valid mirrors that were fed the same bytes, however split, agree in everything visible. */
  lemma SameBytesSameMirror(view: View, a: State, b: State)
    requires Honest(view) && ValidState(view, a) && ValidState(view, b) && a.Stream() == b.Stream()
    ensures a.log == b.log && a.held == b.held
    ensures view(a.log).altActive ==> a.frozen == b.frozen
    ensures Rehydrate(view(a.log), a.frozen) == Rehydrate(view(b.log), b.frozen)
    ensures ColdPaint(view(a.log), a.frozen) == ColdPaint(view(b.log), b.frozen)
  {
    var s := a.Stream();
    assert s[|a.log|..] == a.held && s[|b.log|..] == b.held;
    HeldIsDetermined(s, |a.log|, |b.log|);
    assert s[..|a.log|] == a.log && s[..|b.log|] == b.log;
    if view(a.log).altActive {
      assert a.log[..|a.log|] == a.log;
    }
  }

  /** Chunking does not matter: any two ways of feeding the same bytes end in mirrors with the same
      engine log, the same held bytes and the same printed forms. */
  lemma ChunkingDoesNotMatter(view: View, a: seq<State>, b: seq<State>, chunksA: seq<seq<byte>>,
      chunksB: seq<seq<byte>>)
    requires Honest(view) && FedInChunks(view, a, chunksA) && FedInChunks(view, b, chunksB)
    requires a[0].Stream() == b[0].Stream() && Joined(chunksA) == Joined(chunksB)
    ensures var m, n := a[|chunksA|], b[|chunksB|];
            && m.log == n.log && m.held == n.held
            && Rehydrate(view(m.log), m.frozen) == Rehydrate(view(n.log), n.frozen)
            && ColdPaint(view(m.log), m.frozen) == ColdPaint(view(n.log), n.frozen)
  {
    NothingIsLost(view, a, chunksA);
    NothingIsLost(view, b, chunksB);
    SameBytesSameMirror(view, a[|chunksA|], b[|chunksB|]);
  }

  /** At the end of any run on the alternate screen, what is frozen is the primary screen just before
      the one entry that began this alternate session. */
  lemma FrozenThroughRuns(view: View, states: seq<State>, chunks: seq<seq<byte>>)
    requires Honest(view) && FedInChunks(view, states, chunks) && view(states[|chunks|].log).altActive
    ensures var m := states[|chunks|];
            var e, k := SessionStart(view, m.log, |m.log|), LastPrimary(view, m.log, |m.log|);
            && e < k < |m.log| && EntryEndsAt(m.log, k + 1, k + 1 - e)
            && !view(m.log[..e]).altActive && m.frozen == Some(Freeze(view(m.log[..e])))
  {
    NothingIsLost(view, states, chunks);
    var m := states[|chunks|];
    assert m.log[..|m.log|] == m.log;
    SessionsStartWithAnEntry(view, m.log, |m.log|);
  }

  // An engine that meets the assumption, and does enter and leave the alternate screen

  /** On from the end of an entry until the next `l`. */
  ghost predicate SwitchedOn(log: seq<byte>) {
    log != [] && (SomeEntryEndsAt(log, |log|) || (SwitchedOn(log[..|log| - 1]) && log[|log| - 1] != 0x6c))
  }

  ghost function Switching(blank: Screen): View {
    log => blank.(altActive := SwitchedOn(log))
  }

  lemma SwitchingIsHonest(blank: Screen)
    ensures Honest(Switching(blank))
  {
    forall log: seq<byte>, i | 0 <= i < |log| ensures HonestByte(Switching(blank), log, i) {
      var before, after := log[..i], log[..i + 1];
      assert after[..|after| - 1] == before && after[i] == log[i];
      if !SwitchedOn(before) && SwitchedOn(after) {
        var n: nat :| EntryEndsAt(after, i + 1, n);
        assert after[i + 1 - n..i + 1] == log[i + 1 - n..i + 1];
        assert EntryEndsAt(log, i + 1, n);
      }
    }
  }

  /** `ESC [ ? 4 7 h` switches it on, and the `l` of `ESC [ ? 4 7 l` off again. */
  lemma SwitchingSwitches()
    ensures var entry: seq<byte> := [ESC, 0x5b, 0x3f, 0x34, 0x37, 0x68];
            SwitchedOn(entry) && !SwitchedOn(entry + [0x6c])
  {
    var entry: seq<byte> := [ESC, 0x5b, 0x3f, 0x34, 0x37, 0x68];
    EntryIs47(entry);
    assert entry[0..6] == entry;
    assert EntryEndsAt(entry, 6, 6);
    var left := entry + [0x6c];
    forall n: nat ensures !EntryEndsAt(left, 7, n) {
      if 0 < n <= 7 && left[7 - n] == ESC {
        var bytes := left[7 - n..7];
        assert bytes[|bytes| - 1] == 0x6c;
        EntryEndsInH(bytes, 0);
      }
    }
  }

  lemma EntryIs47(entry: seq<byte>)
    requires entry == [ESC, 0x5b, 0x3f, 0x34, 0x37, 0x68]
    ensures Classify(entry) == Enter(6)
  {
    var p: seq<byte> := [0x34, 0x37];
    assert entry[3..5] == p;
    assert p[..1] == [0x34] && p[..1][..0] == [];
    var none: seq<byte> := [];
    assert none + [0x34] == [0x34] && [0x34] + [0x37] == p;
    assert Fields(none) == [none] && [none][..0] == [];
    assert Fields(p[..1]) == [p[..1]] && [p[..1]][..0] == [];
    assert Fields(p) == [p];
    assert IsAltMode(Fields(p)[0]);
    assert Decide(entry, 5) == Enter(6);
    assert Decide(entry, 4) == Enter(6);
    assert Decide(entry, 3) == Enter(6);
    assert Decide(entry, 2) == Enter(6);
    assert Decide(entry, 1) == Enter(6);
  }

  /** The last byte of an entry is `h`. */
  lemma {:induction false} EntryEndsInH(bytes: seq<byte>, end: nat)
    requires end <= |bytes|
    ensures Decide(bytes, end).Enter? ==>
            0 < Decide(bytes, end).length <= |bytes| && bytes[Decide(bytes, end).length - 1] == 0x68
    decreases |bytes| - end
  {
    if end < |bytes| {
      EntryEndsInH(bytes, end + 1);
    }
  }

  // Of an engine only the one stream it was fed matters

  ghost predicate HonestAlong(view: View, stream: seq<byte>) {
    !view([]).altActive && forall i | 0 <= i < |stream| :: HonestByte(view, stream, i)
  }

  /** How much of `log` is the start of `stream`. */
  function Shared(log: seq<byte>, stream: seq<byte>): (n: nat)
    ensures n <= |log| && n <= |stream|
  {
    if log <= stream then |log| else Shared(log[..|log| - 1], stream)
  }

  /** Showing what `view` does along `stream`, and nothing new off it. */
  function Along(view: View, stream: seq<byte>): View {
    (log: seq<byte>) => view(stream[..Shared(log, stream)])
  }

  lemma AlongIsHonestAt(view: View, stream: seq<byte>, log: seq<byte>, i: nat)
    requires HonestAlong(view, stream) && i < |log|
    ensures HonestByte(Along(view, stream), log, i)
  {
    var before, after := log[..i], log[..i + 1];
    assert after[..|after| - 1] == before;
    if after <= stream {
      assert before == stream[..i] && after == stream[..i + 1] && log[i] == stream[i];
      assert Shared(before, stream) == i && Shared(after, stream) == i + 1;
      assert HonestByte(view, stream, i);
      if SomeEntryEndsAt(stream, i + 1) {
        var n: nat :| EntryEndsAt(stream, i + 1, n);
        assert stream[i + 1 - n..i + 1] == log[i + 1 - n..i + 1];
        assert EntryEndsAt(log, i + 1, n);
      }
    } else {
      assert Shared(after, stream) == Shared(before, stream);
    }
  }

  /** Whatever is proved for an honest engine holds for any engine on a stream along which it is honest: there is an
      honest engine that shows the same after every part of that stream. */
  lemma OneStreamIsEnough(view: View, stream: seq<byte>)
    requires HonestAlong(view, stream)
    ensures Honest(Along(view, stream))
    ensures forall i | 0 <= i <= |stream| :: Along(view, stream)(stream[..i]) == view(stream[..i])
  {
    assert stream[..0] == [] && Shared([], stream) == 0;
    forall log: seq<byte>, i | 0 <= i < |log| ensures HonestByte(Along(view, stream), log, i) {
      AlongIsHonestAt(view, stream, log, i);
    }
    forall i | 0 <= i <= |stream| ensures Along(view, stream)(stream[..i]) == view(stream[..i]) {
      assert stream[..i] <= stream && Shared(stream[..i], stream) == i;
    }
  }
}
