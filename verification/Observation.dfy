/** What one session's observation stream delivers, and which of it a mirror draws. */
module Observation {
  import opened Bytes

  datatype ObservationFrame =
    | Output(from: nat, through: nat, bytes: seq<byte>)
    | Resize
    | Gap(through: nat)
    | End
    | Opened

  /** Every byte of the first `n` frames. */
  function Received(input: seq<ObservationFrame>, n: nat): seq<byte>
    requires n <= |input|
  {
    if n == 0 then []
    else Received(input, n - 1) + (if input[n - 1].Output? then input[n - 1].bytes else [])
  }

  predicate HasOutput(input: seq<ObservationFrame>, n: nat)
    requires n <= |input|
  {
    n > 0 && (input[n - 1].Output? || HasOutput(input, n - 1))
  }

  /** The bytes drawn from the first `n` frames; with `drop`, the first output is a stale replay and is not. */
  function Drawn(input: seq<ObservationFrame>, n: nat, drop: bool): seq<byte>
    requires n <= |input|
  {
    if n == 0 then []
    else Drawn(input, n - 1, drop)
         + (if input[n - 1].Output? && !(drop && !HasOutput(input, n - 1)) then input[n - 1].bytes else [])
  }

  /** The sequence reached by the outputs of the first `n` frames. */
  function Through(input: seq<ObservationFrame>, n: nat, start: nat): nat
    requires n <= |input|
  {
    if n == 0 then start else if input[n - 1].Output? then input[n - 1].through else Through(input, n - 1, start)
  }

  predicate NoGap(input: seq<ObservationFrame>, n: nat)
    requires n <= |input|
  {
    forall i | 0 <= i < n :: !input[i].Gap? && !input[i].Opened?
  }

  /** An output starts where the stream stands, or after it if there was a gap, and counts its bytes. */
  predicate FlowsAt(input: seq<ObservationFrame>, start: nat, i: nat)
    requires i < |input|
  {
    input[i].Output? ==>
      && input[i].through == input[i].from + |input[i].bytes|
      && Through(input, i, start) <= input[i].from
      && (NoGap(input, i) ==> Through(input, i, start) == input[i].from)
  }

  /** Outputs do not overlap. */
  ghost predicate Flows(input: seq<ObservationFrame>, start: nat) {
    forall i {:trigger FlowsAt(input, start, i)} | 0 <= i < |input| :: FlowsAt(input, start, i)
  }

  /** One more frame. */
  lemma NextFrame(input: seq<ObservationFrame>, n: nat, start: nat, next: nat)
    requires n < |input| && next == n + 1
    ensures Through(input, next, start) == if input[n].Output? then input[n].through else Through(input, n, start)
    ensures HasOutput(input, next) == (input[n].Output? || HasOutput(input, n))
    ensures NoGap(input, next) == (NoGap(input, n) && !input[n].Gap? && !input[n].Opened?)
  {
  }

  lemma {:induction false} ThroughGrows(input: seq<ObservationFrame>, m: nat, n: nat, start: nat)
    requires m <= n <= |input| && Flows(input, start)
    ensures Through(input, m, start) <= Through(input, n, start)
    decreases n
  {
    if m < n {
      var j := n - 1;
      ThroughGrows(input, m, j, start);
      assert FlowsAt(input, start, j);
      NextFrame(input, j, start, n);
    }
  }

  /** Without gaps, the sequence counts the bytes. */
  lemma {:induction false} SequenceCounts(input: seq<ObservationFrame>, n: nat, start: nat)
    requires n <= |input| && Flows(input, start) && NoGap(input, n)
    ensures Through(input, n, start) == start + |Received(input, n)|
    decreases n
  {
    if n > 0 {
      var j := n - 1;
      SequenceCounts(input, j, start);
      assert FlowsAt(input, start, j);
    }
  }

  lemma {:induction false} ReceivedGrows(input: seq<ObservationFrame>, m: nat, n: nat)
    requires m <= n <= |input|
    ensures Received(input, m) <= Received(input, n)
    decreases n
  {
    if m < n {
      ReceivedGrows(input, m, n - 1);
    }
  }

  /** The replay that `drop` leaves out of the first `n` frames. */
  function Dropped(input: seq<ObservationFrame>, n: nat, drop: bool): seq<byte>
    requires n <= |input|
  {
    if n == 0 || !drop then []
    else if HasOutput(input, n - 1) then Dropped(input, n - 1, drop)
    else if input[n - 1].Output? then input[n - 1].bytes
    else []
  }

  /** What is drawn is what is received but for the replay at its front. */
  lemma {:induction false} DrawnIsReceived(input: seq<ObservationFrame>, n: nat, drop: bool)
    requires n <= |input|
    ensures Dropped(input, n, drop) + Drawn(input, n, drop) == Received(input, n)
    ensures !HasOutput(input, n) ==> Received(input, n) == []
    decreases n
  {
    if n > 0 {
      DrawnIsReceived(input, n - 1, drop);
      var next := if input[n - 1].Output? then input[n - 1].bytes else [];
      Assoc(Dropped(input, n - 1, drop), Drawn(input, n - 1, drop), next);
    }
  }

  lemma {:induction false} HasOutputGrows(input: seq<ObservationFrame>, m: nat, n: nat, drop: bool)
    requires m <= n <= |input| && HasOutput(input, m)
    ensures HasOutput(input, n) && Dropped(input, n, drop) == Dropped(input, m, drop)
    decreases n
  {
    if m < n {
      HasOutputGrows(input, m, n - 1, drop);
    }
  }

  lemma {:induction false} NothingDroppedYet(input: seq<ObservationFrame>, n: nat, drop: bool)
    requires n <= |input|
    ensures !HasOutput(input, n) ==> Dropped(input, n, drop) == []
    decreases n
  {
    if n > 0 {
      NothingDroppedYet(input, n - 1, drop);
    }
  }

  /** Reaching a sequence means having drawn everything up to it. */
  lemma SameSequenceSameBytes(input: seq<ObservationFrame>, m: nat, n: nat, start: nat, drop: bool)
    requires m <= n <= |input| && Flows(input, start) && NoGap(input, n)
    requires Through(input, n, start) <= Through(input, m, start)
    ensures Received(input, m) == Received(input, n) && Drawn(input, m, drop) == Drawn(input, n, drop)
  {
    SequenceCounts(input, m, start);
    SequenceCounts(input, n, start);
    ReceivedGrows(input, m, n);
    DrawnIsReceived(input, m, drop);
    DrawnIsReceived(input, n, drop);
    if HasOutput(input, m) {
      HasOutputGrows(input, m, n, drop);
    } else {
      NothingDroppedYet(input, m, drop);
    }
    assert Drawn(input, n, drop) == Received(input, n)[|Dropped(input, n, drop)|..];
    assert Drawn(input, m, drop) == Received(input, m)[|Dropped(input, m, drop)|..];
  }

  // Frame by frame

  /** The first output, if there is one among the first `n` frames. */
  ghost predicate FirstOutput(input: seq<ObservationFrame>, first: nat) {
    first < |input| && input[first].Output? && forall k | 0 <= k < first :: !input[k].Output?
  }

  lemma {:induction false} HasOutputExactly(input: seq<ObservationFrame>, n: nat)
    requires n <= |input|
    ensures HasOutput(input, n) <==> exists i | 0 <= i < n :: input[i].Output?
    decreases n
  {
    if n > 0 {
      HasOutputExactly(input, n - 1);
    }
  }

  /** Of the first `n` frames, number `i` is the last output. */
  ghost predicate LastOutput(input: seq<ObservationFrame>, n: nat, i: nat)
    requires n <= |input|
  {
    i < n && input[i].Output? && forall k | i < k < n :: !input[k].Output?
  }

  /** The sequence reached is where the last output ends, or the start. */
  lemma {:induction false} ThroughExactly(input: seq<ObservationFrame>, n: nat, start: nat)
    requires n <= |input|
    ensures forall i: nat | LastOutput(input, n, i) :: Through(input, n, start) == input[i].through
    ensures (forall k | 0 <= k < n :: !input[k].Output?) ==> Through(input, n, start) == start
    decreases n
  {
    if n > 0 {
      ThroughExactly(input, n - 1, start);
      forall i: nat | LastOutput(input, n, i) ensures Through(input, n, start) == input[i].through {
        if i < n - 1 {
          assert LastOutput(input, n - 1, i);
        }
      }
    }
  }

  /** In a stream without gaps every output is received where it says it stands. */
  lemma {:induction false} ReceivedInPlace(input: seq<ObservationFrame>, n: nat, start: nat, i: nat)
    requires i < n <= |input| && Flows(input, start) && NoGap(input, n) && input[i].Output?
    ensures start <= input[i].from <= input[i].through <= start + |Received(input, n)|
    ensures Received(input, n)[input[i].from - start..input[i].through - start] == input[i].bytes
    decreases n
  {
    assert FlowsAt(input, start, i);
    if i < n - 1 {
      ReceivedInPlace(input, n - 1, start, i);
      var before, all, from, to := Received(input, n - 1), Received(input, n), input[i].from - start,
        input[i].through - start;
      assert all[from..to] == before[from..to];
    } else {
      SequenceCounts(input, i, start);
    }
  }

  lemma {:induction false} DroppedExactly(input: seq<ObservationFrame>, n: nat, drop: bool, first: nat)
    requires FirstOutput(input, first) && first < n <= |input|
    ensures Dropped(input, n, drop) == if drop then input[first].bytes else []
    decreases n
  {
    HasOutputExactly(input, n - 1);
    if first < n - 1 {
      DroppedExactly(input, n - 1, drop, first);
    }
  }

  /** What is drawn of it: every output at its place, counted from the end of the replay if the first output is one that
      is dropped; and nothing besides. */
  lemma DrawnInPlace(input: seq<ObservationFrame>, n: nat, start: nat, drop: bool, first: nat, i: nat)
    requires FirstOutput(input, first) && first <= i < n <= |input| && input[i].Output? && (drop ==> i > first)
    requires Flows(input, start) && NoGap(input, n)
    ensures var from, drawn := if drop then start + |input[first].bytes| else start, Drawn(input, n, drop);
            && from <= input[i].from <= input[i].through <= from + |drawn| == Through(input, n, start)
            && drawn[input[i].from - from..input[i].through - from] == input[i].bytes
  {
    DroppedExactly(input, n, drop, first);
    DrawnIsReceived(input, n, drop);
    SequenceCounts(input, n, start);
    ReceivedInPlace(input, n, start, i);
    assert FlowsAt(input, start, first) && FlowsAt(input, start, i);
    if drop {
      DroppedExactly(input, i, drop, first);
      DrawnIsReceived(input, i, drop);
      SequenceCounts(input, i, start);
      assert NoGap(input, i);
    }
  }
}
