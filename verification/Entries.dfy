/** The alternate-screen classifier from its bytes alone, and against what the same bytes do to the terminal. */
module Entries {
  import opened Wrappers
  import opened Bytes
  import opened Paint
  import opened Terminal
  import opened Emission
  import opened Mirror

  /** Fields with a `;` between them. */
  function Listed(fields: seq<seq<byte>>): seq<byte>
    requires fields != []
  {
    if |fields| == 1 then fields[0] else Listed(fields[..|fields| - 1]) + [0x3b] + fields[|fields| - 1]
  }

  predicate Numeric(field: seq<byte>) {
    forall b | b in field :: IsDigit(b)
  }

  predicate AllNumeric(fields: seq<seq<byte>>) {
    fields != [] && forall i | 0 <= i < |fields| :: Numeric(fields[i])
  }

  /** The private modes that open the alternate screen. */
  predicate OpensAlternate(mode: nat) {
    mode == 47 || mode == 1047 || mode == 1049
  }

  /** A field that is such a number as it is usually written: `47`, `1047` or `1049`. */
  predicate Plainly(field: seq<byte>) {
    field == [0x34, 0x37] || field == [0x31, 0x30, 0x34, 0x37] || field == [0x31, 0x30, 0x34, 0x39]
  }

  predicate SomePlainly(fields: seq<seq<byte>>) {
    exists i | 0 <= i < |fields| :: Plainly(fields[i])
  }

  // Fields

  lemma ListedNext(fields: seq<seq<byte>>, init: seq<seq<byte>>, last: seq<byte>)
    requires init != [] && fields == init + [last]
    ensures Listed(fields) == Listed(init) + ([0x3b] + last)
    ensures AllNumeric(fields) ==> AllNumeric(init) && Numeric(last)
  {
    assert fields[..|fields| - 1] == init && fields[|init|] == last;
    assert forall i | 0 <= i < |init| :: fields[i] == init[i];
    Assoc(Listed(init), [0x3b], last);
  }

  /** Digits lengthen the last field. */
  lemma {:induction false} DigitsLengthen(s: seq<byte>, digits: seq<byte>, before: seq<seq<byte>>, last: seq<byte>)
    requires Numeric(digits) && Fields(s) == before + [last]
    ensures Fields(s + digits) == before + [last + digits]
    decreases |digits|
  {
    if digits == [] {
      assert s + digits == s && last + digits == last;
    } else {
      var init, d := digits[..|digits| - 1], digits[|digits| - 1];
      assert d in digits;
      DigitsLengthen(s, init, before, last);
      var all := s + digits;
      assert all[..|all| - 1] == s + init;
      assert last + digits == last + init + [d];
      assert (before + [last + init])[..|before|] == before;
    }
  }

  /** Splitting takes apart what listing puts together. */
  lemma {:induction false} FieldsOfListed(fields: seq<seq<byte>>)
    requires AllNumeric(fields)
    ensures Fields(Listed(fields)) == fields
    decreases |fields|
  {
    var init, last := fields[..|fields| - 1], fields[|fields| - 1];
    assert fields == init + [last];
    if init == [] {
      DigitsLengthen([], last, [], []);
      assert [] + last == last && [] + [last] == fields;
    } else {
      ListedNext(fields, init, last);
      FieldsOfListed(init);
      var s := Listed(init) + [0x3b];
      assert s[..|s| - 1] == Listed(init);
      DigitsLengthen(s, last, init, []);
      Assoc(Listed(init), [0x3b], last);
      assert [] + last == last;
    }
  }

  lemma ListedLonger(before: seq<seq<byte>>, last: seq<byte>, b: byte)
    ensures Listed(before + [last + [b]]) == Listed(before + [last]) + [b]
  {
    if before == [] {
      assert before + [last + [b]] == [last + [b]] && before + [last] == [last];
    } else {
      ListedNext(before + [last + [b]], before, last + [b]);
      ListedNext(before + [last], before, last);
      assert [0x3b] + (last + [b]) == [0x3b] + last + [b];
      Assoc(Listed(before), [0x3b] + last, [b]);
    }
  }

  /** And listing puts together what splitting takes apart. */
  lemma {:induction false} ListedOfFields(s: seq<byte>)
    requires forall b | b in s :: IsParameter(b)
    ensures AllNumeric(Fields(s)) && Listed(Fields(s)) == s
    decreases |s|
  {
    if s != [] {
      var init, b := s[..|s| - 1], s[|s| - 1];
      assert s == init + [b] && b in s;
      ListedOfFields(init);
      var fields := Fields(init);
      if b == 0x3b {
        ListedNext(fields + [[]], fields, []);
        assert [0x3b] + [] == [0x3b as byte];
      } else {
        var before, last := fields[..|fields| - 1], fields[|fields| - 1];
        assert fields == before + [last];
        ListedLonger(before, last, b);
      }
    }
  }

  lemma {:induction false} ListedIsParameters(fields: seq<seq<byte>>)
    requires AllNumeric(fields)
    ensures forall b | b in Listed(fields) :: IsParameter(b)
    decreases |fields|
  {
    if |fields| > 1 {
      var init, last := fields[..|fields| - 1], fields[|fields| - 1];
      ListedNext(fields, init, last);
      ListedIsParameters(init);
    }
  }

  // The classifier, byte by byte

  /** `bytes[..n]` is an ESC and an entry: at most 32 bytes of numeric fields, one of them plainly a mode that
      opens the alternate screen. */
  ghost predicate IsEntry(bytes: seq<byte>, n: nat, fields: seq<seq<byte>>) {
    && AllNumeric(fields) && SomePlainly(fields) && |Listed(fields)| <= 32
    && n == |Listed(fields)| + 4 <= |bytes|
    && bytes[1..n] == [0x5b, 0x3f] + Listed(fields) + [0x68]
  }

  lemma {:induction false} DecideParameters(bytes: seq<byte>, end: nat, last: nat)
    requires 3 <= end <= last <= |bytes| && last - 3 <= 32
    requires forall i | end <= i < last :: IsParameter(bytes[i])
    ensures Decide(bytes, end) == Decide(bytes, last)
    decreases last - end
  {
    if end < last {
      DecideParameters(bytes, end + 1, last);
    }
  }

  lemma ClassifyFrom3(bytes: seq<byte>)
    requires |bytes| >= 3
    ensures Classify(bytes) == if bytes[1] == 0x5b && bytes[2] == 0x3f then Decide(bytes, 3) else No
  {
    assert Decide(bytes, 1) == if bytes[1] == 0x5b then Decide(bytes, 2) else No;
  }

  lemma ClassifyBefore3(bytes: seq<byte>)
    requires |bytes| < 3
    ensures Classify(bytes) == if |bytes| == 2 && bytes[1] != 0x5b then No else NeedMore
  {
    if |bytes| > 0 {
      assert Decide(bytes, 0) == Decide(bytes, 1);
      if |bytes| == 2 {
        assert Decide(bytes, 2) == NeedMore;
      }
    }
  }

  lemma DecideAtFinal(bytes: seq<byte>, fields: seq<seq<byte>>, at: nat)
    requires AllNumeric(fields) && 3 <= at < |bytes| && bytes[at] == 0x68 && bytes[3..at] == Listed(fields)
    ensures Decide(bytes, at) == if SomePlainly(fields) then Enter(at + 1) else No
  {
    FieldsOfListed(fields);
  }

  lemma {:induction false} TooManyParameters(bytes: seq<byte>, end: nat)
    requires 3 <= end <= 35 < |bytes| && forall i | end <= i < 36 :: IsParameter(bytes[i])
    ensures Decide(bytes, end) == No
    decreases 36 - end
  {
    if end < 35 {
      TooManyParameters(bytes, end + 1);
    }
  }

  /** Where any numeric fields are set: an entry of just that length if there are at most 32 bytes of them and one is
      plainly such a mode, and no entry otherwise. */
  lemma FieldsDecide(fields: seq<seq<byte>>, more: seq<byte>)
    requires AllNumeric(fields)
    ensures var bytes := [ESC, 0x5b, 0x3f] + Listed(fields) + [0x68];
            Classify(bytes + more) == if |Listed(fields)| <= 32 && SomePlainly(fields) then Enter(|bytes|) else No
  {
    var head, s := [ESC, 0x5b, 0x3f], Listed(fields);
    var all := head + s + [0x68] + more;
    var at := 3 + |s|;
    ListedIsParameters(fields);
    assert all[1] == 0x5b && all[2] == 0x3f && all[at] == 0x68 && all[3..at] == s;
    forall i | 3 <= i < at ensures IsParameter(all[i]) {
      assert all[i] == s[i - 3] && s[i - 3] in s;
    }
    ClassifyFrom3(all);
    if |s| <= 32 {
      DecideParameters(all, 3, at);
      DecideAtFinal(all, fields, at);
    } else {
      TooManyParameters(all, 3);
    }
  }

  /** An entry ends at its first byte that is no parameter. */
  lemma {:induction false} FinalOf(bytes: seq<byte>, end: nat) returns (at: nat)
    requires 3 <= end <= |bytes| && end <= 35 && Decide(bytes, end).Enter?
    requires forall i | 3 <= i < end :: IsParameter(bytes[i])
    ensures end <= at <= 35 && at < |bytes| && bytes[at] == 0x68 && Decide(bytes, end) == Enter(at + 1)
    ensures (forall i | 3 <= i < at :: IsParameter(bytes[i])) && NamesAlt(Fields(bytes[3..at]))
    decreases |bytes| - end
  {
    if IsParameter(bytes[end]) {
      at := FinalOf(bytes, end + 1);
    } else {
      at := end;
    }
  }

  lemma EntryHasForm(bytes: seq<byte>, n: nat)
    requires Classify(bytes) == Enter(n)
    ensures exists fields :: IsEntry(bytes, n, fields)
  {
    if |bytes| < 3 {
      ClassifyBefore3(bytes);
    }
    ClassifyFrom3(bytes);
    var at := FinalOf(bytes, 3);
    var s := bytes[3..at];
    ListedOfFields(s);
    assert n == at + 1;
    assert bytes[1..at + 1] == [bytes[1], bytes[2]] + s + [bytes[at]];
    assert IsEntry(bytes, n, Fields(s));
  }

  /** The bytes from an ESC on begin with an entry of `n` bytes exactly if they begin so. */
  lemma EnterExactly(bytes: seq<byte>, n: nat)
    requires |bytes| > 0 && bytes[0] == ESC
    ensures Classify(bytes) == Enter(n) <==> exists fields :: IsEntry(bytes, n, fields)
  {
    if Classify(bytes) == Enter(n) {
      EntryHasForm(bytes, n);
    }
    forall fields | IsEntry(bytes, n, fields) ensures Classify(bytes) == Enter(n) {
      assert bytes == [ESC] + bytes[1..n] + bytes[n..];
      assert [ESC] + ([0x5b, 0x3f] + Listed(fields) + [0x68]) == [ESC, 0x5b, 0x3f] + Listed(fields) + [0x68];
      FieldsDecide(fields, bytes[n..]);
    }
  }

  /** And they are undecided exactly while they can still become one: at most 35 of them, beginning as every entry
      does, with digits and separators after that. */
  lemma UndecidedExactly(bytes: seq<byte>)
    ensures Classify(bytes) == NeedMore <==>
            && |bytes| <= 35
            && (|bytes| > 1 ==> bytes[1] == 0x5b)
            && (|bytes| > 2 ==> bytes[2] == 0x3f)
            && forall i | 3 <= i < |bytes| :: IsDigit(bytes[i]) || bytes[i] == 0x3b
  {
    if |bytes| >= 3 {
      ClassifyFrom3(bytes);
      UndecidedFrom(bytes, 3);
    } else {
      ClassifyBefore3(bytes);
    }
  }

  lemma {:induction false} UndecidedFrom(bytes: seq<byte>, end: nat)
    requires 3 <= end <= |bytes| && end <= 35
    ensures Decide(bytes, end) == NeedMore <==> |bytes| <= 35 && forall i | end <= i < |bytes| :: IsParameter(bytes[i])
    decreases |bytes| - end
  {
    if end < |bytes| && IsParameter(bytes[end]) && end < 35 {
      UndecidedFrom(bytes, end + 1);
    }
  }

  // The terminal

  /** The numbers the terminal reads. */
  function Values(fields: seq<seq<byte>>): (values: seq<nat>)
    requires AllNumeric(fields)
    ensures |values| == |fields| && forall i | 0 <= i < |values| :: values[i] == Numeral(fields[i])
  {
    seq(|fields|, i requires 0 <= i < |fields| => Numeral(fields[i]))
  }

  lemma {:induction false} FeedField(t: Term, private: bool, params: seq<nat>, field: seq<byte>)
    requires Valid(t) && t.parser == Control(private, params + [0], false) && Numeric(field)
    ensures Feed(t, field) == t.(parser := Control(private, params + [Numeral(field)], false))
    decreases |field|
  {
    if field != [] {
      var init, d := field[..|field| - 1], field[|field| - 1];
      assert field == init + [d] && d in field;
      FeedField(t, private, params, init);
      FeedConcat(t, init, [d]);
      FeedDigit(t, private, params, Numeral(init), d);
    }
  }

  lemma FeedDigit(t: Term, private: bool, params: seq<nat>, n: nat, d: byte)
    requires Valid(t) && IsDigit(d)
    ensures Feed(t.(parser := Control(private, params + [n], false)), [d]) ==
            t.(parser := Control(private, params + [10 * n + (d as nat - 0x30)], false))
  {
    FeedByte(t.(parser := Control(private, params + [n], false)), d);
    assert (params + [n])[..|params|] == params;
  }

  lemma FeedNextField(t: Term, private: bool, params: seq<nat>, field: seq<byte>)
    requires Valid(t) && t.parser == Control(private, params, false) && Numeric(field)
    ensures Feed(t, [0x3b] + field) == t.(parser := Control(private, params + [Numeral(field)], false))
  {
    FeedConcat(t, [0x3b], field);
    FeedByte(t, 0x3b);
    FeedField(t.(parser := Control(private, params + [0], false)), private, params, field);
  }

  lemma {:induction false} FeedListed(t: Term, private: bool, fields: seq<seq<byte>>)
    requires Valid(t) && t.parser == Control(private, [0], false) && AllNumeric(fields)
    ensures Feed(t, Listed(fields)) == t.(parser := Control(private, Values(fields), false))
    decreases |fields|
  {
    var init, last := fields[..|fields| - 1], fields[|fields| - 1];
    assert fields == init + [last];
    if init == [] {
      assert [] + [0] == [0] && [] + [Numeral(last)] == Values(fields);
      FeedField(t, private, [], last);
    } else {
      ListedNext(fields, init, last);
      FeedListed(t, private, init);
      FeedConcat(t, Listed(init), [0x3b] + last);
      FeedNextField(t.(parser := Control(private, Values(init), false)), private, Values(init), last);
      assert Values(fields) == Values(init) + [Numeral(last)];
    }
  }

  lemma FeedPrivateList(t: Term, fields: seq<seq<byte>>, final: byte)
    requires Valid(t) && t.parser == Ground && AllNumeric(fields) && IsFinal(final)
    ensures Feed(t, [ESC, 0x5b, 0x3f] + Listed(fields) + [final]) == Dispatch(t, true, Values(fields), false, final)
  {
    var head: seq<byte> := [ESC, 0x5b, 0x3f];
    FeedConcat(t, head + Listed(fields), [final]);
    FeedConcat(t, head, Listed(fields));
    FeedPrivateIntroducer(t);
    FeedListed(t.(parser := Control(true, [0], false)), true, fields);
    FeedFinal(t, true, Values(fields), final);
  }

  lemma {:induction false} ModesOpenExactly(t: Term, modes: seq<nat>)
    requires Valid(t)
    ensures PrivateModes(t, modes, true).alt.Some? <==>
            t.alt.Some? || exists i | 0 <= i < |modes| :: OpensAlternate(modes[i])
    decreases |modes|
  {
    if modes != [] {
      ModesOpenExactly(PrivateMode(t, modes[0], true), modes[1..]);
      assert forall i | 0 <= i < |modes| - 1 :: modes[1..][i] == modes[i + 1];
      assert forall i | 0 < i < |modes| :: modes[i] == modes[1..][i - 1];
    }
  }

  /** Setting fields opens the terminal's alternate screen exactly if one has the value of such a mode. */
  lemma TerminalOpensExactly(t: Term, fields: seq<seq<byte>>)
    requires Valid(t) && t.parser == Ground && t.alt == None && AllNumeric(fields)
    ensures Feed(t, [ESC, 0x5b, 0x3f] + Listed(fields) + [0x68]).alt.Some? <==>
            exists i | 0 <= i < |fields| :: OpensAlternate(Numeral(fields[i]))
  {
    FeedPrivateList(t, fields, 0x68);
    ModesOpenExactly(t, Values(fields));
    assert forall i | 0 <= i < |fields| :: Values(fields)[i] == Numeral(fields[i]);
  }

  // One against the other

  lemma PlainlyWritten(field: seq<byte>)
    requires Numeric(field)
    ensures Plainly(field) <==> OpensAlternate(Numeral(field)) && field == Decimal(Numeral(field))
  {
    assert Decimal(47) == [0x34, 0x37];
    assert Decimal(1047) == [0x31, 0x30, 0x34, 0x37] && Decimal(1049) == [0x31, 0x30, 0x34, 0x39];
    NumeralOfDecimal(47);
    NumeralOfDecimal(1047);
    NumeralOfDecimal(1049);
  }

  /** A sequence that opens the terminal's alternate screen is missed by the scanner exactly if it holds more than 32
      bytes of numbers, or every number in it that opens the screen is written with zeros in front. */
  lemma EntryIsMissedExactly(t: Term, fields: seq<seq<byte>>, more: seq<byte>)
    requires Valid(t) && t.parser == Ground && t.alt == None && AllNumeric(fields)
    ensures var bytes := [ESC, 0x5b, 0x3f] + Listed(fields) + [0x68];
            Feed(t, bytes).alt.Some? && !Classify(bytes + more).Enter? <==>
            && (exists i | 0 <= i < |fields| :: OpensAlternate(Numeral(fields[i])))
            && (|Listed(fields)| > 32 ||
                forall i | 0 <= i < |fields| && OpensAlternate(Numeral(fields[i])) ::
                  fields[i] != Decimal(Numeral(fields[i])))
    ensures Classify([ESC, 0x5b, 0x3f] + Listed(fields) + [0x68] + more).Enter? ==>
            Feed(t, [ESC, 0x5b, 0x3f] + Listed(fields) + [0x68]).alt.Some?
  {
    TerminalOpensExactly(t, fields);
    FieldsDecide(fields, more);
    forall i | 0 <= i < |fields|
      ensures Plainly(fields[i]) <==> OpensAlternate(Numeral(fields[i])) && fields[i] == Decimal(Numeral(fields[i])) {
      PlainlyWritten(fields[i]);
    }
  }

  lemma {:induction false} JoinedIsListed(ns: seq<nat>, fields: seq<seq<byte>>)
    requires ns != [] && |fields| == |ns| && forall i | 0 <= i < |ns| :: fields[i] == Decimal(ns[i])
    ensures AllNumeric(fields) && Paint.Joined(ns) == Listed(fields)
    decreases |ns|
  {
    if |ns| > 1 {
      JoinedIsListed(ns[..|ns| - 1], fields[..|fields| - 1]);
    }
  }

  lemma PlainNumber(n: nat)
    ensures Numeral(Decimal(n)) == n && (Plainly(Decimal(n)) <==> OpensAlternate(n))
  {
    NumeralOfDecimal(n);
    PlainlyWritten(Decimal(n));
  }

  lemma SomeNumber(ns: seq<nat>, fields: seq<seq<byte>>)
    requires |fields| == |ns| && forall i | 0 <= i < |ns| :: fields[i] == Decimal(ns[i])
    ensures SomePlainly(fields) <==> 47 in ns || 1047 in ns || 1049 in ns
  {
    forall i | 0 <= i < |ns| ensures Plainly(fields[i]) <==> OpensAlternate(ns[i]) {
      PlainNumber(ns[i]);
    }
    if n :| n in ns && OpensAlternate(n) {
      var i :| 0 <= i < |ns| && ns[i] == n;
      assert Plainly(fields[i]);
    }
  }

  lemma SomeValue(ns: seq<nat>, fields: seq<seq<byte>>)
    requires |fields| == |ns| && AllNumeric(fields) && forall i | 0 <= i < |ns| :: fields[i] == Decimal(ns[i])
    ensures (exists i | 0 <= i < |fields| :: OpensAlternate(Numeral(fields[i]))) <==> SomePlainly(fields)
  {
    forall i | 0 <= i < |ns| ensures Plainly(fields[i]) <==> OpensAlternate(Numeral(fields[i])) {
      PlainNumber(ns[i]);
    }
  }

  /** Numbers as they are usually written: the terminal opens the alternate screen exactly if 47, 1047 or 1049 is among
      them, and that is an entry for the scanner, of just these bytes, exactly if the numbers take at most 32 bytes. */
  lemma NumbersDecide(t: Term, ns: seq<nat>, more: seq<byte>)
    requires Valid(t) && t.parser == Ground && t.alt == None && ns != []
    ensures var bytes, named := [ESC, 0x5b, 0x3f] + Paint.Joined(ns) + [0x68], 47 in ns || 1047 in ns || 1049 in ns;
            && (Feed(t, bytes).alt.Some? <==> named)
            && Classify(bytes + more) == if named && |Paint.Joined(ns)| <= 32 then Enter(|Paint.Joined(ns)| + 4) else No
  {
    var fields := seq(|ns|, i requires 0 <= i < |ns| => Decimal(ns[i]));
    JoinedIsListed(ns, fields);
    SomeNumber(ns, fields);
    SomeValue(ns, fields);
    TerminalOpensExactly(t, fields);
    FieldsDecide(fields, more);
  }

  /** For one: 1049 with a zero in front opens the alternate screen unseen. */
  lemma ZeroInFrontIsMissed(t: Term)
    requires Valid(t) && t.parser == Ground && t.alt == None
    ensures var bytes := [ESC, 0x5b, 0x3f, 0x30, 0x31, 0x30, 0x34, 0x39, 0x68];
            Feed(t, bytes).alt.Some? && Classify(bytes) == No
  {
    var field: seq<byte> := [0x30, 0x31, 0x30, 0x34, 0x39];
    assert [ESC, 0x5b, 0x3f] + Listed([field]) + [0x68] == [ESC, 0x5b, 0x3f, 0x30, 0x31, 0x30, 0x34, 0x39, 0x68];
    assert field[..4] == [0x30, 0x31, 0x30, 0x34] && field[..4][..3] == [0x30, 0x31, 0x30];
    assert Numeral([0x30, 0x31, 0x30]) == 10 by {
      assert [0x30 as byte, 0x31, 0x30][..2] == [0x30, 0x31] && [0x30 as byte, 0x31][..1] == [0x30];
    }
    assert Numeral([field][0]) == 1049;
    TerminalOpensExactly(t, [field]);
    FieldsDecide([field], []);
    assert [ESC, 0x5b, 0x3f] + Listed([field]) + [0x68] + [] == [ESC, 0x5b, 0x3f] + Listed([field]) + [0x68];
  }
}
