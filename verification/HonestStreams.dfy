/** The reference terminal as the engine: along which streams it meets what the scanner assumes of one. */
module HonestStreams {
  import opened Wrappers
  import opened Bytes
  import opened Cells
  import opened Paint
  import opened Terminal
  import opened Emission
  import opened Mirror
  import opened Entries

  /** What a program writes: characters, control characters, and control sequences with any numbers and any end. */
  datatype Piece =
    | Character(c: scalar)
    | Control(b: byte)
    | Sequence(private: bool, ns: seq<nat>, final: byte)

  predicate WellFormed(piece: Piece) {
    match piece
    case Character(c) => Printable(c)
    case Control(b) => b < 0x20 && b != ESC
    case Sequence(_, ns, final) => ns != [] && IsFinal(final)
  }

  function Head(private: bool, ns: seq<nat>): seq<byte>
    requires ns != []
  {
    (if private then [ESC, 0x5b, 0x3f] else [ESC, 0x5b]) + Paint.Joined(ns)
  }

  function BytesOf(piece: Piece): (bytes: seq<byte>)
    requires WellFormed(piece)
    ensures bytes != []
  {
    match piece
    case Character(c) => Utf8(c)
    case Control(b) => [b]
    case Sequence(private, ns, final) => Head(private, ns) + [final]
  }

  predicate Names(modes: seq<nat>) {
    47 in modes || 1047 in modes || 1049 in modes
  }

  /** A sequence that sets the alternate screen does so within 32 bytes of numbers. */
  predicate Short(piece: Piece)
    requires WellFormed(piece)
  {
    piece.Sequence? && piece.private && piece.final == 0x68 && Names(piece.ns) ==> |Paint.Joined(piece.ns)| <= 32
  }

  predicate AllWell(pieces: seq<Piece>) {
    forall i | 0 <= i < |pieces| :: WellFormed(pieces[i])
  }

  function BytesOfAll(pieces: seq<Piece>): seq<byte>
    requires AllWell(pieces)
  {
    if pieces == [] then [] else BytesOfAll(pieces[..|pieces| - 1]) + BytesOf(pieces[|pieces| - 1])
  }

  // One piece

  predicate On(t: Term) {
    t.alt.Some?
  }

  /** Outside control sequences nothing opens or closes the alternate screen. */
  lemma TextKeepsScreen(t: Term, b: byte)
    requires Valid(t) && (t.parser == Ground || t.parser.Multibyte?) && b != ESC
    ensures On(Step(t, b)) == On(t) && (Step(t, b).parser == Ground || Step(t, b).parser.Multibyte?)
  {
  }

  lemma {:induction false} TextKeepsScreenOn(t: Term, bytes: seq<byte>)
    requires Valid(t) && (t.parser == Ground || t.parser.Multibyte?)
    requires forall i | 0 <= i < |bytes| :: bytes[i] != ESC
    ensures On(Feed(t, bytes)) == On(t)
    decreases |bytes|
  {
    if bytes != [] {
      TextKeepsScreen(t, bytes[0]);
      TextKeepsScreenOn(Step(t, bytes[0]), bytes[1..]);
    }
  }

  lemma {:induction false} ParametersKeepScreen(t: Term, bytes: seq<byte>)
    requires Valid(t) && t.parser.Control?
    requires forall i | 0 <= i < |bytes| :: bytes[i] == 0x3f || IsParameter(bytes[i])
    ensures On(Feed(t, bytes)) == On(t)
    decreases |bytes|
  {
    if bytes != [] {
      ParametersKeepScreen(Step(t, bytes[0]), bytes[1..]);
    }
  }

  /** Nor does the inside of one. */
  lemma HeadKeepsScreen(t: Term, bytes: seq<byte>)
    requires Valid(t) && t.parser == Ground
    requires |bytes| > 0 ==> bytes[0] == ESC
    requires |bytes| > 1 ==> bytes[1] == 0x5b
    requires forall i | 2 <= i < |bytes| :: bytes[i] == 0x3f || IsParameter(bytes[i])
    ensures On(Feed(t, bytes)) == On(t)
  {
    if |bytes| == 1 {
      FeedByte(t, ESC);
      assert bytes == [ESC];
    } else if |bytes| > 1 {
      var rest := bytes[2..];
      assert bytes == [ESC, 0x5b] + rest;
      FeedConcat(t, [ESC, 0x5b], rest);
      FeedIntroducer(t);
      ParametersKeepScreen(Feed(t, [ESC, 0x5b]), rest);
    }
  }

  lemma {:induction false} JoinedIsParameters(ns: seq<nat>)
    requires ns != []
    ensures forall b | b in Paint.Joined(ns) :: IsParameter(b)
    decreases |ns|
  {
    if |ns| > 1 {
      JoinedIsParameters(ns[..|ns| - 1]);
    }
  }

  lemma HeadOf(private: bool, ns: seq<nat>)
    requires ns != []
    ensures var head := Head(private, ns);
            && |head| > 2 && head[0] == ESC && head[1] == 0x5b
            && forall i | 2 <= i < |head| :: head[i] == 0x3f || IsParameter(head[i])
  {
    JoinedIsParameters(ns);
    var head, s := Head(private, ns), Paint.Joined(ns);
    var n := |head| - |s|;
    forall i | 2 <= i < |head| ensures head[i] == 0x3f || IsParameter(head[i]) {
      if i >= n {
        assert head[i] == s[i - n] && s[i - n] in s;
      }
    }
  }

  /** Before its last byte a piece leaves the screen as it was. */
  lemma InsidePiece(t: Term, piece: Piece, j: nat)
    requires Valid(t) && t.parser == Ground && WellFormed(piece) && j < |BytesOf(piece)|
    ensures On(Feed(t, BytesOf(piece)[..j])) == On(t)
  {
    var bytes := BytesOf(piece);
    match piece
    case Character(c) =>
      Utf8IsText(c);
      TextKeepsScreenOn(t, bytes[..j]);
    case Control(b) =>
      assert bytes[..j] == [];
    case Sequence(private, ns, final) =>
      HeadOf(private, ns);
      assert bytes[..j] == Head(private, ns)[..j];
      HeadKeepsScreen(t, bytes[..j]);
  }

  lemma Utf8IsText(c: scalar)
    requires Printable(c)
    ensures forall i | 0 <= i < |Utf8(c)| :: Utf8(c)[i] != ESC
  {
  }

  lemma FeedHead(t: Term, private: bool, ns: seq<nat>, final: byte)
    requires Valid(t) && t.parser == Ground && ns != [] && IsFinal(final)
    ensures Feed(t, Head(private, ns) + [final]) == Dispatch(t, private, ns, false, final)
  {
    if private {
      FeedConcat(t, Head(true, ns), [final]);
      FeedConcat(t, [ESC, 0x5b, 0x3f], Paint.Joined(ns));
      FeedPrivateIntroducer(t);
      FeedJoined(t.(parser := Opened(true)), true, ns);
      FeedFinal(t, true, ns, final);
    } else {
      FeedControl(t, ns, final);
    }
  }

  /** The start of a control sequence, as the terminal reads it. */
  function Opened(private: bool): Parser {
    Parser.Control(private, [0], false)
  }

  lemma {:induction false} ModesCloseOrNot(t: Term, modes: seq<nat>, on: bool)
    requires Valid(t)
    ensures On(PrivateModes(t, modes, on)) != On(t) ==> On(PrivateModes(t, modes, on)) == on
    ensures PrivateModes(t, modes, on).parser == t.parser
    decreases |modes|
  {
    if modes != [] {
      ModesCloseOrNot(PrivateMode(t, modes[0], on), modes[1..], on);
    }
  }

  lemma DispatchSwitches(t: Term, private: bool, ns: seq<nat>, final: byte)
    requires Valid(t) && t.parser == Ground && ns != []
    ensures var u := Dispatch(t, private, ns, false, final);
            && u.parser == Ground
            && (!On(t) && On(u) ==> private && final == 0x68 && Names(ns))
            && (On(t) && !On(u) ==> private && final == 0x6c)
  {
    ModesCloseOrNot(t, ns, true);
    ModesCloseOrNot(t, ns, false);
    ModesOpenExactly(t, ns);
  }

  /** A sequence opens the alternate screen only if it is a private one that sets 47, 1047 or 1049, and closes it only
      if it is a private one that resets. */
  lemma SequenceSwitches(t: Term, private: bool, ns: seq<nat>, final: byte)
    requires Valid(t) && t.parser == Ground && ns != [] && IsFinal(final)
    ensures var u := Feed(t, Head(private, ns) + [final]);
            && u.parser == Ground
            && (!On(t) && On(u) ==> private && final == 0x68 && Names(ns))
            && (On(t) && !On(u) ==> private && final == 0x6c)
  {
    FeedHead(t, private, ns, final);
    DispatchSwitches(t, private, ns, final);
  }

  /** After a piece the terminal reads on from scratch. */
  lemma PieceEnds(t: Term, piece: Piece)
    requires Valid(t) && t.parser == Ground && WellFormed(piece)
    ensures Feed(t, BytesOf(piece)).parser == Ground
    ensures !piece.Sequence? ==> On(Feed(t, BytesOf(piece))) == On(t)
  {
    match piece
    case Character(c) =>
      FeedUtf8(t, c);
    case Control(b) =>
      FeedByte(t, b);
    case Sequence(private, ns, final) =>
      SequenceSwitches(t, private, ns, final);
  }

  // Whole streams

  predicate TellsAt(view: View, t: Term, stream: seq<byte>, i: nat)
    requires Valid(t) && i <= |stream|
  {
    view(stream[..i]).altActive == On(Feed(t, stream[..i]))
  }

  /** `view` shows the alternate screen when the terminal does, after every part of the stream. */
  ghost predicate Tells(view: View, t: Term, stream: seq<byte>)
    requires Valid(t)
  {
    forall i {:trigger TellsAt(view, t, stream, i)} | 0 <= i <= |stream| :: TellsAt(view, t, stream, i)
  }

  lemma {:induction false} StreamEnds(t: Term, pieces: seq<Piece>)
    requires Valid(t) && t.parser == Ground && AllWell(pieces)
    ensures Feed(t, BytesOfAll(pieces)).parser == Ground
    decreases |pieces|
  {
    if pieces != [] {
      var init, last := pieces[..|pieces| - 1], pieces[|pieces| - 1];
      StreamEnds(t, init);
      FeedConcat(t, BytesOfAll(init), BytesOf(last));
      PieceEnds(Feed(t, BytesOfAll(init)), last);
    }
  }

  lemma StillHonest(view: View, before: seq<byte>, more: seq<byte>, i: nat)
    requires i < |before| && HonestByte(view, before, i)
    ensures HonestByte(view, before + more, i)
  {
    var all := before + more;
    assert all[..i] == before[..i] && all[..i + 1] == before[..i + 1] && all[i] == before[i];
    if SomeEntryEndsAt(before, i + 1) {
      var n: nat :| EntryEndsAt(before, i + 1, n);
      assert all[i + 1 - n..i + 1] == before[i + 1 - n..i + 1];
      assert EntryEndsAt(all, i + 1, n);
    }
  }

  /** Before byte `j` of the piece that follows `before`. */
  lemma ScreenBefore(view: View, t: Term, before: seq<byte>, bytes: seq<byte>, all: seq<byte>, j: nat, i: nat)
    requires Valid(t) && all == before + bytes && Tells(view, t, all) && j <= |bytes| && i == |before| + j
    ensures AltAt(view, all, i) == On(Feed(Feed(t, before), bytes[..j]))
  {
    assert TellsAt(view, t, all, i);
    assert all[..i] == before + bytes[..j];
    FeedConcat(t, before, bytes[..j]);
  }

  lemma ScreenInside(view: View, t: Term, before: seq<byte>, u: Term, piece: Piece, all: seq<byte>, j: nat, i: nat)
    requires Valid(t) && u == Feed(t, before) && u.parser == Ground && WellFormed(piece)
    requires all == before + BytesOf(piece) && Tells(view, t, all) && j < |BytesOf(piece)| && i == |before| + j
    ensures AltAt(view, all, i) == On(u)
  {
    ScreenBefore(view, t, before, BytesOf(piece), all, j, i);
    InsidePiece(u, piece, j);
  }

  lemma ScreenAfter(view: View, t: Term, before: seq<byte>, u: Term, bytes: seq<byte>, all: seq<byte>, i: nat)
    requires Valid(t) && u == Feed(t, before) && all == before + bytes && Tells(view, t, all) && i == |all|
    ensures AltAt(view, all, i) == On(Feed(u, bytes))
  {
    ScreenBefore(view, t, before, bytes, all, |bytes|, i);
    assert bytes[..|bytes|] == bytes;
  }

  /** Byte `j` of that piece. */
  lemma PieceIsHonest(view: View, t: Term, before: seq<byte>, u: Term, piece: Piece, all: seq<byte>, j: nat, i: nat)
    requires Valid(t) && u == Feed(t, before) && u.parser == Ground && WellFormed(piece) && Short(piece)
    requires all == before + BytesOf(piece) && Tells(view, t, all) && j < |BytesOf(piece)| && i == |before| + j
    ensures HonestByte(view, all, i)
  {
    ScreenInside(view, t, before, u, piece, all, j, i);
    if i + 1 < |all| {
      ScreenInside(view, t, before, u, piece, all, j + 1, i + 1);
      NoSwitchIsHonest(view, all, i);
    } else {
      ScreenAfter(view, t, before, u, BytesOf(piece), all, i + 1);
      LastByteIsHonest(view, u, before, piece, all, i);
    }
  }

  lemma NoSwitchIsHonest(view: View, all: seq<byte>, i: nat)
    requires i < |all| && AltAt(view, all, i) == AltAt(view, all, i + 1)
    ensures HonestByte(view, all, i)
  {
  }

  lemma LastByteIsHonest(view: View, u: Term, before: seq<byte>, piece: Piece, all: seq<byte>, i: nat)
    requires Valid(u) && u.parser == Ground && WellFormed(piece) && Short(piece)
    requires all == before + BytesOf(piece) && i == |all| - 1
    requires AltAt(view, all, i) == On(u) && AltAt(view, all, i + 1) == On(Feed(u, BytesOf(piece)))
    ensures HonestByte(view, all, i)
  {
    var bytes := BytesOf(piece);
    PieceEnds(u, piece);
    if piece.Sequence? {
      SequenceSwitches(u, piece.private, piece.ns, piece.final);
      if !On(u) && On(Feed(u, bytes)) {
        NumbersDecide(u, piece.ns, []);
        assert bytes + [] == bytes;
        assert all[i + 1 - |bytes|..i + 1] == bytes;
        assert EntryEndsAt(all, i + 1, |bytes|);
      }
    }
  }

  /** Of text, control characters and control sequences of any kind the terminal makes an honest engine, as long as no
      sequence that opens the alternate screen has more than 32 bytes of numbers. */
  lemma {:induction false} TerminalIsHonest(view: View, t: Term, pieces: seq<Piece>)
    requires Valid(t) && t.parser == Ground && t.alt == None && AllWell(pieces)
    requires forall i | 0 <= i < |pieces| :: Short(pieces[i])
    requires Tells(view, t, BytesOfAll(pieces))
    ensures HonestAlong(view, BytesOfAll(pieces))
    decreases |pieces|
  {
    var stream := BytesOfAll(pieces);
    assert TellsAt(view, t, stream, 0) && stream[..0] == [];
    if pieces != [] {
      var init, last := pieces[..|pieces| - 1], pieces[|pieces| - 1];
      var before := BytesOfAll(init);
      forall i | 0 <= i <= |before| ensures TellsAt(view, t, before, i) {
        assert TellsAt(view, t, stream, i) && before[..i] == stream[..i];
      }
      TerminalIsHonest(view, t, init);
      StreamEnds(t, init);
      forall i | 0 <= i < |stream| ensures HonestByte(view, stream, i) {
        if i < |before| {
          StillHonest(view, before, BytesOf(last), i);
        } else {
          PieceIsHonest(view, t, before, Feed(t, before), last, stream, i - |before|, i);
        }
      }
    }
  }

  /** And of a zero in front of 1049 it does not. */
  lemma ZeroInFrontIsDishonest(view: View, t: Term, stream: seq<byte>)
    requires Valid(t) && t.parser == Ground && t.alt == None
    requires stream == [ESC, 0x5b, 0x3f, 0x30, 0x31, 0x30, 0x34, 0x39, 0x68] && Tells(view, t, stream)
    ensures !HonestAlong(view, stream)
  {
    ZeroInFrontIsMissed(t);
    HeadKeepsScreen(t, stream[..8]);
    assert stream[..9] == stream;
    forall n: nat ensures !EntryEndsAt(stream, 9, n) {
      if 0 < n <= 9 && stream[9 - n] == ESC {
        assert n == 9 && stream[0..9] == stream;
      }
    }
    assert TellsAt(view, t, stream, 8) && TellsAt(view, t, stream, 9);
    assert !HonestByte(view, stream, 8);
  }
}
