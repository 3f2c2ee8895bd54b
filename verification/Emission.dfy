/** What each byte sequence the printer emits does to the reference terminal. */
module Emission {
  import opened Wrappers
  import opened Bytes
  import opened Cells
  import opened Paint
  import opened Terminal

  lemma FeedByte(t: Term, b: byte)
    requires Valid(t)
    ensures Feed(t, [b]) == Step(t, b)
  {
    assert [b][1..] == [];
    assert Feed(Step(t, b), []) == Step(t, b);
  }

  /** A numeral fills in the last, still empty, parameter. */
  lemma {:induction false} FeedDecimal(t: Term, private: bool, params: seq<nat>, n: nat)
    requires Valid(t) && t.parser == Control(private, params + [0], false)
    ensures Feed(t, Decimal(n)) == t.(parser := Control(private, params + [n], false))
    decreases n
  {
    if n < 10 {
      FeedByte(t, (0x30 + n) as byte);
      assert (params + [0])[..|params|] == params;
    } else {
      FeedDecimal(t, private, params, n / 10);
      var t1 := Feed(t, Decimal(n / 10));
      FeedConcat(t, Decimal(n / 10), [(0x30 + n % 10) as byte]);
      FeedByte(t1, (0x30 + n % 10) as byte);
      assert (params + [n / 10])[..|params|] == params;
    }
  }

  /** A separator opens the next parameter and a numeral fills it. */
  lemma FeedNext(t: Term, private: bool, params: seq<nat>, n: nat)
    requires Valid(t) && t.parser == Control(private, params, false)
    ensures Feed(t, [0x3b] + Decimal(n)) == t.(parser := Control(private, params + [n], false))
  {
    FeedConcat(t, [0x3b], Decimal(n));
    FeedByte(t, 0x3b);
    FeedDecimal(t.(parser := Control(private, params + [0], false)), private, params, n);
  }

  lemma {:induction false} FeedJoined(t: Term, private: bool, ns: seq<nat>)
    requires Valid(t) && t.parser == Control(private, [0], false) && |ns| > 0
    ensures Feed(t, Joined(ns)) == t.(parser := Control(private, ns, false))
    decreases |ns|
  {
    var last := |ns| - 1;
    if last == 0 {
      assert [] + [0] == [0] && [] + [ns[0]] == ns;
      FeedDecimal(t, private, [], ns[0]);
    } else {
      var init, n := ns[..last], ns[last];
      FeedJoined(t, private, init);
      FeedOneMoreParameter(t, private, Joined(init), init, n);
      JoinedNext(ns, init, n);
    }
  }

  lemma JoinedNext(ns: seq<nat>, init: seq<nat>, n: nat)
    requires |init| > 0 && ns == init + [n]
    ensures Joined(ns) == Joined(init) + ([0x3b] + Decimal(n))
  {
    assert ns[..|ns| - 1] == init;
    Assoc(Joined(init), [0x3b], Decimal(n));
  }

  lemma FeedOneMoreParameter(t: Term, private: bool, head: seq<byte>, init: seq<nat>, n: nat)
    requires Valid(t) && |init| > 0 && Feed(t, head) == t.(parser := Control(private, init, false))
    ensures Feed(t, head + ([0x3b] + Decimal(n))) == t.(parser := Control(private, init + [n], false))
  {
    FeedConcat(t, head, [0x3b] + Decimal(n));
    FeedNext(t.(parser := Control(private, init, false)), private, init, n);
  }

  lemma FeedIntroducer(t: Term)
    requires Valid(t) && t.parser == Ground
    ensures Feed(t, [ESC, 0x5b]) == t.(parser := Control(false, [0], false))
  {
    assert [ESC, 0x5b] == [ESC] + [0x5b];
    FeedConcat(t, [ESC], [0x5b]);
    FeedByte(t, ESC);
    FeedByte(Step(t, ESC), 0x5b);
  }

  predicate IsFinal(b: byte) {
    0x40 <= b < 0x7f
  }

  lemma FeedPrivateIntroducer(t: Term)
    requires Valid(t) && t.parser == Ground
    ensures Feed(t, [ESC, 0x5b, 0x3f]) == t.(parser := Control(true, [0], false))
  {
    assert [ESC, 0x5b, 0x3f] == [ESC, 0x5b] + [0x3f];
    FeedConcat(t, [ESC, 0x5b], [0x3f]);
    FeedIntroducer(t);
    FeedByte(t.(parser := Control(false, [0], false)), 0x3f);
  }

  lemma FeedFinal(t: Term, private: bool, params: seq<nat>, final: byte)
    requires Valid(t) && t.parser == Ground && |params| > 0 && IsFinal(final)
    ensures Feed(t.(parser := Control(private, params, false)), [final]) == Dispatch(t, private, params, false, final)
  {
    var t1 := t.(parser := Control(private, params, false));
    FeedByte(t1, final);
    assert t1.(parser := Ground) == t;
  }

  lemma FeedControl(t: Term, ns: seq<nat>, final: byte)
    requires Valid(t) && t.parser == Ground && |ns| > 0 && IsFinal(final)
    ensures Feed(t, [ESC, 0x5b] + Joined(ns) + [final]) == Dispatch(t, false, ns, false, final)
  {
    FeedConcat(t, [ESC, 0x5b] + Joined(ns), [final]);
    FeedConcat(t, [ESC, 0x5b], Joined(ns));
    FeedIntroducer(t);
    FeedJoined(t.(parser := Control(false, [0], false)), false, ns);
    FeedFinal(t, false, ns, final);
  }

  lemma FeedPrivate(t: Term, mode: nat, final: byte)
    requires Valid(t) && t.parser == Ground && IsFinal(final)
    ensures Feed(t, [ESC, 0x5b, 0x3f] + Joined([mode]) + [final]) == Dispatch(t, true, [mode], false, final)
  {
    var head: seq<byte> := [ESC, 0x5b, 0x3f];
    FeedConcat(t, head + Joined([mode]), [final]);
    FeedConcat(t, head, Joined([mode]));
    FeedPrivateIntroducer(t);
    FeedJoined(t.(parser := Control(true, [0], false)), true, [mode]);
    FeedFinal(t, true, [mode], final);
  }

  lemma SwitchMode(t: Term, mode: nat, on: bool)
    requires Valid(t)
    ensures PrivateModes(t, [mode], on) == PrivateMode(t, mode, on)
  {
    assert [mode][1..] == [];
    assert PrivateModes(PrivateMode(t, mode, on), [], on) == PrivateMode(t, mode, on);
  }

  lemma FeedDecSet(t: Term, mode: nat)
    requires Valid(t) && t.parser == Ground
    ensures Feed(t, DecSet(mode)) == PrivateMode(t, mode, true)
  {
    FeedPrivate(t, mode, 0x68);
    SwitchMode(t, mode, true);
  }

  lemma FeedDecReset(t: Term, mode: nat)
    requires Valid(t) && t.parser == Ground
    ensures Feed(t, DecReset(mode)) == PrivateMode(t, mode, false)
  {
    FeedPrivate(t, mode, 0x6c);
    SwitchMode(t, mode, false);
  }

  lemma FeedEnterAlt(t: Term)
    requires Valid(t) && t.parser == Ground
    ensures Feed(t, ENTER_ALT) == SwitchScreen(t, true)
  {
    assert Joined([1049]) == Decimal(1049);
    assert ENTER_ALT == DecSet(1049);
    FeedDecSet(t, 1049);
  }

  lemma FeedLeaveAlt(t: Term)
    requires Valid(t) && t.parser == Ground
    ensures Feed(t, LEAVE_ALT) == SwitchScreen(t, false)
  {
    assert Joined([1049]) == Decimal(1049);
    assert LEAVE_ALT == DecReset(1049);
    FeedDecReset(t, 1049);
  }

  function Moved(t: Term, at: Position): (r: Term)
    requires Valid(t)
    ensures Valid(r)
  {
    WithActive(t, Active(t).(row := Min(at.row, t.rows - 1), col := Min(at.col, t.cols - 1), pending := false))
  }

  lemma FeedCup(t: Term, at: Position)
    requires Valid(t) && t.parser == Ground
    ensures Feed(t, Cup(at)) == Moved(t, at)
  {
    var params := [at.row + 1, at.col + 1];
    FeedControl(t, params, 0x48);
    AddressAt(t, params, at);
  }

  lemma AddressAt(t: Term, params: seq<nat>, at: Position)
    requires Valid(t) && |params| == 2 && params[0] == at.row + 1 && params[1] == at.col + 1
    ensures Dispatch(t, false, params, false, 0x48) == Moved(t, at)
  {
  }

  lemma FeedReset(t: Term)
    requires Valid(t) && t.parser == Ground
    ensures Feed(t, RESET) == t.(pen := PLAIN)
  {
    assert Joined([0]) == [0x30];
    assert RESET == [ESC, 0x5b] + Joined([0]) + [0x6d];
    FeedControl(t, [0], 0x6d);
    assert [0 as nat][1..] == [];
    assert ApplySgr(t.pen, [0]) == PLAIN;
  }

  lemma FeedEraseAll(t: Term)
    requires Valid(t) && t.parser == Ground
    ensures Feed(t, ERASE_ALL) == WithActive(t, EraseDisplay(Active(t), t.cols, t.rows))
  {
    assert Joined([2]) == [0x32];
    assert ERASE_ALL == [ESC, 0x5b] + Joined([2]) + [0x4a];
    FeedControl(t, [2], 0x4a);
  }

  lemma FeedHome(t: Term)
    requires Valid(t) && t.parser == Ground
    ensures Feed(t, HOME) == WithActive(t, Active(t).(row := 0, col := 0, pending := false))
  {
    assert HOME == [ESC, 0x5b] + [0x48];
    FeedConcat(t, [ESC, 0x5b], [0x48]);
    FeedIntroducer(t);
    var t1 := t.(parser := Control(false, [0], false));
    FeedByte(t1, 0x48);
    assert t1.(parser := Ground) == t;
  }

  function Returned(t: Term): (r: Term)
    requires Valid(t)
    ensures Valid(r)
  {
    NewLine(WithActive(t, Active(t).(col := 0, pending := false)))
  }

  lemma FeedCrlf(t: Term)
    requires Valid(t) && t.parser == Ground
    ensures Feed(t, CRLF) == Returned(t)
  {
    assert CRLF == [0x0d] + [0x0a];
    FeedConcat(t, [0x0d], [0x0a]);
    FeedByte(t, 0x0d);
    FeedByte(Step(t, 0x0d), 0x0a);
  }

  lemma FeedResetCrlf(t: Term)
    requires Valid(t) && t.parser == Ground
    ensures Feed(t, RESET + CRLF) == Returned(t.(pen := PLAIN))
  {
    FeedConcat(t, RESET, CRLF);
    FeedReset(t);
    FeedCrlf(t.(pen := PLAIN));
  }

  // Characters

  predicate Printable(c: scalar) {
    c >= 0x20 && c != 0x7f
  }

  /** The lead byte of a multibyte scalar, and how many bytes follow. */
  function LeadByte(need: nat, n: nat): byte
    requires (need == 1 && 0x80 <= n < 0x800) || (need == 2 && 0x800 <= n < 0x10000) ||
             (need == 3 && 0x10000 <= n < 0x110000)
  {
    if need == 1 then (0xc0 + n / 0x40) as byte
    else if need == 2 then (0xe0 + n / 0x1000) as byte
    else (0xf0 + n / 0x40000) as byte
  }

  lemma Utf8Splits(c: scalar, need: nat, n: nat)
    requires n == c as nat && n >= 0x80 && need == if n < 0x800 then 1 else if n < 0x10000 then 2 else 3
    ensures Utf8(c) == [LeadByte(need, n)] + Trailing(need, n)
  {
  }

  lemma AsciiPrints(t: Term, b: byte, n: nat)
    requires Valid(t) && t.parser == Ground && 0x20 <= b < 0x7f && n == b as nat
    ensures Step(t, b) == Print(t, n)
  {
  }

  lemma FeedAscii(t: Term, b: byte, n: nat)
    requires Valid(t) && t.parser == Ground && 0x20 <= b < 0x7f && n == b as nat
    ensures Feed(t, [b]) == Print(t, n)
  {
    FeedByte(t, b);
    AsciiPrints(t, b, n);
  }

  lemma FeedWide(t: Term, need: nat, n: nat, bytes: seq<byte>)
    requires Valid(t) && t.parser == Ground
    requires (need == 1 && 0x80 <= n < 0x800) || (need == 2 && 0x800 <= n < 0x10000) ||
             (need == 3 && 0x10000 <= n < 0x110000)
    requires bytes == [LeadByte(need, n)] + Trailing(need, n)
    ensures Feed(t, bytes) == Print(t, n)
  {
    var high := if need == 1 then n / 0x40 else if need == 2 then n / 0x1000 else n / 0x40000;
    FeedMultibyte(t, LeadByte(need, n), high, need, n);
  }

  lemma FeedUtf8(t: Term, c: scalar)
    requires Valid(t) && t.parser == Ground && Printable(c)
    ensures Feed(t, Utf8(c)) == Print(t, c as nat)
  {
    var n, bytes := c as nat, Utf8(c);
    if n < 0x80 {
      var b := n as byte;
      assert bytes == [b];
      FeedAscii(t, b, n);
    } else {
      var need := if n < 0x800 then 1 else if n < 0x10000 then 2 else 3;
      Utf8Splits(c, need, n);
      FeedWide(t, need, n, bytes);
    }
  }

  /** The trailing `need` bytes of `n`, six bits each. */
  function Trailing(need: nat, n: nat): seq<byte> {
    if need == 0 then []
    else if need == 1 then [Continuation(n)]
    else if need == 2 then [Continuation(n / 0x40), Continuation(n)]
    else [Continuation(n / 0x1000), Continuation(n / 0x40), Continuation(n)]
  }

  lemma FeedMultibyte(t: Term, lead: byte, high: nat, need: nat, n: nat)
    requires Valid(t) && t.parser == Ground && 1 <= need <= 3 && lead >= 0xc0
    requires Step(t, lead) == t.(parser := Multibyte(need, high))
    requires high == if need == 1 then n / 0x40 else if need == 2 then n / 0x1000 else n / 0x40000
    ensures Feed(t, [lead] + Trailing(need, n)) == Print(t, n)
  {
    FeedConcat(t, [lead], Trailing(need, n));
    FeedByte(t, lead);
    FeedTrailing(t, need, high, n);
  }

  lemma SixBits(n: nat)
    ensures n / 0x40 / 0x40 == n / 0x1000 && n / 0x1000 / 0x40 == n / 0x40000
  {
  }

  lemma FeedContinuation(t: Term, need: nat, high: nat, next: nat)
    requires Valid(t) && t.parser == Ground && need > 1 && next / 0x40 == high
    ensures Feed(t.(parser := Multibyte(need, high)), [Continuation(next)]) == t.(parser := Multibyte(need - 1, next))
  {
    FeedByte(t.(parser := Multibyte(need, high)), Continuation(next));
  }

  lemma FeedTrailing(t: Term, need: nat, high: nat, n: nat)
    requires Valid(t) && t.parser == Ground && 1 <= need <= 3
    requires high == if need == 1 then n / 0x40 else if need == 2 then n / 0x1000 else n / 0x40000
    ensures Feed(t.(parser := Multibyte(need, high)), Trailing(need, n)) == Print(t, n)
    decreases need
  {
    var t1 := t.(parser := Multibyte(need, high));
    if need == 1 {
      FeedByte(t1, Continuation(n));
      assert t1.(parser := Ground) == t;
    } else {
      var next, rest := if need == 2 then n / 0x40 else n / 0x1000, Trailing(need - 1, n);
      assert Trailing(need, n) == [Continuation(next)] + rest;
      SixBits(n);
      FeedOneOfTrailing(t, need, high, next, rest);
      FeedTrailing(t, need - 1, next, n);
    }
  }

  lemma FeedOneOfTrailing(t: Term, need: nat, high: nat, next: nat, rest: seq<byte>)
    requires Valid(t) && t.parser == Ground && need > 1 && next / 0x40 == high
    ensures Feed(t.(parser := Multibyte(need, high)), [Continuation(next)] + rest) ==
            Feed(t.(parser := Multibyte(need - 1, next)), rest)
  {
    FeedConcat(t.(parser := Multibyte(need, high)), [Continuation(next)], rest);
    FeedContinuation(t, need, high, next);
  }

  function PrintAll(t: Term, text: seq<scalar>): (r: Term)
    requires Valid(t)
    ensures Valid(r)
    decreases |text|
  {
    if text == [] then t else PrintAll(Print(t, text[0] as nat), text[1..])
  }

  lemma {:induction false} FeedText(t: Term, text: seq<scalar>)
    requires Valid(t) && t.parser == Ground
    requires forall c | c in text :: Printable(c)
    ensures Feed(t, Utf8All(text)) == PrintAll(t, text)
    decreases |text|
  {
    if text != [] {
      FeedConcat(t, Utf8(text[0]), Utf8All(text[1..]));
      FeedUtf8(t, text[0]);
      FeedText(Print(t, text[0] as nat), text[1..]);
    }
  }

  // Renditions

  /** A colour as the terminal restores it: a named colour past the bright eight has no code. */
  function Restored(color: Color): Color {
    if color.Named? && color.index >= 16 then Default else color
  }

  function StyleOf(cell: Cell): Style {
    Style(Restored(cell.fg), Restored(cell.bg), cell.bold, cell.dim, cell.italic, cell.underline,
          cell.inverse, cell.hidden, cell.strikeout)
  }

  lemma SgrCode(pen: Style, code: nat, rest: seq<nat>)
    requires code != 38 && code != 48
    ensures ApplySgr(pen, [code] + rest) == ApplySgr(Sgr1(pen, code), rest)
  {
    assert ([code] + rest)[1..] == rest;
  }

  lemma SgrFlag(pen: Style, on: bool, code: nat, rest: seq<nat>)
    requires code != 38 && code != 48
    ensures ApplySgr(pen, Flag(on, code) + rest) == ApplySgr(if on then Sgr1(pen, code) else pen, rest)
  {
    if on {
      SgrCode(pen, code, rest);
    } else {
      assert Flag(on, code) + rest == rest;
    }
  }

  lemma SgrColor(pen: Style, color: Color, background: bool, rest: seq<nat>)
    requires (if background then pen.bg else pen.fg) == Default
    ensures ApplySgr(pen, ColorCode(color, background) + rest) ==
            ApplySgr(WithColor(pen, background, Restored(color)), rest)
  {
    var codes := ColorCode(color, background);
    match color
    case Default => assert codes + rest == rest;
    case Named(index) =>
      if index < 16 { SgrCode(pen, codes[0], rest); } else { assert codes + rest == rest; }
    case Indexed(slot) => assert (codes + rest)[3..] == rest;
    case Rgb(r, g, b) => assert (codes + rest)[5..] == rest;
  }

  lemma SgrLateFlags(pen: Style, cell: Cell, rest: seq<nat>)
    requires !pen.inverse && !pen.hidden && !pen.strikeout
    ensures ApplySgr(pen, Flag(cell.inverse, 7) + (Flag(cell.hidden, 8) + Flag(cell.strikeout, 9)) + rest)
         == ApplySgr(pen.(inverse := cell.inverse, hidden := cell.hidden, strikeout := cell.strikeout), rest)
  {
    var late := Flag(cell.hidden, 8) + Flag(cell.strikeout, 9);
    Assoc(Flag(cell.inverse, 7), late, rest);
    SgrFlag(pen, cell.inverse, 7, late + rest);
    var p := pen.(inverse := cell.inverse);
    Assoc(Flag(cell.hidden, 8), Flag(cell.strikeout, 9), rest);
    SgrFlag(p, cell.hidden, 8, Flag(cell.strikeout, 9) + rest);
    SgrFlag(p.(hidden := cell.hidden), cell.strikeout, 9, rest);
  }

  lemma SgrMiddleFlags(pen: Style, cell: Cell, rest: seq<nat>)
    requires !pen.italic && !pen.underline
    ensures ApplySgr(pen, Flag(cell.italic, 3) + (Flag(cell.underline, 4) + rest))
         == ApplySgr(pen.(italic := cell.italic, underline := cell.underline), rest)
  {
    SgrFlag(pen, cell.italic, 3, Flag(cell.underline, 4) + rest);
    SgrFlag(pen.(italic := cell.italic), cell.underline, 4, rest);
  }

  lemma SgrEarlyFlags(pen: Style, cell: Cell, rest: seq<nat>)
    requires !pen.bold && !pen.dim
    ensures ApplySgr(pen, Flag(cell.bold, 1) + (Flag(cell.dim, 2) + rest))
         == ApplySgr(pen.(bold := cell.bold, dim := cell.dim), rest)
  {
    SgrFlag(pen, cell.bold, 1, Flag(cell.dim, 2) + rest);
    SgrFlag(pen.(bold := cell.bold), cell.dim, 2, rest);
  }

  lemma AttributesSplit(cell: Cell, rest: seq<nat>)
    ensures Attributes(cell) + rest
         == Flag(cell.bold, 1) + (Flag(cell.dim, 2) + (Flag(cell.italic, 3) + (Flag(cell.underline, 4)
            + (Flag(cell.inverse, 7) + (Flag(cell.hidden, 8) + Flag(cell.strikeout, 9)) + rest))))
  {
    var late := Flag(cell.inverse, 7) + (Flag(cell.hidden, 8) + Flag(cell.strikeout, 9));
    var c4 := Flag(cell.underline, 4) + late;
    var c3 := Flag(cell.italic, 3) + c4;
    var c2 := Flag(cell.dim, 2) + c3;
    Assoc(Flag(cell.bold, 1), c2, rest);
    Assoc(Flag(cell.dim, 2), c3, rest);
    Assoc(Flag(cell.italic, 3), c4, rest);
    Assoc(Flag(cell.underline, 4), late, rest);
  }

  lemma SgrAttributes(cell: Cell, rest: seq<nat>)
    ensures ApplySgr(PLAIN, Attributes(cell) + rest)
         == ApplySgr(StyleOf(cell).(fg := Default, bg := Default), rest)
  {
    AttributesSplit(cell, rest);
    var late := Flag(cell.inverse, 7) + (Flag(cell.hidden, 8) + Flag(cell.strikeout, 9)) + rest;
    var p1 := PLAIN.(bold := cell.bold, dim := cell.dim);
    SgrEarlyFlags(PLAIN, cell, Flag(cell.italic, 3) + (Flag(cell.underline, 4) + late));
    SgrMiddleFlags(p1, cell, late);
    SgrLateFlags(p1.(italic := cell.italic, underline := cell.underline), cell, rest);
  }

  /** Whatever the pen was, the emitted parameters leave it at the cell's style. */
  lemma SgrRestoresStyle(pen: Style, cell: Cell)
    ensures var v := SgrOf(cell);
            ApplySgr(pen, [0] + (v.attributes + (v.foreground + v.background))) == StyleOf(cell)
  {
    var v := SgrOf(cell);
    SgrCode(pen, 0, v.attributes + (v.foreground + v.background));
    SgrAttributes(cell, v.foreground + v.background);
    var p := StyleOf(cell).(fg := Default, bg := Default);
    SgrColor(p, cell.fg, false, v.background);
    assert v.background == v.background + [];
    SgrColor(p.(fg := Restored(cell.fg)), cell.bg, true, []);
  }

  lemma FeedSgr(t: Term, cell: Cell)
    requires Valid(t) && t.parser == Ground
    ensures Feed(t, EmitSgr(SgrOf(cell))) == t.(pen := StyleOf(cell))
  {
    var v := SgrOf(cell);
    FeedControl(t, [0] + (v.attributes + (v.foreground + v.background)), 0x6d);
    SgrRestoresStyle(t.pen, cell);
  }

  /** Equal parameter groups mean equal renditions, so skipping a repeated one loses nothing. */
  lemma EqualSgrEqualStyle(a: Cell, b: Cell)
    requires SgrOf(a) == SgrOf(b)
    ensures StyleOf(a) == StyleOf(b)
  {
    SgrRestoresStyle(PLAIN, a);
    SgrRestoresStyle(PLAIN, b);
  }

  // Modes and cursor style

  lemma PrivateNumbers(mode: Mode)
    requires mode != AppKeypad && mode != Insert
    ensures PrivateModeOf(ModeNumber(mode)) == Some(mode)
    ensures ModeNumber(mode) != 47 && ModeNumber(mode) != 1047 && ModeNumber(mode) != 1049
  {
  }

  lemma FeedKeypad(t: Term)
    requires Valid(t) && t.parser == Ground
    ensures Feed(t, KEYPAD_APPLICATION) == t.(modes := SetMode(t.modes, AppKeypad, true))
  {
    assert KEYPAD_APPLICATION == [ESC] + [0x3d];
    FeedConcat(t, [ESC], [0x3d]);
    FeedByte(t, ESC);
    FeedByte(Step(t, ESC), 0x3d);
  }

  lemma FeedInsert(t: Term)
    requires Valid(t) && t.parser == Ground
    ensures Feed(t, INSERT_SET) == t.(modes := SetMode(t.modes, Insert, true))
  {
    assert Joined([4]) == [0x34];
    assert INSERT_SET == [ESC, 0x5b] + Joined([4]) + [0x68];
    FeedControl(t, [4], 0x68);
  }

  lemma FeedPrivateSwitch(t: Term, mode: Mode, bytes: seq<byte>)
    requires Valid(t) && t.parser == Ground && mode != AppKeypad && mode != Insert
    requires bytes == if StartsOn(mode) then DecReset(ModeNumber(mode)) else DecSet(ModeNumber(mode))
    ensures Feed(t, bytes) == t.(modes := SetMode(t.modes, mode, !StartsOn(mode)))
  {
    PrivateNumbers(mode);
    if StartsOn(mode) { FeedDecReset(t, ModeNumber(mode)); } else { FeedDecSet(t, ModeNumber(mode)); }
  }

  /** Each switch moves exactly its own mode. */
  lemma FeedSwitch(t: Term, mode: Mode, bytes: seq<byte>)
    requires Valid(t) && t.parser == Ground && bytes == SwitchBytes(mode)
    ensures Feed(t, bytes) == t.(modes := SetMode(t.modes, mode, !StartsOn(mode)))
  {
    if mode == AppKeypad {
      FeedKeypad(t);
    } else if mode == Insert {
      FeedInsert(t);
    } else {
      FeedPrivateSwitch(t, mode, bytes);
    }
  }

  /** The modes once the first `k` table entries are settled and the others still fresh. */
  ghost function Settled(modes: Modes, k: nat): Modes
    requires k <= |MODE_TABLE|
  {
    set mode: Mode | if mode in MODE_TABLE[..k] then mode in modes else StartsOn(mode)
  }

  lemma SettleNext(modes: Modes, k: nat)
    requires k < |MODE_TABLE|
    ensures var mode := MODE_TABLE[k];
            Settled(modes, k + 1) ==
            if Enabled(modes, mode) then SetMode(Settled(modes, k), mode, !StartsOn(mode)) else Settled(modes, k)
  {
    assert MODE_TABLE[..k + 1] == MODE_TABLE[..k] + [MODE_TABLE[k]];
  }

  lemma SwitchesNext(modes: Modes, k: nat, j: nat)
    requires k == j + 1 <= |MODE_TABLE|
    ensures SwitchesUpTo(modes, k) ==
            SwitchesUpTo(modes, j) + (if Enabled(modes, MODE_TABLE[j]) then SwitchBytes(MODE_TABLE[j]) else [])
  {
  }

  lemma {:induction false} FeedSwitches(t: Term, modes: Modes, k: nat)
    requires Valid(t) && t.parser == Ground && k <= |MODE_TABLE| && t.modes == Settled(modes, 0)
    ensures Feed(t, SwitchesUpTo(modes, k)) == t.(modes := Settled(modes, k))
    decreases k
  {
    if k > 0 {
      var j := k - 1;
      FeedSwitches(t, modes, j);
      SwitchesNext(modes, k, j);
      SettleNext(modes, j);
      FeedOneMore(t, t.(modes := Settled(modes, j)), SwitchesUpTo(modes, j), modes, MODE_TABLE[j]);
    }
  }

  lemma FeedOneMore(t: Term, t1: Term, before: seq<byte>, modes: Modes, mode: Mode)
    requires Valid(t) && Valid(t1) && t1.parser == Ground && t1 == Feed(t, before)
    ensures Feed(t, before + (if Enabled(modes, mode) then SwitchBytes(mode) else [])) ==
            if Enabled(modes, mode) then t1.(modes := SetMode(t1.modes, mode, !StartsOn(mode))) else t1
  {
    if Enabled(modes, mode) {
      FeedConcat(t, before, SwitchBytes(mode));
      FeedSwitch(t1, mode, SwitchBytes(mode));
    } else {
      assert before + [] == before;
    }
  }

  lemma TableIsComplete(mode: Mode)
    ensures mode in MODE_TABLE
  {
    match mode
    case BracketedPaste => assert MODE_TABLE[0] == mode;
    case AppCursor => assert MODE_TABLE[1] == mode;
    case AppKeypad => assert MODE_TABLE[2] == mode;
    case MouseX10 => assert MODE_TABLE[3] == mode;
    case MouseClick => assert MODE_TABLE[4] == mode;
    case MouseHighlight => assert MODE_TABLE[5] == mode;
    case MouseDrag => assert MODE_TABLE[6] == mode;
    case MouseMotion => assert MODE_TABLE[7] == mode;
    case SgrMouse => assert MODE_TABLE[8] == mode;
    case Utf8Mouse => assert MODE_TABLE[9] == mode;
    case FocusInOut => assert MODE_TABLE[10] == mode;
    case Insert => assert MODE_TABLE[11] == mode;
    case AlternateScroll => assert MODE_TABLE[12] == mode;
    case LineWrap => assert MODE_TABLE[13] == mode;
    case ShowCursor => assert MODE_TABLE[14] == mode;
  }

  lemma AllSettled(modes: Modes, k: nat)
    requires k == |MODE_TABLE|
    ensures Settled(modes, k) == modes
  {
    forall mode: Mode ensures mode in MODE_TABLE[..k] { TableIsComplete(mode); }
  }

  /** On a terminal with fresh modes the emitted switches reproduce all fifteen modes. */
  lemma FeedModeSets(t: Term, modes: Modes)
    requires Valid(t) && t.parser == Ground && t.modes == FRESH_MODES
    ensures Feed(t, ModeSets(modes)) == t.(modes := modes)
  {
    assert Settled(modes, 0) == FRESH_MODES;
    FeedSwitches(t, modes, |MODE_TABLE|);
    AllSettled(modes, |MODE_TABLE|);
  }

  lemma FeedSpaced(t: Term, p: nat)
    requires Valid(t) && t.parser == Ground
    ensures Feed(t, [ESC, 0x5b] + Joined([p]) + [0x20, 0x71]) == Dispatch(t, false, [p], true, 0x71)
  {
    var head := [ESC, 0x5b] + Joined([p]);
    FeedConcat(t, head, [0x20, 0x71]);
    FeedConcat(t, [ESC, 0x5b], Joined([p]));
    FeedIntroducer(t);
    FeedJoined(t.(parser := Control(false, [0], false)), false, [p]);
    FeedStyleTail(t, p);
  }

  lemma FeedStyleTail(t: Term, p: nat)
    requires Valid(t) && t.parser == Ground
    ensures Feed(t.(parser := Control(false, [p], false)), [0x20, 0x71]) == Dispatch(t, false, [p], true, 0x71)
  {
    var t1 := t.(parser := Control(false, [p], false));
    var t2 := t.(parser := Control(false, [p], true));
    assert [0x20, 0x71] == [0x20 as byte] + [0x71];
    FeedConcat(t1, [0x20], [0x71]);
    FeedByte(t1, 0x20);
    FeedByte(t2, 0x71);
    assert t2.(parser := Ground) == t;
  }

  lemma FeedCursorStyle(t: Term, style: CursorStyle)
    requires Valid(t) && t.parser == Ground
    ensures Feed(t, CursorStyleSet(style)) == t.(cursorStyle := style)
  {
    var p := StyleCode(style);
    FeedSpaced(t, p);
    CodeOfStyle(style);
    StyleDispatched(t, p);
  }

  lemma CodeOfStyle(style: CursorStyle)
    ensures StyleOfCode(StyleCode(style)) == Some(style)
  {
  }

  lemma StyleDispatched(t: Term, p: nat)
    requires Valid(t) && t.parser == Ground && StyleOfCode(p).Some?
    ensures Dispatch(t, false, [p], true, 0x71) == t.(cursorStyle := StyleOfCode(p).value)
  {
  }
}
