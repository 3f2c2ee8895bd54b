/** The bytes under a row's hash: they determine the row. */
module LineHash {
  import opened Wrappers
  import opened Bytes
  import opened Cells
  import opened FrameRows
  import opened Words

  // Hashing

  const FNV_OFFSET: word := 0xcbf2_9ce4_8422_2325
  const FNV_PRIME: nat := 0x0000_0100_0000_01b3

  function FnvStep(h: word, b: byte): word {
    Wrap(XorWords(h, b as word) as nat * FNV_PRIME)
  }

  function FnvAll(h: word, bytes: seq<byte>): word {
    if bytes == [] then h else FnvStep(FnvAll(h, bytes[..|bytes| - 1]), bytes[|bytes| - 1])
  }

  /** The prime is odd, so multiplying by it loses nothing. */
  lemma PrimeIsInjective(a: word, b: word)
    ensures Wrap(a as nat * FNV_PRIME) == Wrap(b as nat * FNV_PRIME) <==> a == b
  {
    var x, y := a as nat * FNV_PRIME, b as nat * FNV_PRIME;
    if Wrap(x) == Wrap(y) {
      var d, e := a as int - b as int, x / WORD - y / WORD;
      assert 0x0000_0100_0000_01b3 * d == WORD * e;
      assert d == WORD * (0xce96_5057_aff6_957b * e - 0xce_9650_590f * d);
    }
  }

  /** From one state different bytes lead to different states, and by one byte different states do. */
  lemma FnvStepIsInjective(g: word, h: word, a: byte, b: byte)
    ensures FnvStep(h, a) == FnvStep(h, b) <==> a == b
    ensures FnvStep(g, a) == FnvStep(h, a) <==> g == h
  {
    PrimeIsInjective(XorWords(h, a as word), XorWords(h, b as word));
    XorWordsCancel(h, a as word, b as word);
    PrimeIsInjective(XorWords(g, a as word), XorWords(h, a as word));
    XorWordsCancel(a as word, g, h);
  }

  lemma {:induction false} FnvAllIsInjective(g: word, h: word, bytes: seq<byte>)
    ensures FnvAll(g, bytes) == FnvAll(h, bytes) <==> g == h
    decreases |bytes|
  {
    if bytes != [] {
      var init, last := bytes[..|bytes| - 1], bytes[|bytes| - 1];
      FnvAllIsInjective(g, h, init);
      FnvStepIsInjective(FnvAll(g, init), FnvAll(h, init), last, last);
    }
  }

  lemma {:induction false} FnvConcat(h: word, a: seq<byte>, b: seq<byte>)
    ensures FnvAll(h, a + b) == FnvAll(FnvAll(h, a), b)
    decreases |b|
  {
    if b == [] {
      assert a + b == a;
    } else {
      FnvConcat(h, a, b[..|b| - 1]);
      assert (a + b)[..|a + b| - 1] == a + b[..|b| - 1];
    }
  }

  /** Byte strings that differ in one byte only never hash alike. */
  lemma OneByteIsSeen(before: seq<byte>, a: byte, b: byte, after: seq<byte>)
    ensures FnvAll(FNV_OFFSET, before + ([a] + after)) == FnvAll(FNV_OFFSET, before + ([b] + after)) <==> a == b
  {
    var h := FnvAll(FNV_OFFSET, before);
    FnvConcat(FNV_OFFSET, before, [a] + after);
    FnvConcat(FNV_OFFSET, before, [b] + after);
    FnvConcat(h, [a], after);
    FnvConcat(h, [b], after);
    FnvOne(h, a);
    FnvOne(h, b);
    FnvAllIsInjective(FnvStep(h, a), FnvStep(h, b), after);
    FnvStepIsInjective(h, h, a, b);
  }

  lemma FnvOne(h: word, b: byte)
    ensures FnvAll(h, [b]) == FnvStep(h, b)
  {
    assert [b][..0] == [];
  }

  /** `q` with `n` bits behind it. */
  function Shifted(n: nat, q: nat): nat {
    if n == 0 then q else 2 * Shifted(n - 1, q)
  }

  lemma {:induction false} XorLow(n: nat, q: nat, r: nat, b: nat)
    requires r < Pow2(n) && b < Pow2(n)
    ensures Xor(Shifted(n, q) + r, b) == Shifted(n, q) + Xor(r, b)
    decreases n
  {
    if n == 0 {
      XorZero(q);
    } else {
      XorLow(n - 1, q, r / 2, b / 2);
      XorHalves(Shifted(n, q) + r, b);
      XorHalves(r, b);
    }
  }

  lemma LastByteOfOffset()
    ensures Xor(0x25, 0x61) == 0x44
  {
    XorHalves(37, 97);
    XorHalves(18, 48);
    XorHalves(9, 24);
    XorHalves(4, 12);
    XorHalves(2, 6);
    XorHalves(1, 3);
    XorZero(1);
  }

  lemma OffsetShifted()
    ensures Shifted(8, 0xcb_f29c_e484_2223) + 0x25 == FNV_OFFSET as nat && Pow2(8) == 256
  {
    var q := 0xcb_f29c_e484_2223;
    assert Shifted(2, q) == 4 * q && Shifted(4, q) == 16 * q && Shifted(6, q) == 64 * q;
    assert Pow2(2) == 4 && Pow2(4) == 16 && Pow2(6) == 64;
  }

  lemma OffsetXorA()
    ensures XorWords(FNV_OFFSET, 0x61) == 0xcbf2_9ce4_8422_2344
  {
    OffsetShifted();
    XorLow(8, 0xcb_f29c_e484_2223, 0x25, 0x61);
    LastByteOfOffset();
  }

  /** Two of the vectors published for FNV-1a of 64 bits: of nothing, and of `a`. */
  lemma FnvVectors()
    ensures FnvAll(FNV_OFFSET, []) == 0xcbf2_9ce4_8422_2325
    ensures FnvAll(FNV_OFFSET, [0x61]) == 0xaf63_dc4c_8601_ec8c
  {
    FnvOne(FNV_OFFSET, 0x61);
    OffsetXorA();
    VectorOfA(0xcbf2_9ce4_8422_2344);
  }

  lemma VectorOfA(x: nat)
    requires x == 0xcbf2_9ce4_8422_2344
    ensures x * FNV_PRIME % WORD == 0xaf63_dc4c_8601_ec8c
  {
  }

  // Framing

  function LittleEndian(n: nat, width: nat): (s: seq<byte>)
    ensures |s| == width
  {
    if width == 0 then [] else [(n % 256) as byte] + LittleEndian(n / 256, width - 1)
  }

  function HexDigit(n: nat): byte
    requires n < 16
  {
    if n < 10 then (0x30 + n) as byte else (0x57 + n) as byte
  }

  function Hex2(b: byte): seq<byte> {
    [HexDigit(b as nat / 16), HexDigit(b as nat % 16)]
  }

  const DEFAULT_NAME: seq<byte> := [0x64, 0x65, 0x66, 0x61, 0x75, 0x6c, 0x74]
  const PALETTE_NAME: seq<byte> := [0x70, 0x61, 0x6c, 0x65, 0x74, 0x74, 0x65, 0x3a]

  /** The colour's name: `default`, `palette:N` or `#rrggbb`. */
  function ColorName(color: FrameColor): seq<byte> {
    match color
    case DefaultColor => DEFAULT_NAME
    case Palette(slot) => PALETTE_NAME + Decimal(slot as nat)
    case Hex(r, g, b) => [0x23] + (Hex2(r) + (Hex2(g) + Hex2(b)))
  }

  function LinkBytes(link: Option<seq<scalar>>): seq<byte> {
    match link
    case Some(target) => [1] + Utf8All(target)
    case None => [0]
  }

  const FIELD: byte := 0xff
  const RUN: byte := 0xfe

  /** The fixed-width middle of a run: attributes, columns, and the wide flag. */
  function Numbers(run: FrameRun): (s: seq<byte>)
    ensures |s| == 7
  {
    LittleEndian(run.style.attrs, 2) + LittleEndian(run.n, 4) + [if run.style.wide then 1 else 0]
  }

  function RunTail(run: FrameRun): seq<byte> {
    Numbers(run) + (LinkBytes(run.style.link) + [RUN])
  }

  function RunBytes(run: FrameRun): seq<byte> {
    Utf8All(run.text) + ([FIELD] +
      (ColorName(run.style.fg) + ([FIELD] + (ColorName(run.style.bg) + ([FIELD] + RunTail(run))))))
  }

  function RunsBytes(runs: seq<FrameRun>): seq<byte> {
    if runs == [] then [] else RunBytes(runs[0]) + RunsBytes(runs[1..])
  }

  /** Everything the hash of a line covers; its position is not part of it. */
  function LineBytes(line: FrameLine): seq<byte> {
    [if line.wrapped then 1 else 0] + RunsBytes(line.runs)
  }

  function HashOf(line: FrameLine): word {
    FnvAll(FNV_OFFSET, LineBytes(line))
  }

  class Fnv {
    var h: word
    ghost var fed: seq<byte>

    ghost predicate Valid()
      reads this
    {
      h == FnvAll(FNV_OFFSET, fed)
    }

    constructor ()
      ensures Valid() && fed == []
    {
      h, fed := FNV_OFFSET, [];
    }

    method Byte(b: byte)
      requires Valid()
      modifies this
      ensures Valid() && fed == old(fed) + [b]
    {
      h := FnvStep(h, b);
      fed := fed + [b];
      assert fed[..|fed| - 1] == old(fed);
    }

    method Bytes(bytes: seq<byte>)
      requires Valid()
      modifies this
      ensures Valid() && fed == old(fed) + bytes
    {
      for i := 0 to |bytes|
        invariant Valid() && fed == old(fed) + bytes[..i]
      {
        Byte(bytes[i]);
        assert bytes[..i + 1] == bytes[..i] + [bytes[i]];
      }
      assert bytes[..|bytes|] == bytes;
    }

    method Link(link: Option<seq<scalar>>)
      requires Valid()
      modifies this
      ensures Valid() && fed == old(fed) + LinkBytes(link)
    {
      match link
      case Some(target) =>
        Byte(1);
        Bytes(Utf8All(target));
        Assoc(old(fed), [1], Utf8All(target));
      case None =>
        Byte(0);
    }

    /** The last fields of a run. */
    method Tail(run: FrameRun)
      requires Valid()
      modifies this
      ensures Valid() && fed == old(fed) + RunTail(run)
    {
      ghost var attrs, n := LittleEndian(run.style.attrs, 2), LittleEndian(run.n, 4);
      ghost var start, wide, link := fed, [if run.style.wide then 1 else 0], LinkBytes(run.style.link);
      Bytes(LittleEndian(run.style.attrs, 2));
      Bytes(LittleEndian(run.n, 4));
      Byte(if run.style.wide then 1 else 0);
      Assoc(start, attrs, n);
      Assoc(start, attrs + n, wide);
      Link(run.style.link);
      Byte(RUN);
      Assoc(start, Numbers(run), link + [RUN]);
      Assoc(start + Numbers(run), link, [RUN]);
    }

    /** One text field and its separator. */
    method Field(text: seq<byte>)
      requires Valid()
      modifies this
      ensures Valid() && fed == old(fed) + text + [FIELD]
    {
      Bytes(text);
      Byte(FIELD);
    }

    method Run(run: FrameRun)
      requires Valid()
      modifies this
      ensures Valid() && fed == old(fed) + RunBytes(run)
    {
      Field(Utf8All(run.text));
      Field(ColorName(run.style.fg));
      Field(ColorName(run.style.bg));
      Tail(run);
      FieldsInOrder(old(fed), run);
    }
  }

  lemma FieldsInOrder(start: seq<byte>, run: FrameRun)
    ensures start + RunBytes(run) ==
      start + Utf8All(run.text) + [FIELD] + ColorName(run.style.fg) + [FIELD] + ColorName(run.style.bg) + [FIELD] +
        RunTail(run)
  {
    var text, fg, bg, tail := Utf8All(run.text), ColorName(run.style.fg), ColorName(run.style.bg), RunTail(run);
    OneField(start, text, fg + ([FIELD] + (bg + ([FIELD] + tail))));
    var one := start + text + [FIELD];
    OneField(one, fg, bg + ([FIELD] + tail));
    OneField(one + fg + [FIELD], bg, tail);
  }

  lemma OneField(start: seq<byte>, text: seq<byte>, rest: seq<byte>)
    ensures start + (text + ([FIELD] + rest)) == start + text + [FIELD] + rest
  {
    Assoc(start, text, [FIELD] + rest);
    Assoc(start + text, [FIELD], rest);
  }

  /** The hash of a line, run by run. */
  method HashLine(line: FrameLine) returns (hash: word)
    ensures hash == HashOf(line)
  {
    var fnv := new Fnv();
    fnv.Byte(if line.wrapped then 1 else 0);
    for i := 0 to |line.runs|
      invariant fnv.Valid() && fnv.fed + RunsBytes(line.runs[i..]) == LineBytes(line)
    {
      Assoc(fnv.fed, RunBytes(line.runs[i]), RunsBytes(line.runs[i + 1..]));
      assert line.runs[i..][1..] == line.runs[i + 1..];
      fnv.Run(line.runs[i]);
    }
    assert fnv.fed + [] == fnv.fed;
    hash := fnv.h;
  }

  // Reading the bytes back

  /** Parts of equal length at the front are determined. */
  lemma FixedIsDetermined(a: seq<byte>, b: seq<byte>, x: seq<byte>, y: seq<byte>)
    requires |a| == |b| && a + x == b + y
    ensures a == b && x == y
  {
    assert (a + x)[..|a|] == a && (b + y)[..|b|] == b;
    assert (a + x)[|a|..] == x && (b + y)[|b|..] == y;
  }

  function LittleValue(s: seq<byte>): nat {
    if s == [] then 0 else s[0] as nat + 256 * LittleValue(s[1..])
  }

  lemma {:induction false} LittleValueOf(n: nat, width: nat)
    requires n < Range(width)
    ensures LittleValue(LittleEndian(n, width)) == n
    decreases width
  {
    if width > 0 {
      LittleValueOf(n / 256, width - 1);
      assert LittleEndian(n, width)[1..] == LittleEndian(n / 256, width - 1);
    }
  }

  // UTF-8 is uniquely decodable

  function LeadLength(b: byte): nat {
    if b < 0x80 then 1 else if b < 0xe0 then 2 else if b < 0xf0 then 3 else 4
  }

  function Utf8Value(s: seq<byte>): int
    requires 1 <= |s| <= 4
  {
    if |s| == 1 then s[0] as int
    else if |s| == 2 then (s[0] as int - 0xc0) * 0x40 + (s[1] as int - 0x80)
    else if |s| == 3 then (s[0] as int - 0xe0) * 0x1000 + (s[1] as int - 0x80) * 0x40 + (s[2] as int - 0x80)
    else
      (s[0] as int - 0xf0) * 0x40000 + (s[1] as int - 0x80) * 0x1000
      + (s[2] as int - 0x80) * 0x40 + (s[3] as int - 0x80)
  }

  lemma Sextets(n: nat)
    ensures n == (n / 0x40) * 0x40 + n % 0x40
    ensures n / 0x1000 == (n / 0x40) / 0x40 && n / 0x40000 == (n / 0x1000) / 0x40
  {
  }

  lemma Utf8Decodes(c: scalar)
    ensures LeadLength(Utf8(c)[0]) == |Utf8(c)| && Utf8Value(Utf8(c)) == c as int
  {
    var n := c as int;
    var s := Utf8(c);
    var n1 := n / 0x40;
    var n2 := n / 0x1000;
    Sextets(n);
    Sextets(n1);
    Sextets(n2);
    if n < 0x80 {
    } else if n < 0x800 {
      assert s[1] == Continuation(n) && s[0] as int == 0xc0 + n1;
    } else if n < 0x10000 {
      assert s[2] == Continuation(n) && s[1] == Continuation(n1) && s[0] as int == 0xe0 + n2;
    } else {
      assert s[3] == Continuation(n) && s[2] == Continuation(n1) && s[1] == Continuation(n2);
      assert s[0] as int == 0xf0 + n2 / 0x40;
    }
  }

  lemma Utf8IsDetermined(c: scalar, d: scalar, x: seq<byte>, y: seq<byte>)
    requires Utf8(c) + x == Utf8(d) + y
    ensures c == d && x == y
  {
    Utf8Decodes(c);
    Utf8Decodes(d);
    assert (Utf8(c) + x)[0] == Utf8(c)[0] && (Utf8(d) + y)[0] == Utf8(d)[0];
    FixedIsDetermined(Utf8(c), Utf8(d), x, y);
  }

  lemma {:induction false} Utf8AllInjective(a: seq<scalar>, b: seq<scalar>)
    requires Utf8All(a) == Utf8All(b)
    ensures a == b
    decreases |a|
  {
    if a != [] && b != [] {
      Utf8IsDetermined(a[0], b[0], Utf8All(a[1..]), Utf8All(b[1..]));
      Utf8AllInjective(a[1..], b[1..]);
      assert a == [a[0]] + a[1..] && b == [b[0]] + b[1..];
    }
  }

  // Colours

  lemma Hex2Injective(a: byte, b: byte)
    requires Hex2(a) == Hex2(b)
    ensures a == b
  {
    assert Hex2(a)[0] == Hex2(b)[0] && Hex2(a)[1] == Hex2(b)[1];
  }

  lemma ColorNameInjective(a: FrameColor, b: FrameColor)
    requires ColorName(a) == ColorName(b)
    ensures a == b
  {
    assert ColorName(a)[0] == ColorName(b)[0];
    match a
    case DefaultColor =>
    case Palette(m) =>
      assert ColorName(a)[|PALETTE_NAME|..] == Decimal(m as nat);
      assert ColorName(b)[|PALETTE_NAME|..] == Decimal(b.slot as nat);
      DecimalInjective(m as nat, b.slot as nat);
    case Hex(r, g, blue) =>
      FixedIsDetermined([0x23], [0x23], Hex2(r) + (Hex2(g) + Hex2(blue)), Hex2(b.r) + (Hex2(b.g) + Hex2(b.b)));
      FixedIsDetermined(Hex2(r), Hex2(b.r), Hex2(g) + Hex2(blue), Hex2(b.g) + Hex2(b.b));
      FixedIsDetermined(Hex2(g), Hex2(b.g), Hex2(blue), Hex2(b.b));
      Hex2Injective(r, b.r);
      Hex2Injective(g, b.g);
      Hex2Injective(blue, b.b);
  }

  /** The value of a lower-case hexadecimal digit. */
  function HexValue(b: byte): Option<nat> {
    if 0x30 <= b <= 0x39 then Some(b as nat - 0x30)
    else if 0x61 <= b <= 0x66 then Some(b as nat - 0x61 + 10)
    else None
  }

  /** `high` and `low` are the hexadecimal digits of `value`. */
  predicate HexReads(high: byte, low: byte, value: byte) {
    HexValue(high).Some? && HexValue(low).Some? && HexValue(high).value * 16 + HexValue(low).value == value as nat
  }

  lemma Hex2Reads(value: byte)
    ensures HexReads(Hex2(value)[0], Hex2(value)[1], value)
  {
  }

  /** The names as the wire has them: `default`, `palette:` and a decimal number, `#` and six digits. */
  lemma ColorNameReads(color: FrameColor)
    ensures match color
            case DefaultColor => ColorName(color) == Ascii("default")
            case Palette(slot) => ColorName(color) == Ascii("palette:") + Decimal(slot as nat)
            case Hex(r, g, b) =>
              && |ColorName(color)| == 7 && ColorName(color)[0] == '#' as int as byte
              && HexReads(ColorName(color)[1], ColorName(color)[2], r)
              && HexReads(ColorName(color)[3], ColorName(color)[4], g)
              && HexReads(ColorName(color)[5], ColorName(color)[6], b)
  {
    assert Ascii("default") == DEFAULT_NAME && Ascii("palette:") == PALETTE_NAME;
    if color.Hex? {
      Hex2Reads(color.r);
      Hex2Reads(color.g);
      Hex2Reads(color.b);
    }
  }

  lemma ColorNameIsText(color: FrameColor)
    ensures forall c | c in ColorName(color) :: c < 0xfe
  {
  }

  // Runs and lines

  /** The widths of the wire: 16-bit attributes and 32-bit column counts. */
  predicate RunFits(run: FrameRun) {
    run.style.attrs < 0x1_0000 && run.n < 0x1_0000_0000
  }

  lemma LinkIsDetermined(a: Option<seq<scalar>>, b: Option<seq<scalar>>, x: seq<byte>, y: seq<byte>)
    requires LinkBytes(a) + ([RUN] + x) == LinkBytes(b) + ([RUN] + y)
    ensures a == b && x == y
  {
    assert (LinkBytes(a) + ([RUN] + x))[0] == LinkBytes(a)[0] && (LinkBytes(b) + ([RUN] + y))[0] == LinkBytes(b)[0];
    if a.Some? {
      var s, t := Utf8All(a.value), Utf8All(b.value);
      Assoc([1], s, [RUN] + x);
      Assoc([1], t, [RUN] + y);
      FixedIsDetermined([1], [1], s + ([RUN] + x), t + ([RUN] + y));
      DelimitedIsDetermined(s, t, RUN, x, y);
      Utf8AllInjective(a.value, b.value);
    } else {
      Assoc([0], [RUN], x);
      Assoc([0], [RUN], y);
      FixedIsDetermined([0] + [RUN], [0] + [RUN], x, y);
    }
  }

  lemma NumbersAreDetermined(a: FrameRun, b: FrameRun)
    requires RunFits(a) && RunFits(b) && Numbers(a) == Numbers(b)
    ensures a.style.attrs == b.style.attrs && a.n == b.n && a.style.wide == b.style.wide
  {
    FixedIsDetermined(LittleEndian(a.style.attrs, 2) + LittleEndian(a.n, 4),
      LittleEndian(b.style.attrs, 2) + LittleEndian(b.n, 4),
      [if a.style.wide then 1 else 0], [if b.style.wide then 1 else 0]);
    FixedIsDetermined(LittleEndian(a.style.attrs, 2), LittleEndian(b.style.attrs, 2), LittleEndian(a.n, 4),
      LittleEndian(b.n, 4));
    assert Range(2) == 0x1_0000 && Range(4) == 0x1_0000_0000;
    LittleValueOf(a.style.attrs, 2);
    LittleValueOf(b.style.attrs, 2);
    LittleValueOf(a.n, 4);
    LittleValueOf(b.n, 4);
    assert [if a.style.wide then 1 else 0 as byte][0] == [if b.style.wide then 1 else 0 as byte][0];
  }

  lemma TailIsDetermined(a: FrameRun, b: FrameRun, x: seq<byte>, y: seq<byte>)
    requires RunFits(a) && RunFits(b) && RunTail(a) + x == RunTail(b) + y
    ensures a.style.attrs == b.style.attrs && a.n == b.n && a.style.wide == b.style.wide && a.style.link == b.style.link
    ensures x == y
  {
    var p, q := LinkBytes(a.style.link), LinkBytes(b.style.link);
    Assoc(Numbers(a), p + [RUN], x);
    Assoc(Numbers(b), q + [RUN], y);
    FixedIsDetermined(Numbers(a), Numbers(b), p + [RUN] + x, q + [RUN] + y);
    NumbersAreDetermined(a, b);
    Assoc(p, [RUN], x);
    Assoc(q, [RUN], y);
    LinkIsDetermined(a.style.link, b.style.link, x, y);
  }

  lemma FieldIsDetermined(a: seq<byte>, b: seq<byte>, p: seq<byte>, q: seq<byte>, x: seq<byte>, y: seq<byte>)
    requires (forall c | c in a :: c < 0xfe) && (forall c | c in b :: c < 0xfe)
    requires a + ([FIELD] + p) + x == b + ([FIELD] + q) + y
    ensures a == b && p + x == q + y
  {
    Assoc(a, [FIELD] + p, x);
    Assoc([FIELD], p, x);
    Assoc(b, [FIELD] + q, y);
    Assoc([FIELD], q, y);
    DelimitedIsDetermined(a, b, FIELD, p + x, q + y);
  }

  /** Where one run ends is determined, and so is the run. */
  lemma RunIsDetermined(a: FrameRun, b: FrameRun, x: seq<byte>, y: seq<byte>)
    requires RunFits(a) && RunFits(b) && RunBytes(a) + x == RunBytes(b) + y
    ensures a == b && x == y
  {
    var p1, q1 := [FIELD] + RunTail(a), [FIELD] + RunTail(b);
    var p2, q2 := [FIELD] + (ColorName(a.style.bg) + p1), [FIELD] + (ColorName(b.style.bg) + q1);
    ColorNameIsText(a.style.fg);
    ColorNameIsText(b.style.fg);
    ColorNameIsText(a.style.bg);
    ColorNameIsText(b.style.bg);
    FieldIsDetermined(Utf8All(a.text), Utf8All(b.text), ColorName(a.style.fg) + p2, ColorName(b.style.fg) + q2, x, y);
    Utf8AllInjective(a.text, b.text);
    FieldIsDetermined(ColorName(a.style.fg), ColorName(b.style.fg),
      ColorName(a.style.bg) + p1, ColorName(b.style.bg) + q1, x, y);
    ColorNameInjective(a.style.fg, b.style.fg);
    FieldIsDetermined(ColorName(a.style.bg), ColorName(b.style.bg), RunTail(a), RunTail(b), x, y);
    ColorNameInjective(a.style.bg, b.style.bg);
    TailIsDetermined(a, b, x, y);
  }

  predicate RunsFit(runs: seq<FrameRun>) {
    forall i | 0 <= i < |runs| :: RunFits(runs[i])
  }

  lemma RunsBytesNotEmpty(runs: seq<FrameRun>)
    ensures runs != [] ==> |RunsBytes(runs)| > 0
  {
  }

  lemma RestFits(runs: seq<FrameRun>, rest: seq<FrameRun>)
    requires RunsFit(runs) && runs != [] && rest == runs[1..]
    ensures RunFits(runs[0]) && RunsFit(rest) && runs == [runs[0]] + rest
  {
    assert forall i | 0 <= i < |rest| :: rest[i] == runs[i + 1];
  }

  lemma {:induction false} RunsAreDetermined(a: seq<FrameRun>, b: seq<FrameRun>)
    requires RunsFit(a) && RunsFit(b) && RunsBytes(a) == RunsBytes(b)
    ensures a == b
    decreases |a|
  {
    RunsBytesNotEmpty(a);
    RunsBytesNotEmpty(b);
    if a != [] && b != [] {
      var x, y := a[1..], b[1..];
      RestFits(a, x);
      RestFits(b, y);
      RunIsDetermined(a[0], b[0], RunsBytes(x), RunsBytes(y));
      RunsAreDetermined(x, y);
    }
  }

  /** The framing is injective: the bytes under the hash decode to one wrap flag and one list of runs. */
  lemma LineBytesDecodeUniquely(a: FrameLine, b: FrameLine)
    requires RunsFit(a.runs) && RunsFit(b.runs)
    ensures LineBytes(a) == LineBytes(b) <==> a.wrapped == b.wrapped && a.runs == b.runs
  {
    if LineBytes(a) == LineBytes(b) {
      FixedIsDetermined([if a.wrapped then 1 else 0], [if b.wrapped then 1 else 0], RunsBytes(a.runs),
        RunsBytes(b.runs));
      assert [if a.wrapped then 1 else 0 as byte][0] == [if b.wrapped then 1 else 0 as byte][0];
      RunsAreDetermined(a.runs, b.runs);
    }
  }

  predicate RunWithin(run: FrameRun, bound: nat) {
    run.style.attrs < 0x1_0000 && run.n <= bound
  }

  lemma PushedWithin(runs: seq<FrameRun>, v: Visible, bound: nat)
    requires (forall i | 0 <= i < |runs| :: RunWithin(runs[i], bound)) && v.style.attrs < 0x1_0000
    ensures forall i | 0 <= i < |Pushed(runs, v)| :: RunWithin(Pushed(runs, v)[i], bound + 2)
  {
  }

  lemma {:induction false} RunsWithin(vs: seq<Visible>)
    requires forall i | 0 <= i < |vs| :: vs[i].style.attrs < 0x1_0000
    ensures forall i | 0 <= i < |RunsOf(vs)| :: RunWithin(RunsOf(vs)[i], 2 * |vs|)
    decreases |vs|
  {
    if vs != [] {
      var init := vs[..|vs| - 1];
      RunsWithin(init);
      PushedWithin(RunsOf(init), vs[|vs| - 1], 2 * |init|);
    }
  }

  lemma {:induction false} FewVisibles(cells: Row)
    ensures |Visibles(cells)| <= |cells|
    ensures forall i | 0 <= i < |Visibles(cells)| :: Visibles(cells)[i].style.attrs < 0x1_0000
    decreases |cells|
  {
    if cells != [] {
      FewVisibles(cells[..|cells| - 1]);
    }
  }

  /** Every row a terminal can have fits the wire's integer widths. */
  lemma EncodedLineFits(y: nat, cells: Row)
    requires |cells| < 0x1_0000
    ensures RunsFit(LineFor(y, cells).runs)
  {
    var painted := cells[..EncodedEnd(cells)];
    FewVisibles(painted);
    RunsWithin(Visibles(painted));
    var runs := LineFor(y, cells).runs;
    forall i | 0 <= i < |runs| ensures RunFits(runs[i]) {
      assert RunWithin(runs[i], 2 * |Visibles(painted)|);
    }
  }

  /** Two rows are hashed over the same bytes exactly when they show the same and wrap alike. */
  lemma SameBytesExactlyWhenSameRow(mark: scalar -> bool, y: nat, z: nat, a: Row, b: Row)
    requires |a| < 0x1_0000 && |b| < 0x1_0000
    requires TidySpacers(a) && CellsMarked(mark, a) && TidySpacers(b) && CellsMarked(mark, b)
    ensures LineBytes(LineFor(y, a)) == LineBytes(LineFor(z, b)) <==>
            Wrapped(a) == Wrapped(b) && Normal(Visibles(a)) == Normal(Visibles(b))
  {
    EncodedLineFits(y, a);
    EncodedLineFits(z, b);
    LineBytesDecodeUniquely(LineFor(y, a), LineFor(z, b));
    SameRunsExactlyWhenSameCells(mark, y, a, b);
  }

  // Changes the hash never misses

  /** The wrap flag alone. */
  lemma WrapFlagIsSeen(line: FrameLine)
    ensures HashOf(line) != HashOf(line.(wrapped := !line.wrapped))
  {
    var runs := RunsBytes(line.runs);
    assert [] + ([0] + runs) == [0] + runs && [] + ([1] + runs) == [1] + runs;
    OneByteIsSeen([], 0, 1, runs);
  }

  /** A glyph of one byte. */
  predicate Letter(c: scalar) {
    0x20 < c < 0x7f
  }

  function EditText(v: Visible, k: nat, d: scalar): Visible
    requires k < |v.text|
  {
    v.(text := v.text[k := d])
  }

  function EditRun(run: FrameRun, k: nat, d: scalar): FrameRun
    requires k < |run.text|
  {
    run.(text := run.text[k := d])
  }

  predicate Edits(rs: seq<FrameRun>, ss: seq<FrameRun>, j: nat, k: nat, c: scalar, d: scalar) {
    j < |rs| && k < |rs[j].text| && rs[j].text[k] == c && ss == rs[j := EditRun(rs[j], k, d)]
  }

  lemma PushEdited(runs: seq<FrameRun>, v: Visible, k: nat, d: scalar) returns (at: nat)
    requires k < |v.text|
    ensures var pushed := Pushed(runs, v);
            Edits(pushed, Pushed(runs, EditText(v, k, d)), |pushed| - 1, at, v.text[k], d)
  {
    var n := |runs|;
    if n > 0 && runs[n - 1].style == v.style {
      at := |runs[n - 1].text| + k;
      assert runs[n - 1].text + v.text[k := d] == (runs[n - 1].text + v.text)[at := d];
    } else {
      at := k;
    }
  }

  lemma PushOnEdited(rs: seq<FrameRun>, ss: seq<FrameRun>, j: nat, k: nat, c: scalar, d: scalar, v: Visible)
    requires Edits(rs, ss, j, k, c, d)
    ensures Edits(Pushed(rs, v), Pushed(ss, v), j, k, c, d)
  {
    var n := |rs|;
    if rs[n - 1].style == v.style && j == n - 1 {
      assert rs[j].text[k := d] + v.text == (rs[j].text + v.text)[k := d];
    }
  }

  /** One scalar changed in a cell's text is that scalar changed in one run. */
  lemma {:induction false} RunsOfEdited(vs: seq<Visible>, i: nat, k: nat, d: scalar) returns (j: nat, at: nat)
    requires i < |vs| && k < |vs[i].text|
    ensures Edits(RunsOf(vs), RunsOf(vs[i := EditText(vs[i], k, d)]), j, at, vs[i].text[k], d)
    decreases |vs|
  {
    var n, edited := |vs| - 1, vs[i := EditText(vs[i], k, d)];
    var init, last := vs[..n], vs[n];
    assert vs == init + [last];
    if i == n {
      assert edited == init + [EditText(last, k, d)];
      at := PushEdited(RunsOf(init), last, k, d);
      RunsNext(init, last);
      RunsNext(init, EditText(last, k, d));
      j := |RunsOf(vs)| - 1;
    } else {
      var editedInit := init[i := EditText(vs[i], k, d)];
      assert edited == editedInit + [last];
      j, at := RunsOfEdited(init, i, k, d);
      RunsNext(init, last);
      RunsNext(editedInit, last);
      PushOnEdited(RunsOf(init), RunsOf(editedInit), j, at, vs[i].text[k], d, last);
    }
  }

  lemma LetterIsNoBlank(cell: Cell, d: scalar)
    requires Letter(cell.ch) && Letter(d)
    ensures !IsDefaultBlank(cell) && !IsDefaultBlank(cell.(ch := d))
    ensures VisibleOf(cell.(ch := d)) == EditText(VisibleOf(cell), 0, d) && VisibleOf(cell).text[0] == cell.ch
  {
    assert ([cell.ch] + cell.zerowidth)[0 := d] == [d] + cell.zerowidth;
  }

  lemma EncodedEndNext(cells: Row, n: nat, last: Cell)
    requires |cells| == n + 1 && cells[n] == last
    ensures EncodedEnd(cells) == if IsDefaultBlank(last) then EncodedEnd(cells[..n]) else n + 1
  {
  }

  lemma {:induction false} EncodedEndOfEdited(cells: Row, edited: Row, i: nat, d: scalar)
    requires i < |cells| && Letter(cells[i].ch) && Letter(d) && edited == cells[i := cells[i].(ch := d)]
    ensures i < EncodedEnd(cells) == EncodedEnd(edited)
    decreases |cells|
  {
    var n := |cells| - 1;
    EncodedEndNext(cells, n, cells[n]);
    EncodedEndNext(edited, n, edited[n]);
    if i == n {
      LetterIsNoBlank(cells[i], d);
    } else {
      EncodedEndOfEdited(cells[..n], edited[..n], i, d);
    }
  }

  lemma {:induction false} VisiblesOfEdited(cells: Row, i: nat, d: scalar) returns (m: nat)
    requires i < |cells| && Letter(cells[i].ch) && Letter(d) && !cells[i].spacer
    ensures var vs := Visibles(cells);
            && m < |vs| && |vs[m].text| > 0 && vs[m].text[0] == cells[i].ch
            && Visibles(cells[i := cells[i].(ch := d)]) == vs[m := EditText(vs[m], 0, d)]
    decreases |cells|
  {
    var n, edited := |cells| - 1, cells[i := cells[i].(ch := d)];
    if i == n {
      LetterIsNoBlank(cells[i], d);
      assert edited[..n] == cells[..n];
      m := |Visibles(cells)| - 1;
    } else {
      assert edited[..n] == cells[..n][i := cells[i].(ch := d)];
      m := VisiblesOfEdited(cells[..n], i, d);
    }
  }

  lemma {:induction false} RunsBytesConcat(a: seq<FrameRun>, b: seq<FrameRun>)
    ensures RunsBytes(a + b) == RunsBytes(a) + RunsBytes(b)
    decreases |a|
  {
    if a == [] {
      assert a + b == b;
    } else {
      assert (a + b)[1..] == a[1..] + b;
      RunsBytesConcat(a[1..], b);
      Assoc(RunBytes(a[0]), RunsBytes(a[1..]), RunsBytes(b));
    }
  }

  lemma {:induction false} Utf8AllConcat(a: seq<scalar>, b: seq<scalar>)
    ensures Utf8All(a + b) == Utf8All(a) + Utf8All(b)
    decreases |a|
  {
    if a == [] {
      assert a + b == b;
    } else {
      assert (a + b)[1..] == a[1..] + b;
      Utf8AllConcat(a[1..], b);
      Assoc(Utf8(a[0]), Utf8All(a[1..]), Utf8All(b));
    }
  }

  function AfterText(run: FrameRun): seq<byte> {
    [FIELD] + (ColorName(run.style.fg) + ([FIELD] + (ColorName(run.style.bg) + ([FIELD] + RunTail(run)))))
  }

  /** A letter is one byte of its run's bytes. */
  lemma LetterInRun(run: FrameRun, k: nat, c: scalar)
    requires k < |run.text| && Letter(c)
    ensures RunBytes(EditRun(run, k, c)) ==
            Utf8All(run.text[..k]) + ([c as byte] + (Utf8All(run.text[k + 1..]) + AfterText(run)))
  {
    var edited := EditRun(run, k, c);
    var before, after := Utf8All(run.text[..k]), Utf8All(run.text[k + 1..]);
    assert edited.text == run.text[..k] + ([c] + run.text[k + 1..]);
    Utf8AllConcat(run.text[..k], [c] + run.text[k + 1..]);
    assert ([c] + run.text[k + 1..])[1..] == run.text[k + 1..];
    assert Utf8(c) == [c as byte];
    assert Utf8All([c] + run.text[k + 1..]) == [c as byte] + after;
    Assoc(before, [c as byte] + after, AfterText(run));
    Assoc([c as byte], after, AfterText(run));
    assert RunTail(edited) == RunTail(run);
  }

  lemma LetterInRuns(rs: seq<FrameRun>, j: nat, k: nat, c: scalar)
    requires j < |rs| && k < |rs[j].text| && Letter(c)
    ensures RunsBytes(rs[j := EditRun(rs[j], k, c)]) ==
            RunsBytes(rs[..j]) + Utf8All(rs[j].text[..k]) +
              ([c as byte] + (Utf8All(rs[j].text[k + 1..]) + AfterText(rs[j]) + RunsBytes(rs[j + 1..])))
  {
    var run := EditRun(rs[j], k, c);
    assert rs[j := run] == rs[..j] + ([run] + rs[j + 1..]);
    RunsBytesConcat(rs[..j], [run] + rs[j + 1..]);
    RunsBytesConcat([run], rs[j + 1..]);
    assert [run][1..] == [];
    assert RunsBytes([run]) == RunBytes(run) + [];
    LetterInRun(rs[j], k, c);
    Regrouped(RunsBytes(rs[..j]), Utf8All(rs[j].text[..k]), [c as byte],
      Utf8All(rs[j].text[k + 1..]) + AfterText(rs[j]), RunsBytes(rs[j + 1..]));
  }

  lemma Regrouped(a: seq<byte>, b: seq<byte>, c: seq<byte>, d: seq<byte>, e: seq<byte>)
    ensures a + ((b + (c + d) + []) + e) == a + b + (c + (d + e))
  {
  }

  /** A letter changed in a row is that letter changed in one of its runs. */
  lemma LineOfEdited(cells: Row, i: nat, d: scalar, y: nat, z: nat, edited: Row)
    returns (rs: seq<FrameRun>, j: nat, at: nat)
    requires i < |cells| && !cells[i].spacer && Letter(cells[i].ch) && Letter(d)
    requires edited == cells[i := cells[i].(ch := d)]
    ensures j < |rs| && at < |rs[j].text| && rs[j].text[at] == cells[i].ch
    ensures LineFor(y, cells) == FrameLine(y, Wrapped(cells), rs)
    ensures LineFor(z, edited) == FrameLine(z, Wrapped(cells), rs[j := EditRun(rs[j], at, d)])
  {
    EncodedEndOfEdited(cells, edited, i, d);
    WrapOfEdited(cells, edited, i, d);
    var end := EncodedEnd(cells);
    rs, j, at := RunsOfEditedRow(cells[..end], i, d, edited[..end]);
  }

  lemma WrapOfEdited(cells: Row, edited: Row, i: nat, d: scalar)
    requires i < |cells| && edited == cells[i := cells[i].(ch := d)]
    ensures Wrapped(edited) == Wrapped(cells)
  {
  }

  lemma RunsOfEditedRow(painted: Row, i: nat, d: scalar, edited: Row)
    returns (rs: seq<FrameRun>, j: nat, at: nat)
    requires i < |painted| && !painted[i].spacer && Letter(painted[i].ch) && Letter(d)
    requires edited == painted[i := painted[i].(ch := d)]
    ensures rs == RunsOf(Visibles(painted)) && Edits(rs, RunsOf(Visibles(edited)), j, at, painted[i].ch, d)
  {
    var m := VisiblesOfEdited(painted, i, d);
    j, at := RunsOfEdited(Visibles(painted), m, 0, d);
    rs := RunsOf(Visibles(painted));
  }

  /** Any one letter of a row: the hash of the row moves whenever the letter does, whatever the rest of the row. */
  lemma OneLetterIsSeen(cells: Row, i: nat, d: scalar, y: nat, z: nat)
    requires i < |cells| && !cells[i].spacer && Letter(cells[i].ch) && Letter(d)
    ensures HashOf(LineFor(y, cells)) == HashOf(LineFor(z, cells[i := cells[i].(ch := d)])) <==> cells[i].ch == d
  {
    var rs, j, at := LineOfEdited(cells, i, d, y, z, cells[i := cells[i].(ch := d)]);
    OneLetterInRuns(Wrapped(cells), rs, j, at, cells[i].ch, d, y, z);
  }

  lemma OneLetterInRuns(wrapped: bool, rs: seq<FrameRun>, j: nat, at: nat, c: scalar, d: scalar, y: nat, z: nat)
    requires j < |rs| && at < |rs[j].text| && rs[j].text[at] == c && Letter(c) && Letter(d)
    ensures HashOf(FrameLine(y, wrapped, rs)) == HashOf(FrameLine(z, wrapped, rs[j := EditRun(rs[j], at, d)])) <==>
            c == d
  {
    assert rs[j].text[at := c] == rs[j].text;
    assert rs[j := EditRun(rs[j], at, c)] == rs;
    LetterInRuns(rs, j, at, c);
    LetterInRuns(rs, j, at, d);
    OneByteInLine(wrapped, RunsBytes(rs[..j]) + Utf8All(rs[j].text[..at]), c as byte, d as byte,
      Utf8All(rs[j].text[at + 1..]) + AfterText(rs[j]) + RunsBytes(rs[j + 1..]));
  }

  lemma OneByteInLine(wrapped: bool, before: seq<byte>, a: byte, b: byte, after: seq<byte>)
    ensures var flag: byte := if wrapped then 1 else 0;
            var h, k := FnvAll(FNV_OFFSET, [flag] + (before + ([a] + after))),
            FnvAll(FNV_OFFSET, [flag] + (before + ([b] + after)));
            h == k <==> a == b
  {
    var flag: byte := if wrapped then 1 else 0;
    Assoc([flag], before, [a] + after);
    Assoc([flag], before, [b] + after);
    OneByteIsSeen([flag] + before, a, b, after);
  }

  lemma NamesOfOneRun()
    ensures ColorName(Palette(1)) == Ascii("palette:1") && ColorName(Hex(0x10, 0x20, 0x30)) == Ascii("#102030")
  {
    assert Decimal(1) == [0x31];
    assert Ascii("palette:1") == PALETTE_NAME + [0x31];
    assert Hex2(0x10) == [0x31, 0x30] && Hex2(0x20) == [0x32, 0x30] && Hex2(0x30) == [0x33, 0x30];
    assert Ascii("#102030") == [0x23, 0x31, 0x30, 0x32, 0x30, 0x33, 0x30];
  }

  /** The bytes of one such row: a wrapped row of one bold, underlined `a`, in colour 1 on #102030. */
  lemma BytesOfOneRun()
    ensures var style := RunStyle(Palette(1), Hex(0x10, 0x20, 0x30), 9, false, None);
            LineBytes(FrameLine(7, true, [FrameRun([0x61], style, 1)])) ==
            [1, 0x61, 0xff] + Ascii("palette:1") + [0xff] + Ascii("#102030") + [0xff, 9, 0, 1, 0, 0, 0, 0, 0, 0xfe]
  {
    var run := FrameRun([0x61], RunStyle(Palette(1), Hex(0x10, 0x20, 0x30), 9, false, None), 1);
    assert [run][1..] == [] && RunsBytes([run]) == RunBytes(run) + [];
    assert [0x61 as scalar][1..] == [] && Utf8All([0x61]) == [0x61];
    NamesOfOneRun();
    NumbersOfOneRun(run);
    OneRunJoined(run, Ascii("palette:1"), Ascii("#102030"));
  }

  lemma OneRunJoined(run: FrameRun, fg: seq<byte>, bg: seq<byte>)
    requires Utf8All(run.text) == [0x61] && ColorName(run.style.fg) == fg && ColorName(run.style.bg) == bg
    requires Numbers(run) == [9, 0, 1, 0, 0, 0, 0] && run.style.link == None
    ensures [1] + (RunBytes(run) + []) ==
            [1, 0x61, 0xff] + fg + [0xff] + bg + [0xff, 9, 0, 1, 0, 0, 0, 0, 0, 0xfe]
  {
    assert RunTail(run) == [9, 0, 1, 0, 0, 0, 0, 0, 0xfe];
    JoinedFields(fg, bg, RunTail(run));
  }

  lemma JoinedFields(fg: seq<byte>, bg: seq<byte>, tail: seq<byte>)
    ensures [1] + (([0x61] + ([0xff] + (fg + ([0xff] + (bg + ([0xff] + tail)))))) + []) ==
            [1, 0x61, 0xff] + fg + [0xff] + bg + ([0xff] + tail)
  {
    Assoc(fg, [0xff], bg + ([0xff] + tail));
    Assoc(fg + [0xff], bg, [0xff] + tail);
    Assoc([1, 0x61, 0xff], fg, [0xff] + (bg + ([0xff] + tail)));
  }

  lemma NumbersOfOneRun(run: FrameRun)
    requires run.style.attrs == 9 && run.n == 1 && !run.style.wide
    ensures Numbers(run) == [9, 0, 1, 0, 0, 0, 0]
  {
    assert LittleEndian(0, 1) == [0 as byte] + LittleEndian(0, 0);
    assert LittleEndian(9, 2) == [9 as byte] + LittleEndian(0, 1);
    assert LittleEndian(0, 2) == [0 as byte] + LittleEndian(0, 1);
    assert LittleEndian(0, 3) == [0 as byte] + LittleEndian(0, 2);
    assert LittleEndian(1, 4) == [1 as byte] + LittleEndian(0, 3);
  }
}
