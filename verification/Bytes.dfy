/** Byte strings: decimal numerals, UTF-8, and fixed-width integers. */
module Bytes {

  newtype byte = b: int | 0 <= b < 256

  /** Words of 16 and 64 bits, as the source's `u16` and `u64`. */
  newtype u16 = n: int | 0 <= n < 0x1_0000

  newtype word = n: int | 0 <= n < 0x1_0000_0000_0000_0000

  /** A Unicode scalar value: what the source's `char` holds. */
  newtype scalar = c: int | 0 <= c < 0xd800 || 0xe000 <= c < 0x110000

  const ESC: byte := 0x1b

  predicate IsDigit(b: byte) {
    0x30 <= b <= 0x39
  }

  predicate IsAscii(s: string) {
    forall i | 0 <= i < |s| :: s[i] < 128 as char
  }

  /** The bytes of a text of ASCII characters. */
  function Ascii(s: string): (bytes: seq<byte>)
    requires IsAscii(s)
  {
    seq(|s|, i requires 0 <= i < |s| => s[i] as int as byte)
  }

  /** The decimal numeral of `n`, as `to_string` writes it. */
  function Decimal(n: nat): (s: seq<byte>)
    ensures |s| > 0 && forall b | b in s :: IsDigit(b)
  {
    if n < 10 then [(0x30 + n) as byte] else Decimal(n / 10) + [(0x30 + n % 10) as byte]
  }

  /** The value a run of digits denotes. */
  function Numeral(s: seq<byte>): nat
    requires forall b | b in s :: IsDigit(b)
  {
    if s == [] then 0
    else
      var last := s[|s| - 1];
      assert last in s && IsDigit(last);
      10 * Numeral(s[..|s| - 1]) + (last as int - 0x30)
  }

  lemma {:induction false} NumeralOfDecimal(n: nat)
    ensures Numeral(Decimal(n)) == n
  {
    if n >= 10 {
      NumeralOfDecimal(n / 10);
      assert Decimal(n)[..|Decimal(n)| - 1] == Decimal(n / 10);
    } else {
      assert Decimal(n)[..0] == [];
    }
  }

  lemma DecimalInjective(m: nat, n: nat)
    requires Decimal(m) == Decimal(n)
    ensures m == n
  {
    NumeralOfDecimal(m);
    NumeralOfDecimal(n);
  }

  /** UTF-8 of one scalar (section 3 of RFC 3629). */
  function Utf8(c: scalar): (s: seq<byte>)
    ensures 1 <= |s| <= 4
    ensures forall b | b in s :: b < 0xfe
  {
    var n := c as int;
    if n < 0x80 then [n as byte]
    else if n < 0x800 then [(0xc0 + n / 0x40) as byte, Continuation(n)]
    else if n < 0x10000 then [(0xe0 + n / 0x1000) as byte, Continuation(n / 0x40), Continuation(n)]
    else [(0xf0 + n / 0x40000) as byte, Continuation(n / 0x1000), Continuation(n / 0x40), Continuation(n)]
  }

  function Continuation(n: nat): byte {
    (0x80 + n % 0x40) as byte
  }

  lemma Assoc<T>(a: seq<T>, b: seq<T>, c: seq<T>)
    ensures a + (b + c) == a + b + c
  {
  }

  function Utf8All(text: seq<scalar>): (s: seq<byte>)
    ensures forall b | b in s :: b < 0xfe
  {
    if text == [] then [] else Utf8(text[0]) + Utf8All(text[1..])
  }

  /** A field ends at its first delimiter, so it and the rest are determined. */
  lemma {:induction false} DelimitedIsDetermined(a: seq<byte>, b: seq<byte>, delimiter: byte, x: seq<byte>,
      y: seq<byte>)
    requires (forall c | c in a :: c != delimiter) && (forall c | c in b :: c != delimiter)
    requires a + ([delimiter] + x) == b + ([delimiter] + y)
    ensures a == b && x == y
    decreases |a|
  {
    var s, t := a + ([delimiter] + x), b + ([delimiter] + y);
    assert s[0] == (if a == [] then delimiter else a[0]);
    assert t[0] == (if b == [] then delimiter else b[0]);
    assert a != [] ==> a[0] in a;
    assert b != [] ==> b[0] in b;
    if a == [] {
      assert s[1..] == x && t[1..] == y;
    } else {
      assert s[1..] == a[1..] + ([delimiter] + x) && t[1..] == b[1..] + ([delimiter] + y);
      assert forall c | c in a[1..] :: c in a;
      assert forall c | c in b[1..] :: c in b;
      DelimitedIsDetermined(a[1..], b[1..], delimiter, x, y);
      assert a == [a[0]] + a[1..] && b == [b[0]] + b[1..];
    }
  }

  /** How many numbers `width` bytes hold. */
  function Range(width: nat): nat {
    if width == 0 then 1 else 256 * Range(width - 1)
  }
}
