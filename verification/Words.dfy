/** Words of 64 bits: arithmetic that wraps around, and exclusive or. */
module Words {
  import opened Bytes

  const WORD: nat := 0x1_0000_0000_0000_0000

  /** Multiplication and addition that wrap around. */
  function Wrap(x: nat): word {
    (x % WORD) as word
  }

  function Pow2(n: nat): nat {
    if n == 0 then 1 else 2 * Pow2(n - 1)
  }

  /** Exclusive or, bit by bit. */
  function Xor(a: nat, b: nat): nat
    decreases a + b
  {
    if a == 0 && b == 0 then 0 else (if a % 2 == b % 2 then 0 else 1) + 2 * Xor(a / 2, b / 2)
  }

  lemma {:induction false} XorFits(n: nat, a: nat, b: nat)
    requires a < Pow2(n) && b < Pow2(n)
    ensures Xor(a, b) < Pow2(n)
  {
    if n > 0 && (a > 0 || b > 0) {
      XorFits(n - 1, a / 2, b / 2);
    }
  }

  lemma {:induction false} XorZero(a: nat)
    ensures Xor(a, 0) == a && Xor(0, a) == a
  {
    if a > 0 {
      XorZero(a / 2);
    }
  }

  lemma {:induction false} XorIsAssociative(a: nat, b: nat, c: nat)
    ensures Xor(Xor(a, b), c) == Xor(a, Xor(b, c))
    decreases a + b + c
  {
    if a > 0 || b > 0 || c > 0 {
      XorIsAssociative(a / 2, b / 2, c / 2);
      XorHalves(a, b);
      XorHalves(b, c);
      XorHalves(Xor(a, b), c);
      XorHalves(a, Xor(b, c));
    }
  }

  lemma XorHalves(a: nat, b: nat)
    ensures Xor(a, b) / 2 == Xor(a / 2, b / 2) && Xor(a, b) % 2 == (if a % 2 == b % 2 then 0 else 1)
  {
  }

  lemma {:induction false} XorCancels(c: nat, a: nat, b: nat)
    ensures Xor(c, a) == Xor(c, b) <==> a == b
    decreases a + b + c
  {
    if a > 0 || b > 0 || c > 0 {
      XorCancels(c / 2, a / 2, b / 2);
      XorHalves(c, a);
      XorHalves(c, b);
    }
  }

  lemma {:induction false} XorCommutes(a: nat, b: nat)
    ensures Xor(a, b) == Xor(b, a)
    decreases a + b
  {
    if a > 0 || b > 0 {
      XorCommutes(a / 2, b / 2);
    }
  }

  function XorWords(a: word, b: word): word {
    WordIsPow2();
    XorFits(64, a as nat, b as nat);
    Xor(a as nat, b as nat) as word
  }

  lemma {:induction false} Pow2Sum(m: nat, n: nat)
    ensures Pow2(m + n) == Pow2(m) * Pow2(n)
  {
    if m > 0 {
      Pow2Sum(m - 1, n);
      assert (2 * Pow2(m - 1)) * Pow2(n) == 2 * (Pow2(m - 1) * Pow2(n));
    }
  }

  lemma WordIsPow2()
    ensures Pow2(64) == WORD
  {
    assert Pow2(0) == 1 && Pow2(1) == 2;
    Pow2Sum(1, 1);
    Pow2Sum(2, 2);
    Pow2Sum(4, 4);
    Pow2Sum(8, 8);
    Pow2Sum(16, 16);
    Pow2Sum(32, 32);
  }

  lemma XorWordsAssoc(a: word, b: word, c: word)
    ensures XorWords(XorWords(a, b), c) == XorWords(a, XorWords(b, c))
  {
    XorIsAssociative(a as nat, b as nat, c as nat);
  }

  lemma XorWordsZero(a: word)
    ensures XorWords(a, 0) == a == XorWords(0, a)
  {
    XorZero(a as nat);
  }

  lemma XorWordsCancel(c: word, a: word, b: word)
    ensures XorWords(c, a) == XorWords(c, b) <==> a == b
    ensures XorWords(a, c) == XorWords(b, c) <==> a == b
  {
    XorCancels(c as nat, a as nat, b as nat);
    XorCommutes(c as nat, a as nat);
    XorCommutes(c as nat, b as nat);
  }
}
