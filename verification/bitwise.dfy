/** Exclusive or of non-negative integers. */
module Bitwise {
  import opened Arithmetic
  import opened Bytes

  /** Bitwise exclusive or of non-negative integers. */
  function Xor(a: nat, b: nat): nat {
    if a == 0 && b == 0 then 0 else 2 * Xor(a / 2, b / 2) + (a + b) % 2
  }

  /** The last bit and the other bits. */
  lemma XorParts(a: nat, b: nat)
    ensures Xor(a, b) / 2 == Xor(a / 2, b / 2) && Xor(a, b) % 2 == (a + b) % 2
  {
  }

  lemma SameParts(a: nat, b: nat)
    requires a / 2 == b / 2 && a % 2 == b % 2
    ensures a == b
  {
  }

  /** Digit k of the result is 1 where the digits differ. */
  lemma {:induction false} XorDigits(a: nat, b: nat, k: nat)
    ensures Xor(a, b) / Pow2(k) % 2 == (if a / Pow2(k) % 2 == b / Pow2(k) % 2 then 0 else 1)
  {
    hide Xor, Pow2;
    XorParts(a, b);
    if k == 0 {
      OneIsPow2();
    } else {
      XorDigits(a / 2, b / 2, k - 1);
      HalfDigits(a, k);
      HalfDigits(b, k);
      HalfDigits(Xor(a, b), k);
    }
  }

  lemma OneIsPow2()
    ensures Pow2(0) == 1
  {
  }

  lemma HalfDigits(a: nat, k: nat)
    requires k > 0
    ensures a / Pow2(k) == a / 2 / Pow2(k - 1)
  {
    var p := Pow2(k - 1);
    Quotients(a, 2, p);
  }

  lemma Quotients(a: nat, m: nat, p: nat)
    requires m > 0 && p > 0
    ensures m * p > 0 && a / (m * p) == a / m / p
  {
    var q := a / m / p;
    DivMod(a, m);
    DivMod(a / m, p);
    var r := a / m % p * m + a % m;
    assert a == q * (m * p) + r by {
      assert a == (q * p + a / m % p) * m + a % m;
      assert (q * p) * m == q * (m * p);
    }
    SquareBoundOf(a / m % p, a % m, p, m);
    DivModUnique(q, r, m * p);
  }

  lemma SquareBoundOf(x: nat, y: nat, p: nat, m: nat)
    requires x < p && y < m
    ensures 0 <= x * m + y < m * p
  {
    ProductGap(x, p, m);
  }

  lemma {:induction false} XorCancels(a: nat, b: nat)
    ensures Xor(Xor(a, b), b) == a
  {
    hide Xor;
    if a == 0 && b == 0 {
      XorNothing();
    } else {
      XorParts(a, b);
      XorParts(Xor(a, b), b);
      XorCancels(a / 2, b / 2);
      SameParts(Xor(Xor(a, b), b), a);
    }
  }

  lemma XorNothing()
    ensures Xor(0, 0) == 0
  {
  }

  lemma {:induction false} XorBounded(a: nat, b: nat, h: nat)
    requires a < Pow2(h) && b < Pow2(h)
    ensures Xor(a, b) < Pow2(h)
  {
    if a != 0 || b != 0 {
      assert h > 0;
      XorBounded(a / 2, b / 2, h - 1);
    }
  }

  /** Combining with the same number is injective. */
  lemma XorInjective(a: nat, b: nat, c: nat)
    requires Xor(c, a) == Xor(c, b)
    ensures a == b
  {
    XorSymmetric(a, c);
    XorSymmetric(b, c);
    XorCancels(a, c);
    XorCancels(b, c);
  }

  lemma {:induction false} XorSymmetric(a: nat, b: nat)
    ensures Xor(a, b) == Xor(b, a)
  {
    if a != 0 || b != 0 {
      XorSymmetric(a / 2, b / 2);
    }
  }
}
