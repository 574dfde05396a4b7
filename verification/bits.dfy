/** The bitwise operators of C on unsigned words, as functions on naturals. */
module Bits {

  function Pow2(n: nat): (p: nat)
    ensures p > 0
  {
    if n == 0 then 1 else 2 * Pow2(n - 1)
  }

  function And(a: nat, b: nat): nat {
    if a == 0 || b == 0 then 0
    else (if a % 2 == 1 && b % 2 == 1 then 1 else 0) + 2 * And(a / 2, b / 2)
  }

  function Or(a: nat, b: nat): nat {
    if a == 0 then b
    else if b == 0 then a
    else (if a % 2 == 1 || b % 2 == 1 then 1 else 0) + 2 * Or(a / 2, b / 2)
  }

  function Xor(a: nat, b: nat): nat {
    if a == 0 then b
    else if b == 0 then a
    else (if a % 2 != b % 2 then 1 else 0) + 2 * Xor(a / 2, b / 2)
  }

  function Shl(a: nat, n: nat): nat {
    a * Pow2(n)
  }

  function Shr(a: nat, n: nat): nat {
    QuotientNonNegative(a, Pow2(n));
    a / Pow2(n)
  }

  lemma QuotientNonNegative(a: nat, d: nat)
    requires d > 0
    ensures a / d >= 0
  {
  }

  lemma MulAtLeast(k: int, d: int)
    requires k >= 1 && d >= 0
    ensures k * d >= d
  {
  }

  lemma MulDistributes(q: int, k: int, d: int)
    ensures (q - k) * d == q * d - k * d
  {
  }

  lemma DivModUnique(a: int, d: int, q: int, r: int)
    requires d > 0 && 0 <= r < d && a == q * d + r
    ensures a / d == q && a % d == r
  {
    var k := a / d;
    assert a == k * d + a % d;
    MulDistributes(q, k, d);
    if q > k {
      MulAtLeast(q - k, d);
    } else if q < k {
      MulDistributes(k, q, d);
      MulAtLeast(k - q, d);
    }
  }

  lemma Halve(a: nat, p: nat)
    requires p > 0
    ensures a / (2 * p) == (a / 2) / p
    ensures a % (2 * p) == a % 2 + 2 * ((a / 2) % p)
  {
    var q, r := (a / 2) / p, (a / 2) % p;
    assert a / 2 == q * p + r;
    assert a == q * (2 * p) + (a % 2 + 2 * r);
    DivModUnique(a, 2 * p, q, a % 2 + 2 * r);
  }

  lemma DoubleProduct(a: int, b: int)
    ensures (2 * a) * b == 2 * (a * b)
  {
  }

  lemma {:induction false} Pow2Sum(m: nat, n: nat)
    ensures Pow2(m + n) == Pow2(m) * Pow2(n)
  {
    if m != 0 {
      Pow2Sum(m - 1, n);
      DoubleProduct(Pow2(m - 1), Pow2(n));
    }
  }

  lemma ShlStep(a: nat, n: nat)
    requires n > 0
    ensures Shl(a, n) == 2 * Shl(a, n - 1)
  {
  }

  lemma ShrStep(a: nat, n: nat)
    requires n > 0
    ensures Shr(a, n) == Shr(a / 2, n - 1)
  {
    Halve(a, Pow2(n - 1));
  }

  lemma AndOdd(a: nat, half: nat)
    ensures And(a, 2 * half + 1) == a % 2 + 2 * And(a / 2, half)
  {
  }

  lemma AndEven(a: nat, half: nat)
    ensures And(a, 2 * half) == 2 * And(a / 2, half)
  {
  }

  lemma OrEven(a: nat, half: nat)
    ensures Or(a, 2 * half) == a % 2 + 2 * Or(a / 2, half)
  {
  }

  /** The n low bits, bit by bit. */
  function Low(a: nat, n: nat): nat {
    if n == 0 then 0 else a % 2 + 2 * Low(a / 2, n - 1)
  }

  lemma {:induction false} AndLow(a: nat, n: nat)
    ensures And(a, Pow2(n) - 1) == Low(a, n)
  {
    if n != 0 {
      AndLow(a / 2, n - 1);
      AndOdd(a, Pow2(n - 1) - 1);
    }
  }

  lemma {:induction false} LowIsRemainder(a: nat, n: nat)
    ensures Low(a, n) == a % Pow2(n)
  {
    if n != 0 {
      LowIsRemainder(a / 2, n - 1);
      Halve(a, Pow2(n - 1));
    }
  }

  /** Masking with n ones keeps the remainder modulo 2^n. */
  lemma AndMask(a: nat, n: nat)
    ensures And(a, Pow2(n) - 1) == a % Pow2(n)
  {
    AndLow(a, n);
    LowIsRemainder(a, n);
  }

  /** A mask whose n low bits are clear drops those bits and masks the rest. */
  lemma {:induction false} AndShifted(a: nat, b: nat, n: nat)
    ensures And(a, Shl(b, n)) == Shl(And(Shr(a, n), b), n)
  {
    if n != 0 {
      calc {
        And(a, Shl(b, n));
        { ShlStep(b, n); AndEven(a, Shl(b, n - 1)); }
        2 * And(a / 2, Shl(b, n - 1));
        { AndShifted(a / 2, b, n - 1); }
        2 * Shl(And(Shr(a / 2, n - 1), b), n - 1);
        { ShrStep(a, n); ShlStep(And(Shr(a, n), b), n); }
        Shl(And(Shr(a, n), b), n);
      }
    }
  }

  /** Or of words that share no bit is their sum. */
  lemma {:induction false} OrDisjoint(a: nat, b: nat, n: nat)
    requires a < Pow2(n)
    ensures Or(a, Shl(b, n)) == a + Shl(b, n)
  {
    if n != 0 {
      calc {
        Or(a, Shl(b, n));
        { ShlStep(b, n); OrEven(a, Shl(b, n - 1)); }
        a % 2 + 2 * Or(a / 2, Shl(b, n - 1));
        { OrDisjoint(a / 2, b, n - 1); }
        a % 2 + 2 * (a / 2 + Shl(b, n - 1));
        { ShlStep(b, n); }
        a + Shl(b, n);
      }
    }
  }
}
