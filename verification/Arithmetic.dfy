/** Integer division facts the solver does not find on its own. */
module Arithmetic {
  lemma Quotient(a: int, b: int, q: int)
    requires 0 < b && q * b <= a < q * b + b
    ensures a / b == q
  {
    assert a == (a / b) * b + a % b;
    OnlyZeroIsSmall(a / b - q, b);
  }

  lemma OnlyZeroIsSmall(k: int, b: int)
    requires -b < k * b < b
    ensures k == 0
  {
  }

  lemma QuotientAtLeast(a: int, b: int, q: int)
    requires 0 < b && q * b <= a
    ensures q <= a / b
  {
    assert a == (a / b) * b + a % b;
    NotPositive(q - a / b, b);
  }

  lemma NotPositive(k: int, b: int)
    requires 0 < b && k * b < b
    ensures k <= 0
  {
  }

  /** Quotient and remainder are unique. */
  lemma Euclid(v: nat, d: nat, q: nat, r: nat)
    requires d > 0 && v == q * d + r && r < d
    ensures v / d == q && v % d == r
  {
    Quotient(v, d, q);
    Remainder(v, d);
  }

  lemma Remainder(v: nat, d: nat)
    requires d > 0
    ensures v == (v / d) * d + v % d
  {
  }

  /** Division by repeated subtraction, and its remainder: `v / d` and `v % d`, see QuotRem. */
  function Quot(v: nat, d: nat): nat
    requires d > 0
    decreases v
  {
    if v < d then 0 else 1 + Quot(v - d, d)
  }

  function Rem(v: nat, d: nat): (r: nat)
    requires d > 0
    ensures r < d
    decreases v
  {
    if v < d then v else Rem(v - d, d)
  }

  lemma {:induction false} QuotRem(v: nat, d: nat)
    requires d > 0
    ensures Quot(v, d) == v / d && Rem(v, d) == v % d
    decreases v
  {
    if v < d {
      ZeroTimes(d);
      Euclid(v, d, 0, v);
    } else {
      QuotRem(v - d, d);
      Remainder(v - d, d);
      OneMore((v - d) / d, d);
      Euclid(v, d, 1 + (v - d) / d, (v - d) % d);
    }
  }

  /** Quotient and remainder are unique, in terms of repeated subtraction. */
  lemma EuclidQuot(v: nat, d: nat, q: nat, r: nat)
    requires d > 0 && v == q * d + r && r < d
    ensures Quot(v, d) == q && Rem(v, d) == r
  {
    QuotRem(v, d);
    Euclid(v, d, q, r);
  }

  lemma Recompose(v: nat, d: nat)
    requires d > 0
    ensures v == Quot(v, d) * d + Rem(v, d)
  {
    QuotRem(v, d);
    Remainder(v, d);
  }

  lemma ZeroTimes(d: nat)
    ensures 0 * d == 0
  {
  }

  lemma OneMore(q: nat, d: nat)
    ensures (1 + q) * d == q * d + d
  {
  }

  lemma NotNegative(q: nat, d: nat)
    ensures q * d >= 0
  {
  }

  lemma Grows(x: nat, y: nat, d: nat)
    requires x >= y
    ensures x * d >= y * d
  {
  }
}
