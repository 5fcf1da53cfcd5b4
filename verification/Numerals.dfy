/** Numerals in a base between 2 and 16: what number printing emits, and how a reader takes it back. */
module Numerals {
  import opened Machine
  import opened Arithmetic

  const SPACE: uint8 := 32
  const ZERO: uint8 := 48
  const PLUS: uint8 := 43
  const MINUS: uint8 := 45

  type Base = b: nat | 2 <= b <= 16 witness 10

  function Pow(b: Base, n: nat): (p: nat)
    ensures p >= 1
  {
    if n == 0 then 1 else b * Pow(b, n - 1)
  }

  lemma {:induction false} PowMonotone(b: Base, m: nat, n: nat)
    requires m <= n
    ensures Pow(b, m) <= Pow(b, n)
    decreases n
  {
    if m < n {
      PowMonotone(b, m, n - 1);
    }
  }

  /** _aV2C */
  function DigitChar(d: nat): uint8
    requires d < 16
  {
    if d < 10 then ZERO + d else 65 + d - 10
  }

  predicate IsDigit(c: uint8) {
    48 <= c <= 57 || 65 <= c <= 70
  }

  function DigitValue(c: uint8): nat
    requires IsDigit(c)
  {
    if c <= 57 then c - 48 else c - 55
  }

  /** Digits are upper-case. */
  lemma DigitText(d: nat)
    requires d < 16
    ensures DigitChar(d) == UPPER_DIGITS[d] as int
  {
  }

  /** The last `w` digits of `v`, most significant first. */
  function Digits(v: nat, b: Base, w: nat): (s: seq<uint8>)
    ensures |s| == w
    decreases w
  {
    if w == 0 then [] else Digits(Quot(v, b), b, w - 1) + [DigitChar(Rem(v, b))]
  }

  lemma Regroup(x: nat, p: nat, y: nat, b: nat, r: nat)
    ensures (x * p + y) * b + r == x * (b * p) + (y * b + r)
  {
    assert (x * p + y) * b == x * p * b + y * b;
    assert x * p * b == x * (b * p);
  }

  lemma OneDigit(v: nat, b: Base)
    requires v < b
    ensures Digits(v, b, 1) == [DigitChar(v)]
  {
    assert Digits(v, b, 1) == Digits(Quot(v, b), b, 0) + [DigitChar(Rem(v, b))];
  }

  /** `first` and the digits of `rest` stand for `v`, one digit after the other. */
  lemma FrontStep(v: nat, b: Base, w: nat, first: nat, rest: nat)
    requires w >= 2 && first < 16 && Rem(v, b) == Rem(rest, b)
    requires Digits(Quot(v, b), b, w - 1) == [DigitChar(first)] + Digits(Quot(rest, b), b, w - 2)
    ensures Digits(v, b, w) == [DigitChar(first)] + Digits(rest, b, w - 1)
  {
    var d := [DigitChar(Rem(v, b))];
    assert Digits(v, b, w) == Digits(Quot(v, b), b, w - 1) + d;
    assert Digits(rest, b, w - 1) == Digits(Quot(rest, b), b, w - 2) + d;
  }

  /** Splitting off the first digit of a number and of its quotient by the base go together. */
  lemma FrontArithmetic(v: nat, b: Base, p': nat, p: nat, q: nat, r: nat)
    requires p' > 0 && p == b * p' && v == q * p + r && r < p
    ensures Quot(v, b) == q * p' + Quot(r, b) && Quot(r, b) < p' && Rem(v, b) == Rem(r, b)
  {
    var y, m := r / b, r % b;
    QuotRem(r, b);
    QuotRem(v, b);
    Remainder(r, b);
    QuotientSwap(r, b, p');
    Regroup(q, p', y, b, m);
    Euclid(v, b, q * p' + y, m);
  }

  /** When `q` is the multiple of the highest power in `v`, it is the first of `w` digits. */
  lemma {:induction false} FrontDigit(v: nat, b: Base, w: nat, p: nat, q: nat, r: nat)
    requires w > 0 && p == Pow(b, w - 1) && v == q * p + r && r < p && q < b
    ensures Digits(v, b, w) == [DigitChar(q)] + Digits(r, b, w - 1)
    decreases w
  {
    if w == 1 {
      OneDigit(v, b);
    } else {
      var p' := Pow(b, w - 2);
      FrontArithmetic(v, b, p', p, q, r);
      FrontDigit(Quot(v, b), b, w - 1, p', q, Quot(r, b));
      FrontStep(v, b, w, q, r);
    }
  }

  /** `v / d < b` exactly when `v < b * d`. */
  lemma QuotientBound(v: nat, b: nat, d: nat)
    requires d > 0
    ensures v / d < b <==> v < b * d
  {
    Remainder(v, d);
    if b * d <= v {
      QuotientAtLeast(v, d, b);
    } else {
      Distribute(v / d, b, d);
      NotPositive(v / d - b + 1, d);
    }
  }

  lemma Distribute(q: int, b: int, d: int)
    ensures (q - b + 1) * d == q * d - b * d + d
  {
  }

  /** How many digits a number has; the loop that measures the field width. */
  function NaturalWidth(v: nat, b: Base): (w: nat)
    ensures w >= 1
    decreases v
  {
    if v < b then 1 else DivSmaller(v, b); 1 + NaturalWidth(Quot(v, b), b)
  }

  lemma DivSmaller(v: nat, b: Base)
    requires v >= b
    ensures 1 <= Quot(v, b) < v
  {
    QuotRem(v, b);
    Remainder(v, b);
    QuotientAtLeast(v, b, 1);
    HalfAtMost(v / b, b);
  }

  lemma HalfAtMost(q: nat, b: nat)
    requires b >= 2
    ensures 2 * q <= q * b
  {
    assert q * (b - 2) >= 0;
  }

  /** The natural width is the least width whose power exceeds the number. */
  lemma {:induction false} NaturalWidthLeast(v: nat, b: Base, n: nat)
    requires n >= 1
    ensures NaturalWidth(v, b) <= n <==> v < Pow(b, n)
    decreases n
  {
    if n == 1 {
      assert Pow(b, 1) == b * Pow(b, 0) == b;
    } else if v >= b {
      NaturalWidthLeast(Quot(v, b), b, n - 1);
      QuotRem(v, b);
      QuotientSwap(v, b, Pow(b, n - 1));
    } else {
      PowMonotone(b, 1, n);
      assert Pow(b, 1) == b * Pow(b, 0) == b;
    }
  }

  /** `v / b < d` exactly when `v < b * d`. */
  lemma QuotientSwap(v: nat, b: nat, d: nat)
    requires b > 0
    ensures v / b < d <==> v < b * d
  {
    QuotientBound(v, d, b);
    assert d * b == b * d;
  }

  // ---------- reading back ----------

  /** Reads digits until another character or the end. */
  function ReadDigits(s: seq<uint8>, b: Base, acc: nat): nat
    decreases |s|
  {
    if s == [] || !IsDigit(s[0]) then acc else ReadDigits(s[1..], b, WithDigit(acc, b, s[0]))
  }

  /** The number `acc` with one more digit behind it. */
  function WithDigit(acc: nat, b: Base, c: uint8): nat
    requires IsDigit(c)
  {
    acc * b + DigitValue(c)
  }

  lemma ReadStep(s: seq<uint8>, b: Base, acc: nat)
    requires s != [] && IsDigit(s[0])
    ensures ReadDigits(s, b, acc) == ReadDigits(s[1..], b, WithDigit(acc, b, s[0]))
  {
  }

  function SkipSpaces(s: seq<uint8>): seq<uint8>
    decreases |s|
  {
    if s != [] && s[0] == SPACE then SkipSpaces(s[1..]) else s
  }

  /** A reader of numbers: spaces, an optional sign, digits. */
  function ReadNumber(s: seq<uint8>, b: Base): int {
    var t := SkipSpaces(s);
    if t != [] && t[0] == MINUS then 0 - ReadDigits(t[1..], b, 0)
    else if t != [] && t[0] == PLUS then ReadDigits(t[1..], b, 0)
    else ReadDigits(t, b, 0)
  }

  function Repeat(c: uint8, n: nat): (s: seq<uint8>)
    ensures |s| == n
  {
    seq(n, _ => c)
  }

  lemma {:induction false} SkipsSpaces(n: nat, s: seq<uint8>)
    requires s == [] || s[0] != SPACE
    ensures SkipSpaces(Repeat(SPACE, n) + s) == s
    decreases n
  {
    var t := Repeat(SPACE, n) + s;
    if n == 0 {
      assert t == s;
    } else {
      assert t[1..] == Repeat(SPACE, n - 1) + s;
      SkipsSpaces(n - 1, s);
    }
  }

  lemma {:induction false} ReadsZeros(n: nat, b: Base, s: seq<uint8>)
    ensures ReadDigits(Repeat(ZERO, n) + s, b, 0) == ReadDigits(s, b, 0)
    decreases n
  {
    var t := Repeat(ZERO, n) + s;
    if n == 0 {
      assert t == s;
    } else {
      assert t[1..] == Repeat(ZERO, n - 1) + s;
      ReadsZeros(n - 1, b, s);
    }
  }

  lemma DigitRoundTrip(d: nat)
    requires d < 16
    ensures IsDigit(DigitChar(d)) && DigitValue(DigitChar(d)) == d
  {
  }

  predicate AllDigits(s: seq<uint8>) {
    forall k :: 0 <= k < |s| ==> IsDigit(s[k])
  }

  lemma {:induction false} AllAreDigits(v: nat, b: Base, w: nat)
    ensures AllDigits(Digits(v, b, w))
    decreases w
  {
    if w > 0 {
      AllAreDigits(Quot(v, b), b, w - 1);
      DigitRoundTrip(Rem(v, b));
    }
  }

  /** One more digit multiplies what was read by the base and adds the digit. */
  lemma {:induction false} ReadsOneMore(s: seq<uint8>, c: uint8, rest: seq<uint8>, b: Base, acc: nat)
    requires AllDigits(s) && IsDigit(c) && (rest == [] || !IsDigit(rest[0]))
    ensures ReadDigits(s + [c] + rest, b, acc) == WithDigit(ReadDigits(s, b, acc), b, c)
    decreases |s|
  {
    var t := s + [c] + rest;
    ReadStep(t, b, acc);
    if s == [] {
      assert t[1..] == rest;
    } else {
      assert t[1..] == s[1..] + [c] + rest;
      ReadStep(s, b, acc);
      ReadsOneMore(s[1..], c, rest, b, WithDigit(acc, b, s[0]));
    }
  }

  /** Reading a wide enough numeral gives the number. */
  lemma {:induction false} ReadsNumeral(v: nat, b: Base, w: nat, rest: seq<uint8>)
    requires v < Pow(b, w) && (rest == [] || !IsDigit(rest[0]))
    ensures ReadDigits(Digits(v, b, w) + rest, b, 0) == v
    decreases w
  {
    if w == 0 {
      assert Digits(v, b, w) + rest == rest;
    } else {
      var s := Digits(Quot(v, b), b, w - 1);
      QuotRem(v, b);
      QuotientSwap(v, b, Pow(b, w - 1));
      ReadsNumeral(Quot(v, b), b, w - 1, []);
      assert s + [] == s;
      AllAreDigits(Quot(v, b), b, w - 1);
      DigitRoundTrip(Rem(v, b));
      Remainder(v, b);
      ReadsOneMore(s, DigitChar(Rem(v, b)), rest, b, 0);
    }
  }
}
