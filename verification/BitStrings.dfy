/** Numbers as bit strings, least significant bit first, as every shift register here uses them. */
module BitStrings {
  import opened Machine

  function Pow2(n: nat): (p: nat)
    ensures 1 <= p
  {
    if n == 0 then 1 else 2 * Pow2(n - 1)
  }

  function Bits(x: nat, n: nat): (bits: seq<bool>)
    ensures |bits| == n
  {
    if n == 0 then [] else [x % 2 == 1] + Bits(x / 2, n - 1)
  }

  function Number(bits: seq<bool>): nat {
    if bits == [] then 0 else (if bits[0] then 1 else 0) + 2 * Number(bits[1..])
  }

  lemma {:induction false} NumberBits(x: nat, n: nat)
    requires x < Pow2(n)
    ensures Number(Bits(x, n)) == x
  {
    if n == 0 {
    } else {
      NumberBits(x / 2, n - 1);
      assert Bits(x, n)[1..] == Bits(x / 2, n - 1);
    }
  }

  lemma {:induction false} BitsNumber(bits: seq<bool>, more: nat)
    ensures Bits(Number(bits), |bits| + more) == bits + Bits(0, more)
    decreases |bits|
  {
    if bits == [] {
    } else {
      BitsNumber(bits[1..], more);
      assert Number(bits) / 2 == Number(bits[1..]);
      assert bits + Bits(0, more) == [bits[0]] + (bits[1..] + Bits(0, more));
    }
  }

  lemma Double(p: nat, x: nat)
    ensures (2 * p) * x == 2 * (p * x)
  {
  }

  lemma {:induction false} NumberConcat(a: seq<bool>, b: seq<bool>)
    ensures Number(a + b) == Number(a) + Pow2(|a|) * Number(b)
    decreases |a|
  {
    if a == [] {
      assert a + b == b;
    } else {
      assert (a + b)[1..] == a[1..] + b;
      NumberConcat(a[1..], b);
      Double(Pow2(|a| - 1), Number(b));
    }
  }

  lemma {:induction false} NumberBound(bits: seq<bool>)
    ensures Number(bits) < Pow2(|bits|)
    decreases |bits|
  {
    if bits == [] {
    } else {
      NumberBound(bits[1..]);
    }
  }

  lemma {:induction false} Pow2Sum(m: nat, n: nat)
    ensures Pow2(m) * Pow2(n) == Pow2(m + n)
  {
    if m == 0 {
    } else {
      Pow2Sum(m - 1, n);
      assert Pow2(m) * Pow2(n) == 2 * (Pow2(m - 1) * Pow2(n));
    }
  }

  lemma Pow2Eight()
    ensures Pow2(8) == 256
  {
  }

  lemma DivideBy256(x: nat, low: nat, high: nat)
    requires x == low + 256 * high && low < 256
    ensures x % 256 == low && x / 256 == high
  {
  }

  /** Masking out the low byte and shifting by eight split a bit string after its first byte. */
  lemma LowByte(low: seq<bool>, high: seq<bool>)
    requires |low| == 8
    ensures Number(low + high) % 256 == Number(low) && Number(low + high) / 256 == Number(high)
  {
    NumberConcat(low, high);
    NumberBound(low);
    Pow2Eight();
    DivideBy256(Number(low + high), Number(low), Number(high));
  }

  /** `b & (1 << k)` for a byte. */
  predicate TestBit(b: uint8, k: nat)
    requires k < 8
  {
    match k
    case 0 => b % 2 == 1
    case 1 => b / 2 % 2 == 1
    case 2 => b / 4 % 2 == 1
    case 3 => b / 8 % 2 == 1
    case 4 => b / 16 % 2 == 1
    case 5 => b / 32 % 2 == 1
    case 6 => b / 64 % 2 == 1
    case _ => b / 128 % 2 == 1
  }

  function ByteBits(b: uint8): (bits: seq<bool>)
    ensures |bits| == 8
  {
    seq(8, k requires 0 <= k < 8 => TestBit(b, k))
  }

  lemma TopBits(b: uint8)
    ensures Number(ByteBits(b)[4..]) == b / 16
  {
    var s := ByteBits(b)[4..];
    assert s[1..][1..] == [TestBit(b, 6), TestBit(b, 7)];
    assert Number([TestBit(b, 7)]) == b / 128;
    assert [TestBit(b, 6), TestBit(b, 7)][1..] == [TestBit(b, 7)];
    assert Number(s[1..][1..]) == b / 64;
    assert Number(s[1..]) == b / 32;
  }

  lemma ByteNumber(b: uint8)
    ensures Number(ByteBits(b)) == b
  {
    var s := ByteBits(b);
    TopBits(b);
    assert s[3..][1..] == s[4..] && s[2..][1..] == s[3..] && s[1..][1..] == s[2..];
    assert Number(s[3..]) == b / 8;
    assert Number(s[2..]) == b / 4;
    assert Number(s[1..]) == b / 2;
  }

  /** The bits of a buffer, byte after byte. */
  function DataBits(bytes: seq<uint8>): (bits: seq<bool>)
    ensures |bits| == 8 * |bytes|
  {
    seq(8 * |bytes|, k requires 0 <= k < 8 * |bytes| => TestBit(bytes[k / 8], k % 8))
  }

  lemma DataBitsSlice(bytes: seq<uint8>, from: nat, to: nat)
    requires from <= to <= |bytes|
    ensures DataBits(bytes[from..to]) == DataBits(bytes)[8 * from..8 * to]
  {
  }

  lemma DataBitsSnoc(bytes: seq<uint8>, b: uint8)
    ensures DataBits(bytes + [b]) == DataBits(bytes) + ByteBits(b)
  {
  }

  /** Adding the next byte, shifted left past the earlier ones. */
  lemma NumberSnoc(bytes: seq<uint8>, b: uint8)
    ensures Number(DataBits(bytes + [b])) == Number(DataBits(bytes)) + Pow2(8 * |bytes|) * b
  {
    DataBitsSnoc(bytes, b);
    NumberConcat(DataBits(bytes), ByteBits(b));
    ByteNumber(b);
  }

  lemma {:induction false} BitsPrefix(x: nat, m: nat, n: nat)
    requires m <= n
    ensures Bits(x, m) == Bits(x, n)[..m]
  {
    if m == 0 {
    } else {
      BitsPrefix(x / 2, m - 1, n - 1);
    }
  }

  /** The leading bits of the number a bit string stands for. */
  lemma BitsOfNumber(bits: seq<bool>, m: nat)
    requires m <= |bits|
    ensures Bits(Number(bits), m) == bits[..m]
  {
    BitsNumber(bits, 0);
    BitsPrefix(Number(bits), m, |bits|);
    assert bits + Bits(0, 0) == bits;
  }

  /** Shifting by eight drops the first byte, however long the rest is. */
  lemma DropByte(bits: seq<bool>)
    ensures var n := Min(8, |bits|); Number(bits) % 256 == Number(bits[..n]) && Number(bits) / 256 == Number(bits[n..])
  {
    if 8 <= |bits| {
      assert bits == bits[..8] + bits[8..];
      LowByte(bits[..8], bits[8..]);
    } else {
      NumberBound(bits);
      Pow2Monotone(|bits|, 8);
      Pow2Eight();
      assert bits[..|bits|] == bits && bits[|bits|..] == [];
    }
  }

  lemma {:induction false} Pow2Monotone(m: nat, n: nat)
    requires m <= n
    ensures Pow2(m) <= Pow2(n)
    decreases n
  {
    if m < n {
      Pow2Monotone(m, n - 1);
    }
  }

  lemma SubSlice<T>(s: seq<T>, a: nat, b: nat, i: nat, j: nat)
    requires a <= b <= |s| && i <= j <= b - a
    ensures s[a..b][i..j] == s[a + i..a + j]
  {
    forall k | 0 <= k < j - i ensures s[a..b][i..j][k] == s[a + i..a + j][k] {
      assert s[a..b][i + k] == s[a + i + k];
    }
  }
}
