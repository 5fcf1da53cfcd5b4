/** Bytes as pairs of hexadecimal digits. */
module HexCodec {
  import opened Machine

  /** hexdigits[n], lower case. */
  function HexDigit(n: byte): byte
    requires n < 16
  {
    if n < 10 then 48 + n else 87 + n
  }

  /** The digit's value by wrapping 8-bit subtractions; right for both cases, arbitrary for other characters. */
  function UnhexDigit(hex: byte): byte {
    var tmp := hex - 48;
    var upper := if tmp > 9 then tmp - 7 else tmp;
    if upper > 16 then upper - 32 else upper
  }

  lemma DigitRoundTrip(n: byte)
    requires n < 16
    ensures UnhexDigit(HexDigit(n)) == n
    ensures n >= 10 ==> UnhexDigit(55 + n) == n
  {
  }

  /** The digits written are lower-case, and digits of either case are read. */
  lemma DigitTexts(n: byte, hex: byte)
    requires n < 16
    ensures HexDigit(n) as int == LOWER_DIGITS[n] as int
    ensures hex as int == LOWER_DIGITS[n] as int || hex as int == UPPER_DIGITS[n] as int ==> UnhexDigit(hex) == n
  {
  }

  /** Every byte is written with its high digit first. */
  lemma HexText(bytes: seq<byte>, k: nat)
    requires k < |bytes|
    ensures Hexified(bytes)[2 * k] as int == LOWER_DIGITS[bytes[k] as int / 16] as int
    ensures Hexified(bytes)[2 * k + 1] as int == LOWER_DIGITS[bytes[k] as int % 16] as int
  {
    Nibbles(bytes[k]);
    DigitTexts(bytes[k] >> 4, 0);
    DigitTexts(bytes[k] & 0xF, 0);
  }

  lemma Nibbles(b: byte)
    ensures (b >> 4) as int == b as int / 16 && (b & 0xF) as int == b as int % 16
  {
  }

  function HighDigit(b: byte): byte {
    HexDigit(b >> 4)
  }

  function LowDigit(b: byte): byte {
    HexDigit(b & 0xF)
  }

  function FromDigits(hi: byte, lo: byte): byte {
    (UnhexDigit(hi) << 4) | UnhexDigit(lo)
  }

  function Hexified(bytes: seq<byte>): (hex: seq<byte>)
    ensures |hex| == 2 * |bytes|
  {
    seq(2 * |bytes|, i requires 0 <= i < 2 * |bytes| => if i % 2 == 0 then HighDigit(bytes[i / 2]) else LowDigit(bytes[i / 2]))
  }

  function Unhexified(hex: seq<byte>): (bytes: seq<byte>)
    ensures |bytes| == |hex| / 2
  {
    seq(|hex| / 2, i requires 0 <= i < |hex| / 2 => FromDigits(hex[2 * i], hex[2 * i + 1]))
  }

  lemma ByteRoundTrip(b: byte)
    ensures FromDigits(HighDigit(b), LowDigit(b)) == b
  {
    DigitRoundTrip(b >> 4);
    DigitRoundTrip(b & 0xF);
  }

  /** unhexify undoes hexify on every byte string. */
  lemma HexRoundTrip(bytes: seq<byte>)
    ensures Unhexified(Hexified(bytes)) == bytes
  {
    forall i | 0 <= i < |bytes| ensures Unhexified(Hexified(bytes))[i] == bytes[i] {
      ByteRoundTrip(bytes[i]);
    }
  }

  /** Writes the digits of `buf` and a terminating zero from `at` on. */
  method Hexify(hex: array<byte>, at: nat, buf: seq<byte>)
    requires at + 2 * |buf| + 1 <= hex.Length
    modifies hex
    ensures hex[at..at + 2 * |buf|] == Hexified(buf) && hex[at + 2 * |buf|] == 0
    ensures forall i :: 0 <= i < hex.Length && !(at <= i <= at + 2 * |buf|) ==> hex[i] == old(hex[i])
  {
    var tmp, k := at, 0;
    while k < |buf|
      invariant k <= |buf| && tmp == at + 2 * k
      invariant forall i :: 0 <= i < 2 * k ==> hex[at + i] == Hexified(buf)[i]
      invariant forall i :: 0 <= i < hex.Length && !(at <= i < tmp) ==> hex[i] == old(hex[i])
    {
      hex[tmp] := HighDigit(buf[k]);
      hex[tmp + 1] := LowDigit(buf[k]);
      tmp := tmp + 2;
      k := k + 1;
    }
    hex[tmp] := 0;
  }

  /** Reads `size` digit pairs. */
  method Unhexify(buf: array<byte>, hex: seq<byte>, size: nat)
    requires size <= buf.Length && 2 * size <= |hex|
    modifies buf
    ensures buf[..size] == Unhexified(hex[..2 * size])
    ensures forall i :: size <= i < buf.Length ==> buf[i] == old(buf[i])
  {
    for k := 0 to size
      invariant forall i :: 0 <= i < k ==> buf[i] == Unhexified(hex[..2 * size])[i]
      invariant forall i :: k <= i < buf.Length ==> buf[i] == old(buf[i])
    {
      buf[k] := UnhexDigit(hex[2 * k]) << 4;
      buf[k] := buf[k] | UnhexDigit(hex[2 * k + 1]);
    }
  }
}
