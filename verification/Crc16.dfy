/**
 The CRC-16 that guards the stored settings: a table-driven byte loop, proved to be the division by
 the reflected polynomial 0xA001, which notices every change inside two neighbouring bytes.
 */
module Crc16 {
  import opened Machine

  const POLYNOMIAL: bv16 := 0xA001

  function Xor(x: bv16, y: bv16): bv16 {
    x ^ y
  }

  /** One step of the division, lowest bit first. */
  function Shift1(x: bv16): bv16 {
    if x & 1 != 0 then Xor(x >> 1, POLYNOMIAL) else x >> 1
  }

  function Shift(x: bv16, n: nat): bv16 {
    if n == 0 then x else Shift1(Shift(x, n - 1))
  }

  const BYTE_BITS: nat := 8

  function Low(b: byte): bv16 {
    b as bv16
  }

  /** The reference: a byte enters at the bottom and eight bits are divided out. */
  function ByteStep(crc: bv16, b: byte): bv16 {
    Shift(Xor(crc, Low(b)), BYTE_BITS)
  }

  function Fold(crc: bv16, bytes: seq<byte>): bv16 {
    if bytes == [] then crc else ByteStep(Fold(crc, bytes[..|bytes| - 1]), bytes[|bytes| - 1])
  }

  // ---------- the table ----------

  /** crc_table, in rows of sixteen. */
  function Row(hi: byte): (row: seq<bv16>)
    requires hi < 16
    ensures |row| == 16
  {
    if hi == 0 then
      [0x0000, 0xC0C1, 0xC181, 0x0140, 0xC301, 0x03C0, 0x0280, 0xC241,
       0xC601, 0x06C0, 0x0780, 0xC741, 0x0500, 0xC5C1, 0xC481, 0x0440]
    else if hi == 1 then
      [0xCC01, 0x0CC0, 0x0D80, 0xCD41, 0x0F00, 0xCFC1, 0xCE81, 0x0E40,
       0x0A00, 0xCAC1, 0xCB81, 0x0B40, 0xC901, 0x09C0, 0x0880, 0xC841]
    else if hi == 2 then
      [0xD801, 0x18C0, 0x1980, 0xD941, 0x1B00, 0xDBC1, 0xDA81, 0x1A40,
       0x1E00, 0xDEC1, 0xDF81, 0x1F40, 0xDD01, 0x1DC0, 0x1C80, 0xDC41]
    else if hi == 3 then
      [0x1400, 0xD4C1, 0xD581, 0x1540, 0xD701, 0x17C0, 0x1680, 0xD641,
       0xD201, 0x12C0, 0x1380, 0xD341, 0x1100, 0xD1C1, 0xD081, 0x1040]
    else if hi == 4 then
      [0xF001, 0x30C0, 0x3180, 0xF141, 0x3300, 0xF3C1, 0xF281, 0x3240,
       0x3600, 0xF6C1, 0xF781, 0x3740, 0xF501, 0x35C0, 0x3480, 0xF441]
    else if hi == 5 then
      [0x3C00, 0xFCC1, 0xFD81, 0x3D40, 0xFF01, 0x3FC0, 0x3E80, 0xFE41,
       0xFA01, 0x3AC0, 0x3B80, 0xFB41, 0x3900, 0xF9C1, 0xF881, 0x3840]
    else if hi == 6 then
      [0x2800, 0xE8C1, 0xE981, 0x2940, 0xEB01, 0x2BC0, 0x2A80, 0xEA41,
       0xEE01, 0x2EC0, 0x2F80, 0xEF41, 0x2D00, 0xEDC1, 0xEC81, 0x2C40]
    else if hi == 7 then
      [0xE401, 0x24C0, 0x2580, 0xE541, 0x2700, 0xE7C1, 0xE681, 0x2640,
       0x2200, 0xE2C1, 0xE381, 0x2340, 0xE101, 0x21C0, 0x2080, 0xE041]
    else if hi == 8 then
      [0xA001, 0x60C0, 0x6180, 0xA141, 0x6300, 0xA3C1, 0xA281, 0x6240,
       0x6600, 0xA6C1, 0xA781, 0x6740, 0xA501, 0x65C0, 0x6480, 0xA441]
    else if hi == 9 then
      [0x6C00, 0xACC1, 0xAD81, 0x6D40, 0xAF01, 0x6FC0, 0x6E80, 0xAE41,
       0xAA01, 0x6AC0, 0x6B80, 0xAB41, 0x6900, 0xA9C1, 0xA881, 0x6840]
    else if hi == 10 then
      [0x7800, 0xB8C1, 0xB981, 0x7940, 0xBB01, 0x7BC0, 0x7A80, 0xBA41,
       0xBE01, 0x7EC0, 0x7F80, 0xBF41, 0x7D00, 0xBDC1, 0xBC81, 0x7C40]
    else if hi == 11 then
      [0xB401, 0x74C0, 0x7580, 0xB541, 0x7700, 0xB7C1, 0xB681, 0x7640,
       0x7200, 0xB2C1, 0xB381, 0x7340, 0xB101, 0x71C0, 0x7080, 0xB041]
    else if hi == 12 then
      [0x5000, 0x90C1, 0x9181, 0x5140, 0x9301, 0x53C0, 0x5280, 0x9241,
       0x9601, 0x56C0, 0x5780, 0x9741, 0x5500, 0x95C1, 0x9481, 0x5440]
    else if hi == 13 then
      [0x9C01, 0x5CC0, 0x5D80, 0x9D41, 0x5F00, 0x9FC1, 0x9E81, 0x5E40,
       0x5A00, 0x9AC1, 0x9B81, 0x5B40, 0x9901, 0x59C0, 0x5880, 0x9841]
    else if hi == 14 then
      [0x8801, 0x48C0, 0x4980, 0x8941, 0x4B00, 0x8BC1, 0x8A81, 0x4A40,
       0x4E00, 0x8EC1, 0x8F81, 0x4F40, 0x8D01, 0x4DC0, 0x4C80, 0x8C41]
    else
      [0x4400, 0x84C1, 0x8581, 0x4540, 0x8701, 0x47C0, 0x4680, 0x8641,
       0x8201, 0x42C0, 0x4380, 0x8341, 0x4100, 0x81C1, 0x8081, 0x4040]
  }

  function Table(i: byte): bv16 {
    Row(i >> 4)[(i & 0xF) as int]
  }

  /** Eight steps written out. */
  function Shift8(x: bv16): bv16 {
    Shift1(Shift1(Shift1(Shift1(Shift1(Shift1(Shift1(Shift1(x))))))))
  }

  lemma EightSteps(x: bv16)
    ensures Shift(x, 8) == Shift8(x)
  {
    assert Shift(x, 0) == x;
    assert Shift(x, 1) == Shift1(Shift(x, 0));
    assert Shift(x, 2) == Shift1(Shift(x, 1));
    assert Shift(x, 3) == Shift1(Shift(x, 2));
    assert Shift(x, 4) == Shift1(Shift(x, 3));
    assert Shift(x, 5) == Shift1(Shift(x, 4));
    assert Shift(x, 6) == Shift1(Shift(x, 5));
    assert Shift(x, 7) == Shift1(Shift(x, 6));
    assert Shift(x, 8) == Shift1(Shift(x, 7));
  }

  lemma TableRow0(i: byte)
    requires i >> 4 == 0
    ensures Table(i) == Shift8(Low(i))
  {
  }

  lemma TableRow1(i: byte)
    requires i >> 4 == 1
    ensures Table(i) == Shift8(Low(i))
  {
  }

  lemma TableRow2(i: byte)
    requires i >> 4 == 2
    ensures Table(i) == Shift8(Low(i))
  {
  }

  lemma TableRow3(i: byte)
    requires i >> 4 == 3
    ensures Table(i) == Shift8(Low(i))
  {
  }

  lemma TableRow4(i: byte)
    requires i >> 4 == 4
    ensures Table(i) == Shift8(Low(i))
  {
  }

  lemma TableRow5(i: byte)
    requires i >> 4 == 5
    ensures Table(i) == Shift8(Low(i))
  {
  }

  lemma TableRow6(i: byte)
    requires i >> 4 == 6
    ensures Table(i) == Shift8(Low(i))
  {
  }

  lemma TableRow7(i: byte)
    requires i >> 4 == 7
    ensures Table(i) == Shift8(Low(i))
  {
  }

  lemma TableRow8(i: byte)
    requires i >> 4 == 8
    ensures Table(i) == Shift8(Low(i))
  {
  }

  lemma TableRow9(i: byte)
    requires i >> 4 == 9
    ensures Table(i) == Shift8(Low(i))
  {
  }

  lemma TableRow10(i: byte)
    requires i >> 4 == 10
    ensures Table(i) == Shift8(Low(i))
  {
  }

  lemma TableRow11(i: byte)
    requires i >> 4 == 11
    ensures Table(i) == Shift8(Low(i))
  {
  }

  lemma TableRow12(i: byte)
    requires i >> 4 == 12
    ensures Table(i) == Shift8(Low(i))
  {
  }

  lemma TableRow13(i: byte)
    requires i >> 4 == 13
    ensures Table(i) == Shift8(Low(i))
  {
  }

  lemma TableRow14(i: byte)
    requires i >> 4 == 14
    ensures Table(i) == Shift8(Low(i))
  {
  }

  lemma TableRow15(i: byte)
    requires i >> 4 == 15
    ensures Table(i) == Shift8(Low(i))
  {
  }

  lemma HighestRow(i: byte)
    requires i >> 4 >= 15
    ensures i >> 4 == 15
  {
  }

  /** Every table entry is its index divided out. */
  lemma TableEntry(i: byte)
    ensures Table(i) == Shift(Low(i), BYTE_BITS)
  {
    EightSteps(Low(i));
    match i >> 4
    case 0 => TableRow0(i);
    case 1 => TableRow1(i);
    case 2 => TableRow2(i);
    case 3 => TableRow3(i);
    case 4 => TableRow4(i);
    case 5 => TableRow5(i);
    case 6 => TableRow6(i);
    case 7 => TableRow7(i);
    case 8 => TableRow8(i);
    case 9 => TableRow9(i);
    case 10 => TableRow10(i);
    case 11 => TableRow11(i);
    case 12 => TableRow12(i);
    case 13 => TableRow13(i);
    case 14 => TableRow14(i);
    case _ => HighestRow(i); TableRow15(i);
  }

  // ---------- the division is linear and injective ----------

  lemma XorShift(x: bv16, y: bv16)
    ensures (x ^ y) >> 1 == (x >> 1) ^ (y >> 1)
  {
  }

  lemma LowBit(x: bv16, y: bv16)
    ensures (x ^ y) & 1 == (x & 1) ^ (y & 1)
    ensures x & 1 == 0 || x & 1 == 1
  {
  }

  lemma XorLeft(x: bv16, y: bv16, p: bv16)
    ensures (x ^ p) ^ y == (x ^ y) ^ p
  {
  }

  lemma XorBoth(x: bv16, y: bv16, p: bv16)
    ensures (x ^ p) ^ (y ^ p) == x ^ y
  {
  }

  lemma XorCommutes(x: bv16, y: bv16)
    ensures Xor(x, y) == Xor(y, x)
  {
  }

  lemma Shift1LinearBoth(x: bv16, y: bv16)
    requires x & 1 != 0 && y & 1 != 0
    ensures Shift1(Xor(x, y)) == Xor(Shift1(x), Shift1(y))
  {
    XorShift(x, y);
    LowBit(x, y);
    LowBit(y, x);
    XorBoth(x >> 1, y >> 1, POLYNOMIAL);
  }

  lemma Shift1LinearLeft(x: bv16, y: bv16)
    requires x & 1 != 0 && y & 1 == 0
    ensures Shift1(Xor(x, y)) == Xor(Shift1(x), Shift1(y))
  {
    XorShift(x, y);
    LowBit(x, y);
    XorLeft(x >> 1, y >> 1, POLYNOMIAL);
  }

  lemma Shift1LinearNeither(x: bv16, y: bv16)
    requires x & 1 == 0 && y & 1 == 0
    ensures Shift1(Xor(x, y)) == Xor(Shift1(x), Shift1(y))
  {
    XorShift(x, y);
    LowBit(x, y);
  }

  lemma Shift1Linear(x: bv16, y: bv16)
    ensures Shift1(Xor(x, y)) == Xor(Shift1(x), Shift1(y))
  {
    XorCommutes(x, y);
    XorCommutes(Shift1(x), Shift1(y));
    if x & 1 != 0 && y & 1 != 0 {
      Shift1LinearBoth(x, y);
    } else if x & 1 != 0 {
      Shift1LinearLeft(x, y);
    } else if y & 1 != 0 {
      Shift1LinearLeft(y, x);
    } else {
      Shift1LinearNeither(x, y);
    }
  }

  lemma {:induction false} ShiftLinear(x: bv16, y: bv16, n: nat)
    ensures Shift(Xor(x, y), n) == Xor(Shift(x, n), Shift(y, n))
    decreases n
  {
    if n == 0 {
    } else {
      ShiftLinear(x, y, n - 1);
      Shift1Linear(Shift(x, n - 1), Shift(y, n - 1));
    }
  }

  /** The polynomial has the top bit, so the bit that falls out can be read off the result. */
  lemma Shift1Injective(x: bv16, y: bv16)
    requires Shift1(x) == Shift1(y)
    ensures x == y
  {
  }

  lemma {:induction false} ShiftInjective(x: bv16, y: bv16, n: nat)
    requires Shift(x, n) == Shift(y, n)
    ensures x == y
    decreases n
  {
    if n == 0 {
    } else {
      Shift1Injective(Shift(x, n - 1), Shift(y, n - 1));
      ShiftInjective(x, y, n - 1);
    }
  }

  lemma Shift8High(x: bv16)
    requires x & 0xFF == 0
    ensures Shift8(x) == x >> 8
  {
  }

  /** A value without its low byte is only moved down. */
  lemma ShiftHigh(x: bv16)
    requires x & 0xFF == 0
    ensures Shift(x, BYTE_BITS) == x >> 8
  {
    EightSteps(x);
    Shift8High(x);
  }

  // ---------- the byte loop ----------

  function TableIndex(crc: bv16, b: byte): byte {
    b ^ ((crc & 0xFF) as byte)
  }

  lemma SplitBytes(crc: bv16, b: byte)
    ensures Xor(crc, Low(b)) == Xor(crc & 0xFF00, Low(TableIndex(crc, b)))
    ensures (crc & 0xFF00) & 0xFF == 0 && (crc & 0xFF00) >> 8 == crc >> 8
  {
  }

  /** One round of the table loop is one step of the reference. */
  lemma CalcIsByteStep(crc: bv16, b: byte)
    ensures Xor(crc >> 8, Table(TableIndex(crc, b))) == ByteStep(crc, b)
  {
    SplitBytes(crc, b);
    ShiftLinear(crc & 0xFF00, Low(TableIndex(crc, b)), BYTE_BITS);
    ShiftHigh(crc & 0xFF00);
    TableEntry(TableIndex(crc, b));
  }

  /** crc16_function */
  method Crc(bytes: seq<byte>) returns (crc: bv16)
    ensures crc == Fold(0xFFFF, bytes)
  {
    crc := 0xFFFF;
    assert bytes[..0] == [];
    for i := 0 to |bytes|
      invariant crc == Fold(0xFFFF, bytes[..i])
    {
      var index := TableIndex(crc, bytes[i]);
      CalcIsByteStep(crc, bytes[i]);
      FoldNext(0xFFFF, bytes, i);
      crc := crc >> 8;
      crc := Xor(crc, Table(index));
    }
    assert bytes[..|bytes|] == bytes;
  }

  /** The digits '1' to '9'. */
  const CHECK_TEXT: seq<byte> := [0x31, 0x32, 0x33, 0x34, 0x35, 0x36, 0x37, 0x38, 0x39]

  /** The running values of the division of these digits. */
  const CHECK_VALUES: seq<bv16> :=
    [0xFFFF, 0x947E, 0xF595, 0x7A75, 0x30BA,
     0xA471, 0x32E4, 0x9D73, 0x37DD, 0x4B37]

  lemma CheckStep(before: bv16, b: byte, after: bv16)
    requires after == Xor(before >> 8, Table(TableIndex(before, b)))
    ensures ByteStep(before, b) == after
  {
    CalcIsByteStep(before, b);
  }

  lemma FirstSteps(n: nat)
    requires n < 5
    ensures ByteStep(CHECK_VALUES[n], CHECK_TEXT[n]) == CHECK_VALUES[n + 1]
  {
    CheckStep(CHECK_VALUES[n], CHECK_TEXT[n], CHECK_VALUES[n + 1]);
  }

  lemma LastSteps(n: nat)
    requires 5 <= n < 9
    ensures ByteStep(CHECK_VALUES[n], CHECK_TEXT[n]) == CHECK_VALUES[n + 1]
  {
    CheckStep(CHECK_VALUES[n], CHECK_TEXT[n], CHECK_VALUES[n + 1]);
  }

  lemma {:induction false} CheckPrefix(text: seq<byte>, values: seq<bv16>, n: nat)
    requires text == CHECK_TEXT && values == CHECK_VALUES && n <= 9
    ensures Fold(0xFFFF, text[..n]) == values[n]
    decreases n
  {
    if n == 0 {
      assert text[..0] == [];
    } else {
      CheckPrefix(text, values, n - 1);
      if n <= 5 {
        FirstSteps(n - 1);
      } else {
        LastSteps(n - 1);
      }
      FoldNext(0xFFFF, text, n - 1);
    }
  }

  /** The published check value of this CRC, known as CRC-16/MODBUS. */
  lemma CheckValue()
    ensures Fold(0xFFFF, CHECK_TEXT) == 0x4B37
  {
    CheckPrefix(CHECK_TEXT, CHECK_VALUES, 9);
    assert CHECK_TEXT[..9] == CHECK_TEXT;
  }

  lemma FoldNext(crc: bv16, bytes: seq<byte>, i: nat)
    requires i < |bytes|
    ensures Fold(crc, bytes[..i + 1]) == ByteStep(Fold(crc, bytes[..i]), bytes[i])
  {
    assert bytes[..i + 1][..i] == bytes[..i];
  }

  // ---------- what the CRC notices ----------

  lemma XorInjective(c: bv16, d: bv16, x: bv16)
    requires Xor(c, x) == Xor(d, x)
    ensures c == d
  {
  }

  lemma {:induction false} FoldInjective(c: bv16, d: bv16, bytes: seq<byte>)
    requires Fold(c, bytes) == Fold(d, bytes)
    ensures c == d
    decreases |bytes|
  {
    if bytes != [] {
      var before, b := bytes[..|bytes| - 1], bytes[|bytes| - 1];
      ShiftInjective(Xor(Fold(c, before), Low(b)), Xor(Fold(d, before), Low(b)), BYTE_BITS);
      XorInjective(Fold(c, before), Fold(d, before), Low(b));
      FoldInjective(c, d, before);
    }
  }

  lemma {:induction false} FoldConcat(crc: bv16, a: seq<byte>, b: seq<byte>)
    ensures Fold(crc, a + b) == Fold(Fold(crc, a), b)
    decreases |b|
  {
    if b == [] {
      assert a + b == a;
    } else {
      assert (a + b)[..|a + b| - 1] == a + b[..|b| - 1];
      FoldConcat(crc, a, b[..|b| - 1]);
    }
  }

  /** Two bytes as the 16-bit word they enter as. */
  function Pair(b0: byte, b1: byte): bv16 {
    Low(b0) | (Low(b1) << 8)
  }

  lemma PairSplit(c: bv16, b0: byte, b1: byte)
    ensures Xor(c, Pair(b0, b1)) == Xor(Xor(c, Low(b0)), Low(b1) << 8)
  {
  }

  lemma HighByte(b: byte)
    ensures (Low(b) << 8) & 0xFF == 0 && (Low(b) << 8) >> 8 == Low(b)
  {
  }

  lemma PairInjective(a0: byte, a1: byte, b0: byte, b1: byte)
    requires Pair(a0, a1) == Pair(b0, b1)
    ensures a0 == b0 && a1 == b1
  {
  }

  lemma XorInjectiveRight(c: bv16, x: bv16, y: bv16)
    requires Xor(c, x) == Xor(c, y)
    ensures x == y
  {
  }

  /** The second byte waits in the high half while the first is divided out. */
  lemma TwoSteps(c: bv16, b0: byte, b1: byte)
    ensures Fold(c, [b0, b1]) == Shift(Shift(Xor(c, Pair(b0, b1)), BYTE_BITS), BYTE_BITS)
  {
    var high := Low(b1) << 8;
    assert [b0, b1][..1] == [b0] && [b0][..0] == [];
    assert Fold(c, [b0]) == ByteStep(Fold(c, []), b0);
    PairSplit(c, b0, b1);
    ShiftLinear(Xor(c, Low(b0)), high, BYTE_BITS);
    HighByte(b1);
    ShiftHigh(high);
  }

  lemma PairStep(c: bv16, a0: byte, a1: byte, b0: byte, b1: byte)
    requires Fold(c, [a0, a1]) == Fold(c, [b0, b1])
    ensures a0 == b0 && a1 == b1
  {
    var x, y := Xor(c, Pair(a0, a1)), Xor(c, Pair(b0, b1));
    TwoSteps(c, a0, a1);
    TwoSteps(c, b0, b1);
    ShiftInjective(Shift(x, BYTE_BITS), Shift(y, BYTE_BITS), BYTE_BITS);
    ShiftInjective(x, y, BYTE_BITS);
    XorInjectiveRight(c, Pair(a0, a1), Pair(b0, b1));
    PairInjective(a0, a1, b0, b1);
  }

  /** Two images of the same length that differ only inside two neighbouring bytes have different CRCs. */
  lemma PairIsNoticed(before: seq<byte>, a0: byte, a1: byte, b0: byte, b1: byte, after: seq<byte>)
    requires a0 != b0 || a1 != b1
    ensures Fold(0xFFFF, before + [a0, a1] + after) != Fold(0xFFFF, before + [b0, b1] + after)
  {
    var c := Fold(0xFFFF, before);
    var a, b := [a0, a1], [b0, b1];
    FoldConcat(0xFFFF, before + a, after);
    FoldConcat(0xFFFF, before + b, after);
    FoldConcat(0xFFFF, before, a);
    FoldConcat(0xFFFF, before, b);
    if Fold(Fold(c, a), after) == Fold(Fold(c, b), after) {
      FoldInjective(Fold(c, a), Fold(c, b), after);
      PairStep(c, a0, a1, b0, b1);
    }
  }
}
