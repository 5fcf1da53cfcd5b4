/**
 CRC-32 of target memory in its two forms: a table-driven byte loop, and a word-at-a-time hardware
 unit followed by a bitwise tail. Both are proved to compute the same division by the polynomial.
 */
module Crc32 {
  import opened Machine

  const POLYNOMIAL: bv32 := 0x04C1_1DB7

  function Xor(x: bv32, y: bv32): bv32 {
    x ^ y
  }

  /** One step of the division by the polynomial: the top bit decides whether to subtract it. */
  function Shift1(x: bv32): bv32 {
    if x & 0x8000_0000 != 0 then Xor(x << 1, POLYNOMIAL) else x << 1
  }

  function Shift(x: bv32, n: nat): bv32 {
    if n == 0 then x else Shift1(Shift(x, n - 1))
  }

  const BYTE_BITS: nat := 8

  /** A byte in the top eight bits. */
  function Top(b: byte): bv32 {
    (b as bv32) << 24
  }

  /** The reference: a byte enters at the top and eight bits are divided out. */
  function ByteStep(crc: bv32, b: byte): bv32 {
    Shift(Xor(crc, Top(b)), BYTE_BITS)
  }

  function Fold(crc: bv32, bytes: seq<byte>): bv32 {
    if bytes == [] then crc else ByteStep(Fold(crc, bytes[..|bytes| - 1]), bytes[|bytes| - 1])
  }

  // ---------- the table ----------

  /** crc32_table, in rows of sixteen. */
  function Row(hi: byte): (row: seq<bv32>)
    requires hi < 16
    ensures |row| == 16
  {
    if hi == 0 then
      [0x00000000, 0x04C11DB7, 0x09823B6E, 0x0D4326D9, 0x130476DC, 0x17C56B6B, 0x1A864DB2, 0x1E475005,
       0x2608EDB8, 0x22C9F00F, 0x2F8AD6D6, 0x2B4BCB61, 0x350C9B64, 0x31CD86D3, 0x3C8EA00A, 0x384FBDBD]
    else if hi == 1 then
      [0x4C11DB70, 0x48D0C6C7, 0x4593E01E, 0x4152FDA9, 0x5F15ADAC, 0x5BD4B01B, 0x569796C2, 0x52568B75,
       0x6A1936C8, 0x6ED82B7F, 0x639B0DA6, 0x675A1011, 0x791D4014, 0x7DDC5DA3, 0x709F7B7A, 0x745E66CD]
    else if hi == 2 then
      [0x9823B6E0, 0x9CE2AB57, 0x91A18D8E, 0x95609039, 0x8B27C03C, 0x8FE6DD8B, 0x82A5FB52, 0x8664E6E5,
       0xBE2B5B58, 0xBAEA46EF, 0xB7A96036, 0xB3687D81, 0xAD2F2D84, 0xA9EE3033, 0xA4AD16EA, 0xA06C0B5D]
    else if hi == 3 then
      [0xD4326D90, 0xD0F37027, 0xDDB056FE, 0xD9714B49, 0xC7361B4C, 0xC3F706FB, 0xCEB42022, 0xCA753D95,
       0xF23A8028, 0xF6FB9D9F, 0xFBB8BB46, 0xFF79A6F1, 0xE13EF6F4, 0xE5FFEB43, 0xE8BCCD9A, 0xEC7DD02D]
    else if hi == 4 then
      [0x34867077, 0x30476DC0, 0x3D044B19, 0x39C556AE, 0x278206AB, 0x23431B1C, 0x2E003DC5, 0x2AC12072,
       0x128E9DCF, 0x164F8078, 0x1B0CA6A1, 0x1FCDBB16, 0x018AEB13, 0x054BF6A4, 0x0808D07D, 0x0CC9CDCA]
    else if hi == 5 then
      [0x7897AB07, 0x7C56B6B0, 0x71159069, 0x75D48DDE, 0x6B93DDDB, 0x6F52C06C, 0x6211E6B5, 0x66D0FB02,
       0x5E9F46BF, 0x5A5E5B08, 0x571D7DD1, 0x53DC6066, 0x4D9B3063, 0x495A2DD4, 0x44190B0D, 0x40D816BA]
    else if hi == 6 then
      [0xACA5C697, 0xA864DB20, 0xA527FDF9, 0xA1E6E04E, 0xBFA1B04B, 0xBB60ADFC, 0xB6238B25, 0xB2E29692,
       0x8AAD2B2F, 0x8E6C3698, 0x832F1041, 0x87EE0DF6, 0x99A95DF3, 0x9D684044, 0x902B669D, 0x94EA7B2A]
    else if hi == 7 then
      [0xE0B41DE7, 0xE4750050, 0xE9362689, 0xEDF73B3E, 0xF3B06B3B, 0xF771768C, 0xFA325055, 0xFEF34DE2,
       0xC6BCF05F, 0xC27DEDE8, 0xCF3ECB31, 0xCBFFD686, 0xD5B88683, 0xD1799B34, 0xDC3ABDED, 0xD8FBA05A]
    else if hi == 8 then
      [0x690CE0EE, 0x6DCDFD59, 0x608EDB80, 0x644FC637, 0x7A089632, 0x7EC98B85, 0x738AAD5C, 0x774BB0EB,
       0x4F040D56, 0x4BC510E1, 0x46863638, 0x42472B8F, 0x5C007B8A, 0x58C1663D, 0x558240E4, 0x51435D53]
    else if hi == 9 then
      [0x251D3B9E, 0x21DC2629, 0x2C9F00F0, 0x285E1D47, 0x36194D42, 0x32D850F5, 0x3F9B762C, 0x3B5A6B9B,
       0x0315D626, 0x07D4CB91, 0x0A97ED48, 0x0E56F0FF, 0x1011A0FA, 0x14D0BD4D, 0x19939B94, 0x1D528623]
    else if hi == 10 then
      [0xF12F560E, 0xF5EE4BB9, 0xF8AD6D60, 0xFC6C70D7, 0xE22B20D2, 0xE6EA3D65, 0xEBA91BBC, 0xEF68060B,
       0xD727BBB6, 0xD3E6A601, 0xDEA580D8, 0xDA649D6F, 0xC423CD6A, 0xC0E2D0DD, 0xCDA1F604, 0xC960EBB3]
    else if hi == 11 then
      [0xBD3E8D7E, 0xB9FF90C9, 0xB4BCB610, 0xB07DABA7, 0xAE3AFBA2, 0xAAFBE615, 0xA7B8C0CC, 0xA379DD7B,
       0x9B3660C6, 0x9FF77D71, 0x92B45BA8, 0x9675461F, 0x8832161A, 0x8CF30BAD, 0x81B02D74, 0x857130C3]
    else if hi == 12 then
      [0x5D8A9099, 0x594B8D2E, 0x5408ABF7, 0x50C9B640, 0x4E8EE645, 0x4A4FFBF2, 0x470CDD2B, 0x43CDC09C,
       0x7B827D21, 0x7F436096, 0x7200464F, 0x76C15BF8, 0x68860BFD, 0x6C47164A, 0x61043093, 0x65C52D24]
    else if hi == 13 then
      [0x119B4BE9, 0x155A565E, 0x18197087, 0x1CD86D30, 0x029F3D35, 0x065E2082, 0x0B1D065B, 0x0FDC1BEC,
       0x3793A651, 0x3352BBE6, 0x3E119D3F, 0x3AD08088, 0x2497D08D, 0x2056CD3A, 0x2D15EBE3, 0x29D4F654]
    else if hi == 14 then
      [0xC5A92679, 0xC1683BCE, 0xCC2B1D17, 0xC8EA00A0, 0xD6AD50A5, 0xD26C4D12, 0xDF2F6BCB, 0xDBEE767C,
       0xE3A1CBC1, 0xE760D676, 0xEA23F0AF, 0xEEE2ED18, 0xF0A5BD1D, 0xF464A0AA, 0xF9278673, 0xFDE69BC4]
    else
      [0x89B8FD09, 0x8D79E0BE, 0x803AC667, 0x84FBDBD0, 0x9ABC8BD5, 0x9E7D9662, 0x933EB0BB, 0x97FFAD0C,
       0xAFB010B1, 0xAB710D06, 0xA6322BDF, 0xA2F33668, 0xBCB4666D, 0xB8757BDA, 0xB5365D03, 0xB1F740B4]
  }

  function Table(i: byte): bv32 {
    Row(i >> 4)[(i & 0xF) as int]
  }

  /** Eight steps written out. */
  function Shift8(x: bv32): bv32 {
    Shift1(Shift1(Shift1(Shift1(Shift1(Shift1(Shift1(Shift1(x))))))))
  }

  lemma TableBlock0(i: byte)
    requires i < 32
    ensures Table(i) == Shift8((i as bv32) << 24)
  {
  }

  lemma TableBlock1(i: byte)
    requires 32 <= i < 64
    ensures Table(i) == Shift8((i as bv32) << 24)
  {
  }

  lemma TableBlock2(i: byte)
    requires 64 <= i < 96
    ensures Table(i) == Shift8((i as bv32) << 24)
  {
  }

  lemma TableBlock3(i: byte)
    requires 96 <= i < 128
    ensures Table(i) == Shift8((i as bv32) << 24)
  {
  }

  lemma TableBlock4(i: byte)
    requires 128 <= i < 160
    ensures Table(i) == Shift8((i as bv32) << 24)
  {
  }

  lemma TableBlock5(i: byte)
    requires 160 <= i < 192
    ensures Table(i) == Shift8((i as bv32) << 24)
  {
  }

  lemma TableBlock6(i: byte)
    requires 192 <= i < 224
    ensures Table(i) == Shift8((i as bv32) << 24)
  {
  }

  lemma TableBlock7(i: byte)
    requires 224 <= i
    ensures Table(i) == Shift8((i as bv32) << 24)
  {
  }

  lemma EightSteps(x: bv32)
    ensures Shift(x, 8) == Shift8(x)
  {
    assert Shift(x, 0) == x;
    assert Shift(x, 1) == Shift1(Shift(x, 0));
    assert Shift(x, 2) == Shift1(Shift(x, 1));
    assert Shift(x, 3) == Shift1(Shift(x, 2));
    assert Shift(x, 4) == Shift1(Shift(x, 3));
    assert Shift(x, 5) == Shift1(Shift(x, 4));
    assert Shift(x, 6) == Shift1(Shift(x, 5));
    assert Shift(x, 7) == Shift1(Shift(x, 6));
    assert Shift(x, 8) == Shift1(Shift(x, 7));
  }

  /** Every table entry is its index divided out. */
  lemma TableEntry(i: byte)
    ensures Table(i) == Shift(Top(i), BYTE_BITS)
  {
    EightSteps(Top(i));
    if i < 32 {
      TableBlock0(i);
    } else if i < 64 {
      TableBlock1(i);
    } else if i < 96 {
      TableBlock2(i);
    } else if i < 128 {
      TableBlock3(i);
    } else if i < 160 {
      TableBlock4(i);
    } else if i < 192 {
      TableBlock5(i);
    } else if i < 224 {
      TableBlock6(i);
    } else {
      TableBlock7(i);
    }
  }

  // ---------- the division is linear and injective ----------

  lemma XorShift(x: bv32, y: bv32)
    ensures (x ^ y) << 1 == (x << 1) ^ (y << 1)
  {
  }

  lemma TopBit(x: bv32, y: bv32)
    ensures (x ^ y) & 0x8000_0000 == (x & 0x8000_0000) ^ (y & 0x8000_0000)
    ensures x & 0x8000_0000 == 0 || x & 0x8000_0000 == 0x8000_0000
  {
  }

  lemma XorLeft(x: bv32, y: bv32, p: bv32)
    ensures (x ^ p) ^ y == (x ^ y) ^ p
  {
  }

  lemma XorBoth(x: bv32, y: bv32, p: bv32)
    ensures (x ^ p) ^ (y ^ p) == x ^ y
  {
  }

  lemma Shift1LinearBoth(x: bv32, y: bv32)
    requires x & 0x8000_0000 != 0 && y & 0x8000_0000 != 0
    ensures Shift1(Xor(x, y)) == Xor(Shift1(x), Shift1(y))
  {
    XorShift(x, y);
    TopBit(x, y);
    TopBit(y, x);
    XorBoth(x << 1, y << 1, POLYNOMIAL);
  }

  lemma Shift1LinearLeft(x: bv32, y: bv32)
    requires x & 0x8000_0000 != 0 && y & 0x8000_0000 == 0
    ensures Shift1(Xor(x, y)) == Xor(Shift1(x), Shift1(y))
  {
    XorShift(x, y);
    TopBit(x, y);
    XorLeft(x << 1, y << 1, POLYNOMIAL);
  }

  lemma Shift1LinearNeither(x: bv32, y: bv32)
    requires x & 0x8000_0000 == 0 && y & 0x8000_0000 == 0
    ensures Shift1(Xor(x, y)) == Xor(Shift1(x), Shift1(y))
  {
    XorShift(x, y);
    TopBit(x, y);
  }

  lemma XorCommutes(x: bv32, y: bv32)
    ensures Xor(x, y) == Xor(y, x)
  {
  }

  lemma Shift1Linear(x: bv32, y: bv32)
    ensures Shift1(Xor(x, y)) == Xor(Shift1(x), Shift1(y))
  {
    XorCommutes(x, y);
    XorCommutes(Shift1(x), Shift1(y));
    if x & 0x8000_0000 != 0 && y & 0x8000_0000 != 0 {
      Shift1LinearBoth(x, y);
    } else if x & 0x8000_0000 != 0 {
      Shift1LinearLeft(x, y);
    } else if y & 0x8000_0000 != 0 {
      Shift1LinearLeft(y, x);
    } else {
      Shift1LinearNeither(x, y);
    }
  }

  lemma {:induction false} ShiftLinear(x: bv32, y: bv32, n: nat)
    ensures Shift(Xor(x, y), n) == Xor(Shift(x, n), Shift(y, n))
    decreases n
  {
    if n == 0 {
    } else {
      ShiftLinear(x, y, n - 1);
      Shift1Linear(Shift(x, n - 1), Shift(y, n - 1));
    }
  }

  /** The polynomial is odd, so only zero steps to zero. */
  lemma OnlyZeroVanishes(z: bv32)
    requires Shift1(z) == 0
    ensures z == 0
  {
    assert (z << 1) & 1 == 0;
  }

  lemma XorZero(x: bv32, y: bv32)
    ensures Xor(x, y) == 0 <==> x == y
  {
    XorAgain(x, y);
    if Xor(x, y) == 0 {
      XorNothing(x);
    } else if x == y {
      XorSame(x);
    }
  }

  lemma XorAgain(x: bv32, y: bv32)
    ensures Xor(x, Xor(x, y)) == y
  {
  }

  lemma XorNothing(x: bv32)
    ensures Xor(x, 0) == x
  {
  }

  lemma XorSame(x: bv32)
    ensures Xor(x, x) == 0
  {
  }

  lemma Shift1Injective(x: bv32, y: bv32)
    requires Shift1(x) == Shift1(y)
    ensures x == y
  {
    Shift1Linear(x, y);
    XorZero(Shift1(x), Shift1(y));
    OnlyZeroVanishes(Xor(x, y));
    XorZero(x, y);
  }

  lemma {:induction false} ShiftInjective(x: bv32, y: bv32, n: nat)
    requires Shift(x, n) == Shift(y, n)
    ensures x == y
    decreases n
  {
    if n == 0 {
    } else {
      Shift1Injective(Shift(x, n - 1), Shift(y, n - 1));
      ShiftInjective(x, y, n - 1);
    }
  }

  lemma {:induction false} ShiftSum(x: bv32, m: nat, n: nat)
    ensures Shift(x, m + n) == Shift(Shift(x, m), n)
    decreases n
  {
    if n == 0 {
    } else {
      ShiftSum(x, m, n - 1);
    }
  }

  lemma Shift8Low(x: bv32)
    requires x & 0xFF00_0000 == 0
    ensures Shift8(x) == x << 8
  {
  }

  /** A value without its top byte is only moved up. */
  lemma ShiftLow(x: bv32)
    requires x & 0xFF00_0000 == 0
    ensures Shift(x, 8) == x << 8
  {
    EightSteps(x);
    Shift8Low(x);
  }

  // ---------- the table form ----------

  function TableIndex(crc: bv32, data: byte): byte {
    (((crc >> 24) ^ (data as bv32)) & 255) as byte
  }

  /** crc32_calc */
  function Calc(crc: bv32, data: byte): bv32 {
    Xor(crc << 8, Table(TableIndex(crc, data)))
  }

  lemma LowBytes(crc: bv32)
    ensures (crc & 0x00FF_FFFF) << 8 == crc << 8 && (crc & 0x00FF_FFFF) & 0xFF00_0000 == 0
  {
  }

  /** What enters the division splits into the table index at the top and the rest below it. */
  lemma SplitIndex(crc: bv32, d: bv32)
    requires d < 256
    ensures crc ^ (d << 24) == ((((crc >> 24) ^ d) & 255) << 24) ^ (crc & 0x00FF_FFFF)
  {
  }

  lemma Widen(x: bv32)
    requires x < 256
    ensures Top(x as byte) == x << 24
  {
  }

  lemma IndexRange(x: bv32)
    ensures x & 255 < 256
  {
  }

  lemma IndexTop(crc: bv32, data: byte)
    ensures Top(TableIndex(crc, data)) == (((crc >> 24) ^ (data as bv32)) & 255) << 24
  {
    IndexRange((crc >> 24) ^ (data as bv32));
    Widen(((crc >> 24) ^ (data as bv32)) & 255);
  }

  lemma Entering(crc: bv32, data: byte, i: bv32)
    requires i == (((crc >> 24) ^ (data as bv32)) & 255) << 24
    ensures Xor(crc, Top(data)) == Xor(i, crc & 0x00FF_FFFF)
  {
    SplitIndex(crc, data as bv32);
  }

  lemma EnteringIndex(crc: bv32, data: byte)
    ensures Xor(crc, Top(data)) == Xor(Top(TableIndex(crc, data)), crc & 0x00FF_FFFF)
  {
    IndexTop(crc, data);
    Entering(crc, data, Top(TableIndex(crc, data)));
  }

  /** The table look-up is one byte of the division, for every running value and byte. */
  lemma CalcIsByteStep(crc: bv32, data: byte)
    ensures Calc(crc, data) == ByteStep(crc, data)
  {
    var top, low := Top(TableIndex(crc, data)), crc & 0x00FF_FFFF;
    LowBytes(crc);
    EnteringIndex(crc, data);
    ShiftLinear(top, low, BYTE_BITS);
    ShiftLow(low);
    TableEntry(TableIndex(crc, data));
    XorCommutes(Shift(top, BYTE_BITS), low << 8);
  }

  // ---------- the hardware unit ----------

  const WORD_BITS: nat := 32

  /** Writing a word to the CRC unit: it is added in and thirty-two bits are divided out. */
  function Unit(crc: bv32, word: bv32): bv32 {
    Shift(Xor(crc, word), WORD_BITS)
  }

  /** The word with the given bytes, the first one at the top. */
  function Word(b0: byte, b1: byte, b2: byte, b3: byte): bv32 {
    ((b0 as bv32) << 24) | ((b1 as bv32) << 16) | ((b2 as bv32) << 8) | (b3 as bv32)
  }

  /** __builtin_bswap32 */
  function Bswap32(x: bv32): bv32 {
    (x << 24) | ((x & 0xFF00) << 8) | ((x >> 8) & 0xFF00) | (x >> 24)
  }

  lemma SwappedLoad(b0: byte, b1: byte, b2: byte, b3: byte)
    ensures Bswap32(Word(b3, b2, b1, b0)) == Word(b0, b1, b2, b3)
  {
  }

  lemma WordTop(b0: byte, b1: byte, b2: byte, b3: byte)
    ensures Word(b0, b1, b2, b3) & 0xFF00_0000 == Top(b0)
    ensures Word(b0, b1, b2, b3) << 8 == Word(b1, b2, b3, 0)
  {
  }

  lemma XorHalves(w: bv32)
    ensures Xor(w & 0xFF00_0000, w & 0x00FF_FFFF) == w
  {
  }

  lemma XorAssociates(x: bv32, y: bv32, z: bv32)
    ensures Xor(x, Xor(y, z)) == Xor(Xor(x, y), z)
  {
  }

  /** Eight bits of the unit's work take in the top byte of the word and move the rest up. */
  lemma AbsorbByte(c: bv32, w: bv32, b: byte)
    requires w & 0xFF00_0000 == Top(b)
    ensures Shift(Xor(c, w), BYTE_BITS) == Xor(ByteStep(c, b), w << 8)
  {
    var low := w & 0x00FF_FFFF;
    LowBytes(w);
    XorHalves(w);
    XorAssociates(c, Top(b), low);
    ShiftLinear(Xor(c, Top(b)), low, BYTE_BITS);
    ShiftLow(low);
  }

  lemma AbsorbFirst(c: bv32, b0: byte, b1: byte, b2: byte, b3: byte, n: nat)
    ensures Shift(Xor(c, Word(b0, b1, b2, b3)), BYTE_BITS + n) == Shift(Xor(ByteStep(c, b0), Word(b1, b2, b3, 0)), n)
  {
    var w := Word(b0, b1, b2, b3);
    WordTop(b0, b1, b2, b3);
    AbsorbByte(c, w, b0);
    ShiftSum(Xor(c, w), BYTE_BITS, n);
  }

  lemma AbsorbTwo(c: bv32, b0: byte, b1: byte, b2: byte, b3: byte, n: nat)
    ensures Shift(Xor(c, Word(b0, b1, b2, b3)), 2 * BYTE_BITS + n)
         == Shift(Xor(ByteStep(ByteStep(c, b0), b1), Word(b2, b3, 0, 0)), n)
  {
    AbsorbFirst(c, b0, b1, b2, b3, BYTE_BITS + n);
    AbsorbFirst(ByteStep(c, b0), b1, b2, b3, 0, n);
  }

  /** The unit does the work of four bytes, first byte first. */
  lemma UnitIsFourBytes(c: bv32, b0: byte, b1: byte, b2: byte, b3: byte)
    ensures Unit(c, Word(b0, b1, b2, b3)) == ByteStep(ByteStep(ByteStep(ByteStep(c, b0), b1), b2), b3)
  {
    var c2 := ByteStep(ByteStep(c, b0), b1);
    AbsorbTwo(c, b0, b1, b2, b3, 2 * BYTE_BITS);
    AbsorbTwo(c2, b2, b3, 0, 0, 0);
    NoWord(ByteStep(ByteStep(c2, b2), b3));
  }

  lemma NoWord(c: bv32)
    ensures Xor(c, Word(0, 0, 0, 0)) == c
  {
  }

  // ---------- both forms over target memory ----------

  /** Target memory and the addresses at which a read fails. */
  datatype Target = Target(mem: nat -> byte, unreadable: nat -> bool)

  function Memory(t: Target, base: nat, len: nat): (bytes: seq<byte>)
    ensures |bytes| == len
  {
    seq(len, i requires 0 <= i < len => t.mem(AddU32(base, i)))
  }

  predicate Readable(t: Target, base: nat, len: nat) {
    forall i: nat :: i < len ==> !t.unreadable(AddU32(base, i))
  }

  lemma Continued(t: Target, base: nat, done: nat, len: nat, n: nat)
    requires done + n <= len
    ensures Memory(t, AddU32(base, done), n) == Memory(t, base, len)[done..done + n]
    ensures Readable(t, base, done) && Readable(t, AddU32(base, done), n) <==> Readable(t, base, done + n)
  {
    forall i: nat | i < n ensures AddU32(AddU32(base, done), i) == AddU32(base, done + i) {
      AddTwice(base, done, i);
    }
    if Readable(t, base, done) && Readable(t, AddU32(base, done), n) {
      forall i: nat | i < done + n ensures !t.unreadable(AddU32(base, i)) {
        if done <= i {
          assert !t.unreadable(AddU32(AddU32(base, done), i - done));
        }
      }
    }
    if Readable(t, base, done + n) {
      forall i: nat | i < n ensures !t.unreadable(AddU32(AddU32(base, done), i)) {
        assert !t.unreadable(AddU32(base, done + i));
      }
    }
  }

  /** The digits '1' to '9'. */
  const CHECK_TEXT: seq<byte> := [0x31, 0x32, 0x33, 0x34, 0x35, 0x36, 0x37, 0x38, 0x39]

  /** The running values of the division of these digits. */
  const CHECK_VALUES: seq<bv32> :=
    [0xFFFFFFFF, 0x9EFBCF93, 0x3FEC5E6A, 0xD952F164, 0xA695C4AA,
     0xBD9AB747, 0xD8F06C8F, 0x0D8A14C4, 0x49E3C2FB, 0x0376E6E7]

  lemma CheckStep(before: bv32, b: byte, after: bv32)
    requires after == Calc(before, b)
    ensures ByteStep(before, b) == after
  {
    CalcIsByteStep(before, b);
  }

  lemma FirstSteps(n: nat)
    requires n < 2
    ensures ByteStep(CHECK_VALUES[n], CHECK_TEXT[n]) == CHECK_VALUES[n + 1]
  {
    CheckStep(CHECK_VALUES[n], CHECK_TEXT[n], CHECK_VALUES[n + 1]);
  }

  lemma SecondSteps(n: nat)
    requires 2 <= n < 4
    ensures ByteStep(CHECK_VALUES[n], CHECK_TEXT[n]) == CHECK_VALUES[n + 1]
  {
    CheckStep(CHECK_VALUES[n], CHECK_TEXT[n], CHECK_VALUES[n + 1]);
  }

  lemma ThirdSteps(n: nat)
    requires 4 <= n < 6
    ensures ByteStep(CHECK_VALUES[n], CHECK_TEXT[n]) == CHECK_VALUES[n + 1]
  {
    CheckStep(CHECK_VALUES[n], CHECK_TEXT[n], CHECK_VALUES[n + 1]);
  }

  lemma FourthSteps(n: nat)
    requires 6 <= n < 8
    ensures ByteStep(CHECK_VALUES[n], CHECK_TEXT[n]) == CHECK_VALUES[n + 1]
  {
    CheckStep(CHECK_VALUES[n], CHECK_TEXT[n], CHECK_VALUES[n + 1]);
  }

  lemma LastStep(n: nat)
    requires 8 <= n < 9
    ensures ByteStep(CHECK_VALUES[n], CHECK_TEXT[n]) == CHECK_VALUES[n + 1]
  {
    CheckStep(CHECK_VALUES[n], CHECK_TEXT[n], CHECK_VALUES[n + 1]);
  }

  lemma {:induction false} CheckPrefix(text: seq<byte>, values: seq<bv32>, n: nat)
    requires text == CHECK_TEXT && values == CHECK_VALUES && n <= 9
    ensures Fold(SEED, text[..n]) == values[n]
    decreases n
  {
    if n == 0 {
      assert text[..0] == [];
    } else {
      CheckPrefix(text, values, n - 1);
      if n <= 2 {
        FirstSteps(n - 1);
      } else if n <= 4 {
        SecondSteps(n - 1);
      } else if n <= 6 {
        ThirdSteps(n - 1);
      } else if n <= 8 {
        FourthSteps(n - 1);
      } else {
        LastStep(n - 1);
      }
      FoldNext(SEED, text, n - 1);
    }
  }

  /** The published check value of this CRC, known as CRC-32/MPEG-2. */
  lemma CheckValue()
    ensures Fold(SEED, CHECK_TEXT) == 0x0376E6E7
  {
    CheckPrefix(CHECK_TEXT, CHECK_VALUES, 9);
    assert CHECK_TEXT[..9] == CHECK_TEXT;
  }

  lemma FoldNext(crc: bv32, bytes: seq<byte>, i: nat)
    requires i < |bytes|
    ensures Fold(crc, bytes[..i + 1]) == ByteStep(Fold(crc, bytes[..i]), bytes[i])
  {
    assert bytes[..i + 1][..i] == bytes[..i];
  }

  lemma FoldFour(crc: bv32, bytes: seq<byte>, i: nat)
    requires i + 4 <= |bytes|
    ensures Fold(crc, bytes[..i + 4]) == Unit(Fold(crc, bytes[..i]), Word(bytes[i], bytes[i + 1], bytes[i + 2], bytes[i + 3]))
  {
    FoldNext(crc, bytes, i);
    FoldNext(crc, bytes, i + 1);
    FoldNext(crc, bytes, i + 2);
    FoldNext(crc, bytes, i + 3);
    UnitIsFourBytes(Fold(crc, bytes[..i]), bytes[i], bytes[i + 1], bytes[i + 2], bytes[i + 3]);
  }

  const SEED: bv32 := 0xFFFF_FFFF

  /** target_mem_read: fails when any address of the range does. */
  method TargetMemRead(t: Target, base: nat, n: nat) returns (bytes: seq<byte>, failed: bool)
    ensures failed <==> !Readable(t, base, n)
    ensures !failed ==> bytes == Memory(t, base, n)
  {
    bytes, failed := [], false;
    for i := 0 to n
      invariant !failed && bytes == Memory(t, base, i) && Readable(t, base, i)
    {
      if t.unreadable(AddU32(base, i)) {
        return [], true;
      }
      bytes := bytes + [t.mem(AddU32(base, i))];
    }
  }

  /** The inner loop of the table form. */
  method CalcBytes(crc: bv32, bytes: seq<byte>) returns (r: bv32)
    ensures r == Fold(crc, bytes)
  {
    r := crc;
    for i := 0 to |bytes|
      invariant r == Fold(crc, bytes[..i])
    {
      FoldNext(crc, bytes, i);
      CalcIsByteStep(r, bytes[i]);
      r := Calc(r, bytes[i]);
    }
    assert bytes[..|bytes|] == bytes;
  }

  lemma {:induction false} FoldConcat(crc: bv32, a: seq<byte>, b: seq<byte>)
    ensures Fold(crc, a + b) == Fold(Fold(crc, a), b)
    decreases |b|
  {
    if b == [] {
      assert a + b == a;
    } else {
      assert (a + b)[..|a + b| - 1] == a + b[..|b| - 1];
      FoldConcat(crc, a, b[..|b| - 1]);
    }
  }

  /** After `done` bytes: where the next read starts, and the running value. */
  ghost predicate Folded(t: Target, base: nat, len: nat, done: nat, at: nat, crc: bv32)
    requires done <= len
  {
    && at == AddU32(base, done)
    && crc == Fold(SEED, Memory(t, base, len)[..done])
    && Readable(t, base, done)
  }

  /** One chunk: a failed read means the whole range cannot be read; otherwise the chunk is folded in. */
  lemma ChunkStep(t: Target, base: nat, len: nat, done: nat, at: nat, crc: bv32, n: nat)
    requires done + n <= len && Folded(t, base, len, done, at, crc)
    ensures !Readable(t, at, n) ==> !Readable(t, base, len)
    ensures Readable(t, at, n) ==> Folded(t, base, len, done + n, AddU32(at, n), Fold(crc, Memory(t, at, n)))
  {
    Continued(t, base, done, len, n);
    if Readable(t, base, len) {
      Shorter(t, base, done + n, len);
    }
    AddTwice(base, done, n);
    FoldSlice(Memory(t, base, len), done, n);
  }

  lemma AddTwice(base: nat, done: nat, n: nat)
    ensures AddU32(AddU32(base, done), n) == AddU32(base, done + n)
  {
  }

  lemma FoldSlice(all: seq<byte>, done: nat, n: nat)
    requires done + n <= |all|
    ensures Fold(SEED, all[..done + n]) == Fold(Fold(SEED, all[..done]), all[done..done + n])
  {
    FoldConcat(SEED, all[..done], all[done..done + n]);
    assert all[..done] + all[done..done + n] == all[..done + n];
  }

  lemma Shorter(t: Target, base: nat, n: nat, len: nat)
    requires n <= len && Readable(t, base, len)
    ensures Readable(t, base, n)
  {
  }

  lemma FoldedAll(t: Target, base: nat, len: nat, at: nat, crc: bv32)
    requires Folded(t, base, len, len, at, crc)
    ensures Readable(t, base, len) && crc == Fold(SEED, Memory(t, base, len))
  {
    assert Memory(t, base, len)[..len] == Memory(t, base, len);
  }

  /** The table form, with the buffer size of either build. */
  method GenericCrc32Table(t: Target, base: nat, len: nat, bufferSize: nat) returns (status: int, res: bv32)
    requires 1 <= bufferSize && base < TWO_TO_THE_32
    ensures status == if Readable(t, base, len) then 0 else -1
    ensures status == 0 ==> res == Fold(SEED, Memory(t, base, len))
  {
    var crc, left: nat, at := SEED, len, base;
    ghost var done: nat := 0;
    while left != 0
      invariant done + left == len && Folded(t, base, len, done, at, crc)
    {
      var n := Min(bufferSize, left);
      var bytes, failed := TargetMemRead(t, at, n);
      ChunkStep(t, base, len, done, at, crc, n);
      if failed {
        return -1, 0;
      }
      crc := CalcBytes(crc, bytes);
      at := AddU32(at, n);
      left := left - n;
      done := done + n;
    }
    FoldedAll(t, base, len, at, crc);
    return 0, crc;
  }

  /** The four bytes at `i` as a little-endian processor loads them, in reverse order. */
  function SwappedWord(bytes: seq<byte>, i: nat): bv32
    requires i + 4 <= |bytes|
  {
    Bswap32(Word(bytes[i + 3], bytes[i + 2], bytes[i + 1], bytes[i]))
  }

  lemma FoldSwapped(crc: bv32, bytes: seq<byte>, i: nat)
    requires i + 4 <= |bytes|
    ensures Fold(crc, bytes[..i + 4]) == Unit(Fold(crc, bytes[..i]), SwappedWord(bytes, i))
  {
    FoldFour(crc, bytes, i);
    SwappedLoad(bytes[i], bytes[i + 1], bytes[i + 2], bytes[i + 3]);
  }

  /** How many bytes to read next: whole words, within the buffer of 128 bytes. */
  function WholeWords(left: nat): (n: nat)
    ensures n % 4 == 0 && n <= left && (3 < left ==> 0 < n)
  {
    Min(128, left) - Min(128, left) % 4
  }

  /** The inner loop of the hardware form: words loaded, swapped and written to the unit. */
  method UnitWords(crc: bv32, bytes: seq<byte>) returns (dr: bv32)
    requires |bytes| % 4 == 0
    ensures dr == Fold(crc, bytes)
  {
    dr := crc;
    var i := 0;
    while i < |bytes|
      invariant i % 4 == 0 && i <= |bytes|
      invariant dr == Fold(crc, bytes[..i])
    {
      FoldSwapped(crc, bytes, i);
      dr := Unit(dr, SwappedWord(bytes, i));
      i := i + 4;
    }
    assert bytes[..|bytes|] == bytes;
  }

  /** The tail of the hardware form: the last bytes bit by bit. */
  method TailBytes(dr: bv32, bytes: seq<byte>) returns (crc: bv32)
    ensures crc == Fold(dr, bytes)
  {
    crc := dr;
    for k := 0 to |bytes|
      invariant crc == Fold(dr, bytes[..k])
    {
      FoldNext(dr, bytes, k);
      crc := Xor(crc, Top(bytes[k]));
      ghost var entered := crc;
      for i := 0 to BYTE_BITS
        invariant crc == Shift(entered, i)
      {
        crc := if crc & 0x8000_0000 != 0 then Xor(crc << 1, POLYNOMIAL) else crc << 1;
      }
    }
    assert bytes[..|bytes|] == bytes;
  }

  /** The hardware form: same status and same value as the table form, for every memory, base and length. */
  method GenericCrc32Hardware(t: Target, base: nat, len: nat) returns (status: int, res: bv32)
    requires base < TWO_TO_THE_32
    ensures status == if Readable(t, base, len) then 0 else -1
    ensures status == 0 ==> res == Fold(SEED, Memory(t, base, len))
  {
    var dr, left: nat, at := SEED, len, base;
    ghost var done: nat := 0;
    while left > 3
      invariant done + left == len && Folded(t, base, len, done, at, dr)
    {
      var n := WholeWords(left);
      var bytes, failed := TargetMemRead(t, at, n);
      ChunkStep(t, base, len, done, at, dr, n);
      if failed {
        return -1, 0;
      }
      dr := UnitWords(dr, bytes);
      at := AddU32(at, n);
      left := left - n;
      done := done + n;
    }
    var bytes, failed := TargetMemRead(t, at, left);
    ChunkStep(t, base, len, done, at, dr, left);
    if failed {
      return -1, 0;
    }
    var crc := TailBytes(dr, bytes);
    FoldedAll(t, base, len, AddU32(at, left), crc);
    return 0, crc;
  }

  // ---------- error detection ----------

  lemma ByteStepInjective(c: bv32, d: bv32, b: byte)
    requires ByteStep(c, b) == ByteStep(d, b)
    ensures c == d
  {
    ShiftInjective(Xor(c, Top(b)), Xor(d, Top(b)), BYTE_BITS);
    XorInjective(c, d, Top(b));
  }

  lemma XorInjective(c: bv32, d: bv32, x: bv32)
    requires Xor(c, x) == Xor(d, x)
    ensures c == d
  {
    XorSelf(c, x);
    XorSelf(d, x);
  }

  lemma XorSelf(c: bv32, x: bv32)
    ensures Xor(Xor(c, x), x) == c
  {
  }

  lemma {:induction false} FoldInjective(c: bv32, d: bv32, bytes: seq<byte>)
    requires Fold(c, bytes) == Fold(d, bytes)
    ensures c == d
    decreases |bytes|
  {
    if bytes == [] {
    } else {
      var init := bytes[..|bytes| - 1];
      ByteStepInjective(Fold(c, init), Fold(d, init), bytes[|bytes| - 1]);
      FoldInjective(c, d, init);
    }
  }

  lemma WordInjective(a0: byte, a1: byte, a2: byte, a3: byte, b0: byte, b1: byte, b2: byte, b3: byte)
    requires Word(a0, a1, a2, a3) == Word(b0, b1, b2, b3)
    ensures a0 == b0 && a1 == b1 && a2 == b2 && a3 == b3
  {
  }

  lemma FoldOfFour(c: bv32, w: seq<byte>)
    requires |w| == 4
    ensures Fold(c, w) == Unit(c, Word(w[0], w[1], w[2], w[3]))
  {
    FoldFour(c, w, 0);
    assert w[..0] == [] && w[..4] == w;
  }

  /** Two windows of four bytes entered into the same running value never meet again. */
  lemma WindowsDiffer(c: bv32, v: seq<byte>, w: seq<byte>)
    requires |v| == |w| == 4 && Fold(c, v) == Fold(c, w)
    ensures v == w
  {
    var x, y := Word(v[0], v[1], v[2], v[3]), Word(w[0], w[1], w[2], w[3]);
    FoldOfFour(c, v);
    FoldOfFour(c, w);
    ShiftInjective(Xor(c, x), Xor(c, y), WORD_BITS);
    XorCommutes(c, x);
    XorCommutes(c, y);
    XorInjective(x, y, c);
    WordInjective(v[0], v[1], v[2], v[3], w[0], w[1], w[2], w[3]);
  }

  lemma MiddlesDiffer(p: seq<byte>, v: seq<byte>, w: seq<byte>, rest: seq<byte>)
    requires |v| == |w| == 4 && Fold(SEED, p + (v + rest)) == Fold(SEED, p + (w + rest))
    ensures v == w
  {
    var c := Fold(SEED, p);
    FoldConcat(SEED, p, v + rest);
    FoldConcat(SEED, p, w + rest);
    FoldConcat(c, v, rest);
    FoldConcat(c, w, rest);
    FoldInjective(Fold(c, v), Fold(c, w), rest);
    WindowsDiffer(c, v, w);
  }

  lemma ThreeParts(a: seq<byte>, at: nat)
    requires at + 4 <= |a|
    ensures a == a[..at] + (a[at..at + 4] + a[at + 4..])
  {
  }

  lemma FullWindow(a: seq<byte>, b: seq<byte>, at: nat)
    requires |a| == |b| && at + 4 <= |a|
    requires forall k :: 0 <= k < |a| && !(at <= k < at + 4) ==> a[k] == b[k]
    requires Fold(SEED, a) == Fold(SEED, b)
    ensures a == b
  {
    SameSlice(a, b, 0, at);
    SameSlice(a, b, at + 4, |a|);
    assert a[0..at] == a[..at] && b[0..at] == b[..at] && a[at + 4..|a|] == a[at + 4..] && b[at + 4..|b|] == b[at + 4..];
    ThreeParts(a, at);
    ThreeParts(b, at);
    MiddlesDiffer(a[..at], a[at..at + 4], b[at..at + 4], a[at + 4..]);
  }

  lemma SameSlice(a: seq<byte>, b: seq<byte>, lo: nat, hi: nat)
    requires |a| == |b| && lo <= hi <= |a| && forall k :: lo <= k < hi ==> a[k] == b[k]
    ensures a[lo..hi] == b[lo..hi]
  {
  }

  /** Padding with zeros reduces a window at the end to a full one. */
  lemma SameCrc(a: seq<byte>, b: seq<byte>, at: nat)
    requires |a| == |b| && Fold(SEED, a) == Fold(SEED, b)
    requires forall k :: 0 <= k < |a| && !(at <= k < at + 4) ==> a[k] == b[k]
    ensures a == b
  {
    var pad := [0, 0, 0, 0];
    FoldConcat(SEED, a, pad);
    FoldConcat(SEED, b, pad);
    FullWindow(a + pad, b + pad, Min(at, |a|));
    assert a == (a + pad)[..|a|] && b == (b + pad)[..|b|];
  }

  /**
   Two equal-length memories that differ, but only inside one window of four consecutive bytes,
   never have the same CRC.
   */
  lemma BurstIsDetected(a: seq<byte>, b: seq<byte>, at: nat)
    requires |a| == |b| && a != b
    requires forall k :: 0 <= k < |a| && !(at <= k < at + 4) ==> a[k] == b[k]
    ensures Fold(SEED, a) != Fold(SEED, b)
  {
    if Fold(SEED, a) == Fold(SEED, b) {
      SameCrc(a, b, at);
    }
  }
}
