/** The C machine types shared by every module: bytes, and unsigned arithmetic that wraps. */
module Machine {
  /** A byte used as a bit pattern. */
  type byte = bv8

  /** A byte used as a number. */
  type uint8 = n: nat | n < 256

  const TWO_TO_THE_16: nat := 0x1_0000
  const TWO_TO_THE_32: nat := 0x1_0000_0000

  type uint16 = n: nat | n < TWO_TO_THE_16

  /** The hexadecimal digits in both cases; every module's digits are stated in terms of these. */
  const LOWER_DIGITS: string := "0123456789abcdef"
  const UPPER_DIGITS: string := "0123456789ABCDEF"

  function Min(a: nat, b: nat): nat {
    if a < b then a else b
  }

  /** The C expression `a - b` on `unsigned` operands. */
  function SubU32(a: nat, b: nat): nat {
    (a - b) % TWO_TO_THE_32
  }

  /** The C expression `a + b` on `unsigned` operands. */
  function AddU32(a: nat, b: nat): nat {
    (a + b) % TWO_TO_THE_32
  }
}
