/**
 Number printing into an RTT up-buffer: characters collect in a small buffer that is written out
 whenever it is full. The text does not depend on the buffer, and reading it back gives the number.
 */
module RttPrintf {
  import opened Machine
  import opened Arithmetic
  import opened Numerals

  datatype Flags = Flags(leftJustify: bool, padZero: bool, printSign: bool)

  function Max(a: nat, b: nat): nat {
    if a < b then b else a
  }

  /** The digits printed: at least `numDigits`, at least as many as the number has. */
  function Width(v: nat, b: Base, numDigits: nat): (w: nat)
    ensures w >= 1
  {
    Max(numDigits, NaturalWidth(v, b))
  }

  function Fill(c: uint8, width: nat, fieldWidth: nat): seq<uint8> {
    Repeat(c, if width < fieldWidth then fieldWidth - width else 0)
  }

  function PadChar(numDigits: nat, flags: Flags): uint8 {
    if flags.padZero && numDigits == 0 then ZERO else SPACE
  }

  /** The field of an unsigned number: filled on the left, or with spaces on the right. */
  function UnsignedText(v: nat, b: Base, numDigits: nat, fieldWidth: nat, flags: Flags): seq<uint8> {
    var w := Width(v, b, numDigits);
    (if flags.leftJustify then [] else Fill(PadChar(numDigits, flags), w, fieldWidth))
    + Digits(v, b, w)
    + (if flags.leftJustify then Fill(SPACE, w, fieldWidth) else [])
  }

  function Abs(v: int): nat {
    if v < 0 then -v else v
  }

  function SignText(v: int, flags: Flags): seq<uint8> {
    if v < 0 then [MINUS] else if flags.printSign then [PLUS] else []
  }

  /** The field of a signed number: the sign stands before filled zeros and after filled spaces. */
  function IntText(v: int, b: Base, numDigits: nat, fieldWidth: nat, flags: Flags): seq<uint8> {
    var w := Width(Abs(v), b, numDigits);
    var sign := SignText(v, flags);
    var zeros := PadChar(numDigits, flags) == ZERO;
    (if !flags.leftJustify && !zeros then Fill(SPACE, w + |sign|, fieldWidth) else [])
    + sign
    + (if !flags.leftJustify && zeros then Fill(ZERO, w + |sign|, fieldWidth) else [])
    + Digits(Abs(v), b, w)
    + (if flags.leftJustify then Fill(SPACE, w + |sign|, fieldWidth) else [])
  }

  /** Every field is as wide as asked, or as wide as the number needs. */
  lemma FieldWidths(v: int, b: Base, numDigits: nat, fieldWidth: nat, flags: Flags)
    ensures |IntText(v, b, numDigits, fieldWidth, flags)| == Max(fieldWidth, Width(Abs(v), b, numDigits) + |SignText(v, flags)|)
    ensures |UnsignedText(Abs(v), b, numDigits, fieldWidth, flags)| == Max(fieldWidth, Width(Abs(v), b, numDigits))
  {
  }

  /** Digits are neither blanks nor signs. */
  lemma OnlyDigits(v: nat, b: Base, w: nat, c: uint8)
    requires c in Digits(v, b, w)
    ensures c != SPACE && c != PLUS && c != MINUS
  {
    AllAreDigits(v, b, w);
  }

  /**
   Where an unsigned field is filled: with spaces behind the digits when it is left-justified,
   otherwise in front of them, with zeros when that is asked for and no precision is given.
   */
  lemma UnsignedLayout(v: nat, b: Base, numDigits: nat, fieldWidth: nat, flags: Flags, i: nat)
    requires i < |UnsignedText(v, b, numDigits, fieldWidth, flags)|
    ensures var s, w := UnsignedText(v, b, numDigits, fieldWidth, flags), Width(v, b, numDigits);
            && (flags.leftJustify ==> s[..w] == Digits(v, b, w) && (s[i] == SPACE <==> w <= i))
            && (!flags.leftJustify ==> s[|s| - w..] == Digits(v, b, w))
            && (!flags.leftJustify && (numDigits > 0 || !flags.padZero) ==> (s[i] == SPACE <==> i < |s| - w))
            && (!flags.leftJustify && numDigits == 0 && flags.padZero ==> s[i] != SPACE && (i < |s| - w ==> s[i] == ZERO))
  {
    var w := Width(v, b, numDigits);
    var before := if flags.leftJustify then [] else Fill(PadChar(numDigits, flags), w, fieldWidth);
    var behind := if flags.leftJustify then Fill(SPACE, w, fieldWidth) else [];
    InField(before, Digits(v, b, w), behind, i);
    if |before| <= i < |before| + w {
      OnlyDigits(v, b, w, Digits(v, b, w)[i - |before|]);
    }
  }

  /** A position of a field, and the middle of the field. */
  lemma InField(before: seq<uint8>, digits: seq<uint8>, behind: seq<uint8>, i: nat)
    requires i < |before + digits + behind|
    ensures var s := before + digits + behind;
            && s[|before|..|before| + |digits|] == digits
            && s[i] == if i < |before| then before[i]
                       else if i < |before| + |digits| then digits[i - |before|]
                       else behind[i - |before| - |digits|]
    ensures behind == [] ==> (before + digits + behind)[|before|..] == digits
    ensures before == [] ==> (before + digits + behind)[..|digits|] == digits
  {
  }

  /**
   A signed field has one minus sign exactly for a negative number and one plus sign exactly when
   that is asked for and the number is not negative; it stands before the digits and filled zeros
   and behind filled spaces.
   */
  lemma SignedLayout(v: int, b: Base, numDigits: nat, fieldWidth: nat, flags: Flags, i: nat)
    requires i < |IntText(v, b, numDigits, fieldWidth, flags)|
    ensures var s, w := IntText(v, b, numDigits, fieldWidth, flags), Width(Abs(v), b, numDigits);
            var signs := if v < 0 || flags.printSign then 1 else 0;
            var zeros := !flags.leftJustify && numDigits == 0 && flags.padZero;
            var at := if flags.leftJustify || zeros then 0 else |s| - w - signs;
            && 0 <= at <= |s| - w - signs
            && (s[i] == MINUS <==> v < 0 && i == at)
            && (s[i] == PLUS <==> v >= 0 && flags.printSign && i == at)
            && (s[i] == SPACE <==> i < at || (flags.leftJustify && signs + w <= i))
            && (zeros && signs <= i < |s| - w ==> s[i] == ZERO)
            && s[if flags.leftJustify then signs else |s| - w..][..w] == Digits(Abs(v), b, w)
  {
    var s, w, sign := IntText(v, b, numDigits, fieldWidth, flags), Width(Abs(v), b, numDigits), SignText(v, flags);
    var at := if flags.leftJustify then |sign| else |s| - w;
    assert s[at..][..w] == Digits(Abs(v), b, w);
    if at <= i < at + w {
      assert s[i] == s[at..][..w][i - at];
      OnlyDigits(Abs(v), b, w, s[i]);
    }
  }

  lemma WideEnough(v: nat, b: Base, numDigits: nat)
    ensures v < Pow(b, Width(v, b, numDigits))
  {
    NaturalWidthLeast(v, b, Width(v, b, numDigits));
  }

  /** Digits with spaces after them read back as the number, whatever zeros stand before. */
  lemma ReadsField(v: nat, b: Base, numDigits: nat, zeros: nat, spaces: nat)
    ensures var s := Repeat(ZERO, zeros) + Digits(v, b, Width(v, b, numDigits)) + Repeat(SPACE, spaces);
            ReadDigits(s, b, 0) == v && IsDigit(s[0])
  {
    var digits, tail := Digits(v, b, Width(v, b, numDigits)), Repeat(SPACE, spaces);
    WideEnough(v, b, numDigits);
    AllAreDigits(v, b, Width(v, b, numDigits));
    ReadsNumeral(v, b, Width(v, b, numDigits), tail);
    ReadsZeros(zeros, b, digits + tail);
    assert Repeat(ZERO, zeros) + digits + tail == Repeat(ZERO, zeros) + (digits + tail);
    assert zeros == 0 ==> (Repeat(ZERO, zeros) + digits + tail)[0] == digits[0];
  }

  /** Whatever the flags, the width and the precision, a signed field reads back as the number. */
  lemma IntReadsBack(v: int, b: Base, numDigits: nat, fieldWidth: nat, flags: Flags)
    ensures ReadNumber(IntText(v, b, numDigits, fieldWidth, flags), b) == v
  {
    var w, sign := Width(Abs(v), b, numDigits), SignText(v, flags);
    var fill := if w + |sign| < fieldWidth then fieldWidth - w - |sign| else 0;
    var zeros := PadChar(numDigits, flags) == ZERO;
    var front := if !flags.leftJustify && !zeros then fill else 0;
    var inner := if !flags.leftJustify && zeros then fill else 0;
    var back := if flags.leftJustify then fill else 0;
    var field := Repeat(ZERO, inner) + Digits(Abs(v), b, w) + Repeat(SPACE, back);
    ReadsField(Abs(v), b, numDigits, inner, back);
    FieldBehind(Repeat(SPACE, front), sign, Repeat(ZERO, inner), Digits(Abs(v), b, w), Repeat(SPACE, back));
    assert IntText(v, b, numDigits, fieldWidth, flags) == Repeat(SPACE, front) + (sign + field);
    SkipsSpaces(front, sign + field);
    assert sign == [] ==> sign + field == field;
    assert sign != [] ==> (sign + field)[1..] == field;
  }

  lemma FieldBehind(a: seq<uint8>, b: seq<uint8>, c: seq<uint8>, d: seq<uint8>, e: seq<uint8>)
    ensures a + b + c + d + e == a + (b + (c + d + e))
  {
  }

  /** And so does an unsigned field. */
  lemma UnsignedReadsBack(v: nat, b: Base, numDigits: nat, fieldWidth: nat, flags: Flags)
    ensures ReadNumber(UnsignedText(v, b, numDigits, fieldWidth, flags), b) == v
  {
    var plain := flags.(printSign := false);
    assert UnsignedText(v, b, numDigits, fieldWidth, flags) == IntText(v, b, numDigits, fieldWidth, plain);
    IntReadsBack(v, b, numDigits, fieldWidth, plain);
  }

  // ---------- the divisor ----------

  /** `Digit` after `n` multiplications in 32 bits. */
  function DigitAfter(b: Base, n: nat): nat {
    if n == 0 then 1 else DigitAfter(b, n - 1) * b % TWO_TO_THE_32
  }

  /** The precision is small enough for the highest digit's divisor. */
  predicate DivisorFits(b: Base, numDigits: nat) {
    numDigits <= 1 || Pow(b, numDigits - 1) < TWO_TO_THE_32
  }

  /** The 32-bit divisor is the power it stands for exactly when that power fits. */
  lemma {:induction false} DivisorExact(b: Base, n: nat)
    ensures DigitAfter(b, n) == Pow(b, n) <==> Pow(b, n) < TWO_TO_THE_32
    decreases n
  {
    if n > 0 {
      DivisorExact(b, n - 1);
      PowMonotone(b, n - 1, n);
      Commute(DigitAfter(b, n - 1), b);
      Commute(Pow(b, n - 1), b);
      WrapU32(b * DigitAfter(b, n - 1));
    }
  }

  lemma Commute(x: nat, y: nat)
    ensures x * y == y * x
  {
  }

  lemma WrapU32(x: nat)
    ensures x % TWO_TO_THE_32 < TWO_TO_THE_32
    ensures x < TWO_TO_THE_32 ==> x % TWO_TO_THE_32 == x
  {
  }

  /** Up to ten digits are safe in base 10. */
  lemma DecimalPrecision(numDigits: nat)
    ensures DivisorFits(10, numDigits) <==> numDigits <= 10
  {
    assert Pow(10, 5) == 100000;
    assert Pow(10, 9) == 1000000000;
    assert Pow(10, 10) == 10000000000;
    if 2 <= numDigits <= 10 {
      PowMonotone(10, numDigits - 1, 9);
    } else if numDigits > 10 {
      PowMonotone(10, 10, numDigits - 1);
    }
  }

  /** Up to eight digits are safe in base 16; with more the divisor is 0 and the first division traps. */
  lemma HexPrecision(numDigits: nat)
    ensures DivisorFits(16, numDigits) <==> numDigits <= 8
    ensures numDigits > 8 ==> DigitAfter(16, numDigits - 1) == 0
  {
    assert Pow(16, 4) == 65536;
    assert Pow(16, 7) == 268435456;
    assert Pow(16, 8) == TWO_TO_THE_32;
    if 2 <= numDigits <= 8 {
      PowMonotone(16, numDigits - 1, 7);
    } else if numDigits > 8 {
      PowMonotone(16, 8, numDigits - 1);
      HexDivisorVanishes(numDigits - 1);
    }
  }

  lemma {:induction false} HexDivisorVanishes(n: nat)
    requires n >= 8
    ensures DigitAfter(16, n) == 0
    decreases n
  {
    if n == 8 {
      FirstHexDivisors();
    } else {
      HexDivisorVanishes(n - 1);
    }
  }

  lemma FirstHexDivisors()
    ensures DigitAfter(16, 8) == 0
  {
    assert DigitAfter(16, 2) == 256;
    assert DigitAfter(16, 4) == 65536;
    assert DigitAfter(16, 6) == 16777216;
  }

  /** The divisor of the highest digit printed never wraps when the precision is small enough. */
  lemma HighestFits(v: nat, b: Base, numDigits: nat, k: nat)
    requires v < TWO_TO_THE_32 && DivisorFits(b, numDigits) && k < Width(v, b, numDigits)
    ensures Pow(b, k) < TWO_TO_THE_32
  {
    var w := Width(v, b, numDigits);
    PowMonotone(b, k, w - 1);
    if w == NaturalWidth(v, b) && w > 1 {
      NaturalWidthLeast(v, b, w - 1);
    }
  }

  // ---------- printing ----------

  /** A signed field printed as spaces, sign, zeros and an unsigned field of the width that is left. */
  lemma IntPieces(v: int, b: Base, numDigits: nat, fieldWidth: nat, flags: Flags, inner: nat, left: nat, rest: seq<uint8>)
    requires var sign := |SignText(v, flags)|; inner == if fieldWidth > 0 then fieldWidth - sign else 0
    requires left == if flags.leftJustify then inner else Min(Width(Abs(v), b, numDigits), inner)
    ensures var w := Width(Abs(v), b, numDigits); var zeros := PadChar(numDigits, flags) == ZERO;
            IntText(v, b, numDigits, fieldWidth, flags) + rest
            == (if !flags.leftJustify && !zeros then Fill(SPACE, w, inner) else [])
               + (SignText(v, flags)
                  + ((if !flags.leftJustify && zeros then Fill(ZERO, w, inner) else [])
                     + (UnsignedText(Abs(v), b, numDigits, left, flags) + rest)))
  {
    var w, sign := Width(Abs(v), b, numDigits), SignText(v, flags);
    var digits, zeros := Digits(Abs(v), b, w), PadChar(numDigits, flags) == ZERO;
    var front := if !flags.leftJustify && !zeros then Fill(SPACE, w, inner) else [];
    var middle := if !flags.leftJustify && zeros then Fill(ZERO, w, inner) else [];
    var back := if flags.leftJustify then Fill(SPACE, w, inner) else [];
    assert Fill(SPACE, w + |sign|, fieldWidth) == Fill(SPACE, w, inner) && Fill(ZERO, w + |sign|, fieldWidth) == Fill(ZERO, w, inner);
    assert UnsignedText(Abs(v), b, numDigits, left, flags) == digits + back;
    Regrouped(front, sign, middle, digits, back, rest);
  }

  lemma Regrouped(a: seq<uint8>, b: seq<uint8>, c: seq<uint8>, d: seq<uint8>, e: seq<uint8>, rest: seq<uint8>)
    ensures a + b + c + d + e + rest == a + (b + (c + ((d + e) + rest)))
  {
  }

  /** What a format string asks for, piece by piece. */
  datatype Directive =
    | Literal(c: uint8)
    | Text(s: seq<uint8>)
    | Unsigned(v: nat, base: Base, numDigits: nat, fieldWidth: nat, flags: Flags)
    | Signed(i: int, base: Base, numDigits: nat, fieldWidth: nat, flags: Flags)

  ghost predicate Printable(d: Directive) {
    match d
    case Unsigned(v, base, numDigits, _, _) => v < TWO_TO_THE_32 && DivisorFits(base, numDigits)
    case Signed(i, base, numDigits, _, _) => Abs(i) < TWO_TO_THE_32 / 2 && DivisorFits(base, numDigits)
    case _ => true
  }

  function TextOf(d: Directive): seq<uint8> {
    match d
    case Literal(c) => [c]
    case Text(s) => s
    case Unsigned(v, base, numDigits, fieldWidth, flags) => UnsignedText(v, base, numDigits, fieldWidth, flags)
    case Signed(i, base, numDigits, fieldWidth, flags) => IntText(i, base, numDigits, fieldWidth, flags)
  }

  function AllText(ds: seq<Directive>): seq<uint8>
    decreases |ds|
  {
    if ds == [] then [] else TextOf(ds[0]) + AllText(ds[1..])
  }

  lemma TextFrom(ds: seq<Directive>, i: nat)
    requires i < |ds|
    ensures AllText(ds[i..]) == TextOf(ds[i]) + AllText(ds[i + 1..])
  {
    assert ds[i..][1..] == ds[i + 1..];
  }

  class Printer {
    const buf: array<uint8>
    var cnt: nat
    var returnValue: int
    var sent: seq<uint8>
    var refused: bool

    ghost predicate Valid()
      reads this
    {
      && 1 <= buf.Length && cnt <= buf.Length && returnValue >= -1 && (returnValue < 0 <==> refused)
      && (returnValue >= 0 ==> cnt < buf.Length && returnValue == |sent| + cnt && cnt == returnValue % buf.Length)
    }

    /** What was printed: the part the up-buffer took and the part still collecting. */
    ghost function Text(): seq<uint8>
      requires Valid()
      reads this, buf
    {
      sent + buf[..cnt]
    }

    /** `rest` is all that is missing from `target`; once a write was refused, what is out is a prefix of it. */
    ghost predicate Printing(target: seq<uint8>, rest: seq<uint8>)
      reads this, buf
    {
      Valid() && if returnValue >= 0 then Text() + rest == target else sent <= target
    }

    constructor (bufferSize: nat)
      requires bufferSize >= 1
      ensures Valid() && fresh(buf) && buf.Length == bufferSize && sent == [] && cnt == 0 && returnValue == 0
    {
      buf := new uint8[bufferSize];
      cnt, returnValue, sent, refused := 0, 0, [], false;
    }

    /** SEGGER_RTT_Write: the up-buffer takes some number of the first bytes, which one is up to its mode and the host. */
    method RttWrite(n: nat) returns (taken: nat)
      requires n <= buf.Length
      modifies `sent, `refused
      ensures taken <= n && sent == old(sent) + buf[..taken]
      ensures refused == (old(refused) || taken < n)
    {
      taken :| 0 <= taken <= n;
      sent := sent + buf[..taken];
      refused := refused || taken < n;
    }

    /** _StoreChar */
    method StoreChar(c: uint8, ghost target: seq<uint8>, ghost rest: seq<uint8>)
      requires Printing(target, [c] + rest) && returnValue >= 0
      modifies this, buf
      ensures Printing(target, rest)
    {
      ghost var before := Text();
      assert before + ([c] + rest) == before + [c] + rest;
      CountStep(returnValue, buf.Length);
      buf[cnt] := c;
      cnt := cnt + 1;
      returnValue := returnValue + 1;
      assert sent + buf[..cnt] == before + [c];
      if cnt == buf.Length {
        var taken := RttWrite(cnt);
        if taken != cnt {
          returnValue := -1;
          assert sent <= before + [c];
        } else {
          cnt := 0;
          assert sent + buf[..0] == sent;
        }
      }
    }

    /** The filling loops: one character while the number is narrower than the field. */
    method StoreFill(c: uint8, width: nat, fieldWidth: nat, ghost target: seq<uint8>, ghost rest: seq<uint8>)
      returns (left: nat)
      requires Printing(target, Fill(c, width, fieldWidth) + rest) && returnValue >= 0
      modifies this, buf
      ensures Printing(target, rest)
      ensures returnValue >= 0 ==> left == if width < fieldWidth then width else fieldWidth
    {
      left := fieldWidth;
      while left != 0 && width < left
        invariant left <= fieldWidth && (width < fieldWidth ==> width <= left) && (width >= fieldWidth ==> left == fieldWidth)
        invariant returnValue >= 0 && Printing(target, Fill(c, width, left) + rest)
      {
        assert Fill(c, width, left) + rest == [c] + (Fill(c, width, left - 1) + rest);
        left := left - 1;
        StoreChar(c, target, Fill(c, width, left) + rest);
        if returnValue < 0 {
          break;
        }
      }
      assert returnValue >= 0 ==> Fill(c, width, left) + rest == rest;
    }

    /** The loop that measures a number. */
    static method MeasureWidth(v: nat, base: Base, numDigits: nat) returns (width: nat)
      ensures width == Width(v, base, numDigits)
    {
      var number: nat := v;
      width := 1;
      while number >= base
        invariant width >= 1 && width + NaturalWidth(number, base) == NaturalWidth(v, base) + 1
        decreases number
      {
        QuotRem(number, base);
        DivSmaller(number, base);
        number := number / base;
        width := width + 1;
      }
      if numDigits > width {
        width := numDigits;
      }
    }

    /** The loop that computes the divisor of the highest digit. */
    static method HighestDivisor(v: nat, base: Base, numDigits: nat) returns (digit: nat)
      requires v < TWO_TO_THE_32 && DivisorFits(base, numDigits)
      ensures digit == Pow(base, Width(v, base, numDigits) - 1)
    {
      ghost var w := Width(v, base, numDigits);
      var left: nat := numDigits;
      ghost var k: nat := 0;
      digit := 1;
      while true
        invariant digit == Pow(base, k) && k < w
        invariant if left > 1 then k + left == numDigits else k + 1 >= numDigits
        decreases w - k
      {
        if left > 1 {
          left := left - 1;
        } else {
          QuotientBound(v, base, digit);
          NaturalWidthLeast(v, base, k + 1);
          if v / digit < base {
            break;
          }
        }
        HighestFits(v, base, numDigits, k + 1);
        WrapU32(digit * base);
        digit := digit * base % TWO_TO_THE_32;
        k := k + 1;
      }
    }

    /** The highest digit, and the number without it. */
    static method TakeDigit(v: nat, base: Base, digit: nat, ghost k: nat) returns (div: nat, left: nat)
      requires k >= 1 && digit == Pow(base, k - 1) && v < Pow(base, k)
      ensures div < base && left < digit
      ensures Digits(v, base, k) == [DigitChar(div)] + Digits(left, base, k - 1)
    {
      var highest: int := v / digit;
      var others: int := v - highest * digit;
      DigitStep(v, base, k, digit, highest, others);
      div, left := highest, others;
    }

    static method LowerDivisor(digit: nat, base: Base, ghost k: nat) returns (next: nat)
      requires k >= 1 && digit == Pow(base, k - 1)
      ensures next == if k == 1 then 0 else Pow(base, k - 2)
    {
      NextDivisor(base, k, digit);
      next := digit / base;
    }

    /** The loop that prints the digits. */
    method StoreDigits(number: nat, base: Base, highest: nat, ghost w: nat, ghost target: seq<uint8>, ghost rest: seq<uint8>)
      requires w >= 1 && highest == Pow(base, w - 1) && number < Pow(base, w)
      requires Printing(target, Digits(number, base, w) + rest) && returnValue >= 0
      modifies this, buf
      ensures Printing(target, rest)
    {
      var v: nat, digit: nat := number, highest;
      ghost var k := w;
      while true
        invariant k >= 1 && digit == Pow(base, k - 1) && v < Pow(base, k)
        invariant returnValue >= 0 && Printing(target, Digits(v, base, k) + rest)
        decreases k
      {
        var div: nat;
        div, v := TakeDigit(v, base, digit, k);
        ghost var others := Digits(v, base, k - 1);
        assert [DigitChar(div)] + others + rest == [DigitChar(div)] + (others + rest);
        StoreChar(DigitChar(div), target, others + rest);
        if returnValue < 0 {
          break;
        }
        digit := LowerDivisor(digit, base, k);
        k := k - 1;
        if digit == 0 {
          assert others + rest == rest;
          break;
        }
      }
    }

    /** _PrintUnsigned */
    method PrintUnsigned(v: nat, base: Base, numDigits: nat, fieldWidth: nat, flags: Flags,
                         ghost target: seq<uint8>, ghost rest: seq<uint8>)
      requires v < TWO_TO_THE_32 && DivisorFits(base, numDigits)
      requires Printing(target, UnsignedText(v, base, numDigits, fieldWidth, flags) + rest) && returnValue >= 0
      modifies this, buf
      ensures Printing(target, rest)
    {
      var width := MeasureWidth(v, base, numDigits);
      WideEnough(v, base, numDigits);
      ghost var digits, tail := Digits(v, base, width), if flags.leftJustify then Fill(SPACE, width, fieldWidth) else [];
      ghost var lead := if flags.leftJustify then [] else Fill(PadChar(numDigits, flags), width, fieldWidth);
      assert UnsignedText(v, base, numDigits, fieldWidth, flags) + rest == lead + (digits + (tail + rest));
      var left := fieldWidth;
      if !flags.leftJustify {
        var c := if flags.padZero && numDigits == 0 then ZERO else SPACE;
        left := StoreFill(c, width, left, target, digits + (tail + rest));
      } else {
        assert lead + (digits + (tail + rest)) == digits + (tail + rest);
      }
      if returnValue >= 0 {
        var digit := HighestDivisor(v, base, numDigits);
        StoreDigits(v, base, digit, width, target, tail + rest);
        if flags.leftJustify && returnValue >= 0 {
          left := StoreFill(SPACE, width, left, target, rest);
        }
        assert !flags.leftJustify ==> tail + rest == rest;
      }
    }

    /** The field width left for number and zeros once the sign has its place, and the leading spaces. */
    method LeadingSpaces(v: int, width: nat, numDigits: nat, fieldWidth: nat, flags: Flags,
                         ghost target: seq<uint8>, ghost rest: seq<uint8>)
      returns (left: nat)
      requires returnValue >= 0
      requires var inner := if fieldWidth > 0 then fieldWidth - |SignText(v, flags)| else 0;
               Printing(target, (if !flags.leftJustify && PadChar(numDigits, flags) != ZERO then Fill(SPACE, width, inner) else []) + rest)
      modifies this, buf
      ensures Printing(target, rest)
      ensures returnValue >= 0 ==> var inner := if fieldWidth > 0 then fieldWidth - |SignText(v, flags)| else 0;
                left == if !flags.leftJustify && PadChar(numDigits, flags) != ZERO then Min(width, inner) else inner
    {
      left := fieldWidth;
      if left > 0 && (v < 0 || flags.printSign) {
        left := left - 1;
      }
      if (!flags.padZero || numDigits != 0) && !flags.leftJustify {
        left := StoreFill(SPACE, width, left, target, rest);
      } else {
        assert [] + rest == rest;
      }
    }

    method StoreSign(v: int, flags: Flags, ghost target: seq<uint8>, ghost rest: seq<uint8>)
      requires returnValue >= 0 && Printing(target, SignText(v, flags) + rest)
      modifies this, buf
      ensures Printing(target, rest)
    {
      if v < 0 {
        StoreChar(MINUS, target, rest);
      } else if flags.printSign {
        StoreChar(PLUS, target, rest);
      } else {
        assert [] + rest == rest;
      }
    }

    method LeadingZeros(width: nat, numDigits: nat, fieldWidth: nat, flags: Flags, ghost target: seq<uint8>, ghost rest: seq<uint8>)
      returns (left: nat)
      requires returnValue >= 0
      requires var zeros := !flags.leftJustify && PadChar(numDigits, flags) == ZERO;
               Printing(target, (if zeros then Fill(ZERO, width, fieldWidth) else []) + rest)
      modifies this, buf
      ensures Printing(target, rest)
      ensures returnValue >= 0 ==>
                left == if !flags.leftJustify && PadChar(numDigits, flags) == ZERO then Min(width, fieldWidth) else fieldWidth
    {
      left := fieldWidth;
      if flags.padZero && !flags.leftJustify && numDigits == 0 {
        left := StoreFill(ZERO, width, left, target, rest);
      } else {
        assert [] + rest == rest;
      }
    }

    /** _PrintInt, for every number but the least one, whose negation overflows. */
    method PrintInt(v: int, base: Base, numDigits: nat, fieldWidth: nat, flags: Flags,
                    ghost target: seq<uint8>, ghost rest: seq<uint8>)
      requires Abs(v) < TWO_TO_THE_32 / 2 && DivisorFits(base, numDigits)
      requires Printing(target, IntText(v, base, numDigits, fieldWidth, flags) + rest) && returnValue >= 0
      modifies this, buf
      ensures Printing(target, rest)
    {
      var width := MeasureWidth(Abs(v), base, numDigits);
      ghost var sign := SignText(v, flags);
      ghost var inner := if fieldWidth > 0 then fieldWidth - |sign| else 0;
      ghost var last := if flags.leftJustify then inner else Min(width, inner);
      ghost var zeros := if !flags.leftJustify && PadChar(numDigits, flags) == ZERO then Fill(ZERO, width, inner) else [];
      ghost var number := UnsignedText(Abs(v), base, numDigits, last, flags) + rest;
      IntPieces(v, base, numDigits, fieldWidth, flags, inner, last, rest);
      var left := LeadingSpaces(v, width, numDigits, fieldWidth, flags, target, sign + (zeros + number));
      if returnValue >= 0 {
        StoreSign(v, flags, target, zeros + number);
        if returnValue >= 0 {
          assert zeros == (if !flags.leftJustify && PadChar(numDigits, flags) == ZERO then Fill(ZERO, width, left) else []);
          left := LeadingZeros(width, numDigits, left, flags, target, number);
          if returnValue >= 0 {
            PrintUnsigned(Abs(v), base, numDigits, left, flags, target, rest);
          }
        }
      }
    }

    /** The loop of the string conversion. */
    method StoreText(s: seq<uint8>, ghost target: seq<uint8>, ghost rest: seq<uint8>)
      requires Printing(target, s + rest) && returnValue >= 0
      modifies this, buf
      ensures Printing(target, rest)
    {
      var i: nat := 0;
      assert s[0..] == s;
      while i < |s| && returnValue >= 0
        invariant i <= |s|
        invariant Printing(target, s[i..] + rest)
      {
        assert s[i..] + rest == [s[i]] + (s[i + 1..] + rest);
        StoreChar(s[i], target, s[i + 1..] + rest);
        i := i + 1;
      }
      assert i == |s| ==> s[i..] + rest == rest;
    }

    method PrintDirective(d: Directive, ghost target: seq<uint8>, ghost rest: seq<uint8>)
      requires Printable(d) && Printing(target, TextOf(d) + rest) && returnValue >= 0
      modifies this, buf
      ensures Printing(target, rest)
    {
      match d
      case Literal(c) => StoreChar(c, target, rest);
      case Text(s) => StoreText(s, target, rest);
      case Unsigned(v, base, numDigits, fieldWidth, flags) => PrintUnsigned(v, base, numDigits, fieldWidth, flags, target, rest);
      case Signed(i, base, numDigits, fieldWidth, flags) => PrintInt(i, base, numDigits, fieldWidth, flags, target, rest);
    }

    /** The loop of SEGGER_RTT_vprintf over the format. */
    method PrintAll(ds: seq<Directive>, ghost target: seq<uint8>)
      requires forall k :: 0 <= k < |ds| ==> Printable(ds[k])
      requires Printing(target, AllText(ds)) && returnValue >= 0
      modifies this, buf
      ensures Printing(target, [])
    {
      var i: nat := 0;
      ghost var rest := AllText(ds);
      assert ds[0..] == ds;
      while i < |ds| && returnValue >= 0
        invariant i <= |ds| && rest == AllText(ds[i..])
        invariant Printing(target, rest)
      {
        rest := PrintNext(ds, i, target, rest);
        i := i + 1;
      }
      assert i == |ds| ==> ds[i..] == [];
    }

    method PrintNext(ds: seq<Directive>, i: nat, ghost target: seq<uint8>, ghost rest: seq<uint8>) returns (ghost after: seq<uint8>)
      requires i < |ds| && Printable(ds[i]) && rest == AllText(ds[i..])
      requires Printing(target, rest) && returnValue >= 0
      modifies this, buf
      ensures after == AllText(ds[i + 1..]) && Printing(target, after)
    {
      TextFrom(ds, i);
      after := AllText(ds[i + 1..]);
      PrintDirective(ds[i], target, after);
    }

    /** The end of SEGGER_RTT_vprintf: what is left in the buffer goes out, and is counted once more. */
    method Finish(ghost target: seq<uint8>) returns (r: int)
      requires Printing(target, [])
      modifies this
      ensures sent <= target && (!refused ==> sent == target)
      ensures r == if old(returnValue) >= 0 then |target| + |target| % buf.Length else -1
      ensures r >= 0 ==> (r == |sent| <==> |target| % buf.Length == 0)
      ensures r < 0 ==> refused
    {
      assert returnValue >= 0 ==> Text() + [] == Text();
      if returnValue > 0 {
        if cnt != 0 {
          var taken := RttWrite(cnt);
          assert old(sent) + buf[..taken] <= target;
        } else {
          assert buf[..0] == [];
        }
        returnValue := returnValue + cnt;
      }
      r := returnValue;
    }
  }

  /**
   SEGGER_RTT_vprintf on a parsed format. The up-buffer gets the text of all directives, whatever
   the size of the collecting buffer, as long as it takes every write whole; otherwise it gets a
   prefix of that text. The result counts the last, partly filled buffer twice: it is the number of
   bytes the up-buffer took exactly when there is no such buffer.
   */
  method Vprintf(ds: seq<Directive>, bufferSize: nat) returns (r: int, sent: seq<uint8>, refused: bool)
    requires bufferSize >= 1 && forall k :: 0 <= k < |ds| ==> Printable(ds[k])
    ensures sent <= AllText(ds)
    ensures !refused ==> sent == AllText(ds) && r >= 0
    ensures r >= 0 ==> r == |AllText(ds)| + |AllText(ds)| % bufferSize
    ensures r >= 0 ==> (r == |sent| <==> FillsBuffers(|AllText(ds)|, bufferSize))
    ensures r < 0 ==> refused && r == -1
  {
    var p := new Printer(bufferSize);
    ghost var target := AllText(ds);
    assert p.Text() + target == target;
    p.PrintAll(ds, target);
    r := p.Finish(target);
    sent, refused := p.sent, p.refused;
    CountedOnce(|target|, bufferSize);
  }

  /** A text that is a whole number of collecting buffers. */
  ghost predicate FillsBuffers(n: nat, bufferSize: nat) {
    exists buffers: nat :: n == buffers * bufferSize
  }

  /** Nothing is left in the last buffer, and so nothing is counted twice, for such a text only. */
  lemma CountedOnce(n: nat, bufferSize: nat)
    requires bufferSize >= 1
    ensures n % bufferSize == 0 <==> FillsBuffers(n, bufferSize)
  {
    Remainder(n, bufferSize);
    if n % bufferSize == 0 {
      assert n == n / bufferSize * bufferSize;
    }
    if FillsBuffers(n, bufferSize) {
      var buffers: nat :| n == buffers * bufferSize;
      Euclid(n, bufferSize, buffers, 0);
    }
  }

  lemma CountStep(n: nat, size: nat)
    requires size > 0
    ensures (n + 1) % size == if n % size + 1 == size then 0 else n % size + 1
  {
    Remainder(n, size);
    CountFrom(n / size, n % size, n, size);
  }

  lemma CountFrom(q: nat, r: nat, n: nat, size: nat)
    requires r < size && n == q * size + r
    ensures (n + 1) % size == if r + 1 == size then 0 else r + 1
  {
    if r + 1 == size {
      OneMore(q, size);
      Euclid(n + 1, size, 1 + q, 0);
    } else {
      Euclid(n + 1, size, q, r + 1);
    }
  }

  /** One round of the digit loop: the digit it prints and the number it goes on with. */
  lemma DigitStep(v: nat, b: Base, k: nat, digit: nat, div: int, left: int)
    requires k >= 1 && digit == Pow(b, k - 1) && v < Pow(b, k) && div == v / digit && left == v - div * digit
    ensures 0 <= div < b && 0 <= left < digit && Digits(v, b, k) == [DigitChar(div)] + Digits(left, b, k - 1)
  {
    QuotientBound(v, b, digit);
    LeftBelowDivisor(v, digit, div, left);
    FrontDigit(v, b, k, digit, div, left);
  }

  lemma LeftBelowDivisor(v: nat, digit: nat, div: int, left: int)
    requires digit > 0 && div == v / digit && left == v - div * digit
    ensures 0 <= div && 0 <= left < digit && v == div * digit + left
  {
    Remainder(v, digit);
  }

  lemma NextDivisor(b: Base, k: nat, digit: nat)
    requires k >= 1 && digit == Pow(b, k - 1)
    ensures digit / b == if k == 1 then 0 else Pow(b, k - 2)
  {
    if k == 1 {
      Euclid(1, b, 0, 1);
    } else {
      Euclid(digit, b, Pow(b, k - 2), 0);
    }
  }
}
