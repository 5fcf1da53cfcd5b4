/**
 The JTAG transfers in their two forms: 32 bits at a time through the PIO state machine, and bit by
 bit on the pins. Both are proved against the same wire sequence and the same captured bytes.
 */
module JtagTransfer {
  import opened Arithmetic
  import opened Machine
  import opened BitStrings

  /** The levels driven around one rising edge of TCK. */
  datatype Clock = Clock(tms: bool, tdi: bool)

  /** The target's TDO level when the last of these clocks is sampled. */
  type Target = seq<Clock> -> bool

  /** What the target answers to each of `clocks` when `before` has been clocked already. */
  function Answers(target: Target, before: seq<Clock>, clocks: seq<Clock>): (tdo: seq<bool>)
    ensures |tdo| == |clocks|
  {
    seq(|clocks|, k requires 0 <= k < |clocks| => target(before + clocks[..k + 1]))
  }

  lemma AnswersConcat(target: Target, before: seq<Clock>, a: seq<Clock>, b: seq<Clock>)
    ensures Answers(target, before, a + b) == Answers(target, before, a) + Answers(target, before + a, b)
  {
    var both := a + b;
    forall k | 0 <= k < |both|
      ensures Answers(target, before, both)[k] == (Answers(target, before, a) + Answers(target, before + a, b))[k]
    {
      if k < |a| {
        assert both[..k + 1] == a[..k + 1];
      } else {
        assert both[..k + 1] == a + b[..k - |a| + 1];
        assert before + (a + b[..k - |a| + 1]) == before + a + b[..k - |a| + 1];
      }
    }
  }

  /** The clocks of a data transfer: TMS low until the last bit. */
  function DataClocks(bits: seq<bool>, finalTms: bool): (clocks: seq<Clock>)
    ensures |clocks| == |bits|
  {
    seq(|bits|, k requires 0 <= k < |bits| => Clock(k == |bits| - 1 && finalTms, bits[k]))
  }

  /** The clocks of a TMS sequence: TDI stays high. */
  function TmsClocks(bits: seq<bool>): (clocks: seq<Clock>)
    ensures |clocks| == |bits|
  {
    seq(|bits|, k requires 0 <= k < |bits| => Clock(bits[k], true))
  }

  /** The number a buffer holds, its first byte lowest. */
  function LittleEndian(bytes: seq<uint8>): nat {
    if bytes == [] then 0 else LittleEndian(bytes[..|bytes| - 1]) + Pow2(8 * (|bytes| - 1)) * bytes[|bytes| - 1]
  }

  lemma {:induction false} DataBitsAre(bytes: seq<uint8>)
    ensures Number(DataBits(bytes)) == LittleEndian(bytes)
    decreases |bytes|
  {
    if bytes != [] {
      var n := |bytes| - 1;
      assert bytes == bytes[..n] + [bytes[n]];
      DataBitsAre(bytes[..n]);
      NumberSnoc(bytes[..n], bytes[n]);
    }
  }

  /** Bit `k` of a number, by shifting it down. */
  function ShiftedDown(x: nat, k: nat): nat {
    if k == 0 then x else ShiftedDown(x / 2, k - 1)
  }

  lemma {:induction false} BitAt(x: nat, n: nat, k: nat)
    requires k < n
    ensures Bits(x, n)[k] <==> ShiftedDown(x, k) % 2 == 1
    decreases k
  {
    assert Bits(x, n) == [x % 2 == 1] + Bits(x / 2, n - 1);
    if k > 0 {
      BitAt(x / 2, n - 1, k - 1);
    }
  }

  /** A data transfer in terms of the number in its buffer: clock `k` carries bit `k`, and only the last clock the final TMS. */
  lemma ClocksCarryNumber(bytes: seq<uint8>, finalTms: bool, ticks: nat, k: nat)
    requires k < ticks <= 8 * |bytes|
    ensures var c := DataClocks(DataBits(bytes)[..ticks], finalTms)[k];
            && (c.tdi <==> ShiftedDown(LittleEndian(bytes), k) % 2 == 1)
            && (c.tms <==> finalTms && k == ticks - 1)
  {
    DataBitsAre(bytes);
    BitsOfNumber(DataBits(bytes), ticks);
    BitAt(LittleEndian(bytes), ticks, k);
  }

  /** A TMS sequence: clock `k` carries bit `k` of the number on TMS. */
  lemma ClocksCarryTms(x: nat, ticks: nat, k: nat)
    requires k < ticks
    ensures var c := TmsClocks(Bits(x, ticks))[k]; c.tdi && (c.tms <==> ShiftedDown(x, k) % 2 == 1)
  {
    BitAt(x, ticks, k);
  }

  /** `start` with the leading bytes replaced by captured bits, the last one padded with zeros. */
  function Stored(start: seq<uint8>, tdo: seq<bool>): (bytes: seq<uint8>)
    requires |tdo| <= 8 * |start|
    ensures |bytes| == |start|
  {
    seq(|start|, i requires 0 <= i < |start| => if 8 * i < |tdo| then CapturedByte(tdo, i) else start[i])
  }

  function CapturedByte(tdo: seq<bool>, i: nat): uint8
    requires 8 * i < |tdo|
  {
    var bits := tdo[8 * i..Min(8 * i + 8, |tdo|)];
    NumberBound(bits);
    Pow2Eight();
    Pow2Monotone(|bits|, 8);
    Number(bits)
  }

  /** Where TDO enters the 32-bit input register. */
  const TOP_BIT: nat := 0x8000_0000

  class Wire {
    const target: Target
    /** Every clock so far. */
    var log: seq<Clock>

    constructor (target: Target)
      ensures this.target == target && log == []
    {
      this.target := target;
      log := [];
    }

    /** Set TMS and TDI, raise TCK, sample TDO, lower TCK. */
    method Pulse(c: Clock) returns (tdo: bool)
      modifies this`log
      ensures log == old(log) + [c]
      ensures [tdo] == Answers(target, old(log), [c])
    {
      assert [c][..1] == [c];
      log := log + [c];
      tdo := target(log);
    }

    /**
     The JTAG program of the PIO state machine, whose source is not part of this model: it takes
     the set-pin levels for all but the last clock and for the last clock, a count, and a word. It
     shifts count + 1 bits out of the word from the right, and TDO into a zeroed word from the left.
     `outIsTms` is the pin map: whether the shifted bits drive TMS and the set pin TDI. Behind the
     word come zeros; what is shifted in is only said for counts that fit a word.
     */
    method PioShift(outIsTms: bool, first: bool, last: bool, count: nat, word: nat) returns (inWord: nat)
      modifies this`log
      ensures var clocks := PioClocks(outIsTms, first, last, count + 1, word);
              && log == old(log) + clocks
              && (count < 32 ==> inWord == Number(Answers(target, old(log), clocks)) * Pow2(31 - count))
    {
      var osr: nat := word;
      inWord := 0;
      ghost var before, bits, clocks := log, Bits(word, count + 1), PioClocks(outIsTms, first, last, count + 1, word);
      assert bits[0..] == bits;
      ghost var left: nat := count + 1;
      for k := 0 to count + 1
        invariant left + k == count + 1 && Bits(osr, left) == bits[k..]
        invariant log == before + clocks[..k]
        invariant ShiftedIn(inWord, Answers(target, before, clocks[..k]))
      {
        var out;
        left := left - 1;
        out, osr := NextOut(osr, left, bits, k);
        inWord := PioClockOut(PioClock(outIsTms, out, if k < count then first else last), inWord, before, clocks, k);
      }
      assert clocks[..count + 1] == clocks;
    }

    /** One clock of the program. */
    method PioClockOut(c: Clock, inWord: nat, ghost before: seq<Clock>, ghost clocks: seq<Clock>, ghost k: nat) returns (after: nat)
      requires k < |clocks| && c == clocks[k] && log == before + clocks[..k]
      requires ShiftedIn(inWord, Answers(target, before, clocks[..k]))
      modifies this`log
      ensures log == before + clocks[..k + 1]
      ensures ShiftedIn(after, Answers(target, before, clocks[..k + 1]))
    {
      ExtendRun(target, before, clocks, k);
      var tdo := Pulse(c);
      ShiftInStep(inWord, Answers(target, before, clocks[..k]), tdo, Answers(target, before, clocks[..k + 1]));
      after := inWord / 2 + if tdo then TOP_BIT else 0;
    }
  }

  /** The next bit shifted out of the output register. */
  method NextOut(osr: nat, ghost left: nat, ghost bits: seq<bool>, ghost k: nat) returns (out: bool, rest: nat)
    requires k < |bits| && Bits(osr, left + 1) == bits[k..]
    ensures out == bits[k] && Bits(rest, left) == bits[k + 1..]
  {
    out, rest := osr % 2 == 1, osr / 2;
    assert Bits(osr, left + 1) == [osr % 2 == 1] + Bits(osr / 2, left);
    assert bits[k] == bits[k..][0] && bits[k + 1..] == bits[k..][1..];
  }

  /** The levels of one PIO clock, from the bit shifted out and the level of the set pin. */
  function PioClock(outIsTms: bool, out: bool, side: bool): Clock {
    if outIsTms then Clock(out, side) else Clock(side, out)
  }

  function PioClocks(outIsTms: bool, first: bool, last: bool, n: nat, word: nat): (clocks: seq<Clock>)
    ensures |clocks| == n
  {
    seq(n, k requires 0 <= k < n => PioClock(outIsTms, Bits(word, n)[k], if k < n - 1 then first else last))
  }

  lemma ExtendRun(target: Target, before: seq<Clock>, clocks: seq<Clock>, k: nat)
    requires k < |clocks|
    ensures before + clocks[..k + 1] == before + clocks[..k] + [clocks[k]]
    ensures Answers(target, before, clocks[..k + 1])
         == Answers(target, before, clocks[..k]) + Answers(target, before + clocks[..k], [clocks[k]])
  {
    assert clocks[..k + 1] == clocks[..k] + [clocks[k]];
    AnswersConcat(target, before, clocks[..k], [clocks[k]]);
  }

  lemma TopBit()
    ensures Pow2(31) == TOP_BIT
  {
    Pow2Eight();
    Pow2Sum(8, 8);
    Pow2Sum(16, 8);
    Pow2Sum(24, 7);
  }

  /** One right shift of the input register. */
  lemma ShiftIn(tdos: seq<bool>, tdo: bool, k: nat)
    requires |tdos| == k < 32
    ensures Number(tdos) * Pow2(32 - k) / 2 + (if tdo then TOP_BIT else 0) == Number(tdos + [tdo]) * Pow2(31 - k)
  {
    NumberConcat(tdos, [tdo]);
    assert Number([tdo]) == if tdo then 1 else 0;
    Pow2Sum(k, 31 - k);
    TopBit();
    ShiftInNumbers(Number(tdos), Pow2(31 - k), Pow2(k), tdo);
  }

  /** The input register after up to 32 shifts. */
  ghost predicate ShiftedIn(inWord: nat, tdos: seq<bool>) {
    |tdos| <= 32 ==> inWord == Number(tdos) * Pow2(32 - |tdos|)
  }

  lemma ShiftInStep(inWord: nat, tdos: seq<bool>, tdo: bool, more: seq<bool>)
    requires ShiftedIn(inWord, tdos) && more == tdos + [tdo]
    ensures ShiftedIn(inWord / 2 + if tdo then TOP_BIT else 0, more)
  {
    if |tdos| < 32 {
      ShiftIn(tdos, tdo, |tdos|);
    }
  }

  lemma ShiftInNumbers(x: nat, p: nat, q: nat, tdo: bool)
    ensures x * (2 * p) / 2 + (if tdo then q * p else 0) == (x + q * if tdo then 1 else 0) * p
  {
    assert x * (2 * p) == 2 * (x * p);
  }

  // ---------- the word form ----------

  /** The bytes a transfer of `i` remaining bits moves in its next word. */
  function ByteCount(i: nat): nat {
    if i > 32 then 4 else if i % 8 != 0 then i / 8 + 1 else i / 8
  }

  method LoadWord(DI: array<uint8>, at: nat, byteCount: nat) returns (word: nat)
    requires at + byteCount <= DI.Length
    ensures word == Number(DataBits(DI[..][at..at + byteCount]))
  {
    ghost var di := DI[..];
    word := 0;
    var weight: nat := 1;
    for j := 0 to byteCount
      invariant word == Number(DataBits(di[at..at + j]))
      invariant weight == Pow2(8 * j)
    {
      NextByte(di, at, j);
      var b: nat := DI[at + j];
      word := word + weight * b;
      weight := 256 * weight;
    }
  }

  lemma NextByte(di: seq<uint8>, at: nat, j: nat)
    requires at + j < |di|
    ensures Number(DataBits(di[at..at + j + 1])) == Number(DataBits(di[at..at + j])) + Pow2(8 * j) * di[at + j]
    ensures Pow2(8 * (j + 1)) == 256 * Pow2(8 * j)
  {
    var loaded := di[at..at + j];
    assert di[at..at + j + 1] == loaded + [di[at + j]];
    NumberSnoc(loaded, di[at + j]);
    Pow2Byte(8 * j);
  }

  lemma Pow2Byte(m: nat)
    ensures Pow2(m + 8) == 256 * Pow2(m)
  {
    Pow2Sum(8, m);
    Pow2Eight();
  }

  method StoreWord(DO: array<uint8>, at: nat, byteCount: nat, word: nat, ghost tdo: seq<bool>)
    requires at + byteCount <= DO.Length
    requires word == Number(tdo) && 8 * byteCount < |tdo| + 8 && |tdo| <= 8 * byteCount
    modifies DO
    ensures forall i :: 0 <= i < DO.Length ==>
      DO[i] == if at <= i < at + byteCount then CapturedByte(tdo, i - at) else old(DO[i])
  {
    var rest := word;
    for j := 0 to byteCount
      invariant rest == Number(tdo[Min(8 * j, |tdo|)..])
      invariant forall i :: 0 <= i < DO.Length ==>
        DO[i] == if at <= i < at + j then CapturedByte(tdo, i - at) else old(DO[i])
    {
      NextCaptured(tdo, j);
      DO[at + j] := rest % 256;
      rest := rest / 256;
    }
  }

  lemma NextCaptured(tdo: seq<bool>, j: nat)
    requires 8 * j < |tdo|
    ensures Number(tdo[8 * j..]) % 256 == CapturedByte(tdo, j)
    ensures Number(tdo[8 * j..]) / 256 == Number(tdo[Min(8 * (j + 1), |tdo|)..])
  {
    var left := tdo[8 * j..];
    DropByte(left);
    assert left[..Min(8, |left|)] == tdo[8 * j..Min(8 * j + 8, |tdo|)];
    assert left[Min(8, |left|)..] == tdo[Min(8 * (j + 1), |tdo|)..];
  }

  /** The clocks a transfer of `ticks` bits out of `bytes` drives. */
  function TransferClocks(bytes: seq<uint8>, finalTms: bool, ticks: nat): (clocks: seq<Clock>)
    requires ticks <= 8 * |bytes|
    ensures |clocks| == ticks
  {
    DataClocks(DataBits(bytes)[..ticks], finalTms)
  }

  /** A word's low bits are the bits of the bytes it was loaded from. */
  lemma LoadedBits(bytes: seq<uint8>, at: nat, byteCount: nat, n: nat)
    requires at + byteCount <= |bytes| && n <= 8 * byteCount
    ensures Bits(Number(DataBits(bytes[at..at + byteCount])), n) == DataBits(bytes)[8 * at..8 * at + n]
  {
    var word := DataBits(bytes[at..at + byteCount]);
    DataBitsSlice(bytes, at, at + byteCount);
    BitsOfNumber(word, n);
    FrontOfSlice(DataBits(bytes), 8 * at, 8 * (at + byteCount), n, word, Bits(Number(word), n));
  }

  lemma FrontOfSlice(bits: seq<bool>, lo: nat, hi: nat, n: nat, slice: seq<bool>, front: seq<bool>)
    requires lo + n <= hi <= |bits| && slice == bits[lo..hi] && front == slice[..n]
    ensures front == bits[lo..lo + n]
  {
  }

  /** The PIO's clocks for a data word. */
  lemma WordClocks(bits: seq<bool>, last: bool, word: nat)
    requires Bits(word, |bits|) == bits
    ensures PioClocks(false, false, last, |bits|, word) == DataClocks(bits, last)
  {
  }

  lemma ShareOfClocks(bits: seq<bool>, finalTms: bool, done: nat, n: nat)
    requires 1 <= n && done + n <= |bits|
    ensures DataClocks(bits[done..done + n], finalTms && done + n == |bits|) == DataClocks(bits, finalTms)[done..done + n]
  {
  }

  /** Storing one more word of captured bits. */
  lemma StoredWord(start: seq<uint8>, before: seq<uint8>, after: seq<uint8>, tdo: seq<bool>, done: nat, word: seq<bool>)
    requires |before| == |after| == |start| && done + |word| <= |tdo| <= 8 * |start| && done % 8 == 0
    requires before == Stored(start, tdo[..done])
    requires word == tdo[done..done + |word|]
    requires forall i :: 0 <= i < |start| ==>
      after[i] == if 8 * i < done || done + |word| <= 8 * i then before[i] else CapturedByte(word, i - done / 8)
    ensures after == Stored(start, tdo[..done + |word|])
  {
    var all := tdo[..done + |word|];
    forall i | 0 <= i < |start| ensures after[i] == Stored(start, all)[i] {
      if 8 * i < done {
        SubSlice(tdo, 0, done, 8 * i, 8 * i + 8);
        SubSlice(tdo, 0, done + |word|, 8 * i, 8 * i + 8);
      } else if 8 * i < |all| {
        var from, to := 8 * i - done, Min(8 * i + 8, |all|) - done;
        assert from == 8 * (i - done / 8);
        SubSlice(tdo, done, done + |word|, from, to);
        SubSlice(tdo, 0, done + |word|, done + from, done + to);
      }
    }
  }

  /** Shifting the input register down when fewer than 32 bits came in. */
  lemma Normalised(inData: nat, count: nat, captured: nat)
    requires count < 32 && inData == captured * Pow2(31 - count)
    ensures captured == if count == 31 then inData else inData / Pow2(31 - count)
  {
    Quotient(inData, Pow2(31 - count), captured);
  }

  /** Four FIFO writes and one read: the bits of a word are clocked out, the answers come back. */
  method SendWord(wire: Wire, last: bool, outCount: nat, outData: nat, ghost bits: seq<bool>) returns (inData: nat)
    requires outCount < 32 && |bits| == outCount + 1 && Bits(outData, |bits|) == bits
    modifies wire`log
    ensures wire.log == old(wire.log) + DataClocks(bits, last)
    ensures inData == Number(Answers(wire.target, old(wire.log), DataClocks(bits, last)))
  {
    WordClocks(bits, last, outData);
    ghost var answers := Answers(wire.target, wire.log, DataClocks(bits, last));
    inData := wire.PioShift(false, false, last, outCount, outData);
    Normalised(inData, outCount, Number(answers));
    if outCount != 32 - 1 {
      inData := inData / Pow2(31 - outCount);
    }
  }

  /** The loop body of the word form: one word loaded, shifted, normalised and stored. */
  method MoveWord(wire: Wire, DO: array<uint8>, DI: array<uint8>, at: nat, i: nat, last: bool)
    requires 1 <= i && 8 * at + i <= 8 * DI.Length && 8 * at + i <= 8 * DO.Length
    modifies wire`log, DO
    ensures var clocks := DataClocks(DataBits(old(DI[..]))[8 * at..8 * at + Min(32, i)], last);
            && wire.log == old(wire.log) + clocks
            && var answers := Answers(wire.target, old(wire.log), clocks);
            forall k :: 0 <= k < DO.Length ==>
              DO[k] == if at <= k < at + ByteCount(i) then CapturedByte(answers, k - at) else old(DO[k])
  {
    var byteCount := ByteCount(i);
    var outData := LoadWord(DI, at, byteCount);
    var outCount := if i > 32 then 32 - 1 else i - 1;
    ghost var n := Min(32, i);
    ghost var bits := DataBits(DI[..])[8 * at..8 * at + n];
    LoadedBits(DI[..], at, byteCount, n);
    ghost var answers := Answers(wire.target, wire.log, DataClocks(bits, last));
    var inData := SendWord(wire, last, outCount, outData, bits);
    StoreWord(DO, at, byteCount, inData, answers);
  }

  /** What the target answers to one word of the transfer. */
  lemma WordAnswers(target: Target, before: seq<Clock>, clocks: seq<Clock>, done: nat, n: nat)
    requires done + n <= |clocks|
    ensures Answers(target, before + clocks[..done], clocks[done..done + n]) == Answers(target, before, clocks)[done..done + n]
    ensures before + clocks[..done] + clocks[done..done + n] == before + clocks[..done + n]
  {
    assert clocks == clocks[..done] + (clocks[done..done + n] + clocks[done + n..]);
    AnswersConcat(target, before, clocks[..done], clocks[done..done + n] + clocks[done + n..]);
    AnswersConcat(target, before + clocks[..done], clocks[done..done + n], clocks[done + n..]);
  }

  /** A transfer after its first `done` bits: the wire and the output buffer. */
  ghost predicate Moved(target: Target, before: seq<Clock>, start: seq<uint8>, clocks: seq<Clock>, done: nat,
                        log: seq<Clock>, out: seq<uint8>)
    requires done <= |clocks| <= 8 * |start|
  {
    && log == before + clocks[..done]
    && out == Stored(start, Answers(target, before, clocks)[..done])
  }

  /** The loop body's effect is one step of the transfer. */
  lemma WordStep(target: Target, before: seq<Clock>, start: seq<uint8>, bits: seq<bool>, finalTms: bool,
                 at: nat, i: nat, log: seq<Clock>, out: seq<uint8>, log': seq<Clock>, out': seq<uint8>)
    requires |bits| <= 8 * |start| && 1 <= i && 8 * at + i == |bits|
    requires Moved(target, before, start, DataClocks(bits, finalTms), 8 * at, log, out)
    requires |out'| == |out| == |start|
    requires var share := DataClocks(bits[8 * at..8 * at + Min(32, i)], i <= 32 && finalTms);
             && log' == log + share
             && var answers := Answers(target, log, share);
             forall k :: 0 <= k < |out| ==>
               out'[k] == if at <= k < at + ByteCount(i) then CapturedByte(answers, k - at) else out[k]
    ensures Moved(target, before, start, DataClocks(bits, finalTms), 8 * at + Min(32, i), log', out')
  {
    var n, clocks := Min(32, i), DataClocks(bits, finalTms);
    var tdo := Answers(target, before, clocks);
    ShareOfClocks(bits, finalTms, 8 * at, n);
    WordAnswers(target, before, clocks, 8 * at, n);
    StoredWord(start, out, out', tdo, 8 * at, tdo[8 * at..8 * at + n]);
  }

  /** One word of the transfer; bytes of DI behind it are left alone also when DI is DO. */
  method MoveShare(wire: Wire, DO: array<uint8>, DI: array<uint8>, at: nat, i: nat, finalTms: bool,
                   ghost start: seq<uint8>, ghost before: seq<Clock>, ghost bits: seq<bool>, ghost di: seq<uint8>)
    requires 1 <= i && 8 * at + i == |bits| <= 8 * |start| && |bits| <= 8 * DI.Length && DO.Length == |start|
    requires |di| == DI.Length && bits == DataBits(di)[..|bits|] && forall j :: at <= j < DI.Length ==> DI[j] == di[j]
    requires Moved(wire.target, before, start, DataClocks(bits, finalTms), 8 * at, wire.log, DO[..])
    modifies wire`log, DO
    ensures Moved(wire.target, before, start, DataClocks(bits, finalTms), 8 * at + Min(32, i), wire.log, DO[..])
    ensures forall j :: at + ByteCount(i) <= j < DI.Length ==> DI[j] == di[j]
  {
    ghost var log, out := wire.log, DO[..];
    SameBits(DI[..], di, at, |bits|, Min(32, i));
    MoveWord(wire, DO, DI, at, i, i <= 32 && finalTms);
    WordStep(wire.target, before, start, bits, finalTms, at, i, log, out, wire.log, DO[..]);
  }

  /**
   tdi_tdo_seq on the PIO: 32 bits at a time, reading each word of DI before the same bytes of DO
   are written, so both may be the same buffer.
   */
  method TdiTdoSeqWords(wire: Wire, DO: array<uint8>, finalTms: bool, DI: array<uint8>, ticks: nat)
    requires ticks <= 8 * DI.Length && ticks <= 8 * DO.Length
    modifies wire`log, DO
    ensures Moved(wire.target, old(wire.log), old(DO[..]), TransferClocks(old(DI[..]), finalTms, ticks), ticks,
                  wire.log, DO[..])
  {
    ghost var di, start, before := DI[..], DO[..], wire.log;
    ghost var bits := DataBits(di)[..ticks];
    var i: int, at: nat := ticks, 0;
    ghost var done: nat := 0;
    while i > 0
      invariant if i > 0 then done == ticks - i == 8 * at else done == ticks
      invariant Moved(wire.target, before, start, DataClocks(bits, finalTms), done, wire.log, DO[..])
      invariant forall j :: at <= j < DI.Length ==> DI[j] == di[j]
    {
      ghost var n := Min(32, i);
      MoveShare(wire, DO, DI, at, i, finalTms, start, before, bits, di);
      WholeWord(i);
      done := done + n;
      at := at + ByteCount(i);
      i := i - 32;
    }
  }

  lemma WholeWord(i: nat)
    requires 1 <= i
    ensures i > 32 ==> ByteCount(i) == 4
  {
  }

  lemma SameBits(a: seq<uint8>, b: seq<uint8>, at: nat, ticks: nat, n: nat)
    requires |a| == |b| && 8 * at + n <= ticks <= 8 * |a|
    requires forall j :: at <= j < |a| ==> a[j] == b[j]
    ensures DataBits(a)[8 * at..8 * at + n] == DataBits(b)[..ticks][8 * at..8 * at + n]
  {
    forall k | 8 * at <= k < 8 * at + n ensures DataBits(a)[k] == DataBits(b)[k] {
      assert a[k / 8] == b[k / 8];
    }
    assert DataBits(a)[8 * at..8 * at + n] == DataBits(b)[8 * at..8 * at + n];
  }

  // ---------- the bit form ----------

  /** One clock of the bit form is the next clock of the transfer. */
  lemma BitStep(target: Target, before: seq<Clock>, bits: seq<bool>, finalTms: bool, done: nat, log: seq<Clock>, c: Clock, tdo: bool)
    requires done < |bits| && log == before + DataClocks(bits, finalTms)[..done]
    requires c == Clock(done == |bits| - 1 && finalTms, bits[done])
    requires [tdo] == Answers(target, log, [c])
    ensures log + [c] == before + DataClocks(bits, finalTms)[..done + 1]
    ensures Answers(target, before, DataClocks(bits, finalTms))[done] == tdo
  {
    var clocks := DataClocks(bits, finalTms);
    WordAnswers(target, before, clocks, done, 1);
    assert clocks[done..done + 1] == [c];
    assert Answers(target, before, clocks)[done..done + 1][0] == tdo;
  }

  /** The next captured bit joins the byte being collected. */
  lemma CollectBit(tdo: seq<bool>, from: nat, k: nat)
    requires from + k < |tdo|
    ensures Number(tdo[from..from + k + 1]) == Number(tdo[from..from + k]) + if tdo[from + k] then Pow2(k) else 0
  {
    assert tdo[from..from + k + 1] == tdo[from..from + k] + [tdo[from + k]];
    NumberConcat(tdo[from..from + k], [tdo[from + k]]);
    assert Number([tdo[from + k]]) == if tdo[from + k] then 1 else 0;
  }

  /** A whole or final byte of captured bits is stored. */
  method StoreByte(DO: array<uint8>, at: nat, res: nat, ghost start: seq<uint8>, ghost tdo: seq<bool>, ghost k: nat)
    requires at < DO.Length == |start| && 1 <= k <= 8 && 8 * at + k <= |tdo| <= 8 * |start|
    requires res == Number(tdo[8 * at..8 * at + k]) < 256
    requires DO[..] == Stored(start, tdo[..8 * at])
    modifies DO
    ensures DO[..] == Stored(start, tdo[..8 * at + k])
    ensures forall j :: at < j < DO.Length ==> DO[j] == old(DO[j])
  {
    ghost var before := DO[..];
    DO[at] := res;
    StoredByte(start, before, DO[..], tdo, at, res, k);
  }

  lemma StoredByte(start: seq<uint8>, before: seq<uint8>, after: seq<uint8>, tdo: seq<bool>, at: nat, res: nat, k: nat)
    requires at < |before| == |start| && 1 <= k <= 8 && 8 * at + k <= |tdo| <= 8 * |start|
    requires res == Number(tdo[8 * at..8 * at + k]) < 256
    requires before == Stored(start, tdo[..8 * at]) && after == before[at := res]
    ensures after == Stored(start, tdo[..8 * at + k])
  {
    var word := tdo[8 * at..8 * at + k];
    assert word[0..Min(8, k)] == word;
    assert CapturedByte(word, 0) == res;
    StoredWord(start, before, after, tdo, 8 * at, word);
  }

  /** Behind the eighth bit of a byte: it is stored, and the next one begins. */
  method EndOfByte(DO: array<uint8>, at: nat, k: nat, res: nat, ghost start: seq<uint8>, ghost tdo: seq<bool>)
    returns (at': nat, k': nat, res': nat)
    requires at < DO.Length == |start| && 1 <= k <= 8 && 8 * at + k <= |tdo| <= 8 * |start|
    requires res == Number(tdo[8 * at..8 * at + k]) < 256
    requires DO[..] == Stored(start, tdo[..8 * at])
    modifies DO
    ensures at <= at' && k' < 8 && 8 * at' + k' == 8 * at + k
    ensures DO[..] == Stored(start, tdo[..8 * at'])
    ensures res' == Number(tdo[8 * at'..8 * at' + k'])
    ensures forall j :: at' <= j < DO.Length ==> DO[j] == old(DO[j])
  {
    at', k', res' := at, k, res;
    if k == 8 {
      StoreByte(DO, at, res, start, tdo, 8);
      at', k', res' := at + 1, 0, 0;
    }
  }

  lemma SmallNumber(bits: seq<bool>)
    requires |bits| <= 8
    ensures Number(bits) < 256
  {
    NumberBound(bits);
    Pow2Monotone(|bits|, 8);
    Pow2Eight();
  }

  /** One clock of the bit form: drive TMS and the next bit of the data byte, collect TDO in `res`. */
  method SampleBit(wire: Wire, tms: bool, data: uint8, k: nat, res: nat,
                   ghost before: seq<Clock>, ghost bits: seq<bool>, ghost finalTms: bool, ghost at: nat)
    returns (sum: nat)
    requires k < 8 && 8 * at + k < |bits|
    requires tms == (8 * at + k == |bits| - 1 && finalTms) && TestBit(data, k) == bits[8 * at + k]
    requires wire.log == before + DataClocks(bits, finalTms)[..8 * at + k]
    requires res == Number(Answers(wire.target, before, DataClocks(bits, finalTms))[8 * at..8 * at + k])
    modifies wire`log
    ensures wire.log == before + DataClocks(bits, finalTms)[..8 * at + k + 1]
    ensures sum == Number(Answers(wire.target, before, DataClocks(bits, finalTms))[8 * at..8 * at + k + 1]) < 256
  {
    ghost var tdo := Answers(wire.target, before, DataClocks(bits, finalTms));
    ghost var log := wire.log;
    var c := Clock(tms, TestBit(data, k));
    var bit := wire.Pulse(c);
    BitStep(wire.target, before, bits, finalTms, 8 * at + k, log, c, bit);
    CollectBit(tdo, 8 * at, k);
    SmallNumber(tdo[8 * at..8 * at + k + 1]);
    sum := res + if bit then Pow2(k) else 0;
  }

  /**
   tdi_tdo_seq on the pins. `index` walks through the bits of a byte; it is kept as its exponent
   `k`, so that the shift that drops it out of its byte shows as `k` reaching 8.
   */
  method TdiTdoSeqBits(wire: Wire, DO: array<uint8>, finalTms: bool, DI: array<uint8>, ticks: nat)
    requires BitTicks(ticks) <= 8 * DI.Length && BitTicks(ticks) <= 8 * DO.Length
    modifies wire`log, DO
    ensures Moved(wire.target, old(wire.log), old(DO[..]), TransferClocks(old(DI[..]), finalTms, BitTicks(ticks)), BitTicks(ticks),
                  wire.log, DO[..])
  {
    ghost var di, start, before := DI[..], DO[..], wire.log;
    ghost var bits := DataBits(di)[..BitTicks(ticks)];
    ghost var tdo := Answers(wire.target, before, DataClocks(bits, finalTms));
    var at: nat, k: nat, res: nat, left: nat := 0, 0, 0, ticks;
    while left > 1
      invariant k < 8 && BitTicks(left) + 8 * at + k == |bits|
      invariant wire.log == before + DataClocks(bits, finalTms)[..8 * at + k]
      invariant DO[..] == Stored(start, tdo[..8 * at])
      invariant res == Number(tdo[8 * at..8 * at + k])
      invariant forall j :: at <= j < DI.Length ==> DI[j] == di[j]
    {
      BitOfByte(di, BitTicks(ticks), at, k);
      res := SampleBit(wire, false, DI[at], k, res, before, bits, finalTms, at);
      at, k, res := EndOfByte(DO, at, k + 1, res, start, tdo);
      left := left - 1;
    }
    BitOfByte(di, BitTicks(ticks), at, k);
    LastBit(wire, DO, DI[at], at, k, res, finalTms, start, before, bits);
  }

  lemma BitOfByte(bytes: seq<uint8>, n: nat, at: nat, k: nat)
    requires k < 8 && 8 * at + k < n <= 8 * |bytes|
    ensures DataBits(bytes)[..n][8 * at + k] == TestBit(bytes[at], k)
  {
    assert (8 * at + k) / 8 == at && (8 * at + k) % 8 == k;
  }

  /** How many bits the bit form moves: the last bit is outside its loop, so there always is one. */
  function BitTicks(ticks: nat): nat {
    if ticks == 0 then 1 else ticks
  }

  /** The two forms of tdi_tdo_seq drive the same clocks exactly for ticks >= 1; for 0 the bit form clocks one bit. */
  lemma TransferFormsAgree(bytes: seq<uint8>, finalTms: bool, ticks: nat)
    requires BitTicks(ticks) <= 8 * |bytes|
    ensures TransferClocks(bytes, finalTms, BitTicks(ticks)) == TransferClocks(bytes, finalTms, ticks) <==> ticks >= 1
  {
    assert ticks == 0 ==> |TransferClocks(bytes, finalTms, BitTicks(ticks))| == 1 > |TransferClocks(bytes, finalTms, ticks)|;
  }

  /** The last bit of the bit form, with TMS as asked for, and the byte it completes. */
  method LastBit(wire: Wire, DO: array<uint8>, data: uint8, at: nat, k: nat, sum: nat, finalTms: bool,
                 ghost start: seq<uint8>, ghost before: seq<Clock>, ghost bits: seq<bool>)
    requires k < 8 && 8 * at + k + 1 == |bits| <= 8 * |start| && DO.Length == |start|
    requires TestBit(data, k) == bits[8 * at + k]
    requires wire.log == before + DataClocks(bits, finalTms)[..8 * at + k]
    requires var tdo := Answers(wire.target, before, DataClocks(bits, finalTms));
             DO[..] == Stored(start, tdo[..8 * at]) && sum == Number(tdo[8 * at..8 * at + k])
    modifies wire`log, DO
    ensures Moved(wire.target, before, start, DataClocks(bits, finalTms), |bits|, wire.log, DO[..])
  {
    var res := SampleBit(wire, finalTms, data, k, sum, before, bits, finalTms, at);
    StoreByte(DO, at, res, start, Answers(wire.target, before, DataClocks(bits, finalTms)), k + 1);
  }

  // ---------- the other transfers ----------

  /** One word's share continues the transfer. */
  lemma NextShare(before: seq<Clock>, log: seq<Clock>, bits: seq<bool>, finalTms: bool, at: nat, i: nat)
    requires 1 <= i && 8 * at + i == |bits| && log == before + DataClocks(bits, finalTms)[..8 * at]
    ensures var n := Min(32, i);
            log + DataClocks(bits[8 * at..8 * at + n], i <= 32 && finalTms) == before + DataClocks(bits, finalTms)[..8 * at + n]
  {
    var n, from, clocks := Min(32, i), 8 * at, DataClocks(bits, finalTms);
    ShareOfClocks(bits, finalTms, from, n);
    calc {
      before + clocks[..from + n];
      { assert clocks[..from + n] == clocks[..from] + clocks[from..from + n]; }
      before + (clocks[..from] + clocks[from..from + n]);
      before + clocks[..from] + clocks[from..from + n];
    }
  }

  /** The loop body of tdi_seq on the PIO: the answers are read from the FIFO and dropped. */
  method DropWord(wire: Wire, DI: array<uint8>, at: nat, i: nat, last: bool)
    requires 1 <= i && 8 * at + i <= 8 * DI.Length
    modifies wire`log
    ensures wire.log == old(wire.log) + DataClocks(DataBits(DI[..])[8 * at..8 * at + Min(32, i)], last)
  {
    var byteCount := ByteCount(i);
    var outData := LoadWord(DI, at, byteCount);
    var outCount := if i > 32 then 32 - 1 else i - 1;
    ghost var n := Min(32, i);
    ghost var bits := DataBits(DI[..])[8 * at..8 * at + n];
    LoadedBits(DI[..], at, byteCount, n);
    var _ := SendWord(wire, last, outCount, outData, bits);
  }

  /** tdi_seq on the PIO. */
  method TdiSeqWords(wire: Wire, finalTms: bool, DI: array<uint8>, ticks: nat)
    requires ticks <= 8 * DI.Length
    modifies wire`log
    ensures wire.log == old(wire.log) + TransferClocks(DI[..], finalTms, ticks)
  {
    ghost var before, bits := wire.log, DataBits(DI[..])[..ticks];
    var i: int, at: nat := ticks, 0;
    ghost var done: nat := 0;
    while i > 0
      invariant if i > 0 then done == ticks - i == 8 * at else done == ticks
      invariant wire.log == before + DataClocks(bits, finalTms)[..done]
    {
      DropShare(wire, DI, at, i, finalTms, before, ticks);
      WholeWord(i);
      done := done + Min(32, i);
      at := at + ByteCount(i);
      i := i - 32;
    }
  }

  /** One word of the transfer. */
  method DropShare(wire: Wire, DI: array<uint8>, at: nat, i: nat, finalTms: bool, ghost before: seq<Clock>, ghost ticks: nat)
    requires 1 <= i && 8 * at + i == ticks <= 8 * DI.Length
    requires wire.log == before + DataClocks(DataBits(DI[..])[..ticks], finalTms)[..8 * at]
    modifies wire`log
    ensures wire.log == before + DataClocks(DataBits(DI[..])[..ticks], finalTms)[..8 * at + Min(32, i)]
  {
    SameBits(DI[..], DI[..], at, ticks, Min(32, i));
    NextShare(before, wire.log, DataBits(DI[..])[..ticks], finalTms, at, i);
    DropWord(wire, DI, at, i, i <= 32 && finalTms);
  }

  /** tdi_seq on the pins. */
  method TdiSeqBits(wire: Wire, finalTms: bool, DI: array<uint8>, ticks: nat)
    requires ticks <= 8 * DI.Length
    modifies wire`log
    ensures wire.log == old(wire.log) + TransferClocks(DI[..], finalTms, ticks)
  {
    ghost var before, bits := wire.log, DataBits(DI[..])[..ticks];
    var at: nat, k: nat, left := 0, 0, ticks;
    while left != 0
      invariant k < 8 && left + 8 * at + k == ticks
      invariant wire.log == before + DataClocks(bits, finalTms)[..8 * at + k]
    {
      left := left - 1;
      ghost var log := wire.log;
      var c := Clock(if left != 0 then false else finalTms, TestBit(DI[at], k));
      var bit := wire.Pulse(c);
      BitStep(wire.target, before, bits, finalTms, 8 * at + k, log, c, bit);
      k := k + 1;
      if k == 8 {
        k := 0;
        at := at + 1;
      }
    }
  }

  /** How many clocks the word form of tms_seq sends: the count it passes on is `ticks - 1` in 32 bits. */
  function WordTicks(ticks: nat): nat {
    SubU32(ticks, 1) + 1
  }

  /** The two forms of tms_seq send the same clocks exactly for ticks >= 1; for 0 the word form sends 2^32 of them. */
  lemma TmsFormsAgree(MS: nat, ticks: nat)
    requires ticks < TWO_TO_THE_32
    ensures WordTicks(ticks) == if ticks == 0 then TWO_TO_THE_32 else ticks
    ensures TmsClocks(Bits(MS, WordTicks(ticks))) == TmsClocks(Bits(MS, ticks)) <==> ticks >= 1
  {
    assert ticks == 0 ==> |TmsClocks(Bits(MS, WordTicks(ticks)))| == WordTicks(ticks) > |TmsClocks(Bits(MS, ticks))|;
  }

  /** tms_seq on the PIO, with the pin map turned round. */
  method TmsSeqWords(wire: Wire, MS: nat, ticks: nat)
    requires ticks < TWO_TO_THE_32
    modifies wire`log
    ensures wire.log == old(wire.log) + TmsClocks(Bits(MS, WordTicks(ticks)))
  {
    assert PioClocks(true, true, true, WordTicks(ticks), MS) == TmsClocks(Bits(MS, WordTicks(ticks)));
    var _ := wire.PioShift(true, true, true, SubU32(ticks, 1), MS);
  }

  /** tms_seq on the pins. */
  method TmsSeqBits(wire: Wire, MS: nat, ticks: nat)
    modifies wire`log
    ensures wire.log == old(wire.log) + TmsClocks(Bits(MS, ticks))
  {
    var ms: nat, left: nat := MS, ticks;
    while left != 0
      invariant left <= ticks
      invariant wire.log + TmsClocks(Bits(ms, left)) == old(wire.log) + TmsClocks(Bits(MS, ticks))
    {
      ghost var log := wire.log;
      ghost var rest := Bits(ms / 2, left - 1);
      assert Bits(ms, left) == [ms % 2 == 1] + rest;
      assert TmsClocks([ms % 2 == 1] + rest) == [Clock(ms % 2 == 1, true)] + TmsClocks(rest);
      assert log + ([Clock(ms % 2 == 1, true)] + TmsClocks(rest)) == log + [Clock(ms % 2 == 1, true)] + TmsClocks(rest);
      var _ := wire.Pulse(Clock(ms % 2 == 1, true));
      ms := ms / 2;
      left := left - 1;
    }
    assert TmsClocks(Bits(ms, 0)) == [];
  }

  /** One clock on the PIO: the same clock and answer as one pulse on the pins. */
  method NextWords(wire: Wire, tms: bool, tdi: bool) returns (tdo: bool)
    modifies wire`log
    ensures wire.log == old(wire.log) + [Clock(tms, tdi)]
    ensures [tdo] == Answers(wire.target, old(wire.log), [Clock(tms, tdi)])
  {
    var word := if tdi then 1 else 0;
    ghost var clocks := [Clock(tms, tdi)];
    assert Bits(word, 1) == [tdi];
    assert PioClocks(false, tms, tms, 1, word) == clocks;
    ghost var answers := Answers(wire.target, wire.log, clocks);
    var inWord := wire.PioShift(false, tms, tms, 0, word);
    assert answers == [answers[0]] && Number(answers) == if answers[0] then 1 else 0;
    TopBit();
    tdo := inWord != 0;
  }
}
