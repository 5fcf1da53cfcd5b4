/**
 The capture interrupt case by case, in ticks instead of quotients: what makes it leave the frame,
 what it then pushes, what it takes in otherwise, and when the next frame is decoded after that.
 */
module TraceExits {
  import opened Arithmetic
  import opened Machine
  import opened TraceSwo
  import opened Runs
  import opened Manchester

  // ---------- the cases ----------

  /** A time-out or an overflow with neither edge captured. */
  predicate NoCapture(c: Capture) {
    (c.cc1of || c.uif) && !c.cc1if && !c.cc2if
  }

  /** The high time is none, or not one or two halves of a synchronised signal. */
  predicate BadHigh(d: Decoder, c: Capture) {
    c.duty == 0 || (d.bt != 0 && (c.duty < d.bt || 3 * d.bt <= c.duty))
  }

  predicate HighDoubled(d: Decoder, c: Capture) {
    2 * d.bt <= c.duty
  }

  /** The bit that the pulse ends. */
  function Ended(d: Decoder, c: Capture): bool {
    if HighDoubled(d, c) then !d.lastBit else d.lastBit
  }

  predicate LowDoubled(d: Decoder, c: Capture) {
    2 * d.bt <= c.cycle - c.duty
  }

  predicate LowTooLong(d: Decoder, c: Capture) {
    !c.cc1if || 3 * d.bt <= c.cycle - c.duty
  }

  /** Half of a bit is left over behind the high time. */
  predicate HalfLeft(d: Decoder, c: Capture) {
    d.halfBit && !HighDoubled(d, c)
  }

  /** The decoder gives up, or a frame ends, before the pulse counts. */
  predicate LeavesAtOnce(d: Decoder, c: Capture) {
    NoCapture(c) || BadHigh(d, c) || (d.bt != 0 && HighDoubled(d, c) && !d.halfBit)
  }

  /** The pulse counts, and then the frame ends or synchronisation is lost. */
  predicate LeavesBehind(d: Decoder, c: Capture) {
    LowTooLong(d, c) || (LowDoubled(d, c) && HalfLeft(d, c))
  }

  lemma AtLeast(a: nat, b: nat, k: nat)
    requires b > 0
    ensures a / b >= k <==> k * b <= a
  {
    Remainder(a, b);
    if k * b <= a {
      QuotientAtLeast(a, b, k);
    } else if a / b >= k {
      Grows(a / b, k, b);
    }
  }

  lemma HighHalves(d: Decoder, c: Capture)
    requires d.bt != 0
    ensures BadHigh(d, c) <==> c.duty == 0 || c.duty / d.bt > 2 || c.duty / d.bt == 0
    ensures HighDoubled(d, c) <==> c.duty / d.bt > 1
  {
    AtLeast(c.duty, d.bt, 1);
    AtLeast(c.duty, d.bt, 2);
    AtLeast(c.duty, d.bt, 3);
  }

  lemma LowHalves(bt: nat, low: int)
    requires bt != 0
    ensures TruncDiv(low, bt) > 1 <==> 2 * bt <= low
    ensures TruncDiv(low, bt) > 2 <==> 3 * bt <= low
  {
    if low >= 0 {
      AtLeast(low, bt, 2);
      AtLeast(low, bt, 3);
    } else {
      AtLeast(-low, bt, 0);
    }
  }

  // ---------- leaving a frame ----------

  /**
   A time-out without an edge, a bad high time, and a high time doubled where no half is left over:
   the whole bytes collected so far are pushed, and nothing stays behind.
   */
  lemma PushesBytes(d: Decoder, c: Capture, bytes: seq<byte>, extra: seq<bool>)
    requires LeavesAtOnce(d, c) && d.bits == BitsOf(bytes) + extra && |extra| < 8
    ensures Divisible(d, c)
    ensures var (e, out) := Isr(d, c);
            && out == bytes && e.bt == 0 && e.bits == []
            && e.notStart == (d.notStart || (!c.cc1if && !NoCapture(c) && !BadHigh(d, c)))
  {
    PackedBits(bytes, extra);
    if d.bt != 0 {
      HighHalves(d, c);
    }
  }

  /**
   A missing rising edge, a low time of three halves, and a low time doubled where half a bit is left
   over: the bit that the pulse ends is the last one, and the whole bytes are pushed.
   */
  lemma PushesBytesWithBit(d: Decoder, c: Capture, bytes: seq<byte>, extra: seq<bool>)
    requires d.bt != 0 && !LeavesAtOnce(d, c) && LeavesBehind(d, c)
    requires d.bits + [Ended(d, c)] == BitsOf(bytes) + extra && |extra| < 8
    ensures Divisible(d, c)
    ensures var (e, out) := Isr(d, c);
            out == bytes && e.bt == 0 && e.bits == [] && e.notStart == (d.notStart || !c.cc1if)
  {
    PackedBits(bytes, extra);
    HighHalves(d, c);
    LowHalves(d.bt, c.cycle - c.duty);
  }

  /** The bits with the ones that a pulse adds: the one it ends, and another one for a doubled low time. */
  function Taken(d: Decoder, c: Capture): seq<bool> {
    d.bits + [Ended(d, c)] + if LowDoubled(d, c) then [!Ended(d, c)] else []
  }

  /** Every other pulse is taken in, and only a full buffer is pushed. */
  lemma TakesBits(d: Decoder, c: Capture)
    requires d.bt != 0 && !LeavesAtOnce(d, c) && !LeavesBehind(d, c)
    ensures Divisible(d, c)
    ensures var (e, out) := Isr(d, c); var bits := Taken(d, c);
            && (|bits| < 128 ==> out == [] && e.bits == bits && e.bt == d.bt)
            && (|bits| >= 128 ==> out == Packed(bits) && e.bits == [] && e.bt == 0)
            && e.lastBit == bits[|bits| - 1] && e.notStart == d.notStart
            && e.halfBit == (LowDoubled(d, c) || HalfLeft(d, c))
  {
    HighHalves(d, c);
    LowHalves(d.bt, c.cycle - c.duty);
    assert d.bits + [Ended(d, c)] + [] == d.bits + [Ended(d, c)];
  }

  /** A synchronised decoder gives the frame up, or ends it, in exactly these cases. */
  lemma LeavesExactly(d: Decoder, c: Capture)
    requires d.bt != 0
    ensures Divisible(d, c)
    ensures Isr(d, c).0.bt == 0 <==> LeavesAtOnce(d, c) || LeavesBehind(d, c) || |Taken(d, c)| >= 128
    ensures Isr(d, c).0.bt == 0 ==> Isr(d, c).0.bits == []
    ensures Isr(d, c).0.bt != 0 ==> Isr(d, c).1 == []
  {
    HighHalves(d, c);
    LowHalves(d.bt, c.cycle - c.duty);
    if !LeavesAtOnce(d, c) && !LeavesBehind(d, c) {
      TakesBits(d, c);
    }
  }

  // ---------- waiting for a frame ----------

  /** The half-bit time a pulse suggests: its high time less the allowed error, in 16 bits. */
  function Suggested(c: Capture): nat {
    if c.duty >= 5 then c.duty - 5 else c.duty + 65531
  }

  /** The period is that of a start bit at the suggested half-bit time. */
  predicate StartBit(c: Capture) {
    2 * Suggested(c) <= c.cycle && c.cycle < 4 * Suggested(c)
  }

  /** A decoder that waits skips one pulse after a lost edge, synchronises on a start bit, and ignores the rest. */
  lemma Waits(d: Decoder, c: Capture)
    requires d.bt == 0 && !NoCapture(c) && c.duty != 0 && (d.notStart || !c.cc1if || c.duty != 5)
    ensures Divisible(d, c)
    ensures d.notStart || !c.cc1if ==> Isr(d, c) == (d.(notStart := false), [])
    ensures !d.notStart && c.cc1if && !StartBit(c) ==> Isr(d, c) == (d, [])
    ensures !d.notStart && c.cc1if && StartBit(c) && |d.bits| < 127 ==>
              Isr(d, c) == (if 3 * Suggested(c) <= c.cycle
                            then Decoder(Suggested(c), false, true, false, d.bits + [false])
                            else Decoder(Suggested(c), true, false, false, d.bits), [])
  {
    var b := Suggested(c);
    if !d.notStart && c.cc1if {
      assert (c.duty - ALLOWED_DUTY_ERROR) % TWO_TO_THE_16 == b;
      AtLeast(c.cycle, b, 2);
      AtLeast(c.cycle, b, 4);
      LowHalves(b, c.cycle - b);
    }
  }

  // ---------- the next frame ----------

  /** The first edge of a frame does no harm: it is skipped, or what the registers hold is no start bit. */
  predicate StartsCleanly(d: Decoder, stale: Capture) {
    d.notStart || (stale.duty != 5 && !StartBit(stale))
  }

  lemma CleanStart(d: Decoder, f: Frame)
    requires d.bt == 0 && d.bits == [] && Wellformed(f) && Fits(f.t) && StartsCleanly(d, f.stale)
    ensures Delivers(d, FrameCaptures(f), f.bytes)
  {
    var bits := BitsOf(f.bytes);
    var levels := Levels([true] + bits);
    assert ([true] + bits)[1..] == bits;
    assert levels[1..] == [false] + Levels(bits) && levels[1..][1..] == Levels(bits);
    Waits(d, f.stale);
    var e := d.(notStart := false);
    DataDecodes(e, f.t, bits, f.bytes);
    SilentFirst(d, f.stale, e, Captures(f.t, false, levels[1..], 1, 0), f.bytes);
  }

  /** An interrupt that leaves the frame, and the next frame: the bytes of both, one behind the other. */
  lemma NextFrame(d: Decoder, c: Capture, f: Frame, bytes: seq<byte>)
    requires Divisible(d, c) && Isr(d, c).1 == bytes && Isr(d, c).0.bt == 0 && Isr(d, c).0.bits == []
    requires Wellformed(f) && Fits(f.t) && StartsCleanly(Isr(d, c).0, f.stale)
    ensures Delivers(d, [c] + FrameCaptures(f), bytes + f.bytes)
  {
    CleanStart(Isr(d, c).0, f);
    RunCons(d, c, FrameCaptures(f));
  }

  // ---------- a first edge that does harm ----------

  lemma FewBits(d: Decoder, c: Capture)
    requires Divisible(d, c) && |d.bits| < 6
    ensures Isr(d, c).1 == []
    ensures |Isr(d, c).0.bits| <= |d.bits| + if d.bt == 0 then 1 else 2
  {
  }

  lemma {:induction false} FewBitsRun(d: Decoder, cs: seq<Capture>)
    requires |d.bits| + 2 * |cs| < 8 && forall i :: 0 <= i < |cs| ==> cs[i].duty != 5
    ensures var r := Run(Interrupt, d, cs); r.Some? && r.value.1 == []
    decreases |cs|
  {
    if cs != [] {
      var c, rest := cs[0], cs[1..];
      assert cs == [c] + rest;
      FewBits(d, c);
      FewBitsRun(Isr(d, c).0, rest);
      RunCons(d, c, rest);
    }
  }

  /** A byte whose pulses are all doubled. */
  const ALTERNATING: byte := 0xAA

  function Alternation(n: nat): seq<bool> {
    if n == 0 then [] else [false, true] + Alternation(n - 1)
  }

  lemma AlternatingBits()
    ensures BitsOf([ALTERNATING]) == Alternation(4)
  {
    assert Bits(ALTERNATING) == [false, true, false, true, false, true, false, true];
    assert [ALTERNATING][1..] == [];
    assert Alternation(2) == [false, true] + ([false, true] + []);
    assert Alternation(4) == [false, true] + ([false, true] + Alternation(2));
  }

  function DoubledEdges(t: nat, n: nat): seq<Capture>
    requires Measurable(t)
  {
    if n == 0 then [TimeOut(t, 2)] else [Edge(t, 2, 2)] + DoubledEdges(t, n - 1)
  }

  lemma {:induction false} AlternatingCaptures(t: nat, n: nat)
    requires Measurable(t) && Fits(t)
    ensures Captures(t, true, Levels(Alternation(n)), 2, 1) == DoubledEdges(t, n)
    decreases n
  {
    if n == 0 {
      WithinPeriod(t, 3);
    } else {
      var rest := Alternation(n - 1);
      assert Alternation(n) == [false] + ([true] + rest);
      CapturesBit(t, true, false, [true] + rest, 2, 1);
      CapturesBit(t, true, true, rest, 1, 0);
      AlternatingCaptures(t, n - 1);
    }
  }

  lemma AlternatingFrame(t: nat, stale: Capture)
    requires Measurable(t) && Fits(t)
    ensures FrameCaptures(Frame(t, [ALTERNATING], stale)) == [stale] + ([Edge(t, 1, 2)] + DoubledEdges(t, 3))
  {
    AlternatingBits();
    var rest := Alternation(3);
    var bits := Alternation(4);
    var levels := Levels([true] + bits);
    assert ([true] + bits)[1..] == bits;
    assert levels[1..] == [false] + Levels(bits) && levels[1..][1..] == Levels(bits);
    assert Captures(t, false, levels[1..], 1, 0) == Captures(t, false, Levels(bits), 1, 1);
    assert bits == [false] + ([true] + rest);
    CapturesBit(t, false, false, [true] + rest, 1, 1);
    CapturesBit(t, true, true, rest, 1, 0);
    AlternatingCaptures(t, 3);
  }

  /** A half-bit time far from the one the first edge suggests. */
  function FarFrom(b: nat): (t: nat)
    requires b > 0
    ensures Measurable(t) && Fits(t) && (t < b || 3 * b <= t)
  {
    if b > 21 then 21 else 10000
  }

  lemma EdgesAreMany(t: nat)
    requires Measurable(t)
    ensures DoubledEdges(t, 3) == [Edge(t, 2, 2)] + ([Edge(t, 2, 2), Edge(t, 2, 2), TimeOut(t, 2)])
  {
    assert DoubledEdges(t, 1) == [Edge(t, 2, 2)] + [TimeOut(t, 2)];
    assert DoubledEdges(t, 2) == [Edge(t, 2, 2)] + DoubledEdges(t, 1);
  }

  /** Synchronised on a stale start bit, the decoder loses a frame at another speed. */
  lemma HarmfulStart(d: Decoder, stale: Capture)
    requires d.bt == 0 && d.bits == [] && !d.notStart && stale.cc1if && stale.duty != 0 && stale.duty != 5 && StartBit(stale)
    ensures var f := Frame(FarFrom(Suggested(stale)), [ALTERNATING], stale);
            Wellformed(f) && !Delivers(d, FrameCaptures(f), f.bytes)
  {
    var b := Suggested(stale);
    var t := FarFrom(b);
    var edge, second, rest := Edge(t, 1, 2), Edge(t, 2, 2), [Edge(t, 2, 2), Edge(t, 2, 2), TimeOut(t, 2)];
    AlternatingFrame(t, stale);
    EdgesAreMany(t);
    Waits(d, stale);
    var e := Isr(d, stale).0;
    LeavesExactly(e, edge);
    FewBits(e, edge);
    var g := Isr(e, edge).0;
    FewBits(g, second);
    FewBitsRun(Isr(g, second).0, rest);
    RunCons(g, second, rest);
    RunCons(e, edge, [second] + rest);
    RunCons(d, stale, [edge] + ([second] + rest));
  }

  /**
   After an interrupt that has left a frame the next one is decoded, whatever it carries and however
   fast it is sent, exactly when its first edge is skipped or the registers do not hold a start bit.
   */
  lemma EveryFrameDecodes(d: Decoder, stale: Capture)
    requires d.bt == 0 && d.bits == [] && stale.cc1if && stale.duty != 0
    ensures StartsCleanly(d, stale) <==>
            forall f: Frame :: Wellformed(f) && Fits(f.t) && f.stale == stale ==> Delivers(d, FrameCaptures(f), f.bytes)
  {
    if StartsCleanly(d, stale) {
      forall f: Frame | Wellformed(f) && Fits(f.t) && f.stale == stale
        ensures Delivers(d, FrameCaptures(f), f.bytes)
      {
        CleanStart(d, f);
      }
    } else if stale.duty == 5 {
      var f := Frame(21, [ALTERNATING], stale);
      assert FrameCaptures(f)[0] == stale && Interrupt(d, stale) == None;
      assert Wellformed(f) && !Delivers(d, FrameCaptures(f), f.bytes);
    } else {
      HarmfulStart(d, stale);
    }
  }
}
