/**
 An ideal SWO transmitter, and the proof that the capture interrupt inverts it. A one is high then
 low, a zero low then high, each half lasting `halfBit` timer ticks; a frame is a start bit (one)
 followed by the data bits, and the line idles low. The timer captures each pulse's high time
 (duty) and period (cycle) at the next rising edge, and times out after the last pulse.
 */
module Manchester {
  import opened Arithmetic
  import opened Machine
  import opened TraceSwo
  import opened Runs

  // ---------- the transmitter ----------

  function Levels(bits: seq<bool>): seq<bool> {
    if bits == [] then [] else [bits[0], !bits[0]] + Levels(bits[1..])
  }

  function Bits(b: byte): seq<bool> {
    seq(8, k requires 0 <= k < 8 => b & Mask(true, k) != 0)
  }

  /** Least significant bit first. */
  function BitsOf(bytes: seq<byte>): (bits: seq<bool>)
    ensures |bits| == 8 * |bytes|
  {
    if bytes == [] then [] else Bits(bytes[0]) + BitsOf(bytes[1..])
  }

  /** Half-bit times the timer measures without ambiguity, in ticks; no capture exceeds 16 bits. */
  predicate Measurable(t: nat) {
    20 < t && 4 * t < TWO_TO_THE_16
  }

  function Edge(t: nat, high: nat, low: nat): Capture
    requires Measurable(t) && high <= 2 && low <= 2
  {
    Capture(true, true, false, false, t * (high + low), t * high)
  }

  function TimeOut(t: nat, high: nat): Capture
    requires Measurable(t) && high <= 2
  {
    Capture(false, true, false, true, 0, t * high)
  }

  /** The time-out of a timer whose period ends before the pulse does; the falling edge may still be to come. */
  function EarlyTimeOut(t: nat, high: nat, low: nat): Capture
    requires Measurable(t) && high <= 2 && low <= 2
  {
    Capture(false, low > 0, false, true, 0, t * high)
  }

  /** The period the handler sets when it synchronises: six shortened half-bits, in a 16-bit register. */
  function Period(t: nat): (p: nat)
    requires Measurable(t)
    ensures p < TWO_TO_THE_16
  {
    6 * (t - 5) % TWO_TO_THE_16
  }

  /** The period does not overflow its register. */
  predicate Fits(t: nat)
    requires Measurable(t)
  {
    6 * (t - 5) < TWO_TO_THE_16
  }

  /**
   What the timer captures when the line goes on with `levels`, having been high for `high` and
   low for `low` halves since the last rising edge, up to the first time-out: the one after the
   last pulse, or an earlier one when the counter passes the period. Before the handler has
   synchronised, the period is the longest there is. None when a pulse is longer than a Manchester
   signal can have.
   */
  function Captures(t: nat, synced: bool, levels: seq<bool>, high: nat, low: nat): seq<Capture>
    requires Measurable(t)
    decreases |levels|
  {
    if high > 2 || low > 2 then []
    else if synced && t * (high + low) > Period(t) then [EarlyTimeOut(t, high, low)]
    else if levels == [] then [TimeOut(t, high)]
    else if !levels[0] then Captures(t, synced, levels[1..], high, low + 1)
    else if low == 0 then Captures(t, synced, levels[1..], high + 1, 0)
    else [Edge(t, high, low)] + Captures(t, true, levels[1..], 1, 0)
  }

  /** A period that fits outlasts every pulse of a frame, and one that does not ends before the next rising edge. */
  lemma PeriodAgainstPulse(t: nat)
    requires Measurable(t)
    ensures Fits(t) ==> Period(t) == 6 * (t - 5) > 4 * t
    ensures !Fits(t) ==> Period(t) < 2 * t
  {
  }

  lemma WithinPeriod(t: nat, halves: nat)
    requires Measurable(t) && Fits(t) && halves <= 4
    ensures t * halves <= Period(t)
  {
    PeriodAgainstPulse(t);
  }

  /**
   One frame: the half-bit time of its sender, the bytes, and the registers its first rising edge
   finds, left over from before.
   */
  datatype Frame = Frame(t: nat, bytes: seq<byte>, stale: Capture)

  ghost predicate Wellformed(f: Frame) {
    && Measurable(f.t)
    && 1 <= |f.bytes| <= 15
    && f.stale.cc1if && f.stale.duty != 0
  }

  function FrameCaptures(f: Frame): seq<Capture>
    requires Measurable(f.t)
  {
    [f.stale] + Captures(f.t, false, Levels([true] + BitsOf(f.bytes))[1..], 1, 0)
  }

  ghost predicate AllWellformed(frames: seq<Frame>) {
    forall i :: 0 <= i < |frames| ==> Wellformed(frames[i]) && Fits(frames[i].t)
  }

  ghost function StreamCaptures(frames: seq<Frame>): seq<Capture>
    requires AllWellformed(frames)
  {
    if frames == [] then [] else FrameCaptures(frames[0]) + StreamCaptures(frames[1..])
  }

  function StreamBytes(frames: seq<Frame>): seq<byte> {
    if frames == [] then [] else frames[0].bytes + StreamBytes(frames[1..])
  }

  // ---------- runs of the interrupt ----------

  /** One interrupt; undefined when the handler would divide by zero. */
  function Interrupt(d: Decoder, c: Capture): Option<(Decoder, seq<byte>)> {
    if Divisible(d, c) then Some(Isr(d, c)) else None
  }

  lemma IsrBound(d: Decoder, c: Capture)
    requires |d.bits| < FLUSH_LEVEL && Divisible(d, c)
    ensures |Isr(d, c).0.bits| < FLUSH_LEVEL
  {
  }

  /** In every run of interrupts, whatever is captured, fewer than 128 bits wait between two of them. */
  lemma {:induction false} BufferNeverOverruns(d: Decoder, cs: seq<Capture>)
    requires |d.bits| < FLUSH_LEVEL && Run(Interrupt, d, cs).Some?
    ensures |Run(Interrupt, d, cs).value.0.bits| < FLUSH_LEVEL
    decreases |cs|
  {
    if cs == [] {
    } else {
      IsrBound(d, cs[0]);
      BufferNeverOverruns(Isr(d, cs[0]).0, cs[1..]);
    }
  }

  // ---------- the round trip ----------

  lemma BytePacks(b: byte)
    ensures ByteOf(Bits(b)) == b
  {
    var s := Bits(b);
    assert s[..7][..6] == s[..6] && s[..6][..5] == s[..5] && s[..5][..4] == s[..4];
    assert s[..4][..3] == s[..3] && s[..3][..2] == s[..2] && s[..2][..1] == s[..1] && s[..1][..0] == [];
    assert ByteOf(s[..1]) == b & 1;
    assert ByteOf(s[..2]) == b & 3;
    assert ByteOf(s[..3]) == b & 7;
    assert ByteOf(s[..4]) == b & 15;
    assert ByteOf(s[..5]) == b & 31;
    assert ByteOf(s[..6]) == b & 63;
    assert ByteOf(s[..7]) == b & 127;
  }

  lemma ShiftedSlice(first: seq<bool>, rest: seq<bool>, i: nat)
    requires |first| == 8
    ensures var bits := first + rest;
            bits[Min(8 * (i + 1), |bits|)..Min(8 * (i + 1) + 8, |bits|)] == rest[Min(8 * i, |rest|)..Min(8 * i + 8, |rest|)]
  {
    var lo, hi := Min(8 * i, |rest|), Min(8 * i + 8, |rest|);
    assert (first + rest)[8 + lo..8 + hi] == rest[lo..hi];
  }

  lemma ByteAtShift(first: seq<bool>, rest: seq<bool>, i: nat)
    requires |first| == 8
    ensures ByteAt(first + rest, 0) == ByteOf(first)
    ensures ByteAt(first + rest, i + 1) == ByteAt(rest, i)
  {
    assert (first + rest)[0..8] == first;
    ShiftedSlice(first, rest, i);
  }

  lemma EightMore(n: nat)
    ensures (8 + n) / 8 == 1 + n / 8
  {
  }

  lemma PackedAt(first: seq<bool>, rest: seq<bool>, i: nat)
    requires |first| == 8 && i < 1 + |rest| / 8
    ensures i < |first + rest| / 8
    ensures Packed(first + rest)[i] == if i == 0 then ByteOf(first) else Packed(rest)[i - 1]
  {
    EightMore(|rest|);
    if i == 0 {
      ByteAtShift(first, rest, 0);
    } else {
      ByteAtShift(first, rest, i - 1);
    }
  }

  lemma PackedCons(first: seq<bool>, rest: seq<bool>, packed: seq<byte>, tail: seq<byte>)
    requires |first| == 8 && packed == Packed(first + rest) && tail == Packed(rest)
    ensures packed == [ByteOf(first)] + tail
  {
    EightMore(|rest|);
    forall i | 0 <= i < |packed|
      ensures packed[i] == ([ByteOf(first)] + tail)[i]
    {
      PackedAt(first, rest, i);
    }
  }

  /** Packing undoes unpacking, and up to seven bits more do not matter. */
  lemma {:induction false} PackedBits(bytes: seq<byte>, extra: seq<bool>)
    requires |extra| < 8
    ensures Packed(BitsOf(bytes) + extra) == bytes
    decreases |bytes|
  {
    if bytes == [] {
    } else {
      var rest := BitsOf(bytes[1..]) + extra;
      assert BitsOf(bytes) + extra == Bits(bytes[0]) + rest;
      PackedBits(bytes[1..], extra);
      BytePacks(bytes[0]);
      PackedCons(Bits(bytes[0]), rest, Packed(Bits(bytes[0]) + rest), Packed(rest));
    }
  }

  /** Integer division by the slightly shortened half-bit time still tells one half from two. */
  lemma Quotients(t: nat)
    requires Measurable(t)
    ensures t / (t - 5) == 1 && 2 * t / (t - 5) == 2 && 3 * t / (t - 5) == 3
    ensures (t + 5) / (t - 5) == 1 && (2 * t + 5) / (t - 5) == 2
  {
    Quotient(t, t - 5, 1);
    Quotient(2 * t, t - 5, 2);
    Quotient(3 * t, t - 5, 3);
    Quotient(t + 5, t - 5, 1);
    Quotient(2 * t + 5, t - 5, 2);
  }

  /** The first data bit's pulse synchronises for both of its possible periods exactly when t > 20. */
  lemma SyncWindow(t: nat)
    requires ALLOWED_DUTY_ERROR < t
    ensures SyncAccepts(2 * t, t - 5) && SyncAccepts(3 * t, t - 5) <==> 20 < t
  {
    if 20 < t {
      Quotient(2 * t, t - 5, 2);
      Quotient(3 * t, t - 5, 3);
    } else {
      QuotientAtLeast(3 * t, t - 5, 4);
    }
  }

  /**
   The handler sets the 16-bit timer to time out six shortened half-bits after a rising edge; that
   outlasts every pulse of a frame exactly when the product does not overflow the register.
   */
  lemma TimeOutOutlastsPulses(t: nat)
    requires Measurable(t)
    ensures Period(t) > 4 * t <==> Fits(t)
  {
    PeriodAgainstPulse(t);
  }

  /**
   The decoder in step with the signal: `done` data bits have been sent in full, and the line has
   since the last rising edge been high for `high` and low for `low` halves. A one is taken in
   when its pulse ends, a zero already at the rising edge in its middle.
   */
  ghost predicate InStep(d: Decoder, t: nat, done: seq<bool>, high: nat, low: nat)
    requires Measurable(t)
  {
    && d.bt == t - 5 && !d.notStart && done != []
    && if done[|done| - 1] then
         && d.bits == done[..|done| - 1] && low == 1
         && ((high == 1 && d.lastBit && !d.halfBit) || (high == 2 && !d.lastBit && d.halfBit))
       else
         d.bits == done && low == 0 && high == 1 && !d.lastBit && d.halfBit
  }

  ghost predicate Armed(d: Decoder) {
    d.bt == 0 && d.notStart && d.bits == []
  }

  /** The bit that a pulse completes: a pending one, or another zero. */
  ghost function Completed(t: nat, done: seq<bool>): Decoder
    requires Measurable(t) && done != []
  {
    if done[|done| - 1] then Decoder(t - 5, true, false, false, done)
    else Decoder(t - 5, false, true, false, done + [false])
  }

  lemma HighInStep(d: Decoder, t: nat, done: seq<bool>, high: nat, low: nat, c: Capture)
    requires Measurable(t) && InStep(d, t, done, high, low) && c.duty == t * high
    ensures c.duty / d.bt == high && c.duty != 0 && Divisible(d, c)
    ensures High(d, c) == (Completed(t, done).(notStart := !c.cc1if), Go(c.duty))
  {
    Quotients(t);
    assert high == 1 || high == 2;
    if done[|done| - 1] {
      assert done == done[..|done| - 1] + [true];
    }
  }

  /** A rising edge in step: after a one, a double low time adds a zero. */
  lemma EdgeInStep(d: Decoder, t: nat, done: seq<bool>, high: nat, low: nat, bit: bool)
    requires Measurable(t) && InStep(d, t, done, high, low) && |done| < 120
    requires bit ==> done[|done| - 1]
    ensures var c := Edge(t, high, if bit then low else low + 1);
            && Divisible(d, c)
            && Isr(d, c) == (Decoder(t - 5, bit, !bit, false, if bit then done else done + [false]), [])
  {
    var lows := if bit then low else low + 1;
    var c := Edge(t, high, lows);
    HighInStep(d, t, done, high, low, c);
    Quotients(t);
    assert c.cycle - c.duty == t * lows;
    assert TruncDiv(t * lows, t - 5) == lows;
  }

  lemma TimeOutInStep(d: Decoder, t: nat, bytes: seq<byte>, high: nat, low: nat)
    requires Measurable(t) && InStep(d, t, BitsOf(bytes), high, low)
    ensures Divisible(d, TimeOut(t, high))
    ensures var (e, out) := Isr(d, TimeOut(t, high)); Armed(e) && out == bytes
  {
    var bits := BitsOf(bytes);
    HighInStep(d, t, bits, high, low, TimeOut(t, high));
    PackedBits(bytes, []);
    PackedBits(bytes, [false]);
    assert bits + [] == bits;
  }

  /** One interrupt in front of a run. */
  lemma RunCons(d: Decoder, c: Capture, cs: seq<Capture>)
    requires Divisible(d, c)
    ensures Run(Interrupt, d, [c] + cs) == After(Isr(d, c).1, Run(Interrupt, Isr(d, c).0, cs))
  {
    assert ([c] + cs)[1..] == cs;
  }

  /** The captures `cs` make the decoder push exactly `bytes` and end armed for the next frame. */
  ghost predicate Delivers(d: Decoder, cs: seq<Capture>, bytes: seq<byte>) {
    var r := Run(Interrupt, d, cs);
    r.Some? && Armed(r.value.0) && r.value.1 == bytes
  }

  /** An interrupt that pushes nothing in front. */
  lemma SilentFirst(d: Decoder, c: Capture, e: Decoder, cs: seq<Capture>, bytes: seq<byte>)
    requires Divisible(d, c) && Isr(d, c) == (e, []) && Delivers(e, cs, bytes)
    ensures Delivers(d, [c] + cs, bytes)
  {
    RunCons(d, c, cs);
  }

  lemma CapturesBit(t: nat, synced: bool, bit: bool, rest: seq<bool>, high: nat, low: nat)
    requires Measurable(t) && Fits(t)
    requires (low == 1 && 1 <= high <= 2) || (low == 0 && high == 1)
    ensures Captures(t, synced, Levels([bit] + rest), high, low) ==
            if bit && low == 0 then Captures(t, synced, Levels(rest), 2, 1)
            else [Edge(t, high, if bit then low else low + 1)] + Captures(t, true, Levels(rest), 1, if bit then 1 else 0)
  {
    var levels := Levels([bit] + rest);
    assert ([bit] + rest)[1..] == rest;
    assert levels[1..] == [!bit] + Levels(rest) && levels[1..][1..] == Levels(rest);
    WithinPeriod(t, high + low);
    WithinPeriod(t, high + low + 1);
    WithinPeriod(t, 1);
  }

  lemma {:induction false} DecodesRest(d: Decoder, t: nat, done: seq<bool>, todo: seq<bool>, bytes: seq<byte>, high: nat, low: nat)
    requires Measurable(t) && Fits(t) && InStep(d, t, done, high, low)
    requires BitsOf(bytes) == done + todo && |bytes| <= 15
    ensures Delivers(d, Captures(t, true, Levels(todo), high, low), bytes)
    decreases |todo|
  {
    if todo == [] {
      assert done + todo == done;
      WithinPeriod(t, high + low);
      TimeOutInStep(d, t, bytes, high, low);
      RunCons(d, TimeOut(t, high), []);
    } else {
      var bit, rest := todo[0], todo[1..];
      assert todo == [bit] + rest && done + todo == (done + [bit]) + rest;
      CapturesBit(t, true, bit, rest, high, low);
      if bit && !done[|done| - 1] {
        DecodesRest(d, t, done + [bit], rest, bytes, 2, 1);
      } else {
        var low' := if bit then 1 else 0;
        var c, e := Edge(t, high, if bit then low else low + 1), Decoder(t - 5, bit, !bit, false, if bit then done else done + [false]);
        EdgeInStep(d, t, done, high, low, bit);
        DecodesRest(e, t, done + [bit], rest, bytes, 1, low');
        SilentFirst(d, c, e, Captures(t, true, Levels(rest), 1, low'), bytes);
      }
    }
  }

  /** The first edge of a frame is skipped; the second one synchronises on the start bit's pulse. */
  lemma SyncInStep(d: Decoder, t: nat, bit: bool)
    requires Measurable(t) && d.bt == 0 && !d.notStart && d.bits == []
    ensures var c := Edge(t, 1, if bit then 1 else 2);
            && Divisible(d, c) && Isr(d, c).1 == []
            && InStep(Isr(d, c).0, t, [bit], 1, if bit then 1 else 0)
  {
    Quotients(t);
  }

  /** What follows the low half of the start bit. */
  lemma DataDecodes(e: Decoder, t: nat, bits: seq<bool>, bytes: seq<byte>)
    requires Measurable(t) && Fits(t) && e.bt == 0 && !e.notStart && e.bits == []
    requires bits == BitsOf(bytes) && 1 <= |bytes| <= 15
    ensures Delivers(e, Captures(t, false, Levels(bits), 1, 1), bytes)
  {
    var bit, rest := bits[0], bits[1..];
    var c, low := Edge(t, 1, if bit then 1 else 2), if bit then 1 else 0;
    assert bits == [bit] + rest;
    CapturesBit(t, false, bit, rest, 1, 1);
    SyncInStep(e, t, bit);
    var d := Isr(e, c).0;
    DecodesRest(d, t, [bit], rest, bytes, 1, low);
    SilentFirst(e, c, d, Captures(t, true, Levels(rest), 1, low), bytes);
  }

  /** With a period that does not fit, the pulse after the one that synchronised is cut short. */
  lemma CutShort(t: nat, levels: seq<bool>)
    requires Measurable(t) && !Fits(t) && levels != []
    ensures Captures(t, true, levels, 1, 0) == [EarlyTimeOut(t, 1, 0)]
         || Captures(t, true, levels, 1, 0) == [EarlyTimeOut(t, 1, 1)]
         || Captures(t, true, levels, 1, 0) == [EarlyTimeOut(t, 2, 0)]
  {
    PeriodAgainstPulse(t);
  }

  /** A time-out before a whole byte is in pushes nothing. */
  lemma NothingPushed(d: Decoder, t: nat, high: nat, low: nat)
    requires Measurable(t) && 1 <= high <= 2 && low <= 1 && d.bt != 0 && |d.bits| <= 5
    ensures Divisible(d, EarlyTimeOut(t, high, low)) && Isr(d, EarlyTimeOut(t, high, low)).1 == []
  {
  }

  lemma LostOne(d: Decoder, t: nat, high: nat, low: nat)
    requires Measurable(t) && 1 <= high <= 2 && low <= 1 && d.bt != 0 && |d.bits| <= 5
    ensures var r := Run(Interrupt, d, [EarlyTimeOut(t, high, low)]); r.Some? && r.value.1 == []
  {
    NothingPushed(d, t, high, low);
    RunCons(d, EarlyTimeOut(t, high, low), []);
    assert [EarlyTimeOut(t, high, low)] + [] == [EarlyTimeOut(t, high, low)];
  }

  lemma DataLost(e: Decoder, t: nat, bits: seq<bool>)
    requires Measurable(t) && !Fits(t) && e.bt == 0 && !e.notStart && e.bits == [] && |bits| >= 2
    ensures var r := Run(Interrupt, e, Captures(t, false, Levels(bits), 1, 1)); r.Some? && r.value.1 == []
  {
    var bit, rest := bits[0], bits[1..];
    var levels, low := Levels(bits), if bit then 1 else 2;
    var c := Edge(t, 1, low);
    var after := if bit then levels[1..] else levels[2..];
    assert levels[1..] == [!bit] + Levels(rest) && levels[1..][1..] == levels[2..] == Levels(rest);
    assert Captures(t, false, levels, 1, 1) == [c] + Captures(t, true, after, 1, 0);
    SyncInStep(e, t, bit);
    CutShort(t, after);
    var d := Isr(e, c).0;
    RunCons(e, c, Captures(t, true, after, 1, 0));
    LostOne(d, t, 1, 0);
    LostOne(d, t, 1, 1);
    LostOne(d, t, 2, 0);
  }

  /**
   Up to its first time-out a frame is pushed as its bytes exactly when the period the handler sets
   fits its register; otherwise that time-out strikes before the second data edge and nothing is
   pushed.
   */
  lemma FrameDecodes(d: Decoder, f: Frame)
    requires Armed(d) && Wellformed(f)
    ensures var r := Run(Interrupt, d, FrameCaptures(f));
            && r.Some? && (r.value.1 == f.bytes <==> Fits(f.t))
            && (if Fits(f.t) then Armed(r.value.0) else r.value.1 == [])
  {
    var bits := BitsOf(f.bytes);
    var levels := Levels([true] + bits);
    assert ([true] + bits)[1..] == bits;
    assert levels[1..] == [false] + Levels(bits) && levels[1..][1..] == Levels(bits);
    var e := Isr(d, f.stale).0;
    if Fits(f.t) {
      DataDecodes(e, f.t, bits, f.bytes);
    } else {
      DataLost(e, f.t, bits);
    }
    RunCons(d, f.stale, Captures(f.t, false, levels[1..], 1, 0));
  }

  /**
   The interrupt inverts the transmitter: any stream of frames of 1 to 15 bytes, each at a half-bit
   time of its own above 20 ticks whose period fits the timer, is pushed to the host as the
   concatenation of its bytes, and leaves the decoder armed for the next frame.
   */
  lemma {:induction false} StreamDecodes(d: Decoder, frames: seq<Frame>)
    requires Armed(d) && AllWellformed(frames)
    ensures var r := Run(Interrupt, d, StreamCaptures(frames));
            r.Some? && Armed(r.value.0) && r.value.1 == StreamBytes(frames)
    decreases |frames|
  {
    if frames == [] {
    } else {
      FrameDecodes(d, frames[0]);
      var e := Run(Interrupt, d, FrameCaptures(frames[0])).value.0;
      StreamDecodes(e, frames[1..]);
      RunConcat(Interrupt, d, FrameCaptures(frames[0]), StreamCaptures(frames[1..]));
    }
  }
}
