/**
 A target's TAP controller (clause 6 of IEEE Std 1149.1-2001) with one instruction register and the
 data register it selects, and the scans that the navigation macros and data transfers add up to.
 */
module JtagTap {
  import opened Machine
  import opened BitStrings
  import opened JtagTransfer

  datatype TapState =
    | TestLogicReset | RunTestIdle
    | SelectDr | CaptureDr | ShiftDr | Exit1Dr | PauseDr | Exit2Dr | UpdateDr
    | SelectIr | CaptureIr | ShiftIr | Exit1Ir | PauseIr | Exit2Ir | UpdateIr

  /** The controller's next state for the TMS level at a rising edge of TCK. */
  function NextState(s: TapState, tms: bool): TapState {
    match s
    case TestLogicReset => if tms then TestLogicReset else RunTestIdle
    case RunTestIdle => if tms then SelectDr else RunTestIdle
    case SelectDr => if tms then SelectIr else CaptureDr
    case CaptureDr => if tms then Exit1Dr else ShiftDr
    case ShiftDr => if tms then Exit1Dr else ShiftDr
    case Exit1Dr => if tms then UpdateDr else PauseDr
    case PauseDr => if tms then Exit2Dr else PauseDr
    case Exit2Dr => if tms then UpdateDr else ShiftDr
    case UpdateDr => if tms then SelectDr else RunTestIdle
    case SelectIr => if tms then TestLogicReset else CaptureIr
    case CaptureIr => if tms then Exit1Ir else ShiftIr
    case ShiftIr => if tms then Exit1Ir else ShiftIr
    case Exit1Ir => if tms then UpdateIr else PauseIr
    case PauseIr => if tms then Exit2Ir else PauseIr
    case Exit2Ir => if tms then UpdateIr else ShiftIr
    case UpdateIr => if tms then SelectDr else RunTestIdle
  }

  /** What the registers capture, and what the instruction register holds after a reset. */
  datatype Registers = Registers(drCapture: seq<bool>, irCapture: seq<bool>, irReset: seq<bool>)

  /** Shift stages and parallel outputs of both registers. */
  datatype Tap = Tap(state: TapState, drShift: seq<bool>, dr: seq<bool>, irShift: seq<bool>, ir: seq<bool>)

  function Shift(stage: seq<bool>, tdi: bool): seq<bool> {
    if stage == [] then [] else stage[1..] + [tdi]
  }

  /**
   One clock: the rising edge captures or shifts in the state it leaves, the falling edge updates
   in the state it has entered.
   */
  function Step(r: Registers, t: Tap, c: Clock): Tap {
    var to := NextState(t.state, c.tms);
    var drShift := if t.state.CaptureDr? then r.drCapture else if t.state.ShiftDr? then Shift(t.drShift, c.tdi) else t.drShift;
    var irShift := if t.state.CaptureIr? then r.irCapture else if t.state.ShiftIr? then Shift(t.irShift, c.tdi) else t.irShift;
    Tap(to, drShift, if to.UpdateDr? then drShift else t.dr,
        irShift, if to.TestLogicReset? then r.irReset else if to.UpdateIr? then irShift else t.ir)
  }

  function Clocked(r: Registers, t: Tap, clocks: seq<Clock>): Tap
    decreases |clocks|
  {
    if clocks == [] then t else Step(r, Clocked(r, t, clocks[..|clocks| - 1]), clocks[|clocks| - 1])
  }

  /** TDO is driven in the shift states only; elsewhere a pulled-up line reads high. */
  function Tdo(t: Tap): bool {
    if t.state.ShiftDr? && t.drShift != [] then t.drShift[0]
    else if t.state.ShiftIr? && t.irShift != [] then t.irShift[0]
    else true
  }

  /** The device as a target on the wire: TDO is sampled before the edge takes effect. */
  function Device(r: Registers, t: Tap): Target {
    (history: seq<Clock>) => TdoDuring(r, t, history)
  }

  /** The TDO level while the last clock of `history` is low. */
  function TdoDuring(r: Registers, t: Tap, history: seq<Clock>): bool {
    if history == [] then true else Tdo(Clocked(r, t, history[..|history| - 1]))
  }

  lemma {:induction false} ClockedConcat(r: Registers, t: Tap, a: seq<Clock>, b: seq<Clock>)
    ensures Clocked(r, t, a + b) == Clocked(r, Clocked(r, t, a), b)
    decreases |b|
  {
    if b == [] {
      assert a + b == a;
    } else {
      assert (a + b)[..|a + b| - 1] == a + b[..|b| - 1];
      ClockedConcat(r, t, a, b[..|b| - 1]);
    }
  }

  lemma ClockedTwo(r: Registers, t: Tap, a: Clock, b: Clock)
    ensures Clocked(r, t, [a, b]) == Step(r, Step(r, t, a), b)
  {
    assert [a, b][..1] == [a];
    assert Clocked(r, t, [a]) == Step(r, Clocked(r, t, [a][..0]), a);
  }

  lemma ClockedThree(r: Registers, t: Tap, a: Clock, b: Clock, c: Clock)
    ensures Clocked(r, t, [a, b, c]) == Step(r, Step(r, Step(r, t, a), b), c)
  {
    assert [a, b, c] == [a, b] + [c];
    assert [a, b, c][..2] == [a, b];
    ClockedTwo(r, t, a, b);
  }

  /** The macro sequences as clocks. */
  lemma MacroClocks()
    ensures TmsClocks(Bits(0x01, 3)) == [Clock(true, true), Clock(false, true), Clock(false, true)]
    ensures TmsClocks(Bits(0x01, 2)) == [Clock(true, true), Clock(false, true)]
    ensures TmsClocks(Bits(0x03, 4)) == [Clock(true, true), Clock(true, true)] + [Clock(false, true), Clock(false, true)]
    ensures TmsClocks(Bits(0x1F, 6)) == [Clock(true, true), Clock(true, true), Clock(true, true)]
                                      + [Clock(true, true), Clock(true, true), Clock(false, true)]
  {
    assert Bits(0x01, 3) == [true, false, false];
    assert Bits(0x01, 2) == [true, false];
    assert Bits(0x03, 4) == [true, true, false, false];
    assert Bits(0x1F, 6) == [true, true, true, true, true, false];
  }

  lemma FiveOnes(s: TapState)
    ensures NextState(NextState(NextState(NextState(NextState(s, true), true), true), true), true) == TestLogicReset
  {
    var two := NextState(NextState(s, true), true);
    assert two.TestLogicReset? || two.SelectDr? || two.SelectIr? || two.UpdateDr? || two.UpdateIr? || two.Exit1Dr? || two.Exit1Ir?;
  }

  lemma StepStates(r: Registers, t: Tap, c: Clock)
    ensures Step(r, t, c).state == NextState(t.state, c.tms)
    ensures NextState(t.state, c.tms).TestLogicReset? ==> Step(r, t, c).ir == r.irReset
    ensures t.state.TestLogicReset? && !c.tms ==> Step(r, t, c).ir == t.ir
  {
  }

  /** Five ones reset the controller from every state; the sixth clock leaves it in Run-Test/Idle. */
  lemma SoftReset(r: Registers, t: Tap)
    ensures var u := Clocked(r, t, TmsClocks(Bits(0x1F, 6))); u.state == RunTestIdle && u.ir == r.irReset
  {
    var one, zero := Clock(true, true), Clock(false, true);
    MacroClocks();
    ClockedConcat(r, t, [one, one, one], [one, one, zero]);
    var u := Clocked(r, t, [one, one, one]);
    ClockedThree(r, t, one, one, one);
    ClockedThree(r, u, one, one, zero);
    FiveOnes(t.state);
    StepStates(r, t, one);
    StepStates(r, Step(r, t, one), one);
    StepStates(r, Step(r, Step(r, t, one), one), one);
    LastThree(r, u);
  }

  lemma LastThree(r: Registers, u: Tap)
    requires NextState(NextState(u.state, true), true) == TestLogicReset
    ensures var one, zero := Clock(true, true), Clock(false, true);
            var v := Step(r, Step(r, Step(r, u, one), one), zero);
            v.state == RunTestIdle && v.ir == r.irReset
  {
    var one, zero := Clock(true, true), Clock(false, true);
    StepStates(r, u, one);
    StepStates(r, Step(r, u, one), one);
    StepStates(r, Step(r, Step(r, u, one), one), zero);
  }

  /** From Run-Test/Idle to Shift-DR, with the data register captured. */
  lemma EnterShiftDr(r: Registers, t: Tap)
    requires t.state == RunTestIdle
    ensures Clocked(r, t, TmsClocks(Bits(0x01, 3))) == t.(state := ShiftDr, drShift := r.drCapture)
  {
    MacroClocks();
    ClockedThree(r, t, Clock(true, true), Clock(false, true), Clock(false, true));
  }

  /** From Run-Test/Idle to Shift-IR, with the instruction register's fixed pattern captured. */
  lemma EnterShiftIr(r: Registers, t: Tap)
    requires t.state == RunTestIdle
    ensures Clocked(r, t, TmsClocks(Bits(0x03, 4))) == t.(state := ShiftIr, irShift := r.irCapture)
  {
    MacroClocks();
    var one, zero := Clock(true, true), Clock(false, true);
    ClockedConcat(r, t, [one, one], [zero, zero]);
    ClockedTwo(r, t, one, one);
    ToSelectIr(r, t);
    var u := t.(state := SelectIr);
    ClockedTwo(r, u, zero, zero);
    FromSelectIr(r, u);
  }

  lemma ToSelectIr(r: Registers, t: Tap)
    requires t.state == RunTestIdle
    ensures Step(r, Step(r, t, Clock(true, true)), Clock(true, true)) == t.(state := SelectIr)
  {
  }

  lemma FromSelectIr(r: Registers, t: Tap)
    requires t.state == SelectIr
    ensures Step(r, Step(r, t, Clock(false, true)), Clock(false, true)) == t.(state := ShiftIr, irShift := r.irCapture)
  {
  }

  /** A scan that pauses, for any number of clocks, goes on where it stopped: only the clock that left Shift has shifted. */
  lemma {:induction false} PausesHold(r: Registers, t: Tap, tdis: seq<bool>)
    requires t.state == PauseDr || t.state == PauseIr
    ensures Clocked(r, t, seq(|tdis|, k requires 0 <= k < |tdis| => Clock(false, tdis[k]))) == t
    decreases |tdis|
  {
    var clocks := seq(|tdis|, k requires 0 <= k < |tdis| => Clock(false, tdis[k]));
    if tdis != [] {
      var n := |tdis| - 1;
      PausesHold(r, t, tdis[..n]);
      assert clocks[..n] == seq(n, k requires 0 <= k < n => Clock(false, tdis[..n][k]));
    }
  }

  lemma PauseResumes(r: Registers, t: Tap, bit: bool, a: bool, b: bool, c: bool)
    requires t.state == ShiftDr || t.state == ShiftIr
    ensures Step(r, Step(r, t, Clock(true, bit)), Clock(false, a)).state == if t.state == ShiftDr then PauseDr else PauseIr
    ensures Clocked(r, Clocked(r, t, [Clock(true, bit), Clock(false, a)]), [Clock(true, b), Clock(false, c)]) ==
            if t.state == ShiftDr then t.(drShift := Shift(t.drShift, bit)) else t.(irShift := Shift(t.irShift, bit))
  {
    ClockedTwo(r, t, Clock(true, bit), Clock(false, a));
    ClockedTwo(r, Clocked(r, t, [Clock(true, bit), Clock(false, a)]), Clock(true, b), Clock(false, c));
  }

  /** Two clocks from either Exit1 state: update, then Run-Test/Idle. */
  lemma ReturnIdle(r: Registers, t: Tap)
    requires t.state == Exit1Dr || t.state == Exit1Ir
    ensures Clocked(r, t, TmsClocks(Bits(0x01, 2))) ==
            if t.state == Exit1Dr then t.(state := RunTestIdle, dr := t.drShift)
            else t.(state := RunTestIdle, ir := t.irShift)
  {
    MacroClocks();
    ClockedTwo(r, t, Clock(true, true), Clock(false, true));
  }

  /** The shift stage after `bits` have gone through it. */
  ghost function Through(stage: seq<bool>, bits: seq<bool>): seq<bool> {
    (stage + bits)[|bits|..]
  }

  lemma ThroughOne(stage: seq<bool>, bits: seq<bool>, bit: bool)
    requires stage != []
    ensures Shift(Through(stage, bits), bit) == Through(stage, bits + [bit])
    ensures Through(stage, bits) != [] && Through(stage, bits)[0] == (stage + bits)[|bits|]
  {
    assert stage + (bits + [bit]) == stage + bits + [bit];
  }

  /** While TMS is low a shift state passes the data bits through its stage. */
  lemma {:induction false} Shifting(r: Registers, t: Tap, bits: seq<bool>)
    requires (t.state == ShiftDr && t.drShift != []) || (t.state == ShiftIr && t.irShift != [])
    ensures Clocked(r, t, DataClocks(bits, false)) ==
            if t.state == ShiftDr then t.(drShift := Through(t.drShift, bits))
            else t.(irShift := Through(t.irShift, bits))
    decreases |bits|
  {
    var clocks := DataClocks(bits, false);
    if bits == [] {
    } else {
      var init, bit := bits[..|bits| - 1], bits[|bits| - 1];
      assert bits == init + [bit];
      assert clocks[..|clocks| - 1] == DataClocks(init, false);
      Shifting(r, t, init);
      ThroughOne(if t.state == ShiftDr then t.drShift else t.irShift, init, bit);
    }
  }

  /** A transfer that raises TMS on its last bit still shifts that bit, and leaves for Exit1. */
  lemma ShiftingOut(r: Registers, t: Tap, bits: seq<bool>)
    requires (t.state == ShiftDr && t.drShift != []) || (t.state == ShiftIr && t.irShift != [])
    requires bits != []
    ensures Clocked(r, t, DataClocks(bits, true)) ==
            if t.state == ShiftDr then t.(state := Exit1Dr, drShift := Through(t.drShift, bits))
            else t.(state := Exit1Ir, irShift := Through(t.irShift, bits))
  {
    var clocks, init, bit := DataClocks(bits, true), bits[..|bits| - 1], bits[|bits| - 1];
    assert bits == init + [bit];
    assert clocks[..|clocks| - 1] == DataClocks(init, false);
    Shifting(r, t, init);
    ThroughOne(if t.state == ShiftDr then t.drShift else t.irShift, init, bit);
  }

  /** The device's answer to clock `k` is its TDO level after the clocks before. */
  lemma AnswerAt(r: Registers, t0: Tap, log: seq<Clock>, clocks: seq<Clock>, k: nat)
    requires k < |clocks|
    ensures Answers(Device(r, t0), log, clocks)[k] == Tdo(Clocked(r, Clocked(r, t0, log), clocks[..k]))
  {
    ClockedConcat(r, t0, log, clocks[..k]);
    DuringLast(r, t0, log + clocks[..k], log + clocks[..k + 1]);
  }

  lemma DuringLast(r: Registers, t: Tap, before: seq<Clock>, history: seq<Clock>)
    requires |history| == |before| + 1 && history[..|before|] == before
    ensures TdoDuring(r, t, history) == Tdo(Clocked(r, t, before))
  {
  }

  /** TDO after `k` data bits is bit `k` of the captured bits followed by the data. */
  lemma TdoAfter(r: Registers, t: Tap, bits: seq<bool>, stage: seq<bool>, k: nat)
    requires stage != [] && ((t.state == ShiftDr && t.drShift == stage) || (t.state == ShiftIr && t.irShift == stage))
    requires k < |bits|
    ensures Tdo(Clocked(r, t, DataClocks(bits[..k], false))) == (stage + bits)[k]
  {
    Shifting(r, t, bits[..k]);
    ThroughOne(stage, bits[..k], bits[k]);
    assert (stage + bits[..k])[k] == (stage + bits)[k];
  }

  /** What comes out on TDO meanwhile: the captured bits, then the data bits themselves. */
  lemma ShiftedOut(r: Registers, t0: Tap, log: seq<Clock>, bits: seq<bool>, stage: seq<bool>)
    requires var t := Clocked(r, t0, log);
             stage != [] && ((t.state == ShiftDr && t.drShift == stage) || (t.state == ShiftIr && t.irShift == stage))
    ensures Answers(Device(r, t0), log, DataClocks(bits, true)) == (stage + bits)[..|bits|]
  {
    var t, clocks := Clocked(r, t0, log), DataClocks(bits, true);
    forall k | 0 <= k < |bits| ensures Answers(Device(r, t0), log, clocks)[k] == (stage + bits)[k] {
      AnswerAt(r, t0, log, clocks, k);
      assert clocks[..k] == DataClocks(bits[..k], false);
      TdoAfter(r, t, bits, stage, k);
    }
  }

  /** The three transfers of a data-register scan. */
  function DrScanClocks(bits: seq<bool>): seq<Clock> {
    TmsClocks(Bits(0x01, 3)) + DataClocks(bits, true) + TmsClocks(Bits(0x01, 2))
  }

  function IrScanClocks(bits: seq<bool>): seq<Clock> {
    TmsClocks(Bits(0x03, 4)) + DataClocks(bits, true) + TmsClocks(Bits(0x01, 2))
  }

  /**
   A data-register scan of n >= 1 bits from Run-Test/Idle ends in Run-Test/Idle, shifts captured
   and data bits through the register, and leaves the instruction alone. With n equal to the
   register's length the register becomes the data.
   */
  lemma DrScan(r: Registers, t: Tap, bits: seq<bool>)
    requires t.state == RunTestIdle && bits != [] && r.drCapture != []
    ensures var u := Clocked(r, t, DrScanClocks(bits));
            && u.state == RunTestIdle && u.ir == t.ir
            && u.dr == Through(r.drCapture, bits)
            && (|bits| == |r.drCapture| ==> u.dr == bits)
  {
    var enter, data, leave := TmsClocks(Bits(0x01, 3)), DataClocks(bits, true), TmsClocks(Bits(0x01, 2));
    ClockedConcat(r, t, enter + data, leave);
    ClockedConcat(r, t, enter, data);
    EnterShiftDr(r, t);
    ShiftingOut(r, Clocked(r, t, enter), bits);
    ReturnIdle(r, Clocked(r, t, enter + data));
  }

  /** The same for the instruction register; the data register keeps its output. */
  lemma IrScan(r: Registers, t: Tap, bits: seq<bool>)
    requires t.state == RunTestIdle && bits != [] && r.irCapture != []
    ensures var u := Clocked(r, t, IrScanClocks(bits));
            && u.state == RunTestIdle && u.dr == t.dr
            && u.ir == Through(r.irCapture, bits)
            && (|bits| == |r.irCapture| ==> u.ir == bits)
  {
    var enter, data, leave := TmsClocks(Bits(0x03, 4)), DataClocks(bits, true), TmsClocks(Bits(0x01, 2));
    ClockedConcat(r, t, enter + data, leave);
    ClockedConcat(r, t, enter, data);
    EnterShiftIr(r, t);
    ShiftingOut(r, Clocked(r, t, enter), bits);
    ReturnIdle(r, Clocked(r, t, enter + data));
  }

  /** The scan as a debugger performs it: shift_dr, tdi_tdo_seq with TMS on the last bit, return_idle. */
  method ScanDr(wire: Wire, DO: array<uint8>, DI: array<uint8>, ticks: nat, ghost r: Registers, ghost t: Tap)
    requires wire.target == Device(r, t) && r.drCapture != []
    requires 1 <= ticks <= 8 * DI.Length && ticks <= 8 * DO.Length
    requires Clocked(r, t, wire.log).state == RunTestIdle
    modifies wire`log, DO
    ensures var bits := DataBits(old(DI[..]))[..ticks];
            var u := Clocked(r, t, wire.log);
            && u.state == RunTestIdle
            && u.dr == Through(r.drCapture, bits)
            && u.ir == Clocked(r, t, old(wire.log)).ir
            && DO[..] == Stored(old(DO[..]), (r.drCapture + bits)[..ticks])
  {
    ghost var bits, before := DataBits(DI[..])[..ticks], wire.log;
    TmsSeqWords(wire, 0x01, 3);
    ghost var entered := wire.log;
    ClockedConcat(r, t, before, TmsClocks(Bits(0x01, 3)));
    EnterShiftDr(r, Clocked(r, t, before));
    ShiftedOut(r, t, entered, bits, r.drCapture);
    TdiTdoSeqWords(wire, DO, true, DI, ticks);
    ghost var clocks := DataClocks(bits, true);
    assert clocks[..ticks] == clocks;
    assert Answers(Device(r, t), entered, clocks)[..ticks] == (r.drCapture + bits)[..ticks];
    ghost var shifted := wire.log;
    ClockedConcat(r, t, entered, clocks);
    ShiftingOut(r, Clocked(r, t, entered), bits);
    TmsSeqWords(wire, 0x01, 2);
    ClockedConcat(r, t, shifted, TmsClocks(Bits(0x01, 2)));
    ReturnIdle(r, Clocked(r, t, shifted));
  }
}
