/**
 What the transfer functions remember between calls: the program loaded into the PIO, the clock
 divider, and the direction of the SWDIO line. Every transfer is recorded together with the
 hardware state it ran in, so that the record shows whether the memory was right.
 */
module TransferCache {
  datatype Program =
    | NotSet
    | SwdLowAccessRead | SwdLowAccessWrite | SwdSeqOut | SwdSeqIn | SwdLowWrite
    | JtagTdiTdoSeq | JtagTdiSeq | JtagTmsSeq | JtagNext
  {
    predicate IsJtag() {
      JtagTdiTdoSeq? || JtagTdiSeq? || JtagTmsSeq? || JtagNext?
    }
  }

  /** What the instruction memory holds; all JTAG programs share one image. */
  datatype Image = Empty | ImageLowAccessRead | ImageLowAccessWrite | ImageSeqOut | ImageSeqIn | ImageLowWrite | ImageJtag

  function ImageOf(p: Program): Image {
    match p
    case NotSet => Empty
    case SwdLowAccessRead => ImageLowAccessRead
    case SwdLowAccessWrite => ImageLowAccessWrite
    case SwdSeqOut => ImageSeqOut
    case SwdSeqIn => ImageSeqIn
    case SwdLowWrite => ImageLowWrite
    case _ => ImageJtag
  }

  /** Two programs share an image exactly when they are the same or both JTAG's. */
  lemma SharedImage(p: Program, q: Program)
    ensures ImageOf(p) == ImageOf(q) <==> p == q || (p.IsJtag() && q.IsJtag())
  {
  }

  datatype Pin = Tms | Tdi | TmsDir

  /** The pins a program's OUT and SET instructions have to act on. */
  function PinsOf(p: Program): (Pin, Pin) {
    if p.JtagTmsSeq? then (Tms, Tdi)
    else if p.IsJtag() then (Tdi, Tms)
    else (Tms, TmsDir)
  }

  datatype Direction = NotInitialized | In | Out

  /** A transfer and the hardware state it ran in; `requested` is the divider set last. */
  datatype Transfer = Transfer(program: Program, image: Image, outPin: Pin, setPin: Pin,
                               divider: real, requested: real, lineOut: bool)

  ghost predicate Coherent(t: Transfer) {
    t.image == ImageOf(t.program) && (t.outPin, t.setPin) == PinsOf(t.program) && t.divider == t.requested
  }

  /** What the instruction memory held, and the pins that OUT and SET acted on. */
  ghost predicate RanWith(t: Transfer, image: Image, outPin: Pin, setPin: Pin) {
    t.image == image && t.outPin == outPin && t.setPin == setPin
  }

  /** Exactly one more transfer has run, of program `p`, with the divider set last. */
  ghost predicate Ran(before: seq<Transfer>, after: seq<Transfer>, p: Program, requested: real) {
    && |after| == |before| + 1 && after[..|before|] == before
    && after[|before|].program == p && after[|before|].requested == requested
  }

  // ---------- what the calls alone say about the line ----------

  /** The calls that ran a transfer; a read with a parity bit hands the line back. */
  datatype Call = Wrote | Read(parity: bool) | Accessed | Jtag

  /** After such a call the line is driven and remembered as driven. */
  predicate Settles(c: Call) {
    c.Wrote? || c.Accessed? || (c.Read? && c.parity)
  }

  /** Call `i` is a read without parity, and nothing has settled the line since. */
  predicate OpenAt(calls: seq<Call>, i: nat) {
    i < |calls| && calls[i] == Read(false) && forall k :: i < k < |calls| ==> !Settles(calls[k])
  }

  /** Since the line was settled last, a read without parity has been followed by a JTAG transfer. */
  ghost predicate ReadThenJtag(calls: seq<Call>) {
    exists i: nat, j: nat :: OpenAt(calls, i) && i < j < |calls| && calls[j].Jtag?
  }

  /** The line is remembered as not driven. */
  function OpenRead(calls: seq<Call>): bool {
    if calls == [] then false
    else
      var c := calls[|calls| - 1];
      if Settles(c) then false else c.Read? || OpenRead(calls[..|calls| - 1])
  }

  /** That memory is wrong. */
  function Stale(calls: seq<Call>): bool {
    if calls == [] then false
    else
      var c, before := calls[|calls| - 1], calls[..|calls| - 1];
      if Settles(c) then false else if c.Read? then Stale(before) else OpenRead(before)
  }

  lemma OneMoreCall(calls: seq<Call>, c: Call, after: seq<Call>)
    requires after == calls + [c]
    ensures OpenRead(after) == (!Settles(c) && (c.Read? || OpenRead(calls)))
    ensures Stale(after) == (!Settles(c) && if c.Read? then Stale(calls) else OpenRead(calls))
  {
    assert after[..|after| - 1] == calls && after[|after| - 1] == c;
  }

  lemma {:induction false} OpenReadMeans(calls: seq<Call>)
    ensures OpenRead(calls) <==> exists i: nat :: OpenAt(calls, i)
    decreases |calls|
  {
    if calls != [] {
      var n, before := |calls| - 1, calls[..|calls| - 1];
      OpenReadMeans(before);
      if !Settles(calls[n]) {
        if calls[n].Read? {
          assert OpenAt(calls, n);
        } else if OpenRead(before) {
          var i: nat :| OpenAt(before, i);
          assert OpenAt(calls, i);
        } else if i: nat :| OpenAt(calls, i) {
          assert OpenAt(before, i);
        }
      }
    }
  }

  /** The memory is wrong exactly when a read without parity was followed by a JTAG transfer since the line was settled. */
  lemma {:induction false} StaleMeans(calls: seq<Call>)
    ensures Stale(calls) <==> ReadThenJtag(calls)
    decreases |calls|
  {
    if calls != [] {
      var n, before := |calls| - 1, calls[..|calls| - 1];
      StaleMeans(before);
      OpenReadMeans(before);
      if !Settles(calls[n]) {
        if Stale(calls) {
          if calls[n].Read? {
            var i: nat, j: nat :| OpenAt(before, i) && i < j < n && before[j].Jtag?;
            assert OpenAt(calls, i) && calls[j].Jtag?;
          } else {
            var i: nat :| OpenAt(before, i);
            assert OpenAt(calls, i) && calls[n].Jtag?;
          }
        }
        if ReadThenJtag(calls) {
          var i: nat, j: nat :| OpenAt(calls, i) && i < j < |calls| && calls[j].Jtag?;
          assert OpenAt(before, i);
          assert j < n ==> before[j].Jtag?;
        }
      }
    }
  }

  const PIO_MIN_FREQUENCY: nat := 1000
  const PIO_MAX_FREQUENCY: nat := 40000000
  const PIO_SYSCLK: nat := 125000000

  class Interface {
    // The remembered parameters.
    var currentProgram: Program
    var tmsDirection: Direction
    var clkdiv: real
    var updateClkdiv: bool
    const minFrequency: nat
    const maxFrequency: nat
    var currentFrequency: nat

    // The hardware: instruction memory, pin map and divider of the state machine, and whether the
    // SWDIO line is driven by the probe.
    var image: Image
    var outPin: Pin
    var setPin: Pin
    var divider: real
    var lineOut: bool

    ghost var trace: seq<Transfer>
    ghost var calls: seq<Call>

    ghost predicate Valid()
      reads this
    {
      && (!currentProgram.NotSet? ==>
          && image == ImageOf(currentProgram)
          && (outPin, setPin) == PinsOf(currentProgram)
          && (!updateClkdiv ==> divider == clkdiv))
      && (forall i :: 0 <= i < |trace| ==> Coherent(trace[i]))
      && (currentProgram.IsJtag() ==> lineOut)
      && (tmsDirection.NotInitialized? ==> currentProgram.NotSet? || currentProgram.IsJtag())
      && (tmsDirection.Out? ==> lineOut)
      && (tmsDirection.In? <==> OpenRead(calls))
      && (StaleIn() <==> Stale(calls))
    }

    /** The remembered direction is the wrong one: a JTAG transfer has turned the line round since. */
    ghost predicate StaleIn()
      reads this
    {
      tmsDirection.In? && lineOut
    }

    /** Start-up: nothing loaded, line direction unknown. */
    constructor (minFrequency: nat, maxFrequency: nat)
      ensures Valid() && trace == [] && calls == [] && currentProgram.NotSet? && tmsDirection.NotInitialized?
      ensures this.minFrequency == minFrequency && this.maxFrequency == maxFrequency
    {
      this.minFrequency, this.maxFrequency := minFrequency, maxFrequency;
      currentProgram, tmsDirection, clkdiv, updateClkdiv, currentFrequency := NotSet, NotInitialized, 0.0, false, 0;
      image, outPin, setPin, divider, lineOut := Empty, Tms, Tdi, 0.0, false;
      trace, calls := [], [];
    }

    /** A new frequency only changes the memory; the next transfer brings it to the hardware. */
    method MaxFrequencySet(frequency: nat) returns (ok: bool)
      requires Valid()
      modifies this`clkdiv, this`updateClkdiv, this`currentFrequency
      ensures Valid()
      ensures ok <==> minFrequency <= frequency <= maxFrequency && PIO_MIN_FREQUENCY <= frequency <= PIO_MAX_FREQUENCY
      ensures ok ==> clkdiv * frequency as real * 2.0 == PIO_SYSCLK as real && currentFrequency == frequency
      ensures !ok ==> clkdiv == old(clkdiv) && updateClkdiv == old(updateClkdiv) && currentFrequency == old(currentFrequency)
    {
      if frequency < minFrequency || frequency > maxFrequency {
        return false;
      }
      if frequency < PIO_MIN_FREQUENCY || frequency > PIO_MAX_FREQUENCY {
        return false;
      }
      clkdiv := PIO_SYSCLK as real / frequency as real / 2.0;
      currentFrequency := frequency;
      updateClkdiv := true;
      return true;
    }

    /** The state machine runs one transfer. */
    ghost method Record(c: Call)
      requires !currentProgram.NotSet? && image == ImageOf(currentProgram)
      requires (outPin, setPin) == PinsOf(currentProgram) && divider == clkdiv
      requires forall i :: 0 <= i < |trace| ==> Coherent(trace[i])
      modifies this`trace, this`calls
      ensures calls == old(calls) + [c]
      ensures OpenRead(calls) == (!Settles(c) && (c.Read? || OpenRead(old(calls))))
      ensures Stale(calls) == (!Settles(c) && if c.Read? then Stale(old(calls)) else OpenRead(old(calls)))
      ensures trace == old(trace) + [Transfer(currentProgram, image, outPin, setPin, divider, clkdiv, lineOut)]
      ensures forall i :: 0 <= i < |trace| ==> Coherent(trace[i])
    {
      trace := trace + [Transfer(currentProgram, image, outPin, setPin, divider, clkdiv, lineOut)];
      OneMoreCall(calls, c, calls + [c]);
      calls := calls + [c];
    }

    method UpdateDivider()
      modifies this`divider, this`updateClkdiv
      ensures old(updateClkdiv) ==> divider == clkdiv
      ensures !old(updateClkdiv) ==> divider == old(divider)
      ensures !updateClkdiv
    {
      if updateClkdiv {
        divider := clkdiv;
        updateClkdiv := false;
      }
    }

    // ---------- SWD ----------

    /** Loads an SWD program from `load` unless it is the remembered one. */
    method PrepareSwd(target: Program, load: Image)
      requires Valid() && !target.NotSet? && !target.IsJtag() && load == ImageOf(target)
      modifies this`currentProgram, this`image, this`outPin, this`setPin, this`divider, this`updateClkdiv, this`lineOut
      ensures currentProgram == target && image == load && outPin == Tms && setPin == TmsDir
      ensures divider == clkdiv && !updateClkdiv
      ensures lineOut == if tmsDirection.NotInitialized? then false else old(lineOut)
    {
      if currentProgram != target {
        currentProgram := target;
        image := load;
        outPin, setPin := Tms, TmsDir;
        divider := clkdiv;
        updateClkdiv := false;
        if tmsDirection.NotInitialized? {
          lineOut := false;
        }
      }
      UpdateDivider();
    }

    /**
     A write on the SWDIO line. The program is told to turn the line round unless the remembered
     direction is already out.
     */
    method SeqOut(ticks: nat)
      requires Valid()
      modifies this
      ensures Valid()
      ensures ticks == 0 ==> trace == old(trace) && calls == old(calls)
      ensures ticks != 0 ==>
        Ran(old(trace), trace, SwdSeqOut, clkdiv) && calls == old(calls) + [Wrote] && trace[|old(trace)|].lineOut && tmsDirection.Out?
        && RanWith(trace[|old(trace)|], ImageSeqOut, Tms, TmsDir)
      ensures clkdiv == old(clkdiv)
    {
      if ticks == 0 {
        return;
      }
      var turn := !tmsDirection.Out?;
      PrepareSwd(SwdSeqOut, ImageSeqOut);
      tmsDirection := Out;
      lineOut := lineOut || turn;
      Record(Wrote);
    }

    /**
     A read from the SWDIO line. The program is told to turn the line round unless the remembered
     direction is in or unknown, so it listens to a driven line exactly when, since the last write,
     register access or read with parity, a read without parity has been followed by a JTAG transfer.
     With a parity bit the line is handed back at the end.
     */
    method SeqIn(ticks: nat, parity: bool)
      requires Valid()
      modifies this
      ensures Valid()
      ensures ticks == 0 ==> trace == old(trace) && calls == old(calls)
      ensures ticks != 0 ==>
        && Ran(old(trace), trace, SwdSeqIn, clkdiv) && calls == old(calls) + [Read(parity)]
        && (trace[|old(trace)|].lineOut <==> ReadThenJtag(old(calls)))
        && RanWith(trace[|old(trace)|], ImageSeqIn, Tms, TmsDir)
        && tmsDirection == (if parity then Out else In)
      ensures clkdiv == old(clkdiv)
    {
      if ticks == 0 {
        return;
      }
      StaleMeans(calls);
      var turn := !tmsDirection.In? && !tmsDirection.NotInitialized?;
      PrepareSwd(SwdSeqIn, ImageSeqIn);
      tmsDirection := In;
      lineOut := lineOut && !turn;
      Record(Read(parity));
      if parity {
        tmsDirection := Out;
        lineOut := true;
      }
    }

    /** A register write; like SeqOut, it always runs with the line driven. */
    method LowWrite()
      requires Valid()
      modifies this
      ensures Valid()
      ensures Ran(old(trace), trace, SwdLowWrite, clkdiv) && calls == old(calls) + [Accessed]
        && trace[|old(trace)|].lineOut && tmsDirection.Out?
        && RanWith(trace[|old(trace)|], ImageLowWrite, Tms, TmsDir)
      ensures clkdiv == old(clkdiv)
    {
      var turn := !tmsDirection.Out?;
      PrepareSwd(SwdLowWrite, ImageLowWrite);
      tmsDirection := Out;
      lineOut := lineOut || turn;
      Record(Accessed);
    }

    /**
     A register access. An access-port access with a pending fault does nothing; otherwise the
     processor itself turns the line round when the remembered direction is not out.
     */
    method LowAccess(read: bool, accessPort: bool, fault: bool)
      requires Valid()
      modifies this
      ensures Valid()
      ensures accessPort && fault ==> trace == old(trace) && calls == old(calls)
      ensures !(accessPort && fault) ==>
        && Ran(old(trace), trace, if read then SwdLowAccessRead else SwdLowAccessWrite, clkdiv) && calls == old(calls) + [Accessed]
        && trace[|old(trace)|].lineOut && tmsDirection.Out?
        && RanWith(trace[|old(trace)|], if read then ImageLowAccessRead else ImageLowAccessWrite, Tms, TmsDir)
      ensures clkdiv == old(clkdiv)
    {
      if accessPort && fault {
        return;
      }
      var turn := !tmsDirection.Out?;
      if read {
        PrepareSwd(SwdLowAccessRead, ImageLowAccessRead);
      } else {
        PrepareSwd(SwdLowAccessWrite, ImageLowAccessWrite);
      }
      tmsDirection := Out;
      if turn {
        lineOut := true;
      }
      Record(Accessed);
    }

    // ---------- JTAG ----------

    /** Loads the JTAG image unless it is there, and turns the pin map round from that of tms_seq. */
    method PrepareData(target: Program)
      requires Valid() && target.IsJtag() && !target.JtagTmsSeq?
      modifies this`currentProgram, this`image, this`outPin, this`setPin, this`divider, this`updateClkdiv, this`lineOut
      ensures currentProgram == target && image == ImageJtag && (outPin, setPin) == (Tdi, Tms)
      ensures divider == clkdiv && !updateClkdiv && lineOut
    {
      if currentProgram != target {
        if currentProgram.JtagTmsSeq? {
          outPin, setPin := Tdi, Tms;
        } else if !currentProgram.IsJtag() {
          image := ImageJtag;
          outPin, setPin := Tdi, Tms;
          divider := clkdiv;
          updateClkdiv := false;
          lineOut := true;
        }
      }
      currentProgram := target;
      UpdateDivider();
    }

    /** Loads the JTAG image unless it is there, and turns the pin map round for tms_seq. */
    method PrepareTms()
      requires Valid()
      modifies this`currentProgram, this`image, this`outPin, this`setPin, this`divider, this`updateClkdiv, this`lineOut
      ensures currentProgram == JtagTmsSeq && image == ImageJtag && (outPin, setPin) == (Tms, Tdi)
      ensures divider == clkdiv && !updateClkdiv && lineOut
    {
      if currentProgram != JtagTmsSeq {
        if !currentProgram.IsJtag() {
          image := ImageJtag;
          divider := clkdiv;
          outPin, setPin := Tms, Tdi;
          updateClkdiv := false;
          lineOut := true;
        } else {
          outPin, setPin := Tms, Tdi;
        }
      }
      currentProgram := JtagTmsSeq;
      UpdateDivider();
    }

    /** jtag_next, tdi_tdo_seq and tdi_seq: OUT on TDI, SET on TMS. */
    method JtagData(target: Program)
      requires Valid() && target.IsJtag() && !target.JtagTmsSeq?
      modifies this
      ensures Valid()
      ensures Ran(old(trace), trace, target, clkdiv) && calls == old(calls) + [Jtag]
      ensures RanWith(trace[|old(trace)|], ImageJtag, Tdi, Tms) && trace[|old(trace)|].lineOut
      ensures clkdiv == old(clkdiv) && tmsDirection == old(tmsDirection)
      ensures StaleIn() <==> tmsDirection.In?
    {
      PrepareData(target);
      Record(Jtag);
    }

    /** tms_seq: OUT on TMS, SET on TDI. */
    method JtagTms()
      requires Valid()
      modifies this
      ensures Valid()
      ensures Ran(old(trace), trace, JtagTmsSeq, clkdiv) && calls == old(calls) + [Jtag]
      ensures RanWith(trace[|old(trace)|], ImageJtag, Tms, Tdi) && trace[|old(trace)|].lineOut
      ensures clkdiv == old(clkdiv) && tmsDirection == old(tmsDirection)
      ensures StaleIn() <==> tmsDirection.In?
    {
      PrepareTms();
      Record(Jtag);
    }
  }

  /**
   The direction memory is not coherent over every mix of calls: after an SWD read, a JTAG transfer
   and a second SWD read, the second read listens to a line the probe itself drives.
   */
  method ReadAfterJtag(i: Interface)
    requires i.Valid() && i.trace == [] && i.calls == [] && i.currentProgram.NotSet? && i.tmsDirection.NotInitialized?
    modifies i
    ensures |i.trace| == 3 && i.trace[2].program == SwdSeqIn && i.trace[2].lineOut
    ensures forall k :: 0 <= k < 3 ==> Coherent(i.trace[k])
  {
    i.SeqIn(8, false);
    assert i.tmsDirection.In?;
    i.JtagData(JtagNext);
    assert |i.trace| == 2 && i.calls == [Read(false), Jtag];
    assert OpenAt(i.calls, 0);
    i.SeqIn(8, false);
    assert i.trace[2].lineOut;
  }
}
