/**
 What a host can tell from requests alone: when the bootloader refuses a set-address command, how it
 comes out of the error state again, where the address can be, when it uploads and when it detaches.
 */
module DfuRequests {
  import opened Machine
  import opened Runs
  import opened Dfu

  /** The address a command carries; a command shorter than five bytes ends in what the buffer held before. */
  function Argument(d: Device, data: seq<uint8>): nat
    requires ValidDevice(d) && |data| <= TRANSFER_SIZE
  {
    LittleEndian32(Stored(d.buf, data)[1..5])
  }

  predicate InLimits(p: Part, x: nat) {
    p.appAddress <= x && x < p.maxAddress
  }

  /** A set-address command outside the limits. */
  predicate Refused(p: Part, d: Device, r: Request)
    requires ValidDevice(d) && (r.Dnload? ==> |r.data| <= TRANSFER_SIZE)
  {
    r.Dnload? && r.wValue == 0 && r.data != [] && r.data[0] == 0x21 && !InLimits(p, Argument(d, r.data))
  }

  /**
   For every address: the set-address command sets it exactly when it lies inside the limits;
   otherwise the device is in dfuERROR with errTARGET and keeps its address. Flash stays as it is.
   */
  lemma SetAddressOutcome(p: Part, d: Device, x: nat)
    requires ValidDevice(d) && x < TWO_TO_THE_32
    ensures var (e, response) := Control(p, d, Dnload(0, [0x21] + Bytes32(x)));
            && response == Handled && e.flash == d.flash && e.lastErased == d.lastErased
            && (p.appAddress <= x < p.maxAddress ==> e.state == DnloadSync && e.addr == x && e.error == d.error)
            && (x < p.appAddress || p.maxAddress <= x ==> e.state == DfuError && e.addr == d.addr && e.error == ErrTarget)
  {
    CommandArgument(d.buf, SetAddressCommand(x), x);
  }

  /** The refusal as the host sees it: errTARGET in dfuERROR until CLRSTATUS, then dfuIDLE without an error. */
  lemma RefusalIsReported(p: Part, d: Device, x: nat)
    requires ValidDevice(d) && p.pageSize != 0 && x < TWO_TO_THE_32 && !InLimits(p, x)
    ensures var e := Control(p, d, Dnload(0, SetAddressCommand(x))).0;
            && Control(p, e, GetStatus).1 == StatusReport(ErrTarget, 0, DfuError)
            && var f := Transfer(p, e, GetStatus);
            && f.state == DfuError && f.addr == d.addr && f.flash == d.flash
            && var g := Control(p, f, ClrStatus).0;
            && g.state == DfuIdle && g.addr == d.addr && g.flash == d.flash
            && Control(p, g, GetStatus).1 == StatusReport(StatusOk, 0, DfuIdle)
  {
    SetAddressOutcome(p, d, x);
  }

  /** No other request fails: the device enters dfuERROR, or stays there with a new error, exactly by a refused command. */
  lemma OnlyRefusalsFail(p: Part, d: Device, r: Request)
    requires ValidDevice(d) && (r.Dnload? ==> |r.data| <= TRANSFER_SIZE)
    ensures var e := Control(p, d, r).0;
            && (!d.state.DfuError? ==> (e.state.DfuError? <==> Refused(p, d, r)))
            && (Refused(p, d, r) ==> e.state.DfuError? && e.error == ErrTarget && e.addr == d.addr)
            && (!Refused(p, d, r) ==> e.error == d.error)
  {
    if r.Dnload? && r.data != [] {
      assert Stored(d.buf, r.data)[0] == r.data[0];
    }
  }

  /**
   The ways out of dfuERROR: CLRSTATUS and ABORT to dfuIDLE, and any DNLOAD that is not itself
   refused. CLRSTATUS changes no other state.
   */
  lemma LeavesError(p: Part, d: Device, r: Request)
    requires ValidDevice(d) && (r.Dnload? ==> |r.data| <= TRANSFER_SIZE)
    ensures d.state.DfuError? ==>
              var e := Control(p, d, r).0;
              && (e.state == DfuIdle <==> r.ClrStatus? || r.Abort?)
              && (!e.state.DfuError? <==> r.ClrStatus? || r.Abort? || (r.Dnload? && !Refused(p, d, r)))
              && (e.state.DnloadSync? || e.state.ManifestSync? <==> r.Dnload? && !Refused(p, d, r))
    ensures r.ClrStatus? && !d.state.DfuError? ==> Control(p, d, r) == (d.(pending := false), Handled)
  {
    if r.Dnload? && r.data != [] {
      assert Stored(d.buf, r.data)[0] == r.data[0];
    }
  }

  /** In every run the address is the one it started with or one inside the limits. */
  lemma {:induction false} AddressInLimits(p: Part, d: Device, events: seq<Event>)
    requires ValidDevice(d) && AllValid(events) && p.pageSize != 0 && RunDevice(p, d, events).Some?
    ensures var e := RunDevice(p, d, events).value; e.addr == d.addr || InLimits(p, e.addr)
    decreases |events|
  {
    if events != [] {
      AddressInLimits(p, Next(p, d, events[0]).value, events[1..]);
    }
  }

  /** Block 2 goes to the address that was set, and every other block 1024 bytes behind the one before it, in 32 bits. */
  lemma BlockPlaces(addr: nat, k: uint16)
    requires addr < TWO_TO_THE_32 && k + 1 < 65536
    ensures BlockAddress(addr, 2) == addr
    ensures BlockAddress(addr, k) < TWO_TO_THE_32
    ensures BlockAddress(addr, k + 1) == AddU32(BlockAddress(addr, k), 1024)
  {
  }

  /** A DNLOAD replaces the front of the buffer and leaves the rest of it; nothing but its work is left to GETSTATUS. */
  lemma TakesBlock(p: Part, d: Device, wValue: uint16, data: seq<uint8>)
    requires ValidDevice(d) && 1 <= |data| <= TRANSFER_SIZE
    ensures var (e, response) := Control(p, d, Dnload(wValue, data));
            && response == Handled && e.blocknum == wValue && e.len == |data| && e.flash == d.flash
            && e.buf[..|data|] == data && e.buf[|data|..] == d.buf[|data|..]
            && (wValue != 0 ==> e.state == DnloadSync && e.addr == d.addr)
  {
  }

  /** UPLOAD is answered in dfuIDLE, dfuDNLOAD-IDLE and dfuUPLOAD-IDLE only, with as many bytes as asked for from block 2 on. */
  lemma UploadAnswered(p: Part, d: Device, block: uint16, length: nat)
    requires ValidDevice(d)
    ensures var (e, response) := Control(p, d, Upload(block, length));
            && (response == NotSupported <==> d.state !in {DfuIdle, DnloadIdle, UploadIdle})
            && (response == NotSupported ==> e == d.(pending := false))
            && (response != NotSupported ==> e.state == UploadIdle && e.flash == d.flash && e.addr == d.addr)
            && (response.Uploaded? <==> response != NotSupported && block >= 2)
            && (response.Uploaded? ==> |response.data| == length)
  {
  }

  /** A request reports the state it leaves behind, and asks the host to wait exactly when the work is about to be done. */
  lemma ReportsState(p: Part, d: Device)
    requires ValidDevice(d)
    ensures Control(p, d, GetState) == (d.(pending := false), StateReport(d.state))
    ensures var (e, response) := Control(p, d, GetStatus);
            && response.StatusReport? && response.state == e.state
            && (response.pollTimeout > 0 <==> d.state.DnloadSync?)
            && (d.state !in {DnloadSync, ManifestSync} ==> e.state == d.state)
            && (response.status == ErrTarget <==> d.state.DfuError? && d.error == ErrTarget)
  {
  }

  /** An empty DNLOAD and a GETSTATUS that completes detach the device from any state, with flash as it was. */
  lemma Detaches(p: Part, d: Device, wValue: uint16)
    requires ValidDevice(d) && p.pageSize != 0
    ensures var e := Transfer(p, Transfer(p, d, Dnload(wValue, [])), GetStatus); e.detached && e.flash == d.flash
  {
  }

  /** Nothing else does: the way is an empty DNLOAD, a GETSTATUS behind it, and the completion of a GETSTATUS. */
  lemma OnlyManifestDetaches(p: Part, d: Device, e: Event)
    requires ValidDevice(d) && ValidEvent(e) && p.pageSize != 0 && Next(p, d, e).Some?
    ensures var t := Next(p, d, e).value;
            && (t.detached <==> e.Completed? && d.state.Manifest?)
            && (t.state.Manifest? && !d.state.Manifest? <==> e == Req(GetStatus) && d.state.ManifestSync?)
            && (t.state.ManifestSync? && !d.state.ManifestSync? ==> e.Req? && e.r.Dnload? && e.r.data == [])
  {
  }
}
