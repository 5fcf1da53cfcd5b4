/**
 When flash changes in a run of the bootloader: which GETSTATUS carries out a download, and what a
 completion that was lost makes of the next one.
 */
module DfuRuns {
  import opened Machine
  import opened Runs
  import opened Dfu

  /** Carrying out the block at hand would change flash: an erase of a page that is neither the last one erased nor empty, or a half-word that can be stored and differs. */
  ghost predicate WorkToDo(p: Part, d: Device)
    requires ValidDevice(d) && p.pageSize != 0
  {
    if d.blocknum == 0 then
      var page := PageOf(p, LittleEndian32(d.buf[1..5]));
      d.buf[0] == CMD_ERASE && page != d.lastErased && !Empty(p, d.flash, page, p.pageSize)
    else exists i :: 0 <= i < |d.flash| && Differs(p, d, i)
  }

  /** The block stores another byte at offset `i` of flash. */
  predicate Differs(p: Part, d: Device, i: nat)
    requires |d.buf| == TRANSFER_SIZE && d.len <= TRANSFER_SIZE && i < |d.flash|
  {
    Programmed(p, d.flash, BlockAddress(d.addr, d.blocknum), d.buf, d.len)[i] != d.flash[i]
  }

  lemma EraseDiffers(p: Part, flash: seq<uint8>, page: nat)
    ensures ErasePage(p, flash, page) != flash <==> !Empty(p, flash, page, p.pageSize)
  {
    if Empty(p, flash, page, p.pageSize) {
      assert ErasePage(p, flash, page) == flash;
    } else {
      var i :| 0 <= i < |flash| && page <= p.flashBase + i < page + p.pageSize && flash[i] != 0xFF;
      assert ErasePage(p, flash, page)[i] == 0xFF;
    }
  }

  lemma ProgramDiffers(p: Part, d: Device, after: seq<uint8>)
    requires ValidDevice(d) && after == Programmed(p, d.flash, BlockAddress(d.addr, d.blocknum), d.buf, d.len)
    ensures after != d.flash <==> exists i :: 0 <= i < |d.flash| && Differs(p, d, i)
  {
    if forall i :: 0 <= i < |d.flash| ==> !Differs(p, d, i) {
      forall i | 0 <= i < |d.flash|
        ensures after[i] == d.flash[i]
      {
        assert !Differs(p, d, i);
      }
      assert after == d.flash;
    } else {
      var i :| 0 <= i < |d.flash| && Differs(p, d, i);
      assert after[i] != d.flash[i];
    }
  }

  /** A completion changes flash exactly when the device is busy and there is work to do. */
  lemma CompletionChangesFlash(p: Part, d: Device)
    requires ValidDevice(d) && p.pageSize != 0
    ensures Complete(p, d).flash != d.flash <==> d.state.DnBusy? && WorkToDo(p, d)
  {
    if d.state.DnBusy? {
      if d.blocknum == 0 {
        EraseDiffers(p, d.flash, PageOf(p, LittleEndian32(d.buf[1..5])));
      } else {
        ProgramDiffers(p, d, Programmed(p, d.flash, BlockAddress(d.addr, d.blocknum), d.buf, d.len));
      }
    }
  }

  /** GETSTATUS changes neither the block nor flash, and afterwards the device is busy exactly when it was, or when a download waited. */
  lemma StatusKeepsBlock(p: Part, d: Device)
    requires ValidDevice(d) && p.pageSize != 0
    ensures var e := Control(p, d, GetStatus).0;
            && ValidDevice(e) && e.flash == d.flash && e.buf == d.buf && e.blocknum == d.blocknum && e.len == d.len
            && e.addr == d.addr && e.lastErased == d.lastErased && e.pending
            && (e.state.DnBusy? <==> d.state.DnloadSync? || d.state.DnBusy?)
  {
  }

  /**
   A completed transfer changes flash exactly when it is a GETSTATUS with work to do, taken in
   dfuDNLOAD-SYNC or in dfuDNBUSY. A device that is not busy does not become busy by it.
   */
  lemma CompletedTransfers(p: Part, d: Device, r: Request)
    requires ValidDevice(d) && (r.Dnload? ==> |r.data| <= TRANSFER_SIZE) && p.pageSize != 0
    ensures Transfer(p, d, r).flash != d.flash <==>
            r.GetStatus? && (d.state.DnloadSync? || d.state.DnBusy?) && WorkToDo(p, d)
    ensures !d.state.DnBusy? ==> !Transfer(p, d, r).state.DnBusy?
  {
    if r.GetStatus? {
      var e := Control(p, d, r).0;
      StatusKeepsBlock(p, d);
      CompletionChangesFlash(p, e);
      SameWork(p, d, e);
    }
  }

  lemma SameWork(p: Part, d: Device, e: Device)
    requires ValidDevice(d) && ValidDevice(e) && p.pageSize != 0
    requires e.flash == d.flash && e.buf == d.buf && e.blocknum == d.blocknum && e.len == d.len
    requires e.addr == d.addr && e.lastErased == d.lastErased
    ensures WorkToDo(p, e) <==> WorkToDo(p, d)
  {
    assert forall i: nat :: i < |d.flash| ==> (Differs(p, e, i) <==> Differs(p, d, i));
  }

  // ---------- runs ----------

  lemma {:induction false} RunPrefix(p: Part, d: Device, events: seq<Event>, i: nat)
    requires ValidDevice(d) && AllValid(events) && p.pageSize != 0 && RunDevice(p, d, events).Some? && i < |events|
    ensures RunDevice(p, d, events[..i]).Some? && RunDevice(p, d, events[..i + 1]).Some?
    ensures Next(p, RunDevice(p, d, events[..i]).value, events[i]) == RunDevice(p, d, events[..i + 1])
    decreases |events|
  {
    var first := Next(p, d, events[0]).value;
    if i == 0 {
      assert events[..0] == [] && events[..1][1..] == [] && events[..1][0] == events[0];
    } else {
      RunPrefix(p, first, events[1..], i - 1);
      assert events[..i][1..] == events[1..][..i - 1] && events[..i + 1][1..] == events[1..][..i];
      assert events[..i][0] == events[0] && events[..i + 1][0] == events[0];
    }
  }

  /** The device before event `i` of a run. */
  ghost function At(p: Part, d: Device, events: seq<Event>, i: nat): (e: Device)
    requires ValidDevice(d) && AllValid(events) && p.pageSize != 0 && RunDevice(p, d, events).Some? && i <= |events|
    ensures ValidDevice(e)
  {
    if i < |events| then RunPrefix(p, d, events, i);
    RunDevice(p, d, events[..i]).value
    else RunDevice(p, d, events).value
  }

  lemma AtStart(p: Part, d: Device, events: seq<Event>)
    requires ValidDevice(d) && AllValid(events) && p.pageSize != 0 && RunDevice(p, d, events).Some?
    ensures At(p, d, events, 0) == d
  {
    assert events[..0] == [];
  }

  /** Consecutive devices of a run are one step apart. */
  lemma OneStep(p: Part, d: Device, events: seq<Event>, i: nat)
    requires ValidDevice(d) && AllValid(events) && p.pageSize != 0 && RunDevice(p, d, events).Some? && i < |events|
    ensures Next(p, At(p, d, events, i), events[i]) == Some(At(p, d, events, i + 1))
  {
    RunPrefix(p, d, events, i);
    assert i + 1 == |events| ==> events[..i + 1] == events;
  }

  /** A GETSTATUS is pending exactly behind it. */
  lemma PendingBehindStatus(p: Part, d: Device, events: seq<Event>, i: nat)
    requires ValidDevice(d) && AllValid(events) && p.pageSize != 0 && RunDevice(p, d, events).Some? && i < |events|
    ensures At(p, d, events, i + 1).pending <==> events[i] == Req(GetStatus)
  {
    OneStep(p, d, events, i);
  }

  /**
   In every run from a device without a pending GETSTATUS, flash changes in event `i` exactly when
   it completes a GETSTATUS that was taken, with work to do, in dfuDNLOAD-SYNC or in dfuDNBUSY.
   */
  lemma WhenFlashChanges(p: Part, d: Device, events: seq<Event>, i: nat)
    requires ValidDevice(d) && AllValid(events) && p.pageSize != 0 && RunDevice(p, d, events).Some?
    requires !d.pending && i < |events|
    ensures At(p, d, events, i + 1).flash != At(p, d, events, i).flash <==>
            && i > 0 && events[i].Completed? && events[i - 1] == Req(GetStatus)
            && (At(p, d, events, i - 1).state.DnloadSync? || At(p, d, events, i - 1).state.DnBusy?)
            && WorkToDo(p, At(p, d, events, i - 1))
  {
    var e := At(p, d, events, i);
    OneStep(p, d, events, i);
    OnlyCompletionChangesFlash(p, e, events[i]);
    if i == 0 {
      AtStart(p, d, events);
    } else {
      var b := At(p, d, events, i - 1);
      OneStep(p, d, events, i - 1);
      PendingBehindStatus(p, d, events, i - 1);
      if events[i].Completed? {
        CompletionChangesFlash(p, e);
        StatusKeepsBlock(p, b);
        SameWork(p, b, e);
      }
    }
  }

  /** The GETSTATUS at `j` was taken in dfuDNLOAD-SYNC, and what came next, before event `k`, was not its completion. */
  ghost predicate LostBefore(p: Part, d: Device, events: seq<Event>, k: nat, j: nat)
    requires ValidDevice(d) && AllValid(events) && p.pageSize != 0 && RunDevice(p, d, events).Some?
    requires j < k <= |events|
  {
    && events[j] == Req(GetStatus) && At(p, d, events, j).state.DnloadSync?
    && (j + 1 < k ==> !events[j + 1].Completed?)
  }

  /** A device that is busy before event `k` has lost the completion of a GETSTATUS, or waits for it. */
  lemma {:induction false} BusyAfterLoss(p: Part, d: Device, events: seq<Event>, k: nat)
    requires ValidDevice(d) && AllValid(events) && p.pageSize != 0 && RunDevice(p, d, events).Some?
    requires k <= |events| && !d.state.DnBusy? && At(p, d, events, k).state.DnBusy?
    ensures exists j: nat :: j < k && LostBefore(p, d, events, k, j)
    decreases k
  {
    AtStart(p, d, events);
    if k > 0 {
      var e := At(p, d, events, k - 1);
      OneStep(p, d, events, k - 1);
      OnlyCompletionChangesFlash(p, e, events[k - 1]);
      if e.state.DnBusy? {
        BusyAfterLoss(p, d, events, k - 1);
        var j: nat :| j < k - 1 && LostBefore(p, d, events, k - 1, j);
        assert LostBefore(p, d, events, k, j);
      } else {
        assert LostBefore(p, d, events, k, k - 1);
      }
    }
  }

  /** In every run flash changes outside a GETSTATUS taken in dfuDNLOAD-SYNC only after such a GETSTATUS has lost its completion. */
  lemma OutsideSyncAfterLoss(p: Part, d: Device, events: seq<Event>, i: nat)
    requires ValidDevice(d) && AllValid(events) && p.pageSize != 0 && RunDevice(p, d, events).Some?
    requires !d.pending && !d.state.DnBusy? && i < |events|
    requires At(p, d, events, i + 1).flash != At(p, d, events, i).flash
    ensures i > 0
    ensures !At(p, d, events, i - 1).state.DnloadSync? ==>
              exists j: nat :: j < i - 1 && LostBefore(p, d, events, i, j) && !events[j + 1].Completed?
  {
    WhenFlashChanges(p, d, events, i);
    if !At(p, d, events, i - 1).state.DnloadSync? {
      BusyAfterLoss(p, d, events, i - 1);
      var j: nat :| j < i - 1 && LostBefore(p, d, events, i - 1, j);
      assert j + 1 == i - 1 ==> events[j + 1] == Req(GetStatus);
      assert LostBefore(p, d, events, i, j);
    }
  }

  /** A part and a device that waits with the command to erase its one page, which is not empty. */
  function SmallPart(): Part {
    Part(1024, 0, 0, 1024)
  }

  function WaitingDevice(): (d: Device)
    ensures ValidDevice(d)
  {
    Device(DnloadSync, seq(TRANSFER_SIZE, i => if i == 0 then CMD_ERASE else 0), 5, 0, 0, StatusOk, NO_PAGE, seq(1024, _ => 0), false, false)
  }

  /**
   A device that waits with work to do: when its first GETSTATUS loses its completion, the second
   one, taken in dfuDNBUSY, changes flash.
   */
  lemma LosesCompletion(p: Part, d: Device, events: seq<Event>)
    requires ValidDevice(d) && p.pageSize != 0 && d.state.DnloadSync? && !d.pending && !d.detached && WorkToDo(p, d)
    requires events == [Req(GetStatus), Req(GetStatus), Completed]
    ensures RunDevice(p, d, events).Some?
    ensures At(p, d, events, 1).state.DnBusy? && At(p, d, events, 3).flash != At(p, d, events, 2).flash
  {
    var e := Control(p, d, GetStatus).0;
    var f := Control(p, e, GetStatus).0;
    var two, one := events[1..], events[2..];
    assert two[1..] == one && one[1..] == [];
    assert RunDevice(p, f, one) == RunDevice(p, Complete(p, f), []);
    assert RunDevice(p, e, two) == RunDevice(p, f, one);
    AtStart(p, d, events);
    OneStep(p, d, events, 0);
    SameWork(p, d, e);
    WhenFlashChanges(p, d, events, 2);
  }

  lemma WaitsWithWork()
    ensures WorkToDo(SmallPart(), WaitingDevice())
  {
    var d := WaitingDevice();
    assert d.buf[1..5] == [0, 0, 0, 0];
    assert d.flash[0] == 0;
  }

  /** One such device and run. */
  lemma LostCompletion()
    ensures var p, d := SmallPart(), WaitingDevice();
            var events := [Req(GetStatus), Req(GetStatus), Completed];
            && RunDevice(p, d, events).Some?
            && At(p, d, events, 1).state.DnBusy? && At(p, d, events, 3).flash != At(p, d, events, 2).flash
  {
    WaitsWithWork();
    LosesCompletion(SmallPart(), WaitingDevice(), [Req(GetStatus), Req(GetStatus), Completed]);
  }
}
