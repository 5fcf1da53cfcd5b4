/** The bootloader as the firmware keeps it: static variables, a request buffer and flash, all updated in place. */
module DfuBootloader {
  import opened Machine
  import opened Dfu

  class Bootloader {
    const part: Part
    const buf: array<uint8>
    const flash: array<uint8>
    var state: State
    var len: nat
    var addr: nat
    var blocknum: uint16
    var currentError: Status
    var lastErasedPage: nat
    var completionPending: bool
    var detached: bool

    ghost predicate Valid()
      reads this
    {
      && buf != flash && buf.Length == TRANSFER_SIZE && len <= TRANSFER_SIZE && ValidPart(part)
      && part.flashBase + flash.Length <= TWO_TO_THE_32 && addr < TWO_TO_THE_32
    }

    ghost function View(): (d: Device)
      requires Valid()
      reads this, buf, flash
      ensures ValidDevice(d)
    {
      Device(state, buf[..], len, addr, blocknum, currentError, lastErasedPage, flash[..], completionPending, detached)
    }

    /** Reset: the marker of the last erased page matches no page. */
    constructor (p: Part, contents: seq<uint8>)
      requires ValidPart(p) && p.flashBase + |contents| <= TWO_TO_THE_32
      ensures Valid() && part == p && fresh(buf) && fresh(flash)
      ensures View() == Device(DfuIdle, seq(TRANSFER_SIZE, _ => 0), 0, 0, 0, StatusOk, NO_PAGE, contents, false, false)
    {
      part := p;
      buf := new uint8[TRANSFER_SIZE](_ => 0);
      flash := new uint8[|contents|](i requires 0 <= i < |contents| => contents[i]);
      state, len, addr, blocknum, currentError := DfuIdle, 0, 0, 0, StatusOk;
      lastErasedPage, completionPending, detached := NO_PAGE, false, false;
      new;
      assert flash[..] == contents;
      assert buf[..] == seq(TRANSFER_SIZE, _ => 0);
    }

    method FlashErasePage(page: nat)
      requires Valid()
      modifies flash
      ensures flash[..] == ErasePage(part, old(flash[..]), page)
    {
      for i := 0 to flash.Length
        invariant forall j :: 0 <= j < flash.Length ==>
          flash[j] == if j < i && page <= part.flashBase + j < page + part.pageSize then 0xFF else old(flash[j])
      {
        if page <= part.flashBase + i && part.flashBase + i < page + part.pageSize {
          flash[i] := 0xFF;
        }
      }
    }

    method CheckAndDoSectorErase(address: nat)
      requires Valid()
      modifies flash, `lastErasedPage
      ensures View() == SectorErase(part, old(View()), address)
    {
      var sector := PageOf(part, address);
      if sector != lastErasedPage {
        FlashErasePage(sector);
        lastErasedPage := sector;
      }
    }

    method FlashProgramHalfWord(address: nat, lo: uint8, hi: uint8)
      requires Valid()
      modifies flash
      ensures flash[..] == ProgramHalfWord(old(flash[..]), address - part.flashBase, lo, hi)
    {
      var at := address - part.flashBase;
      if 0 <= at && at + 1 < flash.Length {
        if (flash[at] == 0xFF && flash[at + 1] == 0xFF) || (lo == 0 && hi == 0) {
          flash[at], flash[at + 1] := lo, hi;
        }
      }
    }

    /** dfu_flash_program_buffer: half-word by half-word, the last one whole even when `n` is odd. */
    method FlashProgramBuffer(baseAddress: nat, n: nat)
      requires Valid() && n <= buf.Length && baseAddress < TWO_TO_THE_32
      modifies flash
      ensures flash[..] == Programmed(part, old(flash[..]), baseAddress, buf[..], n)
    {
      ghost var before := flash[..];
      ProgrammedNone(part, before, baseAddress, buf[..]);
      var i: nat := 0;
      while i < n
        invariant i % 2 == 0 && i <= n + n % 2 <= buf.Length
        invariant flash[..] == Programmed(part, before, baseAddress, buf[..], i)
      {
        ProgrammedStep(part, before, baseAddress, buf[..], i);
        FlashProgramHalfWord(AddU32(baseAddress, i), buf[i], buf[i + 1]);
        i := i + 2;
      }
      ProgrammedRounded(part, before, baseAddress, buf[..], n, i);
    }

    /** usbdfu_getstatus: the state changes as the status is reported. */
    method ReportStatus() returns (status: Status, pollTimeout: nat)
      requires Valid()
      modifies `state
      ensures View() == old(View()).(state := match old(state) case DnloadSync => DnBusy case ManifestSync => Manifest case s => s)
      ensures status == (if old(state).DfuError? then currentError else StatusOk)
      ensures pollTimeout == if old(state).DnloadSync? then 100 else 0
    {
      status, pollTimeout := StatusOk, 0;
      match state
      case DnloadSync => state, pollTimeout := DnBusy, 100;
      case ManifestSync => state := Manifest;
      case DfuError => status := currentError;
      case _ =>
    }

    /** The DNLOAD branch for a non-empty block. */
    method TakeBlock(wValue: uint16, data: seq<uint8>)
      requires Valid() && 1 <= |data| <= TRANSFER_SIZE
      modifies buf, `state, `len, `addr, `blocknum, `currentError
      ensures Valid()
      ensures View() == Control(part, old(View()), Dnload(wValue, data)).0.(pending := old(completionPending))
    {
      blocknum, len := wValue, |data|;
      CopyIn(data);
      if wValue == 0 && buf[0] == CMD_SETADDR {
        var address := LittleEndian32(buf[1..5]);
        assert buf[1..5] == buf[..][1..5];
        if address < part.appAddress || address >= part.maxAddress {
          currentError, state := ErrTarget, DfuError;
          return;
        }
        LittleEndian32Bound(buf[1..5]);
        addr := address;
      }
      state := DnloadSync;
    }

    method CopyIn(data: seq<uint8>)
      requires |data| <= buf.Length
      modifies buf
      ensures buf[..] == Stored(old(buf[..]), data)
    {
      for i := 0 to |data|
        invariant forall j :: 0 <= j < buf.Length ==> buf[j] == if j < i then data[j] else old(buf[j])
      {
        buf[i] := data[i];
      }
    }

    /** usbdfu_control_request: every SETUP drops a completion that was not run. */
    method ControlRequest(r: Request) returns (response: Response)
      requires Valid() && (r.Dnload? ==> |r.data| <= TRANSFER_SIZE)
      modifies buf, `state, `len, `addr, `blocknum, `currentError, `completionPending
      ensures Valid()
      ensures (View(), response) == Control(part, old(View()), r)
    {
      completionPending := false;
      response := Handled;
      match r
      case Unsupported => response := NotSupported;
      case Dnload(wValue, data) =>
        if |data| == 0 {
          state := ManifestSync;
        } else {
          TakeBlock(wValue, data);
        }
      case ClrStatus =>
        if state == DfuError {
          state := DfuIdle;
        }
      case Abort => state := DfuIdle;
      case Upload(block, length) =>
        if state == DfuIdle || state == DnloadIdle || state == UploadIdle {
          blocknum, state := block, UploadIdle;
          if block > 1 {
            response := Uploaded(ReadBack(part, flash[..], BlockAddress(addr, block), length));
          }
        } else {
          response := NotSupported;
        }
      case GetStatus =>
        var status, pollTimeout := ReportStatus();
        response := StatusReport(status, pollTimeout, state);
        completionPending := true;
      case GetState => response := StateReport(state);
    }

    /** usbdfu_getstatus_complete */
    method GetStatusComplete()
      requires Valid()
      modifies flash, `state, `lastErasedPage, `completionPending, `detached
      ensures Valid() && View() == Complete(part, old(View()))
    {
      completionPending := false;
      match state
      case DnBusy =>
        if blocknum == 0 {
          if buf[0] == CMD_ERASE {
            assert buf[1..5] == buf[..][1..5];
            CheckAndDoSectorErase(LittleEndian32(buf[1..5]));
          }
        } else {
          FlashProgramBuffer(BlockAddress(addr, blocknum), len);
        }
        state := DnloadIdle;
      case Manifest => detached := true;
      case _ =>
    }
  }

  // ---------- the programming loop ----------

  lemma ProgrammedNone(p: Part, flash: seq<uint8>, address: nat, buf: seq<uint8>)
    requires |buf| % 2 == 0
    ensures Programmed(p, flash, address, buf, 0) == flash
  {
    forall j | 0 <= j < |flash|
      ensures Programmed(p, flash, address, buf, 0)[j] == flash[j]
    {
      WordStart(SubU32(p.flashBase + j, address), 0);
    }
  }

  lemma WordStart(d: nat, i: nat)
    requires i % 2 == 0
    ensures d - d % 2 < i <==> d < i
    ensures d - d % 2 < i + 2 <==> d < i + 2
    ensures d == i ==> d % 2 == 0
    ensures d == i + 1 ==> d % 2 == 1
  {
  }

  /** Where a byte of flash stands in the block, and which address the block's byte has. */
  lemma Distance(x: nat, address: nat, k: nat)
    requires x < TWO_TO_THE_32 && address < TWO_TO_THE_32 && k < TWO_TO_THE_32
    ensures SubU32(x, address) == k <==> x == AddU32(address, k)
  {
    assert SubU32(x, address) == if x < address then x - address + TWO_TO_THE_32 else x - address;
    assert AddU32(address, k) == if address + k < TWO_TO_THE_32 then address + k else address + k - TWO_TO_THE_32;
  }

  /** Flash before the half-word at `i` is stored still has its old bytes there. */
  lemma WritableStep(p: Part, flash: seq<uint8>, address: nat, buf: seq<uint8>, i: nat)
    requires |buf| % 2 == 0 && i % 2 == 0 && i + 2 <= |buf| <= TRANSFER_SIZE
    requires p.flashBase + |flash| <= TWO_TO_THE_32 && address < TWO_TO_THE_32
    ensures var at := AddU32(address, i) - p.flashBase;
            Writable(Programmed(p, flash, address, buf, i), at, buf[i], buf[i + 1]) == Writable(flash, at, buf[i], buf[i + 1])
  {
    var at := AddU32(address, i) - p.flashBase;
    if 0 <= at && at + 1 < |flash| {
      Distance(p.flashBase + at, address, i);
      NextAddress(address, i);
      Distance(p.flashBase + at + 1, address, i + 1);
      NotYetStored(p, flash, address, buf, i, at);
      NotYetStored(p, flash, address, buf, i, at + 1);
    }
  }

  /** Bytes from the block's byte `len` on are as they were. */
  lemma NotYetStored(p: Part, flash: seq<uint8>, address: nat, buf: seq<uint8>, len: nat, j: nat)
    requires len <= |buf| && |buf| % 2 == 0 && len % 2 == 0 && j < |flash| && SubU32(p.flashBase + j, address) >= len
    ensures Programmed(p, flash, address, buf, len)[j] == flash[j]
  {
    WordStart(SubU32(p.flashBase + j, address), len);
  }

  /** Programming the half-word at `i` extends what is stored by that half-word. */
  lemma ProgrammedStep(p: Part, flash: seq<uint8>, address: nat, buf: seq<uint8>, i: nat)
    requires |buf| % 2 == 0 && i % 2 == 0 && i + 2 <= |buf| <= TRANSFER_SIZE
    requires p.flashBase + |flash| <= TWO_TO_THE_32 && address < TWO_TO_THE_32
    ensures ProgramHalfWord(Programmed(p, flash, address, buf, i), AddU32(address, i) - p.flashBase, buf[i], buf[i + 1])
         == Programmed(p, flash, address, buf, i + 2)
  {
    var before, after := Programmed(p, flash, address, buf, i), Programmed(p, flash, address, buf, i + 2);
    var at := AddU32(address, i) - p.flashBase;
    WritableStep(p, flash, address, buf, i);
    forall j | 0 <= j < |flash|
      ensures ProgramHalfWord(before, at, buf[i], buf[i + 1])[j] == after[j]
    {
      StepAt(p, flash, address, buf, i, j, SubU32(p.flashBase + j, address));
    }
  }

  /** Only the two bytes at distance `i` and `i + 1` change in the step. */
  lemma StepAt(p: Part, flash: seq<uint8>, address: nat, buf: seq<uint8>, i: nat, j: nat, d: nat)
    requires |buf| % 2 == 0 && i % 2 == 0 && i + 2 <= |buf| <= TRANSFER_SIZE && j < |flash|
    requires p.flashBase + |flash| <= TWO_TO_THE_32 && address < TWO_TO_THE_32 && d == SubU32(p.flashBase + j, address)
    ensures var at := AddU32(address, i) - p.flashBase; var writable := Writable(flash, at, buf[i], buf[i + 1]);
            && (d == i <==> j == at) && (writable ==> (d == i + 1 <==> j == at + 1))
            && Programmed(p, flash, address, buf, i + 2)[j] ==
               if writable && j == at then buf[i]
               else if writable && j == at + 1 then buf[i + 1]
               else Programmed(p, flash, address, buf, i)[j]
  {
    WordStart(d, i);
    Distance(p.flashBase + j, address, i);
    Distance(p.flashBase + j, address, i + 1);
    NextAddress(address, i);
  }

  lemma NextAddress(address: nat, i: nat)
    requires address < TWO_TO_THE_32 && i < TRANSFER_SIZE
    ensures AddU32(address, i + 1) == if AddU32(address, i) == TWO_TO_THE_32 - 1 then 0 else AddU32(address, i) + 1
  {
  }

  /** The loop's last half-word is the one that holds byte `n - 1`. */
  lemma ProgrammedRounded(p: Part, flash: seq<uint8>, address: nat, buf: seq<uint8>, n: nat, i: nat)
    requires n <= i <= |buf| && i == n + n % 2 && |buf| % 2 == 0
    ensures Programmed(p, flash, address, buf, i) == Programmed(p, flash, address, buf, n)
  {
    forall j | 0 <= j < |flash|
      ensures Programmed(p, flash, address, buf, i)[j] == Programmed(p, flash, address, buf, n)[j]
    {
      var at := SubU32(p.flashBase + j, address);
      assert at - at % 2 < i <==> at - at % 2 < n;
    }
  }

  lemma LittleEndian32Bound(b: seq<uint8>)
    requires |b| == 4
    ensures LittleEndian32(b) < TWO_TO_THE_32
  {
  }
}
