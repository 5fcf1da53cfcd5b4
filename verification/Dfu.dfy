/**
 The DFU bootloader: requests collect a block or a command, GETSTATUS announces the work, and the
 work itself is done when the GETSTATUS transfer completes. Flash is the STM32F1's: erased by the
 page, programmed by the half-word, and a half-word that is not erased keeps its value unless zero
 is written. State names are those of section 6.1 and Appendix A of USB DFU 1.1.
 */
module Dfu {
  import opened Machine
  import opened Runs

  const TRANSFER_SIZE: nat := 1024
  const CMD_SETADDR: uint8 := 0x21
  const CMD_ERASE: uint8 := 0x41
  const NO_PAGE: nat := 0xFFFF_FFFF

  datatype State =
    | DfuIdle | DnloadSync | DnBusy | DnloadIdle
    | ManifestSync | Manifest | UploadIdle | DfuError

  datatype Status = StatusOk | ErrTarget

  /** What the part has: page size, where flash starts, and the limits for the set-address command. */
  datatype Part = Part(pageSize: nat, flashBase: nat, appAddress: nat, maxAddress: nat)

  ghost predicate ValidPart(p: Part) {
    (p.pageSize == 1024 || p.pageSize == 2048) && p.flashBase % p.pageSize == 0
  }

  /** The bootloader's variables and the flash. `pending` is the completion callback of a GETSTATUS. */
  datatype Device = Device(
    state: State, buf: seq<uint8>, len: nat, addr: nat, blocknum: uint16, error: Status,
    lastErased: nat, flash: seq<uint8>, pending: bool, detached: bool)

  datatype Request =
    | Dnload(wValue: uint16, data: seq<uint8>)
    | ClrStatus
    | Abort
    | Upload(block: uint16, length: nat)
    | GetStatus
    | GetState
    | Unsupported

  datatype Response =
    | Handled
    | NotSupported
    | StatusReport(status: Status, pollTimeout: nat, state: State)
    | StateReport(state: State)
    | Uploaded(data: seq<uint8>)

  // ---------- flash ----------

  function PageOf(p: Part, address: nat): nat
    requires p.pageSize != 0
  {
    address - address % p.pageSize
  }

  function ErasePage(p: Part, flash: seq<uint8>, page: nat): (after: seq<uint8>)
    ensures |after| == |flash|
  {
    seq(|flash|, i requires 0 <= i < |flash| => if page <= p.flashBase + i < page + p.pageSize then 0xFF else flash[i])
  }

  /** A half-word can be stored where flash is erased; zero can be stored anywhere. */
  predicate Writable(flash: seq<uint8>, at: int, lo: uint8, hi: uint8) {
    0 <= at && at + 1 < |flash| && ((flash[at] == 0xFF && flash[at + 1] == 0xFF) || (lo == 0 && hi == 0))
  }

  /** flash_program_half_word at an offset into flash. */
  function ProgramHalfWord(flash: seq<uint8>, at: int, lo: uint8, hi: uint8): (after: seq<uint8>)
    ensures |after| == |flash|
  {
    if Writable(flash, at, lo, hi) then flash[at := lo][at + 1 := hi] else flash
  }

  /**
   Flash once the half-words of `buf` that start before `len` are stored from `address` on; an odd
   length takes one byte past it from the buffer.
   */
  function Programmed(p: Part, flash: seq<uint8>, address: nat, buf: seq<uint8>, len: nat): (after: seq<uint8>)
    requires len <= |buf| && |buf| % 2 == 0
    ensures |after| == |flash|
  {
    seq(|flash|, i requires 0 <= i < |flash| =>
      var at := SubU32(p.flashBase + i, address);
      var word := at - at % 2;
      if word < len && Writable(flash, i - at % 2, buf[word], buf[word + 1]) then buf[at] else flash[i])
  }

  // ---------- requests ----------

  function LittleEndian32(b: seq<uint8>): nat
    requires |b| == 4
  {
    var n0: nat, n1: nat, n2: nat, n3: nat := b[0], b[1], b[2], b[3];
    n0 + 256 * n1 + 65536 * n2 + 16777216 * n3
  }

  function Stored(buf: seq<uint8>, data: seq<uint8>): seq<uint8>
    requires |data| <= |buf|
  {
    data + buf[|data|..]
  }

  function BlockAddress(addr: nat, blocknum: nat): nat {
    (addr + (blocknum - 2) * TRANSFER_SIZE) % TWO_TO_THE_32
  }

  /** The bytes memcpy reads for an upload; addresses outside flash read as erased. */
  function ReadBack(p: Part, flash: seq<uint8>, address: nat, n: nat): seq<uint8> {
    seq(n, i requires 0 <= i < n =>
      var at := AddU32(address, i) - p.flashBase;
      if 0 <= at < |flash| then flash[at] else 0xFF)
  }

  ghost predicate ValidDevice(d: Device) {
    |d.buf| == TRANSFER_SIZE && d.len <= TRANSFER_SIZE
  }

  /** usbdfu_control_request */
  function Control(p: Part, d0: Device, r: Request): (Device, Response)
    requires ValidDevice(d0) && (r.Dnload? ==> |r.data| <= TRANSFER_SIZE)
  {
    var d := d0.(pending := false);
    match r
    case Unsupported => (d, NotSupported)
    case Dnload(wValue, data) =>
      if data == [] then (d.(state := ManifestSync), Handled)
      else
        var e := d.(blocknum := wValue, len := |data|, buf := Stored(d.buf, data));
        if wValue == 0 && e.buf[0] == CMD_SETADDR then
          var addr := LittleEndian32(e.buf[1..5]);
          if addr < p.appAddress || addr >= p.maxAddress then (e.(error := ErrTarget, state := DfuError), Handled)
          else (e.(addr := addr, state := DnloadSync), Handled)
        else (e.(state := DnloadSync), Handled)
    case ClrStatus => (if d.state.DfuError? then d.(state := DfuIdle) else d, Handled)
    case Abort => (d.(state := DfuIdle), Handled)
    case Upload(block, length) =>
      if d.state.DfuIdle? || d.state.DnloadIdle? || d.state.UploadIdle? then
        var e := d.(blocknum := block, state := UploadIdle);
        (e, if block > 1 then Uploaded(ReadBack(p, e.flash, BlockAddress(e.addr, block), length)) else Handled)
      else (d, NotSupported)
    case GetStatus =>
      var e := d.(pending := true);
      (match d.state
       case DnloadSync => (e.(state := DnBusy), StatusReport(StatusOk, 100, DnBusy))
       case ManifestSync => (e.(state := Manifest), StatusReport(StatusOk, 0, Manifest))
       case DfuError => (e, StatusReport(d.error, 0, d.state))
       case _ => (e, StatusReport(StatusOk, 0, d.state)))
    case GetState => (d, StateReport(d.state))
  }

  /** dfu_check_and_do_sector_erase: a page that was the last one erased is taken to be still empty. */
  function SectorErase(p: Part, d: Device, sector: nat): Device
    requires p.pageSize != 0
  {
    var page := PageOf(p, sector);
    if page != d.lastErased then d.(flash := ErasePage(p, d.flash, page), lastErased := page) else d
  }

  /** usbdfu_getstatus_complete */
  function Complete(p: Part, d: Device): Device
    requires ValidDevice(d) && p.pageSize != 0
  {
    match d.state
    case DnBusy =>
      var e :=
        if d.blocknum == 0 then
          if d.buf[0] == CMD_ERASE then SectorErase(p, d, LittleEndian32(d.buf[1..5])) else d
        else d.(flash := Programmed(p, d.flash, BlockAddress(d.addr, d.blocknum), d.buf, d.len));
      e.(state := DnloadIdle, pending := false)
    case Manifest => d.(detached := true, pending := false)
    case _ => d.(pending := false)
  }

  // ---------- every run of requests and completions ----------

  datatype Event = Req(r: Request) | Completed

  ghost predicate ValidEvent(e: Event) {
    e.Req? && e.r.Dnload? ==> |e.r.data| <= TRANSFER_SIZE
  }

  /** The USB stack calls the completion only for a pending GETSTATUS; nothing happens after a detach. */
  ghost function Next(p: Part, d: Device, e: Event): Option<Device>
    requires ValidDevice(d) && ValidEvent(e) && p.pageSize != 0
  {
    if d.detached then None
    else
      match e
      case Req(r) => Some(Control(p, d, r).0)
      case Completed => if d.pending then Some(Complete(p, d)) else None
  }

  ghost predicate AllValid(events: seq<Event>) {
    forall i :: 0 <= i < |events| ==> ValidEvent(events[i])
  }

  /** The devices of a run, one per event; None when an event is not enabled. */
  ghost function RunDevice(p: Part, d: Device, events: seq<Event>): (r: Option<Device>)
    requires ValidDevice(d) && AllValid(events) && p.pageSize != 0
    ensures r.Some? ==> ValidDevice(r.value)
    decreases |events|
  {
    if events == [] then Some(d)
    else
      match Next(p, d, events[0])
      case None => None
      case Some(e) => RunDevice(p, e, events[1..])
  }

  /** How often flash changes during a run. */
  ghost function FlashChanges(p: Part, d: Device, events: seq<Event>): nat
    requires ValidDevice(d) && AllValid(events) && p.pageSize != 0
    decreases |events|
  {
    if events == [] then 0
    else
      match Next(p, d, events[0])
      case None => 0
      case Some(e) => One(e.flash != d.flash) + FlashChanges(p, e, events[1..])
  }

  /** How many non-empty DNLOAD requests a run has. */
  ghost function Downloads(events: seq<Event>): nat {
    if events == [] then 0
    else One(IsDownload(events[0])) + Downloads(events[1..])
  }

  /** A DNLOAD has been taken in and its work is still to be done. */
  ghost predicate WorkDue(d: Device) {
    d.state.DnloadSync? || d.state.DnBusy?
  }

  /** Flash changes only when a GETSTATUS completes while the device is busy with a download. */
  lemma OnlyCompletionChangesFlash(p: Part, d: Device, e: Event)
    requires ValidDevice(d) && ValidEvent(e) && p.pageSize != 0 && Next(p, d, e).Some?
    ensures Next(p, d, e).value.flash != d.flash ==> e.Completed? && d.pending && d.state.DnBusy?
    ensures Next(p, d, e).value.state.DnBusy? && !d.state.DnBusy? ==> e == Req(GetStatus) && d.state.DnloadSync?
  {
  }

  function One(b: bool): nat {
    if b then 1 else 0
  }

  ghost predicate IsDownload(e: Event) {
    e.Req? && e.r.Dnload? && e.r.data != []
  }

  lemma StepAccount(p: Part, d: Device, e: Event)
    requires ValidDevice(d) && ValidEvent(e) && p.pageSize != 0 && Next(p, d, e).Some?
    ensures var t := Next(p, d, e).value;
            ValidDevice(t) && One(t.flash != d.flash) + One(WorkDue(t)) <= One(IsDownload(e)) + One(WorkDue(d))
  {
    OnlyCompletionChangesFlash(p, d, e);
  }

  /** In every run each flash change has a non-empty DNLOAD of its own. */
  lemma {:induction false} OneChangePerDownload(p: Part, d: Device, events: seq<Event>)
    requires ValidDevice(d) && AllValid(events) && p.pageSize != 0 && RunDevice(p, d, events).Some?
    ensures FlashChanges(p, d, events) + One(WorkDue(RunDevice(p, d, events).value)) <= Downloads(events) + One(WorkDue(d))
    decreases |events|
  {
    if events == [] {
    } else {
      StepAccount(p, d, events[0]);
      OneChangePerDownload(p, Next(p, d, events[0]).value, events[1..]);
    }
  }

  // ---------- whole control transfers ----------

  /** A request whose transfer runs to completion. */
  ghost function Transfer(p: Part, d: Device, r: Request): Device
    requires ValidDevice(d) && (r.Dnload? ==> |r.data| <= TRANSFER_SIZE) && p.pageSize != 0
  {
    var e := Control(p, d, r).0;
    if r.GetStatus? then Complete(p, e) else e
  }

  // ---------- a download session ----------

  /** A DNLOAD followed by the GETSTATUS that carries it out. */
  ghost function Download(p: Part, d: Device, wValue: uint16, data: seq<uint8>): (e: Device)
    requires ValidDevice(d) && 1 <= |data| <= TRANSFER_SIZE && p.pageSize != 0
    ensures ValidDevice(e) && e.detached == d.detached
  {
    Transfer(p, Transfer(p, d, Dnload(wValue, data)), GetStatus)
  }

  function Bytes32(x: nat): (b: seq<uint8>)
    requires x < TWO_TO_THE_32
    ensures |b| == 4
  {
    [x % 256, x / 256 % 256, x / 65536 % 256, x / 16777216]
  }

  lemma Bytes32RoundTrip(x: nat)
    requires x < TWO_TO_THE_32
    ensures LittleEndian32(Bytes32(x)) == x
  {
    var y := x / 256;
    var z := y / 256;
    assert x / 65536 == z && x / 16777216 == z / 256;
    assert x == x % 256 + 256 * y && y == y % 256 + 256 * z && z == z % 256 + 256 * (z / 256);
  }

  function SetAddressCommand(x: nat): (b: seq<uint8>)
    requires x < TWO_TO_THE_32
    ensures |b| == 5
  {
    [CMD_SETADDR] + Bytes32(x)
  }

  function EraseCommand(x: nat): (b: seq<uint8>)
    requires x < TWO_TO_THE_32
    ensures |b| == 5
  {
    [CMD_ERASE] + Bytes32(x)
  }

  lemma CommandArgument(buf: seq<uint8>, command: seq<uint8>, x: nat)
    requires |buf| == TRANSFER_SIZE && x < TWO_TO_THE_32
    requires |command| == 5 && command[1..] == Bytes32(x)
    ensures LittleEndian32(Stored(buf, command)[1..5]) == x && Stored(buf, command)[0] == command[0]
  {
    Bytes32RoundTrip(x);
    assert Stored(buf, command)[1..5] == command[1..];
  }

  lemma SetAddress(p: Part, d: Device, x: nat)
    requires ValidDevice(d) && p.pageSize != 0 && x < TWO_TO_THE_32 && p.appAddress <= x < p.maxAddress
    ensures var e := Download(p, d, 0, SetAddressCommand(x));
            e.addr == x && e.flash == d.flash && e.lastErased == d.lastErased && e.state == DnloadIdle
  {
    CommandArgument(d.buf, SetAddressCommand(x), x);
  }

  lemma EraseSector(p: Part, d: Device, x: nat)
    requires ValidDevice(d) && p.pageSize != 0 && x < TWO_TO_THE_32
    ensures var e := Download(p, d, 0, EraseCommand(x));
            && e.addr == d.addr && e.lastErased == PageOf(p, x) && e.state == DnloadIdle
            && e.flash == if PageOf(p, x) == d.lastErased then d.flash else ErasePage(p, d.flash, PageOf(p, x))
  {
    CommandArgument(d.buf, EraseCommand(x), x);
  }

  lemma DownloadBlock(p: Part, d: Device, k: uint16, data: seq<uint8>)
    requires ValidDevice(d) && p.pageSize != 0 && k != 0 && 1 <= |data| <= TRANSFER_SIZE
    ensures var e := Download(p, d, k, data);
            && e.addr == d.addr && e.lastErased == d.lastErased && e.state == DnloadIdle
            && e.flash == Programmed(p, d.flash, BlockAddress(d.addr, k), Stored(d.buf, data), |data|)
  {
  }

  /** The erase command leaves the page empty exactly when it is not the page erased last, or that page is still empty. */
  lemma EraseEmptiesPage(p: Part, d: Device, x: nat)
    requires ValidDevice(d) && p.pageSize != 0 && x < TWO_TO_THE_32
    ensures var e := Download(p, d, 0, EraseCommand(x));
            Empty(p, e.flash, PageOf(p, x), p.pageSize) <==>
            PageOf(p, x) != d.lastErased || Empty(p, d.flash, PageOf(p, x), p.pageSize)
  {
    EraseSector(p, d, x);
  }

  /** All flash bytes of an address range read as erased. */
  ghost predicate Empty(p: Part, flash: seq<uint8>, address: nat, n: nat) {
    forall i :: 0 <= i < |flash| && address <= p.flashBase + i < address + n ==> flash[i] == 0xFF
  }
}
