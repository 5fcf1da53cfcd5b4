/**
 A whole firmware update over DFU: set the address, erase the pages, download the blocks, and read
 them back with UPLOAD. Every request is followed by a GETSTATUS that runs to completion.
 */
module DfuSession {
  import opened Machine
  import opened Runs
  import opened Dfu

  /** One DNLOAD of a session, to be followed by GETSTATUS. */
  datatype Command = Command(wValue: uint16, data: seq<uint8>)

  ghost predicate ValidCommands(cs: seq<Command>) {
    forall i :: 0 <= i < |cs| ==> 1 <= |cs[i].data| <= TRANSFER_SIZE
  }

  /** The bus events of a session. */
  ghost function Events(cs: seq<Command>): (events: seq<Event>)
    requires ValidCommands(cs)
    ensures AllValid(events)
  {
    if cs == [] then []
    else [Req(Dnload(cs[0].wValue, cs[0].data)), Req(GetStatus), Completed] + Events(cs[1..])
  }

  /** The device after the downloads of a session, one after the other. */
  ghost function DownloadAll(p: Part, d: Device, cs: seq<Command>): (e: Device)
    requires ValidDevice(d) && ValidCommands(cs) && p.pageSize != 0
    ensures ValidDevice(e)
    decreases |cs|
  {
    if cs == [] then d
    else DownloadAll(p, Download(p, d, cs[0].wValue, cs[0].data), cs[1..])
  }

  /** The three bus events of one download are enabled on any device that has not left for the application. */
  lemma DownloadRuns(p: Part, d: Device, c: Command, rest: seq<Event>)
    requires ValidDevice(d) && p.pageSize != 0 && !d.detached && 1 <= |c.data| <= TRANSFER_SIZE && AllValid(rest)
    ensures !Download(p, d, c.wValue, c.data).detached
    ensures RunDevice(p, d, [Req(Dnload(c.wValue, c.data)), Req(GetStatus), Completed] + rest)
         == RunDevice(p, Download(p, d, c.wValue, c.data), rest)
  {
    var three := [Req(Dnload(c.wValue, c.data)), Req(GetStatus), Completed];
    var d1 := Control(p, d, Dnload(c.wValue, c.data)).0;
    var d2 := Control(p, d1, GetStatus).0;
    var one := three + rest;
    var two := [Req(GetStatus), Completed] + rest;
    assert one[1..] == two && two[1..] == [Completed] + rest && ([Completed] + rest)[1..] == rest;
    RunOnce(p, d, one, d1);
    RunOnce(p, d1, two, d2);
    RunOnce(p, d2, [Completed] + rest, Complete(p, d2));
  }

  lemma RunOnce(p: Part, d: Device, events: seq<Event>, e: Device)
    requires ValidDevice(d) && p.pageSize != 0 && events != [] && AllValid(events)
    requires Next(p, d, events[0]) == Some(e)
    ensures ValidDevice(e) && RunDevice(p, d, events) == RunDevice(p, e, events[1..])
  {
  }

  /** The bus run of a session ends in the state of its downloads. */
  lemma {:induction false} SessionRuns(p: Part, d: Device, cs: seq<Command>)
    requires ValidDevice(d) && p.pageSize != 0 && !d.detached && ValidCommands(cs)
    ensures RunDevice(p, d, Events(cs)) == Some(DownloadAll(p, d, cs))
    decreases |cs|
  {
    if cs == [] {
    } else {
      DownloadRuns(p, d, cs[0], Events(cs[1..]));
      SessionRuns(p, Download(p, d, cs[0].wValue, cs[0].data), cs[1..]);
    }
  }

  lemma {:induction false} DownloadAllConcat(p: Part, d: Device, cs: seq<Command>, ds: seq<Command>)
    requires ValidDevice(d) && p.pageSize != 0 && ValidCommands(cs) && ValidCommands(ds)
    ensures DownloadAll(p, d, cs + ds) == DownloadAll(p, DownloadAll(p, d, cs), ds)
    decreases |cs|
  {
    if cs == [] {
      assert cs + ds == ds;
    } else {
      assert (cs + ds)[1..] == cs[1..] + ds;
      DownloadAllConcat(p, Download(p, d, cs[0].wValue, cs[0].data), cs[1..], ds);
    }
  }

  lemma DownloadOneMore(p: Part, d: Device, cs: seq<Command>, n: nat, wValue: uint16, data: seq<uint8>)
    requires ValidDevice(d) && p.pageSize != 0 && ValidCommands(cs) && n < |cs| && cs[n] == Command(wValue, data)
    ensures var e := DownloadAll(p, d, cs[..n]); DownloadAll(p, d, cs[..n + 1]) == Download(p, e, wValue, data)
  {
    assert cs[..n + 1] == cs[..n] + [cs[n]];
    DownloadAllConcat(p, d, cs[..n], [cs[n]]);
    var e := DownloadAll(p, d, cs[..n]);
    assert [cs[n]][1..] == [];
    assert DownloadAll(p, Download(p, e, cs[n].wValue, cs[n].data), []) == Download(p, e, cs[n].wValue, cs[n].data);
  }

  ghost predicate Erased(flash: seq<uint8>, lo: int, hi: int) {
    forall i :: 0 <= i < |flash| && lo <= i < hi ==> flash[i] == 0xFF
  }

  /** The length the half-word loop covers: an odd length takes one byte more. */
  function RoundUp2(n: nat): (r: nat)
    ensures r % 2 == 0 && n <= r <= n + 1
  {
    n + n % 2
  }

  /** Programming an erased area stores the buffer, and one stale byte after it when the length is odd. */
  lemma ProgramFillsErased(p: Part, flash: seq<uint8>, address: nat, buf: seq<uint8>, len: nat, i: nat)
    requires len <= |buf| && |buf| % 2 == 0 && i < |flash|
    requires p.flashBase <= address && address + RoundUp2(len) <= p.flashBase + |flash| <= TWO_TO_THE_32
    requires Erased(flash, address - p.flashBase, address - p.flashBase + RoundUp2(len))
    ensures var at := p.flashBase + i - address;
            Programmed(p, flash, address, buf, len)[i] == if 0 <= at < RoundUp2(len) then buf[at] else flash[i]
  {
    var at := SubU32(p.flashBase + i, address);
    var word := at - at % 2;
    assert at == if p.flashBase + i < address then p.flashBase + i - address + TWO_TO_THE_32 else p.flashBase + i - address;
    WordInside(at, len);
    if word < len {
      assert p.flashBase + i >= address;
      assert flash[i - at % 2] == 0xFF && flash[i - at % 2 + 1] == 0xFF;
      assert Writable(flash, i - at % 2, buf[word], buf[word + 1]);
      assert Programmed(p, flash, address, buf, len)[i] == buf[at];
    } else {
      assert Programmed(p, flash, address, buf, len)[i] == flash[i];
    }
  }

  lemma WordInside(at: nat, len: nat)
    ensures at - at % 2 < len <==> at < RoundUp2(len)
    ensures at - at % 2 < len ==> at - at % 2 + 1 < RoundUp2(len)
  {
    var half, halves := at / 2, (len + 1) / 2;
    assert at == 2 * half + at % 2 && RoundUp2(len) == 2 * halves;
    assert len == 2 * halves || len == 2 * halves - 1;
    if half < halves {
      assert half + 1 <= halves;
    }
  }

  // ---------- the session ----------

  /** Where the `j`-th page after `base` starts. */
  function PageStart(p: Part, base: nat, j: nat): (start: nat) {
    if j == 0 then base else PageStart(p, base, j - 1) + p.pageSize
  }

  /** Flash erased from `base` up to `end`, with `image` stored at the start of that area. */
  function Flashed(p: Part, flash: seq<uint8>, base: nat, end: nat, image: seq<uint8>): (after: seq<uint8>)
    ensures |after| == |flash|
  {
    seq(|flash|, i requires 0 <= i < |flash| =>
      var address := p.flashBase + i;
      if base <= address < base + |image| then image[address - base]
      else if base <= address < end then 0xFF
      else flash[i])
  }

  function Blocks(n: nat): nat {
    (n + TRANSFER_SIZE - 1) / TRANSFER_SIZE
  }

  /** Where block `k` of an image of `n` bytes ends. */
  function BlockEnd(n: nat, k: nat): nat {
    Min((k + 1) * TRANSFER_SIZE, n)
  }

  function Block(image: seq<uint8>, k: nat): (b: seq<uint8>)
    requires k < Blocks(|image|)
    ensures 1 <= |b| <= TRANSFER_SIZE
  {
    image[k * TRANSFER_SIZE..BlockEnd(|image|, k)]
  }

  /** The part, the area and the image go together: the area is inside flash and holds the image. */
  ghost predicate Fits(p: Part, flash: seq<uint8>, base: nat, end: nat, image: seq<uint8>) {
    && p.flashBase <= base && base + |image| <= end <= p.flashBase + |flash| <= TWO_TO_THE_32
    && |image| % 2 == 0
    && Blocks(|image|) + 2 <= 65536
  }

  lemma {:induction false} PageStartBounds(p: Part, base: nat, i: nat, j: nat)
    requires i <= j
    ensures base <= PageStart(p, base, i) <= PageStart(p, base, j)
    ensures i < j ==> PageStart(p, base, i) + p.pageSize <= PageStart(p, base, j)
    decreases j
  {
    if j == 0 {
    } else if i == j {
      PageStartBounds(p, base, 0, j - 1);
    } else {
      PageStartBounds(p, base, i, j - 1);
    }
  }

  lemma {:induction false} PageStartAligned(p: Part, base: nat, j: nat)
    requires ValidPart(p) && base % p.pageSize == 0
    ensures PageOf(p, PageStart(p, base, j)) == PageStart(p, base, j) != NO_PAGE
    decreases j
  {
    if j > 0 {
      PageStartAligned(p, base, j - 1);
    }
    if p.pageSize == 1024 {
    } else {
    }
  }

  function EraseCommands(p: Part, base: nat, pages: nat): (cs: seq<Command>)
    requires PageStart(p, base, pages) <= TWO_TO_THE_32 && p.pageSize != 0
    ensures |cs| == pages
  {
    seq(pages, j requires 0 <= j < pages =>
      PageStartBounds(p, base, j, pages); Command(0, EraseCommand(PageStart(p, base, j))))
  }

  function BlockCommands(image: seq<uint8>): (cs: seq<Command>)
    requires Blocks(|image|) + 2 <= 65536
    ensures |cs| == Blocks(|image|)
  {
    seq(Blocks(|image|), k requires 0 <= k < Blocks(|image|) => Command(k + 2, Block(image, k)))
  }

  function Session(p: Part, base: nat, pages: nat, image: seq<uint8>): seq<Command>
    requires PageStart(p, base, pages) <= TWO_TO_THE_32 && p.pageSize != 0 && base < TWO_TO_THE_32
    requires Blocks(|image|) + 2 <= 65536
  {
    [Command(0, SetAddressCommand(base))] + EraseCommands(p, base, pages) + BlockCommands(image)
  }

  // ---------- the pages ----------

  /** Erasing the page at the end of the erased area. */
  lemma ErasesNext(p: Part, d: Device, flash: seq<uint8>, base: nat, page: nat)
    requires ValidDevice(d) && p.pageSize != 0 && PageOf(p, page) == page && base <= page < TWO_TO_THE_32
    requires d.flash == Flashed(p, flash, base, page, []) && d.lastErased != page
    ensures var e := Download(p, d, 0, EraseCommand(page));
            && e.flash == Flashed(p, flash, base, page + p.pageSize, []) && e.lastErased == page
            && e.addr == d.addr && e.state == DnloadIdle
  {
    EraseSector(p, d, page);
    assert ErasePage(p, d.flash, page) == Flashed(p, flash, base, page + p.pageSize, []);
  }

  /** What the erase commands up to `end` leave. */
  ghost predicate ErasedUpTo(p: Part, d: Device, base: nat, end: nat, lastErased: nat, e: Device) {
    && ValidDevice(e) && e.addr == d.addr && e.state == d.state && e.lastErased == lastErased
    && e.flash == Flashed(p, d.flash, base, end, [])
  }

  lemma ErasesOneMore(p: Part, d: Device, base: nat, page: nat, lastErased: nat, e: Device, data: seq<uint8>, end: nat, next: Device)
    requires p.pageSize != 0 && PageOf(p, page) == page && base <= page < TWO_TO_THE_32 && d.state == DnloadIdle
    requires ErasedUpTo(p, d, base, page, lastErased, e) && lastErased != page && data == EraseCommand(page)
    requires end == page + p.pageSize && next == Download(p, e, 0, data)
    ensures ErasedUpTo(p, d, base, end, page, next)
  {
    ErasesNext(p, e, d.flash, base, page);
  }

  function LastErased(p: Part, base: nat, n: nat): nat {
    if n == 0 then NO_PAGE else PageStart(p, base, n - 1)
  }

  /** The `n`-th command erases the page behind the ones before it, and this page was not the last one erased. */
  lemma NextPage(p: Part, base: nat, n: nat, page: nat, before: nat, c: Command)
    requires ValidPart(p) && base % p.pageSize == 0 && n >= 1 && ErasesPage(p, base, n - 1, c)
    requires page == PageStart(p, base, n - 1) && before == LastErased(p, base, n - 1)
    ensures PageOf(p, page) == page && base <= page < TWO_TO_THE_32 && before != page
    ensures PageStart(p, base, n) == page + p.pageSize && c == Command(0, EraseCommand(page))
  {
    PageStartBounds(p, base, 0, n - 1);
    PageStartAligned(p, base, n - 1);
  }

  /** After `n` commands that erase one page after the other exactly the first `n` pages are empty. */
  lemma {:induction false} PagesErased(p: Part, d: Device, base: nat, cs: seq<Command>, n: nat, end: nat, lastErased: nat, e: Device)
    requires ValidDevice(d) && ValidPart(p) && base % p.pageSize == 0 && ValidCommands(cs) && n <= |cs|
    requires forall j {:trigger cs[j]} :: 0 <= j < n ==> ErasesPage(p, base, j, cs[j])
    requires d.lastErased == NO_PAGE && d.state == DnloadIdle
    requires end == PageStart(p, base, n) && lastErased == LastErased(p, base, n)
    requires e == DownloadAll(p, d, cs[..n])
    ensures ErasedUpTo(p, d, base, end, lastErased, e)
    decreases n
  {
    if n == 0 {
      assert cs[..0] == [];
      NoPageErased(p, d, base);
    } else {
      var page, before := PageStart(p, base, n - 1), LastErased(p, base, n - 1);
      var e0 := DownloadAll(p, d, cs[..n - 1]);
      PagesErased(p, d, base, cs, n - 1, page, before, e0);
      PageErased(p, d, base, cs, n, page, before, e0, end, e);
    }
  }

  lemma NoPageErased(p: Part, d: Device, base: nat)
    requires ValidDevice(d)
    ensures ErasedUpTo(p, d, base, base, d.lastErased, d)
  {
    assert Flashed(p, d.flash, base, base, []) == d.flash;
  }

  lemma PageErased(p: Part, d: Device, base: nat, cs: seq<Command>, n: nat, page: nat, before: nat, e0: Device, end: nat, e: Device)
    requires ValidDevice(d) && ValidPart(p) && base % p.pageSize == 0 && ValidCommands(cs) && 1 <= n <= |cs|
    requires ErasesPage(p, base, n - 1, cs[n - 1]) && d.state == DnloadIdle
    requires page == PageStart(p, base, n - 1) && before == LastErased(p, base, n - 1) && end == PageStart(p, base, n)
    requires e0 == DownloadAll(p, d, cs[..n - 1]) && e == DownloadAll(p, d, cs[..n])
    requires ErasedUpTo(p, d, base, page, before, e0)
    ensures ErasedUpTo(p, d, base, end, page, e)
  {
    var data := EraseCommand(page);
    NextPage(p, base, n, page, before, cs[n - 1]);
    DownloadOneMore(p, d, cs, n - 1, 0, data);
    ErasesOneMore(p, d, base, page, before, e0, data, end, e);
  }

  /** `c` is the command to erase the `j`-th page. */
  ghost predicate ErasesPage(p: Part, base: nat, j: nat, c: Command) {
    PageStart(p, base, j) < TWO_TO_THE_32 && c == Command(0, EraseCommand(PageStart(p, base, j)))
  }

  lemma ErasesAreValid(p: Part, base: nat, pages: nat)
    requires PageStart(p, base, pages) <= TWO_TO_THE_32 && p.pageSize != 0
    ensures ValidCommands(EraseCommands(p, base, pages))
    ensures forall j :: 0 <= j < pages ==> ErasesPage(p, base, j, EraseCommands(p, base, pages)[j])
  {
    forall j | 0 <= j < pages
      ensures PageStart(p, base, j) < TWO_TO_THE_32
    {
      PageStartBounds(p, base, j, pages);
    }
  }

  // ---------- one half-word ----------

  /** Programming stores a half-word exactly where flash is erased or zero is written, and never sets a bit that is not. */
  lemma HalfWordRule(flash: seq<uint8>, at: nat, lo: uint8, hi: uint8)
    requires at + 1 < |flash|
    ensures var after := ProgramHalfWord(flash, at, lo, hi);
            && ((flash[at] == 0xFF && flash[at + 1] == 0xFF) || (lo == 0 && hi == 0) ==> after[at] == lo && after[at + 1] == hi)
            && (forall i :: 0 <= i < |flash| && after[i] != flash[i] ==> (i == at || i == at + 1) && (flash[i] == 0xFF || after[i] == 0))
            && (after != flash ==> (flash[at] == 0xFF && flash[at + 1] == 0xFF) || (lo == 0 && hi == 0))
  {
  }

  // ---------- the blocks ----------

  lemma BlockBounds(n: nat, k: nat)
    requires k < Blocks(n)
    ensures k * TRANSFER_SIZE < BlockEnd(n, k) <= n
    ensures n % 2 == 0 ==> (BlockEnd(n, k) - k * TRANSFER_SIZE) % 2 == 0
  {
    BlockStarts(n, k);
    if n % 2 == 0 {
      EvenBlock(n, k, k * TRANSFER_SIZE, BlockEnd(n, k));
    }
  }

  lemma BlockStarts(n: nat, k: nat)
    requires k < Blocks(n)
    ensures k * TRANSFER_SIZE < n
  {
  }

  lemma EvenBlock(n: nat, k: nat, lo: nat, hi: nat)
    requires n % 2 == 0 && lo == k * TRANSFER_SIZE && (hi == lo + TRANSFER_SIZE || hi == n)
    ensures (hi - lo) % 2 == 0
  {
    var half: nat := 512 * k;
    assert lo == 2 * half;
    EvenDifference(if hi == n then n / 2 else half + 512, half);
  }

  lemma EvenDifference(x: int, y: int)
    ensures (2 * x - 2 * y) % 2 == 0
  {
  }

  lemma BlockAt(base: nat, k: nat)
    requires base + k * TRANSFER_SIZE < TWO_TO_THE_32
    ensures BlockAddress(base, k + 2) == base + k * TRANSFER_SIZE
  {
  }

  /** Programming bytes `lo..hi` of the image behind the ones before them. */
  lemma ProgramExtends(p: Part, flash: seq<uint8>, base: nat, end: nat, image: seq<uint8>, lo: nat, hi: nat, buf: seq<uint8>)
    requires lo <= hi <= |image| && (hi - lo) % 2 == 0 && |buf| % 2 == 0 && image[lo..hi] <= buf
    requires Fits(p, flash, base, end, image)
    ensures Programmed(p, Flashed(p, flash, base, end, image[..lo]), base + lo, buf, hi - lo)
         == Flashed(p, flash, base, end, image[..hi])
  {
    var before, after := Flashed(p, flash, base, end, image[..lo]), Flashed(p, flash, base, end, image[..hi]);
    assert RoundUp2(hi - lo) == hi - lo;
    assert Erased(before, base + lo - p.flashBase, base + hi - p.flashBase);
    forall i | 0 <= i < |flash|
      ensures Programmed(p, before, base + lo, buf, hi - lo)[i] == after[i]
    {
      ProgramFillsErased(p, before, base + lo, buf, hi - lo, i);
      var at := p.flashBase + i - base - lo;
      if 0 <= at < hi - lo {
        assert buf[at] == image[lo..hi][at];
      }
    }
  }

  /** What `n` blocks leave. */
  ghost predicate WrittenSoFar(p: Part, flash: seq<uint8>, base: nat, end: nat, image: seq<uint8>, n: nat, e: Device) {
    && ValidDevice(e) && e.addr == base && e.state == DnloadIdle
    && e.flash == Flashed(p, flash, base, end, image[..Min(n * TRANSFER_SIZE, |image|)])
  }

  lemma WritesOneMore(p: Part, d: Device, flash: seq<uint8>, base: nat, end: nat, image: seq<uint8>, k: nat)
    requires Fits(p, flash, base, end, image) && p.pageSize != 0 && k < Blocks(|image|)
    requires WrittenSoFar(p, flash, base, end, image, k, d)
    ensures WrittenSoFar(p, flash, base, end, image, k + 1, Download(p, d, k + 2, Block(image, k)))
  {
    BlockBounds(|image|, k);
    BlockAt(base, k);
    DownloadBlock(p, d, k + 2, Block(image, k));
    ProgramExtends(p, flash, base, end, image, k * TRANSFER_SIZE, BlockEnd(|image|, k), Stored(d.buf, Block(image, k)));
  }

  /** After `n` blocks the image's first `n` blocks are in flash. */
  lemma {:induction false} BlocksWritten(p: Part, d: Device, flash: seq<uint8>, base: nat, end: nat, image: seq<uint8>, n: nat)
    requires Fits(p, flash, base, end, image) && p.pageSize != 0 && n <= Blocks(|image|)
    requires WrittenSoFar(p, flash, base, end, image, 0, d)
    ensures ValidCommands(BlockCommands(image))
    ensures WrittenSoFar(p, flash, base, end, image, n, DownloadAll(p, d, BlockCommands(image)[..n]))
    decreases n
  {
    var cs := BlockCommands(image);
    if n == 0 {
      assert cs[..0] == [];
    } else {
      BlocksWritten(p, d, flash, base, end, image, n - 1);
      DownloadOneMore(p, d, cs, n - 1, n + 1, Block(image, n - 1));
      WritesOneMore(p, DownloadAll(p, d, cs[..n - 1]), flash, base, end, image, n - 1);
    }
  }

  lemma OneDownload(p: Part, d: Device, d1: Device, c: Command)
    requires ValidDevice(d) && p.pageSize != 0
    requires 1 <= |c.data| <= TRANSFER_SIZE && d1 == Download(p, d, c.wValue, c.data)
    ensures DownloadAll(p, d, [c]) == d1
  {
    assert [c][1..] == [];
  }

  /** A session reaches the device in three groups. */
  lemma ThreeGroups(p: Part, d: Device, first: seq<Command>, erases: seq<Command>, blocks: seq<Command>)
    requires ValidDevice(d) && p.pageSize != 0
    requires ValidCommands(first) && ValidCommands(erases) && ValidCommands(blocks)
    ensures ValidCommands(first + erases + blocks)
    ensures DownloadAll(p, d, first + erases + blocks) == DownloadAll(p, DownloadAll(p, DownloadAll(p, d, first), erases), blocks)
  {
    DownloadAllConcat(p, d, first, erases);
    DownloadAllConcat(p, d, first + erases, blocks);
  }

  /** The second group empties the area. */
  lemma ErasesArea(p: Part, d: Device, base: nat, pages: nat, end: nat, e: Device)
    requires ValidDevice(d) && ValidPart(p) && base % p.pageSize == 0
    requires end == PageStart(p, base, pages) <= TWO_TO_THE_32 && d.lastErased == NO_PAGE && d.state == DnloadIdle
    requires ValidCommands(EraseCommands(p, base, pages)) && e == DownloadAll(p, d, EraseCommands(p, base, pages))
    ensures ValidDevice(e) && e.flash == Flashed(p, d.flash, base, end, []) && e.addr == d.addr && e.state == DnloadIdle
  {
    var erases := EraseCommands(p, base, pages);
    ErasesAreValid(p, base, pages);
    assert erases[..pages] == erases;
    PagesErased(p, d, base, erases, pages, end, LastErased(p, base, pages), e);
  }

  /** The third group fills it. */
  lemma WritesImage(p: Part, d: Device, flash: seq<uint8>, base: nat, end: nat, image: seq<uint8>, e: Device)
    requires Fits(p, flash, base, end, image) && p.pageSize != 0
    requires ValidDevice(d) && d.flash == Flashed(p, flash, base, end, []) && d.addr == base && d.state == DnloadIdle
    requires ValidCommands(BlockCommands(image)) && e == DownloadAll(p, d, BlockCommands(image))
    ensures e.flash == Flashed(p, flash, base, end, image) && e.addr == base && e.state == DnloadIdle
  {
    var blocks := BlockCommands(image);
    assert image[..0] == [] && image[..|image|] == image && blocks[..|blocks|] == blocks;
    BlocksWritten(p, d, flash, base, end, image, |blocks|);
  }

  /**
   A firmware update from a fresh boot: the image is in flash, the rest of its pages is empty,
   everything else is as it was, and the device stands ready for more.
   */
  lemma SessionStoresImage(p: Part, d: Device, base: nat, pages: nat, image: seq<uint8>)
    requires ValidDevice(d) && !d.detached && d.lastErased == NO_PAGE
    requires ValidPart(p) && base % p.pageSize == 0 && p.appAddress <= base < p.maxAddress && base < TWO_TO_THE_32
    requires Fits(p, d.flash, base, PageStart(p, base, pages), image)
    ensures ValidCommands(Session(p, base, pages, image))
    ensures RunDevice(p, d, Events(Session(p, base, pages, image))).Some?
    ensures var e := RunDevice(p, d, Events(Session(p, base, pages, image))).value;
            e.flash == Flashed(p, d.flash, base, PageStart(p, base, pages), image) && e.addr == base && e.state == DnloadIdle
  {
    var erases, blocks, end := EraseCommands(p, base, pages), BlockCommands(image), PageStart(p, base, pages);
    var d1 := Download(p, d, 0, SetAddressCommand(base));
    SetAddress(p, d, base);
    ErasesAreValid(p, base, pages);
    var d2 := DownloadAll(p, d1, erases);
    ErasesArea(p, d1, base, pages, end, d2);
    WritesImage(p, d2, d.flash, base, end, image, DownloadAll(p, d2, blocks));
    OneDownload(p, d, d1, Command(0, SetAddressCommand(base)));
    ThreeGroups(p, d, [Command(0, SetAddressCommand(base))], erases, blocks);
    SessionRuns(p, d, Session(p, base, pages, image));
  }

  /** UPLOAD of the block numbers of a session returns the blocks of the image. */
  lemma UploadReturnsImage(p: Part, d: Device, flash: seq<uint8>, base: nat, end: nat, image: seq<uint8>, k: nat)
    requires ValidDevice(d) && Fits(p, flash, base, end, image) && k < Blocks(|image|)
    requires d.flash == Flashed(p, flash, base, end, image) && d.addr == base && (d.state.DnloadIdle? || d.state.UploadIdle?)
    ensures var (e, response) := Control(p, d, Upload(k + 2, |Block(image, k)|));
            response == Uploaded(Block(image, k)) && e.flash == d.flash && e.addr == base && e.state == UploadIdle
  {
    var lo, hi := k * TRANSFER_SIZE, BlockEnd(|image|, k);
    BlockBounds(|image|, k);
    BlockAt(base, k);
    ReadBackImage(p, flash, base, end, image, lo, hi);
    UploadIs(p, d, k + 2, hi - lo, base + lo);
  }

  lemma UploadIs(p: Part, d: Device, block: uint16, length: nat, at: nat)
    requires ValidDevice(d) && (d.state.DnloadIdle? || d.state.UploadIdle?) && block > 1 && BlockAddress(d.addr, block) == at
    ensures var (e, response) := Control(p, d, Upload(block, length));
            response == Uploaded(ReadBack(p, d.flash, at, length)) && e.flash == d.flash && e.addr == d.addr && e.state == UploadIdle
  {
  }

  lemma ReadBackImage(p: Part, flash: seq<uint8>, base: nat, end: nat, image: seq<uint8>, lo: nat, hi: nat)
    requires Fits(p, flash, base, end, image) && lo <= hi <= |image|
    ensures ReadBack(p, Flashed(p, flash, base, end, image), base + lo, hi - lo) == image[lo..hi]
  {
  }
}
