/**
 The settings EEPROM on its I2C bus. `bus` says which transfers succeed, numbered from power-up; a
 write transfer stays inside one page of eight bytes.
 */
module Eeprom {
  import opened Machine

  const SIZE: nat := 256
  const PAGE: nat := 8
  const LAST_ADDR: nat := 0xFA
  const MAX_WRITE_SIZE: nat := 8
  const WR_ATTEMPTS: nat := 100

  type Bus = nat -> bool

  // ---------- bytes ----------

  /** Where a byte at address `i` of the page stands in a transfer that starts at `at`: the counter rolls over. */
  function PagePlace(i: nat, at: nat): nat {
    (i % PAGE + PAGE - at % PAGE) % PAGE
  }

  predicate SamePage(i: nat, at: nat) {
    i / PAGE == at / PAGE
  }

  /** A write transfer. */
  function PageWrite(mem: seq<byte>, at: nat, bytes: seq<byte>): (after: seq<byte>)
    requires |bytes| <= PAGE
    ensures |after| == |mem|
  {
    seq(|mem|, i requires 0 <= i < |mem| =>
      if SamePage(i, at) && PagePlace(i, at) < |bytes| then bytes[PagePlace(i, at)] else mem[i])
  }

  /** The chunks of a write, one transfer each. */
  function ChunkWrites(mem: seq<byte>, at: nat, data: seq<byte>): (after: seq<byte>)
    ensures |after| == |mem|
    decreases |data|
  {
    if data == [] then mem
    else
      var n := Min(MAX_WRITE_SIZE, |data|);
      ChunkWrites(PageWrite(mem, at, data[..n]), at + n, data[n..])
  }

  lemma FirstChunk(mem: seq<byte>, at: nat, data: seq<byte>)
    requires |data| >= MAX_WRITE_SIZE
    ensures ChunkWrites(mem, at, data) == ChunkWrites(PageWrite(mem, at, data[..8]), at + 8, data[8..])
  {
  }

  lemma OnlyChunk(mem: seq<byte>, at: nat, data: seq<byte>)
    requires 0 < |data| <= MAX_WRITE_SIZE
    ensures ChunkWrites(mem, at, data) == PageWrite(mem, at, data)
  {
    assert data[..|data|] == data;
    assert ChunkWrites(PageWrite(mem, at, data), at + |data|, []) == PageWrite(mem, at, data);
  }

  /** A chunk once its attempts are over. */
  function Tried(mem: seq<byte>, at: nat, bytes: seq<byte>, done: bool): (after: seq<byte>)
    requires |bytes| <= PAGE
    ensures |after| == |mem|
  {
    if done then PageWrite(mem, at, bytes) else mem
  }

  /** The first `stored` bytes of the data are in memory, the way their chunks put them there. */
  ghost predicate HoldsChunks(before: seq<byte>, at: nat, data: seq<byte>, stored: nat, now: seq<byte>) {
    stored <= |data| && now == ChunkWrites(before, at, data[..stored])
  }

  function Overlay(mem: seq<byte>, at: nat, bytes: seq<byte>): (after: seq<byte>)
    ensures |after| == |mem|
  {
    seq(|mem|, i requires 0 <= i < |mem| => if at <= i < at + |bytes| then bytes[i - at] else mem[i])
  }

  lemma InPage(i: nat, at: nat)
    requires at % PAGE == 0
    ensures SamePage(i, at) <==> at <= i < at + PAGE
    ensures SamePage(i, at) ==> PagePlace(i, at) == i - at
  {
    assert at == 8 * (at / 8) && i == 8 * (i / 8) + i % 8;
  }

  /** Bytes that start at a page boundary do not roll over. */
  lemma AlignedWrite(mem: seq<byte>, at: nat, bytes: seq<byte>)
    requires |bytes| <= PAGE && at % PAGE == 0
    ensures PageWrite(mem, at, bytes) == Overlay(mem, at, bytes)
  {
    forall i | 0 <= i < |mem|
      ensures PageWrite(mem, at, bytes)[i] == Overlay(mem, at, bytes)[i]
    {
      InPage(i, at);
    }
  }

  /** The address byte `k` of a transfer goes to: the counter stays inside the page. */
  function RolledOver(at: nat, k: nat): nat {
    at - at % PAGE + (at + k) % PAGE
  }

  /** A transfer from any address: its bytes fill the page cyclically from there on, the rest of memory is left alone. */
  lemma RollOver(mem: seq<byte>, at: nat, bytes: seq<byte>, k: nat)
    requires |bytes| <= PAGE && k < |bytes|
    ensures RolledOver(at, k) < |mem| ==> PageWrite(mem, at, bytes)[RolledOver(at, k)] == bytes[k]
  {
    PlaceOf(at, k, RolledOver(at, k));
  }

  lemma PlaceOf(at: nat, k: nat, i: nat)
    requires k < PAGE
    ensures i == RolledOver(at, k) <==> SamePage(i, at) && PagePlace(i, at) == k
  {
  }

  lemma RestOfMemory(mem: seq<byte>, at: nat, bytes: seq<byte>, i: nat)
    requires |bytes| <= PAGE && i < |mem|
    requires forall k: nat :: k < |bytes| ==> i != RolledOver(at, k)
    ensures PageWrite(mem, at, bytes)[i] == mem[i]
  {
    PlaceOf(at, PagePlace(i, at), i);
  }

  lemma OverlayTwice(mem: seq<byte>, at: nat, a: seq<byte>, b: seq<byte>)
    ensures Overlay(Overlay(mem, at, a), at + |a|, b) == Overlay(mem, at, a + b)
  {
  }

  /** From a page boundary on, the chunks of a write lie one behind the other. */
  lemma {:induction false} AlignedWrites(mem: seq<byte>, at: nat, data: seq<byte>)
    requires at % PAGE == 0
    ensures ChunkWrites(mem, at, data) == Overlay(mem, at, data)
    decreases |data|
  {
    if data == [] {
      assert Overlay(mem, at, data) == mem;
    } else {
      var n := Min(MAX_WRITE_SIZE, |data|);
      var after := PageWrite(mem, at, data[..n]);
      AlignedWrite(mem, at, data[..n]);
      if n == |data| {
        assert data[..n] == data && data[n..] == [];
      } else {
        NextPage(at);
        AlignedWrites(after, at + n, data[n..]);
        OverlayTwice(mem, at, data[..n], data[n..]);
        assert data[..n] + data[n..] == data;
      }
    }
  }

  lemma NextPage(at: nat)
    requires at % PAGE == 0
    ensures (at + PAGE) % PAGE == 0
  {
  }

  /** Whole chunks and one more. */
  lemma {:induction false} OneMoreChunk(mem: seq<byte>, at: nat, data: seq<byte>, i: nat, n: nat)
    requires i % MAX_WRITE_SIZE == 0 && i <= |data| && n == Min(MAX_WRITE_SIZE, |data| - i) && n > 0
    ensures PageWrite(ChunkWrites(mem, at, data[..i]), at + i, data[i..i + n]) == ChunkWrites(mem, at, data[..i + n])
    decreases i
  {
    if i == 0 {
      assert data[..0] == [] && data[0..n] == data[..n];
      OnlyChunk(mem, at, data[..n]);
    } else {
      var first, rest := PageWrite(mem, at, data[..8]), data[8..];
      WholeChunkLess(i);
      OneMoreChunk(first, at + 8, rest, i - 8, n);
      FirstChunk(mem, at, data[..i]);
      FirstChunk(mem, at, data[..i + n]);
      Beginning(data, i);
      Beginning(data, i + n);
      assert rest[i - 8..i - 8 + n] == data[i..i + n];
    }
  }

  lemma Beginning(data: seq<byte>, k: nat)
    requires 8 <= k <= |data|
    ensures data[..k][..8] == data[..8] && data[..k][8..] == data[8..][..k - 8]
  {
  }

  /** A chunk that was stored, or was not. */
  lemma ChunkDone(before: seq<byte>, now: seq<byte>, after: seq<byte>, at: nat, data: seq<byte>, i: nat, n: nat, done: bool, stored: nat)
    requires i < |data| && i % MAX_WRITE_SIZE == 0 && n == Min(MAX_WRITE_SIZE, |data| - i)
    requires HoldsChunks(before, at, data, i, now) && stored == if done then i + n else i
    requires after == Tried(now, at + i, data[i..i + n], done)
    ensures HoldsChunks(before, at, data, stored, after)
  {
    if done {
      OneMoreChunk(before, at, data, i, n);
    }
  }

  lemma WholeChunkLess(i: nat)
    requires i > 0 && i % MAX_WRITE_SIZE == 0
    ensures i >= 8 && (i - 8) % MAX_WRITE_SIZE == 0
  {
  }

  // ---------- which transfers succeed ----------

  predicate Succeeds(bus: Bus, t: nat) {
    bus(t)
  }

  /** None of the transfers from number `clock` up to `end` succeeds. */
  predicate AllFail(bus: Bus, clock: nat, end: nat) {
    forall t :: clock <= t < end ==> !Succeeds(bus, t)
  }

  ghost predicate SomeSucceeds(bus: Bus, clock: nat, end: nat) {
    exists t: nat :: clock <= t < end && Succeeds(bus, t)
  }

  /** The first transfer from number `clock` on that succeeds, or `end`. */
  function FirstSuccess(bus: Bus, clock: nat, end: nat): (t: nat)
    requires clock <= end
    ensures clock <= t <= end && AllFail(bus, clock, t)
    ensures t < end ==> Succeeds(bus, t)
    decreases end - clock
  {
    if clock == end || Succeeds(bus, clock) then clock else FirstSuccess(bus, clock + 1, end)
  }

  lemma FirstSuccessIs(bus: Bus, clock: nat, end: nat, t: nat)
    requires clock <= t <= end && AllFail(bus, clock, t) && (t < end ==> Succeeds(bus, t))
    ensures FirstSuccess(bus, clock, end) == t
  {
    var first := FirstSuccess(bus, clock, end);
    assert first == end || Succeeds(bus, first);
  }

  lemma SuccessBefore(bus: Bus, clock: nat, end: nat, to: nat)
    requires clock <= to <= end
    ensures FirstSuccess(bus, clock, end) < to <==> SomeSucceeds(bus, clock, to)
  {
    var first := FirstSuccess(bus, clock, end);
    assert first == end || Succeeds(bus, first);
  }

  /** A chunk is tried once and then up to WR_ATTEMPTS times more. */
  function ChunkFailures(bus: Bus, clock: nat): nat {
    FirstSuccess(bus, clock, clock + WR_ATTEMPTS + 1) - clock
  }

  /** What a write of `n` bytes that starts with transfer number `clock` comes to: reported as done, bytes stored, next transfer. */
  function WriteOutcome(bus: Bus, clock: nat, n: nat): (r: (bool, nat, nat))
    ensures r.1 <= n && (r.0 ==> r.1 == n)
    decreases n
  {
    if n == 0 then (true, 0, clock)
    else
      var chunk, failures := Min(MAX_WRITE_SIZE, n), ChunkFailures(bus, clock);
      if failures < WR_ATTEMPTS then
        var rest := WriteOutcome(bus, clock + failures + 1, n - chunk);
        (rest.0, chunk + rest.1, rest.2)
      else (false, if failures == WR_ATTEMPTS then chunk else 0, clock + WR_ATTEMPTS + 1)
  }

  /**
   A write that stores everything is still reported as failed exactly when its last chunk, after all
   chunks before it were done, succeeds in the one transfer after the last counted attempt.
   */
  lemma {:induction false} StoredButRefused(bus: Bus, clock: nat, n: nat)
    ensures var r := WriteOutcome(bus, clock, n);
            r.1 == n && !r.0 <==> n > 0 && LastChunkLate(bus, clock, n)
    decreases n
  {
    if n > 0 && ChunkFailures(bus, clock) < WR_ATTEMPTS {
      StoredButRefused(bus, clock + ChunkFailures(bus, clock) + 1, n - Min(MAX_WRITE_SIZE, n));
    }
  }

  predicate LastChunkLate(bus: Bus, clock: nat, n: nat)
    requires n > 0
    decreases n
  {
    if n <= MAX_WRITE_SIZE then ChunkFailures(bus, clock) == WR_ATTEMPTS
    else
      ChunkFailures(bus, clock) < WR_ATTEMPTS
      && LastChunkLate(bus, clock + ChunkFailures(bus, clock) + 1, n - MAX_WRITE_SIZE)
  }

  /** A bus that is silent for a hundred transfers. */
  function LateBus(): Bus {
    t => t >= WR_ATTEMPTS
  }

  /** On it a one-chunk write from power-up stores everything and is reported as failed. */
  lemma LateWrite(n: nat)
    requires 0 < n <= MAX_WRITE_SIZE
    ensures var r := WriteOutcome(LateBus(), 0, n); r.1 == n && !r.0
  {
    FirstSuccessIs(LateBus(), 0, WR_ATTEMPTS + 1, WR_ATTEMPTS);
  }

  /** `outcome` is what is left to come, after `done` bytes. */
  ghost predicate Remaining(bus: Bus, clock: nat, n: nat, done: nat, outcome: (bool, nat, nat)) {
    var rest := WriteOutcome(bus, clock, n);
    outcome == (rest.0, done + rest.1, rest.2)
  }

  lemma NextOutcome(bus: Bus, clock: nat, n: nat, done: nat, outcome: (bool, nat, nat))
    requires n > 0 && Remaining(bus, clock, n, done, outcome)
    ensures var chunk, failures := Min(MAX_WRITE_SIZE, n), ChunkFailures(bus, clock);
            if failures < WR_ATTEMPTS then Remaining(bus, clock + failures + 1, n - chunk, done + chunk, outcome)
            else outcome == (false, done + if failures == WR_ATTEMPTS then chunk else 0, clock + WR_ATTEMPTS + 1)
  {
  }

  /** A chunk's attempts as a step of the outcome: the loop ends or goes on. */
  lemma TriedOutcome(bus: Bus, clock: nat, n: nat, i: nat, chunk: nat, outcome: (bool, nat, nat), ok: bool, stored: nat, next: nat)
    requires n > 0 && chunk == Min(MAX_WRITE_SIZE, n) && Remaining(bus, clock, n, i, outcome)
    requires ok == (ChunkFailures(bus, clock) < WR_ATTEMPTS)
    requires stored == if ChunkFailures(bus, clock) <= WR_ATTEMPTS then i + chunk else i
    requires next == clock + Min(ChunkFailures(bus, clock), WR_ATTEMPTS) + 1
    ensures ok ==> stored == i + chunk && Remaining(bus, next, n - chunk, i + chunk, outcome)
    ensures !ok ==> outcome == (false, stored, next)
  {
    NextOutcome(bus, clock, n, i, outcome);
  }

  lemma NextBoundary(i: nat, n: nat)
    requires i % MAX_WRITE_SIZE == 0
    ensures n == MAX_WRITE_SIZE ==> (i + n) % MAX_WRITE_SIZE == 0
  {
  }

  /** The attempt loop's counter and last result, as the number of failures. */
  lemma CountedFailures(bus: Bus, start: nat, attempts: nat, done: bool)
    requires attempts <= WR_ATTEMPTS && AllFail(bus, start, start + attempts)
    requires done == Succeeds(bus, start + attempts) && (done || attempts == WR_ATTEMPTS)
    ensures ChunkFailures(bus, start) == if done then attempts else WR_ATTEMPTS + 1
    ensures ChunkFailures(bus, start) < WR_ATTEMPTS <==> SomeSucceeds(bus, start, start + WR_ATTEMPTS)
    ensures ChunkFailures(bus, start) < WR_ATTEMPTS + 1 <==> SomeSucceeds(bus, start, start + WR_ATTEMPTS + 1)
  {
    FirstSuccessIs(bus, start, start + WR_ATTEMPTS + 1, start + if done then attempts else WR_ATTEMPTS + 1);
    SuccessBefore(bus, start, start + WR_ATTEMPTS + 1, start + WR_ATTEMPTS);
    SuccessBefore(bus, start, start + WR_ATTEMPTS + 1, start + WR_ATTEMPTS + 1);
  }

  class Device {
    const mem: array<byte>
    const bus: Bus
    /** The number of the next transfer, and how many calls reported a failure. */
    var clock: nat
    var faults: nat

    constructor (contents: seq<byte>, bus: Bus)
      requires |contents| == SIZE
      ensures fresh(mem) && mem[..] == contents && mem.Length == SIZE && faults == 0 && clock == 0 && this.bus == bus
    {
      mem := new byte[SIZE](i requires 0 <= i < SIZE => contents[i]);
      this.bus := bus;
      clock, faults := 0, 0;
      new;
      assert mem[..] == contents;
    }

    /** i2c_write_blocking with the address byte in front; a failed transfer stores nothing. */
    method Transfer(at: nat, bytes: seq<byte>) returns (ok: bool)
      requires |bytes| <= PAGE
      modifies mem, `clock
      ensures ok == Succeeds(bus, old(clock)) && clock == old(clock) + 1
      ensures mem[..] == if ok then PageWrite(old(mem[..]), at, bytes) else old(mem[..])
    {
      ok := bus(clock);
      clock := clock + 1;
      if ok {
        ghost var after := PageWrite(mem[..], at, bytes);
        for i := 0 to mem.Length
          invariant clock == old(clock) + 1
          invariant forall j :: 0 <= j < mem.Length ==> mem[j] == if j < i then after[j] else old(mem[j])
        {
          if SamePage(i, at) && PagePlace(i, at) < |bytes| {
            mem[i] := bytes[PagePlace(i, at)];
          }
        }
      }
    }

    /**
     The attempts for one chunk: reported as done exactly when one of the first hundred transfers
     succeeds, stored exactly when one of the first hundred and one does.
     */
    method Attempts(at: nat, bytes: seq<byte>) returns (ok: bool, ghost stored: bool)
      requires |bytes| <= PAGE
      modifies mem, `clock
      ensures ok <==> SomeSucceeds(bus, old(clock), old(clock) + WR_ATTEMPTS)
      ensures stored <==> SomeSucceeds(bus, old(clock), old(clock) + WR_ATTEMPTS + 1)
      ensures ok == (ChunkFailures(bus, old(clock)) < WR_ATTEMPTS) && stored == (ChunkFailures(bus, old(clock)) <= WR_ATTEMPTS)
      ensures clock == old(clock) + Min(ChunkFailures(bus, old(clock)), WR_ATTEMPTS) + 1
      ensures mem[..] == Tried(old(mem[..]), at, bytes, stored)
    {
      var attempts: nat := 0;
      ghost var start := clock;
      var done := Transfer(at, bytes);
      while !done && attempts < WR_ATTEMPTS
        invariant attempts <= WR_ATTEMPTS && clock == start + attempts + 1
        invariant done == Succeeds(bus, start + attempts) && AllFail(bus, start, start + attempts)
        invariant mem[..] == if done then PageWrite(old(mem[..]), at, bytes) else old(mem[..])
        decreases WR_ATTEMPTS - attempts
      {
        attempts := attempts + 1;
        done := Transfer(at, bytes);
      }
      CountedFailures(bus, start, attempts, done);
      ok := attempts < WR_ATTEMPTS;
      stored := done;
    }

    /**
     eeprom_write: what is reported, how much of the data is stored and which transfer comes next is
     the outcome the bus decides; the stored part lies in memory as its chunks put it there.
     */
    method Write(address: nat, data: seq<byte>) returns (r: int, ghost stored: nat)
      requires address < SIZE
      modifies mem, `faults, `clock
      ensures faults == old(faults) + if r < 0 then 1 else 0
      ensures address + |data| > LAST_ADDR ==> r == -1 && stored == 0 && clock == old(clock)
      ensures address + |data| <= LAST_ADDR ==>
                ((r >= 0, stored, clock) == WriteOutcome(bus, old(clock), |data|)) && r == if r < 0 then -1 else |data|
      ensures stored <= |data| && mem[..] == ChunkWrites(old(mem[..]), address, data[..stored])
      ensures address % PAGE == 0 ==> mem[..] == Overlay(old(mem[..]), address, data[..stored])
    {
      stored := 0;
      r := |data|;
      assert data[..0] == [];
      AlignedWritesIf(mem[..], address, data[..0]);
      if address + |data| > LAST_ADDR {
        r := -1;
        faults := faults + 1;
        return;
      }
      r, stored := WriteChunks(address, data);
      AlignedWritesIf(old(mem[..]), address, data[..stored]);
      if r < 0 {
        faults := faults + 1;
      }
    }

    static lemma AlignedWritesIf(mem: seq<byte>, at: nat, data: seq<byte>)
      ensures at % PAGE == 0 ==> ChunkWrites(mem, at, data) == Overlay(mem, at, data)
    {
      if at % PAGE == 0 {
        AlignedWrites(mem, at, data);
      }
    }

    /** The attempts for one chunk, from byte `i` of the data on. */
    method StoreChunk(address: nat, data: seq<byte>, i: nat, n: nat, ghost before: seq<byte>) returns (ok: bool, ghost stored: nat)
      requires i < |data| && i % MAX_WRITE_SIZE == 0 && n == Min(MAX_WRITE_SIZE, |data| - i)
      requires HoldsChunks(before, address, data, i, mem[..])
      modifies mem, `clock
      ensures HoldsChunks(before, address, data, stored, mem[..])
      ensures ok == (ChunkFailures(bus, old(clock)) < WR_ATTEMPTS)
      ensures stored == if ChunkFailures(bus, old(clock)) <= WR_ATTEMPTS then i + n else i
      ensures clock == old(clock) + Min(ChunkFailures(bus, old(clock)), WR_ATTEMPTS) + 1
    {
      ghost var done, now := false, mem[..];
      ok, done := Attempts(address + i, data[i..i + n]);
      stored := if done then i + n else i;
      ChunkDone(before, now, mem[..], address, data, i, n, done, stored);
    }

    /** One turn of the loop. */
    method WriteChunk(address: nat, data: seq<byte>, i: nat, n: nat, ghost before: seq<byte>, ghost outcome: (bool, nat, nat))
      returns (ok: bool, ghost stored: nat)
      requires i < |data| && i % MAX_WRITE_SIZE == 0 && n == Min(MAX_WRITE_SIZE, |data| - i)
      requires HoldsChunks(before, address, data, i, mem[..]) && Remaining(bus, clock, |data| - i, i, outcome)
      modifies mem, `clock
      ensures HoldsChunks(before, address, data, stored, mem[..])
      ensures ok ==> stored == i + n && Remaining(bus, clock, |data| - i - n, i + n, outcome)
      ensures !ok ==> outcome == (false, stored, clock)
    {
      ghost var start := clock;
      ok, stored := StoreChunk(address, data, i, n, before);
      TriedOutcome(bus, start, |data| - i, i, n, outcome, ok, stored, clock);
    }

    /** The loop over the chunks. */
    method WriteChunks(address: nat, data: seq<byte>) returns (r: int, ghost stored: nat)
      modifies mem, `clock
      ensures (r >= 0, stored, clock) == WriteOutcome(bus, old(clock), |data|) && r == if r < 0 then -1 else |data|
      ensures HoldsChunks(old(mem[..]), address, data, stored, mem[..])
    {
      ghost var before, outcome := mem[..], WriteOutcome(bus, clock, |data|);
      var i: nat := 0;
      stored := 0;
      assert data[..0] == [];
      while i < |data|
        invariant i == |data| || (i <= |data| && i % MAX_WRITE_SIZE == 0)
        invariant stored == i && HoldsChunks(before, address, data, stored, mem[..])
        invariant Remaining(bus, clock, |data| - i, i, outcome)
      {
        var n := if |data| - i > MAX_WRITE_SIZE then MAX_WRITE_SIZE else |data| - i;
        NextBoundary(i, n);
        var ok;
        ok, stored := WriteChunk(address, data, i, n, before, outcome);
        if !ok {
          return -1, stored;
        }
        i := i + n;
      }
      r := |data|;
    }

    /** eeprom_read: an address transfer and a data transfer; after a failure the destination may hold anything. */
    method Read(address: nat, n: nat) returns (r: int, bytes: seq<byte>)
      requires address + n <= SIZE <= mem.Length
      modifies `faults, `clock
      ensures |bytes| == n && (r == n || r == -1)
      ensures r >= 0 <==> bus(old(clock)) && bus(old(clock) + 1)
      ensures clock == old(clock) + if bus(old(clock)) then 2 else 1
      ensures r >= 0 ==> bytes == mem[address..address + n]
      ensures faults == old(faults) + if r < 0 then 1 else 0
    {
      r, bytes := n, mem[address..address + n];
      var ok := bus(clock);
      clock := clock + 1;
      if ok {
        ok := bus(clock);
        clock := clock + 1;
      }
      if !ok {
        r := -1;
        bytes := *;
        if |bytes| != n {
          bytes := seq(n, _ => 0);
        }
        faults := faults + 1;
      }
    }
  }
}
