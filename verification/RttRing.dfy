/**
 The RTT ring buffer: one array, a write offset owned by the producer and a read offset owned by
 the consumer. Every write mode and the read are proved against the queue the ring stands for.
 */
module RttRing {
  import opened Machine
  import opened Arithmetic

  datatype Mode = NoBlockSkip | NoBlockTrim | BlockIfFifoFull | OtherMode

  /** Number of unread bytes. */
  function Used(size: nat, rd: nat, wr: nat): nat
    requires rd < size && wr < size
  {
    if rd <= wr then wr - rd else size - rd + wr
  }

  /** The slot `k` places after `from`, for `k` up to one full turn. */
  function Slot(size: nat, from: nat, k: nat): nat
    requires from < size && k <= size
  {
    if from + k < size then from + k else from + k - size
  }

  /** The queue of unread bytes, oldest first. */
  function Queued(buf: seq<byte>, rd: nat, wr: nat): (queue: seq<byte>)
    requires rd < |buf| && wr < |buf|
    ensures |queue| == Used(|buf|, rd, wr)
  {
    seq(Used(|buf|, rd, wr), k requires 0 <= k < Used(|buf|, rd, wr) => buf[Slot(|buf|, rd, k)])
  }

  /** The buffer after `src` has been stored cyclically from slot `wr` on. */
  function Put(buf: seq<byte>, wr: nat, src: seq<byte>): seq<byte>
    requires wr < |buf| && |src| <= |buf|
  {
    seq(|buf|, i requires 0 <= i < |buf| =>
      var k := if wr <= i then i - wr else i + |buf| - wr;
      if k < |src| then src[k] else buf[i])
  }

  /** The last `n` bytes of `s`, or all of it when it is shorter. */
  function Newest(s: seq<byte>, n: nat): seq<byte> {
    if |s| <= n then s else s[|s| - n..]
  }

  /** The bytes of the slots behind the read offset, in slot order, are the oldest queued ones. */
  lemma TakeOldest(buf: seq<byte>, rd: nat, wr: nat, batch: seq<byte>)
    requires rd < |buf| && wr < |buf|
    requires |batch| <= Used(|buf|, rd, wr)
    requires forall k :: 0 <= k < |batch| ==> batch[k] == buf[Slot(|buf|, rd, k)]
    ensures Queued(buf, rd, wr) == batch + Queued(buf, Slot(|buf|, rd, |batch|), wr)
  {
  }

  /** Bytes already stored in the free slots behind the write offset join the queue when it moves. */
  lemma PublishAppends(buf: seq<byte>, rd: nat, wr: nat, chunk: seq<byte>)
    requires rd < |buf| && wr < |buf|
    requires |chunk| <= |buf| - 1 - Used(|buf|, rd, wr)
    requires forall j :: 0 <= j < |chunk| ==> buf[Slot(|buf|, wr, j)] == chunk[j]
    ensures Queued(buf, rd, Slot(|buf|, wr, |chunk|)) == Queued(buf, rd, wr) + chunk
  {
    var wr' := Slot(|buf|, wr, |chunk|);
    forall k | Used(|buf|, rd, wr) <= k < Used(|buf|, rd, wr')
      ensures Queued(buf, rd, wr')[k] == chunk[k - Used(|buf|, rd, wr)]
    {
      assert Slot(|buf|, rd, k) == Slot(|buf|, wr, k - Used(|buf|, rd, wr));
    }
  }

  /** Storing bytes that fit in the free slots appends them to the queue. */
  lemma PutAppends(buf: seq<byte>, rd: nat, wr: nat, src: seq<byte>)
    requires rd < |buf| && wr < |buf|
    requires |src| <= |buf| - 1 - Used(|buf|, rd, wr)
    ensures Queued(Put(buf, wr, src), rd, Slot(|buf|, wr, |src|)) == Queued(buf, rd, wr) + src
  {
    assert Queued(Put(buf, wr, src), rd, wr) == Queued(buf, rd, wr);
    PublishAppends(Put(buf, wr, src), rd, wr, src);
  }

  /** Taking `n` bytes that lie before the wrap-around takes the `n` oldest ones. */
  lemma StraightTake(buf: seq<byte>, rd: nat, wr: nat, n: nat)
    requires rd < |buf| && wr < |buf|
    requires n <= Used(|buf|, rd, wr) && rd + n <= |buf|
    ensures |Queued(buf, rd, wr)| == Used(|buf|, rd, wr)
    ensures Queued(buf, rd, wr) == buf[rd..rd + n] + Queued(buf, Slot(|buf|, rd, n), wr)
  {
    TakeOldest(buf, rd, wr, buf[rd..rd + n]);
  }

  /** One turn of the blocking write keeps "everything accepted is taken or still queued". */
  lemma FifoStep(start: seq<byte>, src: seq<byte>, written: nat, n: nat,
                 taken: seq<byte>, before: seq<byte>, batch: seq<byte>, after: seq<byte>)
    requires written + n <= |src|
    requires start + src[..written] == taken + before
    requires before + src[written..][..n] == batch + after
    ensures start + src[..written + n] == taken + batch + after
  {
    var chunk := src[written..][..n];
    calc {
      start + src[..written + n];
      { assert src[..written + n] == src[..written] + chunk; }
      start + (src[..written] + chunk);
      (start + src[..written]) + chunk;
      taken + (before + chunk);
      taken + (batch + after);
      taken + batch + after;
    }
  }

  /** What skip mode makes of a write: stored whole when it fits, otherwise the ring is untouched. */
  ghost function SkipWrite(buf: seq<byte>, rd: nat, wr: nat, src: seq<byte>): (r: (bool, seq<byte>, nat))
    requires rd < |buf| && wr < |buf|
    ensures r.0 <==> |Queued(buf, rd, wr)| + |src| <= |buf| - 1
    ensures |r.1| == |buf| && r.2 < |buf|
    ensures Queued(r.1, rd, r.2) == if r.0 then Queued(buf, rd, wr) + src else Queued(buf, rd, wr)
  {
    if |src| <= |buf| - 1 - Used(|buf|, rd, wr) then
      PutAppends(buf, rd, wr, src);
      (true, Put(buf, wr, src), Slot(|buf|, wr, |src|))
    else
      (false, buf, wr)
  }

  /** The byte an overwriting write of up to one wrap-around leaves in slot `i`. */
  function OverwrittenByte(buf: seq<byte>, wr: nat, src: seq<byte>, i: nat): byte
    requires wr < |buf| && i < |buf|
  {
    if i + |buf| - wr < |src| then src[i + |buf| - wr]
    else if wr <= i < wr + |src| then src[i - wr]
    else buf[i]
  }

  ghost predicate Overwritten(buf: seq<byte>, after: seq<byte>, wr: nat, src: seq<byte>)
    requires wr < |buf|
  {
    |after| == |buf| && forall i :: 0 <= i < |buf| ==> after[i] == OverwrittenByte(buf, wr, src, i)
  }

  /** Which byte the slot at place `k` behind the new write offset holds, offsets only. */
  lemma OverwrittenSlot(size: nat, rd: nat, wr: nat, n: nat, wr': nat, k: nat)
    requires rd < size && wr < size && n < (size - wr) + (size - 1)
    requires wr' == if wr + n < size then wr + n else wr + n - size
    requires Used(size, rd, wr) + n > size - 1 && k < size - 1
    ensures var used := Used(size, rd, wr);
            var at := used + n - (size - 1) + k;
            var slot := Slot(size, Slot(size, wr', 1), k);
            if at < used then
              slot == Slot(size, rd, at) && n <= slot + size - wr && !(wr <= slot < wr + n)
            else if slot + size - wr < n then
              at - used == slot + size - wr
            else
              wr <= slot < wr + n && at - used == slot - wr
  {
  }

  lemma OverwrittenAt(buf: seq<byte>, rd: nat, wr: nat, wr': nat, src: seq<byte>, k: nat)
    requires rd < |buf| && wr < |buf| && |src| < (|buf| - wr) + (|buf| - 1)
    requires wr' == if wr + |src| < |buf| then wr + |src| else wr + |src| - |buf|
    requires Used(|buf|, rd, wr) + |src| > |buf| - 1 && k < |buf| - 1
    ensures OverwrittenByte(buf, wr, src, Slot(|buf|, Slot(|buf|, wr', 1), k))
         == (Queued(buf, rd, wr) + src)[Used(|buf|, rd, wr) + |src| - (|buf| - 1) + k]
  {
    OverwrittenSlot(|buf|, rd, wr, |src|, wr', k);
  }

  /** Once the read offset sits right behind the write offset, the ring holds the newest bytes. */
  lemma OverwrittenHoldsNewest(buf: seq<byte>, after: seq<byte>, rd: nat, wr: nat, wr': nat, src: seq<byte>)
    requires rd < |buf| && wr < |buf| && |src| < (|buf| - wr) + (|buf| - 1)
    requires Overwritten(buf, after, wr, src)
    requires wr' == if wr + |src| < |buf| then wr + |src| else wr + |src| - |buf|
    requires Used(|buf|, rd, wr) + |src| > |buf| - 1
    ensures Queued(after, Slot(|buf|, wr', 1), wr') == Newest(Queued(buf, rd, wr) + src, |buf| - 1)
  {
    var rd' := Slot(|buf|, wr', 1);
    var newest := Newest(Queued(buf, rd, wr) + src, |buf| - 1);
    forall k | 0 <= k < |newest| ensures Queued(after, rd', wr')[k] == newest[k] {
      OverwrittenAt(buf, rd, wr, wr', src, k);
    }
  }

  /** From here on an overwriting write needs a third round, which no longer reaches the last slot. */
  function OverwriteBound(size: nat, wr: nat): nat
    requires wr < size
  {
    (size - wr) + (size - 1)
  }

  /** Whole rounds behind the first one, and what the round after them stores. */
  function FullRounds(size: nat, wr: nat, n: nat): nat
    requires 2 <= size && wr < size <= n + wr
  {
    Quot(n - (size - wr), size - 1)
  }

  function LastRound(size: nat, wr: nat, n: nat): (rest: nat)
    requires 2 <= size && wr < size <= n + wr
    ensures rest < size - 1
  {
    Rem(n - (size - wr), size - 1)
  }

  /** What the copy loop leaves from the bound on: the last `size - 1` bytes, cyclically, and one old byte. */
  ghost predicate RoundsStored(after: seq<byte>, wr: nat, src: seq<byte>, rest: nat)
    requires 2 <= |after| && wr < |after| && OverwriteBound(|after|, wr) <= |src| && rest < |after| - 1
  {
    && after[|after| - 1] == src[|after| - wr - 1]
    && forall j :: 0 <= j < |after| - 1 ==>
         after[j] == if j < rest then src[|src| - rest + j] else src[|src| - rest - (|after| - 1) + j]
  }

  /** What the copy loop leaves, and the write offset it leaves. */
  ghost predicate OverwriteStored(buf: seq<byte>, after: seq<byte>, wr: nat, src: seq<byte>, wr': nat)
    requires 2 <= |buf| == |after| && wr < |buf|
  {
    if |src| < OverwriteBound(|buf|, wr) then
      Overwritten(buf, after, wr, src) && wr' == if wr + |src| < |buf| then wr + |src| else wr + |src| - |buf|
    else
      wr' == LastRound(|buf|, wr, |src|) && RoundsStored(after, wr, src, wr')
  }

  /**
   The only way a write from the bound on can still leave the newest bytes: the offsets have gone
   round so often that the queue is full again, and the bytes it holds one place off are all equal
   to the one that was left in the last slot.
   */
  predicate Coincides(size: nat, wr: nat, src: seq<byte>)
    requires 2 <= size && wr < size && OverwriteBound(size, wr) <= |src|
  {
    Rem(FullRounds(size, wr, |src|), size) == 0 && Repeats(size, wr, src, LastRound(size, wr, |src|))
  }

  predicate Repeats(size: nat, wr: nat, src: seq<byte>, rest: nat)
    requires wr < size && OverwriteBound(size, wr) <= |src|
  {
    AllAre(src, |src| - size + 1, |src| - rest, src[size - wr - 1])
  }

  predicate AllAre(src: seq<byte>, lo: int, hi: int, c: byte) {
    forall k :: 0 <= k < |src| && lo <= k < hi ==> src[k] == c
  }

  /** Where the read offset goes, as a distance behind the start of the ring. */
  lemma MovedReadOffset(size: nat, rd: nat, wr: nat, n: nat)
    requires rd < size && wr < size && size - 1 - Used(size, rd, wr) < n
    ensures Rem(rd + n - (size - 1 - Used(size, rd, wr)), size) == Rem(wr + n + 1, size)
  {
  }

  /** `q` rounds of `size - 1` steps end `q` places short of as many turns, here with `q == a * size + b`. */
  lemma ReadBehindWrite(size: nat, a: nat, b: nat, rounds: nat, rest: nat)
    requires 2 <= size && b < size && rest < size - 1 && rounds == (a * size + b) * (size - 1)
    ensures Rem(rounds + rest + 1, size) == if b <= rest + 1 then rest + 1 - b else rest + 1 - b + size
  {
    var c := a * (size - 1) + b;
    TurnsAndRounds(a, b, size);
    NotNegative(a, size - 1);
    if b <= rest + 1 {
      EuclidQuot(rounds + rest + 1, size, c, rest + 1 - b);
    } else {
      OneMore(c - 1, size);
      EuclidQuot(rounds + rest + 1, size, c - 1, rest + 1 - b + size);
    }
  }

  lemma TurnsAndRounds(a: nat, b: nat, size: nat)
    requires 1 <= size
    ensures (a * size + b) * (size - 1) == (a * (size - 1) + b) * size - b
  {
  }

  /** From the bound on the queue is full exactly when the number of whole rounds is a multiple of the ring's size. */
  lemma FullAgain(size: nat, wr: nat, n: nat, rd': nat)
    requires 2 <= size && wr < size && OverwriteBound(size, wr) <= n && rd' == Rem(wr + n + 1, size)
    ensures var rest := LastRound(size, wr, n);
            && (rd' == rest + 1 <==> Rem(FullRounds(size, wr, n), size) == 0)
            && (Used(size, rd', rest) == size - 1 <==> rd' == rest + 1)
  {
    var m, q := n - (size - wr), FullRounds(size, wr, n);
    Recompose(m, size - 1);
    Recompose(q, size);
    assert wr + n + 1 == m + 1 + size;
    ReadBehindWrite(size, Quot(q, size), Rem(q, size), q * (size - 1), LastRound(size, wr, n));
  }

  /** The full queue after rounds that skip the last slot is the newest bytes exactly when those one place off do not differ. */
  lemma OnePlaceOff(queue: seq<byte>, after: seq<byte>, wr: nat, src: seq<byte>, rest: nat)
    requires 2 <= |after| && wr < |after| && OverwriteBound(|after|, wr) <= |src| && rest < |after| - 1
    requires RoundsStored(after, wr, src, rest)
    ensures Queued(after, rest + 1, rest) == Newest(queue + src, |after| - 1) <==> Repeats(|after|, wr, src, rest)
  {
    QueueHolds(after, src, rest);
    HeldOff(|after|, src, rest, src[|after| - wr - 1]);
    NewestOfLong(queue, src, |after| - 1);
  }

  lemma NewestOfLong(queue: seq<byte>, src: seq<byte>, n: nat)
    requires n <= |src|
    ensures Newest(queue + src, n) == src[|src| - n..] && |Newest(queue + src, n)| == n
  {
  }

  /** The full ring's queue: bytes one place off, the byte of the last slot, and bytes in their place. */
  function HeldBytes(size: nat, src: seq<byte>, rest: nat, last: byte): (held: seq<byte>)
    requires 2 <= size <= |src| && rest < size - 1
    ensures |held| == size - 1
  {
    seq(size - 1, i requires 0 <= i < size - 1 =>
      if i < size - 2 - rest then src[|src| - size + 2 + i]
      else if i == size - 2 - rest then last
      else src[|src| - size + 1 + i])
  }

  lemma QueueHolds(after: seq<byte>, src: seq<byte>, rest: nat)
    requires 2 <= |after| <= |src| && rest < |after| - 1
    requires forall j :: 0 <= j < |after| - 1 ==>
      after[j] == if j < rest then src[|src| - rest + j] else src[|src| - rest - (|after| - 1) + j]
    ensures Queued(after, rest + 1, rest) == HeldBytes(|after|, src, rest, after[|after| - 1])
  {
    var held := Queued(after, rest + 1, rest);
    forall i | 0 <= i < |after| - 1
      ensures held[i] == HeldBytes(|after|, src, rest, after[|after| - 1])[i]
    {
      assert held[i] == after[if i <= |after| - 2 - rest then rest + 1 + i else rest + 1 + i - |after|];
    }
  }

  lemma HeldOff(size: nat, src: seq<byte>, rest: nat, last: byte)
    requires 2 <= size <= |src| && rest < size - 1
    ensures HeldBytes(size, src, rest, last) == src[|src| - size + 1..] <==> AllAre(src, |src| - size + 1, |src| - rest, last)
  {
    var held, lo, hi := HeldBytes(size, src, rest, last), |src| - size + 1, |src| - rest;
    if held == src[lo..] {
      AllEqual(src, lo, hi, last, held);
    }
    if AllAre(src, lo, hi, last) {
      forall i | 0 <= i < size - 1
        ensures held[i] == src[lo..][i]
      {
        assert src[lo..][i] == src[lo + i];
      }
    }
  }

  /** Bytes that equal their successors, up to one that equals `c`. */
  lemma {:induction false} AllEqual(src: seq<byte>, lo: nat, hi: nat, c: byte, held: seq<byte>)
    requires lo < hi <= |src| && held == src[lo..]
    requires forall i :: 0 <= i < hi - lo - 1 ==> held[i] == src[lo + i + 1]
    requires held[hi - lo - 1] == c
    ensures AllAre(src, lo, hi, c)
    decreases hi - lo
  {
    assert held[hi - lo - 1] == src[hi - 1];
    if lo + 1 < hi {
      assert held[hi - lo - 2] == src[hi - 2] == src[hi - 1];
      AllEqual(src, lo, hi - 1, c, held);
    }
  }

  // ---------- the copy loop of the overwriting write ----------

  /** Where `rounds` whole rounds behind the first one end. */
  function RoundsEnd(first: nat, round: nat, rounds: nat): nat {
    if rounds == 0 then first else RoundsEnd(first, round, rounds - 1) + round
  }

  lemma {:induction false} RoundsEndProduct(first: nat, round: nat, rounds: nat)
    ensures RoundsEnd(first, round, rounds) == first + rounds * round
    decreases rounds
  {
    if rounds > 0 {
      RoundsEndProduct(first, round, rounds - 1);
      OneMore(rounds - 1, round);
    }
  }

  /** The buffer after the first round and `rounds` more, `pos` bytes in all. */
  ghost predicate Rounds(buf: seq<byte>, after: seq<byte>, wr: nat, src: seq<byte>, pos: nat, rounds: nat)
    requires 2 <= |buf| && wr < |buf|
  {
    && |after| == |buf| && pos == RoundsEnd(|buf| - wr, |buf| - 1, rounds) && |buf| - wr <= pos <= |src|
    && after[|buf| - 1] == src[|buf| - wr - 1]
    && (rounds == 0 ==> after == Put(buf, wr, src[..pos]))
    && (rounds >= 1 ==> pos >= OverwriteBound(|buf|, wr) && LapHeld(after, src, pos))
  }

  ghost predicate LapHeld(after: seq<byte>, src: seq<byte>, pos: nat)
    requires |after| - 1 <= pos <= |src|
  {
    forall j :: 0 <= j < |after| - 1 ==> after[j] == src[pos - (|after| - 1) + j]
  }

  /** A write that ends before the wrap-around. */
  lemma OnlyRound(buf: seq<byte>, wr: nat, src: seq<byte>)
    requires 2 <= |buf| && wr + |src| < |buf|
    ensures OverwriteStored(buf, Put(buf, wr, src), wr, src, wr + |src|)
  {
  }

  lemma PutNothing(buf: seq<byte>, src: seq<byte>)
    requires buf != [] && src == []
    ensures Put(buf, 0, src) == buf
  {
  }

  lemma FirstRound(buf: seq<byte>, wr: nat, src: seq<byte>)
    requires 2 <= |buf| && wr < |buf| <= |src| + wr
    ensures Rounds(buf, Put(buf, wr, src[..|buf| - wr]), wr, src, |buf| - wr, 0)
  {
  }

  lemma NextRound(buf: seq<byte>, before: seq<byte>, wr: nat, src: seq<byte>, pos: nat, rounds: nat)
    requires 2 <= |buf| && wr < |buf| && Rounds(buf, before, wr, src, pos, rounds) && pos + |buf| - 1 <= |src|
    ensures Rounds(buf, Put(before, 0, src[pos..pos + |buf| - 1]), wr, src, pos + |buf| - 1, rounds + 1)
  {
    var after := Put(before, 0, src[pos..pos + |buf| - 1]);
    assert LapHeld(after, src, pos + |buf| - 1);
    RoundsEndGrows(|buf| - wr, |buf| - 1, rounds);
  }

  lemma {:induction false} RoundsEndGrows(first: nat, round: nat, rounds: nat)
    ensures first <= RoundsEnd(first, round, rounds)
    decreases rounds
  {
    if rounds > 0 {
      RoundsEndGrows(first, round, rounds - 1);
    }
  }

  /** The last, partial round, which may be empty. */
  lemma LastRoundStored(buf: seq<byte>, before: seq<byte>, wr: nat, src: seq<byte>, pos: nat, rounds: nat)
    requires 2 <= |buf| && wr < |buf| && Rounds(buf, before, wr, src, pos, rounds) && |src| - pos < |buf| - 1
    ensures OverwriteStored(buf, Put(before, 0, src[pos..]), wr, src, |src| - pos)
  {
    if rounds == 0 {
    } else {
      var rest := |src| - pos;
      RoundsEndProduct(|buf| - wr, |buf| - 1, rounds);
      EuclidQuot(|src| - (|buf| - wr), |buf| - 1, rounds, rest);
      RestHeld(before, src, pos);
    }
  }

  lemma RestHeld(before: seq<byte>, src: seq<byte>, pos: nat)
    requires 2 <= |before| && |before| - 1 <= pos <= |src| && |src| - pos < |before| - 1 && LapHeld(before, src, pos)
    ensures var after := Put(before, 0, src[pos..]); var rest := |src| - pos;
            && after[|before| - 1] == before[|before| - 1]
            && forall j :: 0 <= j < |before| - 1 ==>
                 after[j] == if j < rest then src[|src| - rest + j] else src[|src| - rest - (|before| - 1) + j]
  {
  }

  /**
   What the read-offset adjustment and the copy loop of an overwriting write add up to; `held` is the
   queue afterwards, `newest` what it should be.
   */
  lemma OverwriteOutcome(buf: seq<byte>, rd: nat, wr: nat, src: seq<byte>, after: seq<byte>, rd': nat, wr': nat,
                         held: seq<byte>, newest: seq<byte>)
    requires 2 <= |buf| == |after| && rd < |buf| && wr < |buf| && rd' < |buf| && wr' < |buf|
    requires rd' == if |src| <= |buf| - 1 - Used(|buf|, rd, wr) then rd else Rem(wr + |src| + 1, |buf|)
    requires OverwriteStored(buf, after, wr, src, wr')
    requires held == Queued(after, rd', wr') && newest == Newest(Queued(buf, rd, wr) + src, |buf| - 1)
    ensures held == newest <==> |src| < OverwriteBound(|buf|, wr) || Coincides(|buf|, wr, src)
  {
    if |src| < OverwriteBound(|buf|, wr) {
      OutcomeBelow(buf, rd, wr, src, after, rd', wr', held, newest);
    } else {
      FullAgain(|buf|, wr, |src|, rd');
      OutcomeBeyond(Queued(buf, rd, wr), after, wr, src, rd', wr', held, newest);
    }
  }

  lemma OutcomeBelow(buf: seq<byte>, rd: nat, wr: nat, src: seq<byte>, after: seq<byte>, rd': nat, wr': nat,
                     held: seq<byte>, newest: seq<byte>)
    requires 2 <= |buf| && rd < |buf| && wr < |buf| && |src| < OverwriteBound(|buf|, wr)
    requires rd' == if |src| <= |buf| - 1 - Used(|buf|, rd, wr) then rd else Rem(wr + |src| + 1, |buf|)
    requires Overwritten(buf, after, wr, src) && wr' == if wr + |src| < |buf| then wr + |src| else wr + |src| - |buf|
    requires rd' < |after| && wr' < |after| && held == Queued(after, rd', wr')
    requires newest == Newest(Queued(buf, rd, wr) + src, |buf| - 1)
    ensures held == newest
  {
    if |src| <= |buf| - 1 - Used(|buf|, rd, wr) {
      OutcomeFits(buf, rd, wr, src, after);
    } else {
      BelowBound(|buf|, wr, |src|);
      OutcomeRolls(buf, rd, wr, src, after, rd', wr', held, newest);
    }
  }

  lemma OutcomeRolls(buf: seq<byte>, rd: nat, wr: nat, src: seq<byte>, after: seq<byte>, rd': nat, wr': nat,
                     held: seq<byte>, newest: seq<byte>)
    requires 2 <= |buf| && rd < |buf| && wr < |buf| && |buf| - 1 - Used(|buf|, rd, wr) < |src| < OverwriteBound(|buf|, wr)
    requires Overwritten(buf, after, wr, src) && wr' == if wr + |src| < |buf| then wr + |src| else wr + |src| - |buf|
    requires wr' < |after| && rd' == Slot(|buf|, wr', 1) && held == Queued(after, rd', wr')
    requires newest == Newest(Queued(buf, rd, wr) + src, |buf| - 1)
    ensures held == newest
  {
    OverwrittenHoldsNewest(buf, after, rd, wr, wr', src);
  }

  lemma OutcomeBeyond(queue: seq<byte>, after: seq<byte>, wr: nat, src: seq<byte>, rd': nat, rest: nat,
                      held: seq<byte>, newest: seq<byte>)
    requires 2 <= |after| && wr < |after| && OverwriteBound(|after|, wr) <= |src| && rest < |after| - 1 && rd' < |after|
    requires RoundsStored(after, wr, src, rest) && (Used(|after|, rd', rest) == |after| - 1 <==> rd' == rest + 1)
    requires held == Queued(after, rd', rest) && newest == Newest(queue + src, |after| - 1)
    ensures held == newest <==> rd' == rest + 1 && Repeats(|after|, wr, src, rest)
  {
    if rd' == rest + 1 {
      OnePlaceOff(queue, after, wr, src, rest);
    } else {
      NewestOfLong(queue, src, |after| - 1);
    }
  }

  lemma OutcomeFits(buf: seq<byte>, rd: nat, wr: nat, src: seq<byte>, after: seq<byte>)
    requires rd < |buf| && wr < |buf| && |src| <= |buf| - 1 - Used(|buf|, rd, wr)
    requires Overwritten(buf, after, wr, src)
    ensures var wr' := if wr + |src| < |buf| then wr + |src| else wr + |src| - |buf|;
            |after| == |buf| && Queued(after, rd, wr') == Newest(Queued(buf, rd, wr) + src, |buf| - 1)
  {
    OverwrittenIsPut(buf, after, wr, src);
    PutAppends(buf, rd, wr, src);
  }

  lemma BelowBound(size: nat, wr: nat, n: nat)
    requires 2 <= size && wr < size && n < OverwriteBound(size, wr)
    ensures Rem(wr + n + 1, size) == Slot(size, if wr + n < size then wr + n else wr + n - size, 1)
  {
    assert wr + n + 1 >= size ==> wr + n + 1 - size < size;
  }

  /**
   Fewer whole rounds than the ring has slots never leave the newest bytes, whatever the data: the
   queue is not even full.
   */
  lemma FewRoundsNeverCoincide(size: nat, wr: nat, src: seq<byte>)
    requires 2 <= size && wr < size
    requires OverwriteBound(size, wr) <= |src| < (size - wr) + size * (size - 1)
    ensures !Coincides(size, wr, src)
  {
    var m, q := |src| - (size - wr), FullRounds(size, wr, |src|);
    Recompose(m, size - 1);
    if q >= size {
      Grows(q, size, size - 1);
    }
    assert q >= 1;
  }

  /** The free space computed through an intermediate underflow. */
  lemma WrappedFree(size: nat, rd: nat, wr: nat)
    requires rd < wr < size < TWO_TO_THE_32
    ensures AddU32(SubU32(SubU32(rd, wr), 1), size) == size - 1 - (wr - rd)
  {
    assert SubU32(rd, wr) == rd - wr + TWO_TO_THE_32;
    assert SubU32(rd - wr + TWO_TO_THE_32, 1) == rd - wr + TWO_TO_THE_32 - 1;
  }

  /** A write that fits in one turn of the ring overwrites nothing twice. */
  lemma OverwrittenIsPut(buf: seq<byte>, after: seq<byte>, wr: nat, src: seq<byte>)
    requires wr < |buf| && |src| <= |buf| && Overwritten(buf, after, wr, src)
    ensures after == Put(buf, wr, src)
  {
  }

  /** One round of the overwriting write's loop: done, or the space and the bytes of the next round. */
  function RoundStep(size: nat, avail: nat, left: nat): (bool, nat, nat)
    requires size >= 1
  {
    if avail > left || left - avail == 0 then (true, 0, 0) else (false, size - 1, left - avail)
  }

  /** On a ring of one slot the second round has no space and is its own successor, for exactly the writes of two bytes or more. */
  lemma OneSlotNeverEnds(n: nat)
    ensures var first := RoundStep(1, 1, n);
            (n >= 2 <==> !first.0) && (n >= 2 ==> RoundStep(1, first.1, first.2) == first)
  {
  }

  /** A host that takes at least one byte, if there is one, before every poll. */
  ghost predicate Hungry(host: seq<nat>) {
    forall p :: 0 <= p < |host| ==> 1 <= host[p]
  }

  class Ring {
    const data: array<byte>
    var wr: nat
    var rd: nat
    var mode: Mode

    ghost predicate Valid()
      reads this
    {
      0 < data.Length < TWO_TO_THE_32 && wr < data.Length && rd < data.Length
    }

    ghost function Contents(): (s: seq<byte>)
      requires Valid()
      reads this, data
    {
      Queued(data[..], rd, wr)
    }

    ghost function Free(): (n: nat)
      requires Valid()
      reads this
    {
      data.Length - 1 - Used(data.Length, rd, wr)
    }

    constructor (size: nat, mode: Mode)
      requires 0 < size < TWO_TO_THE_32
      ensures Valid() && fresh(data) && data.Length == size
      ensures Contents() == [] && this.mode == mode
    {
      data := new byte[size];
      wr, rd := 0, 0;
      this.mode := mode;
    }

    /** memcpy of `src` into consecutive slots. */
    method CopyIn(at: nat, src: seq<byte>)
      requires at < data.Length && at + |src| <= data.Length
      modifies data
      ensures data[..] == Put(old(data[..]), at, src)
    {
      forall i | 0 <= i < |src| {
        data[at + i] := src[i];
      }
    }

    method GetAvailWriteSpace() returns (r: nat)
      requires Valid()
      ensures r == Free()
      ensures r + |Contents()| == data.Length - 1
    {
      if rd <= wr {
        r := data.Length - 1 - wr + rd;
      } else {
        r := rd - wr - 1;
      }
    }

    /** The caller makes sure that the bytes fit. */
    method WriteNoCheck(src: seq<byte>)
      requires Valid() && |src| <= Free()
      modifies this`wr, data
      ensures Valid()
      ensures data[..] == Put(old(data[..]), old(wr), src)
      ensures wr == Slot(data.Length, old(wr), |src|)
      ensures Contents() == old(Contents()) + src
    {
      PutAppends(data[..], rd, wr, src);
      var rem := data.Length - wr;
      if rem > |src| {
        CopyIn(wr, src);
        wr := wr + |src|;
      } else {
        CopyIn(wr, src[..rem]);
        CopyIn(0, src[rem..]);
        wr := |src| - rem;
      }
      assert data[..] == Put(old(data[..]), old(wr), src);
    }

    /** First half of the read path: what lies between the read offset and the wrap-around. */
    method ReadToWrap(bufferSize: nat) returns (out: seq<byte>, r: nat)
      requires Valid()
      ensures r < data.Length && |out| <= bufferSize
      ensures Contents() == out + Queued(data[..], r, wr)
      ensures |out| + Used(data.Length, r, wr) == Used(data.Length, rd, wr)
      ensures r > wr ==> |out| == bufferSize
    {
      out, r := [], rd;
      if r > wr {
        var n := Min(data.Length - r, bufferSize);
        StraightTake(data[..], r, wr, n);
        out := data[r..r + n];
        r := r + n;
        if r == data.Length {
          r := 0;
        }
      }
    }

    /**
     The read path. When the consumer's buffer fills up before the wrap-around, the offset
     difference `WrOff - RdOff` of the second chunk underflows; the minimum with the exhausted
     buffer size makes that harmless.
     */
    method Read(bufferSize: nat) returns (out: seq<byte>)
      requires Valid()
      modifies this`rd
      ensures Valid()
      ensures |out| == Min(bufferSize, |old(Contents())|)
      ensures old(Contents()) == out + Contents()
    {
      var first, r := ReadToWrap(bufferSize);
      var chunk, next := ReadStraight(bufferSize - |first|, r);
      assert first + (chunk + Queued(data[..], next, wr)) == first + chunk + Queued(data[..], next, wr);
      out := first + chunk;
      if out != [] {
        rd := next;
      }
    }

    /** Second half of the read path: what lies between there and the write offset. */
    method ReadStraight(limit: nat, r: nat) returns (chunk: seq<byte>, next: nat)
      requires Valid() && r < data.Length && (r > wr ==> limit == 0)
      ensures next < data.Length && |chunk| == Min(limit, Used(data.Length, r, wr)) && next == r + |chunk|
      ensures Queued(data[..], r, wr) == chunk + Queued(data[..], next, wr)
    {
      var n := Min(SubU32(wr, r), limit);
      StraightTake(data[..], r, wr, n);
      chunk := data[r..r + n];
      next := r + n;
    }

    /** One turn of the blocking write's loop: what fits before the wrap-around is posted. */
    method PostChunk(src: seq<byte>) returns (n: nat)
      requires Valid()
      modifies this`wr, data
      ensures Valid()
      ensures n == Min(Min(old(Free()), data.Length - old(wr)), |src|)
      ensures Contents() == old(Contents()) + src[..n]
      ensures wr == Slot(data.Length, old(wr), n) && Free() == old(Free()) - n
    {
      n := if rd > wr then rd - wr - 1 else data.Length - (wr - rd + 1);
      n := Min(n, data.Length - wr);
      n := Min(n, |src|);
      PutAppends(data[..], rd, wr, src[..n]);
      CopyIn(wr, src[..n]);
      wr := wr + n;
      if wr == data.Length {
        wr := 0;
      }
    }

    /** One turn of the blocking write's loop, after the host has taken up to `take` bytes. */
    method PollAndPost(src: seq<byte>, take: nat) returns (n: nat, batch: seq<byte>)
      requires Valid()
      modifies this`wr, this`rd, data
      ensures Valid() && n <= |src|
      ensures old(Contents()) + src[..n] == batch + Contents()
      ensures 2 <= data.Length && 1 <= take && src != [] ==> 1 <= n
      ensures |src| <= old(Free()) ==> |src| - n <= Free() && (n == |src| || (wr == 0 && old(wr) != 0))
    {
      ghost var before := Contents();
      batch := Read(take);
      ghost var mid := Contents();
      n := PostChunk(src);
      assert before + src[..n] == batch + (mid + src[..n]);
    }

    /**
     The blocking write. `host[p]` is the number of bytes the host takes before poll number `p`
     of the read offset; a schedule that ends early leaves the call still waiting. Nothing is
     lost or reordered whatever the host does; data that fits needs at most two polls even when
     the host never reads; and a host that takes something at every poll makes every poll count.
     */
    method WriteBlocking(src: seq<byte>, host: seq<nat>)
      returns (written: nat, polls: nat, taken: seq<byte>)
      requires Valid()
      modifies this`wr, this`rd, data
      ensures Valid()
      ensures written <= |src| && polls <= |host|
      ensures written < |src| ==> polls == |host|
      ensures old(Contents()) + src[..written] == taken + Contents()
      ensures |src| <= old(Free()) && 2 <= |host| ==> written == |src| && polls <= 2
      ensures 2 <= data.Length && Hungry(host) ==> written >= Min(|src|, |host|) && (polls <= written || polls <= 1)
    {
      written, polls, taken := 0, 0, [];
      ghost var start, fits, hungry := Contents(), |src| <= Free(), 2 <= data.Length && Hungry(host);
      while polls < |host|
        invariant Valid()
        invariant written <= |src| && polls <= |host|
        invariant written == |src| ==> polls == 0
        invariant start + src[..written] == taken + Contents()
        invariant fits ==> |src| - written <= Free() && polls <= 1 && (polls == 1 ==> wr == 0)
        invariant hungry ==> written >= polls
      {
        ghost var before := Contents();
        var n, batch := PollAndPost(src[written..], host[polls]);
        FifoStep(start, src, written, n, taken, before, batch, Contents());
        taken := taken + batch;
        polls := polls + 1;
        written := written + n;
        if written == |src| {
          break;
        }
      }
    }

    /** The overwriting write first moves the read offset out of the way of `n` bytes. */
    method MakeRoom(n: nat)
      requires Valid() && n + data.Length <= TWO_TO_THE_32
      modifies this`rd
      ensures Valid()
      ensures rd == if n <= old(Free()) then old(rd) else Rem(wr + n + 1, data.Length)
    {
      var size := data.Length;
      if rd < wr {
        WrappedFree(size, rd, wr);
      }
      var avail := if wr == rd then size - 1
                   else if wr < rd then rd - wr - 1
                   else AddU32(SubU32(SubU32(rd, wr), 1), size);
      assert avail == Free();
      if n > avail {
        MovedReadOffset(size, rd, wr, n);
        assert AddU32(rd, n - avail) == rd + (n - avail);
        rd := WrappedOffset(AddU32(rd, n - avail), size);
      }
    }

    /** The loop that brings an offset back into the ring. */
    static method WrappedOffset(offset: nat, size: nat) returns (rd: nat)
      requires 0 < size
      ensures rd == Rem(offset, size)
    {
      rd := offset;
      while rd >= size
        invariant Rem(rd, size) == Rem(offset, size)
      {
        rd := rd - size;
      }
    }

    /** A round of the copy loop that fills everything up to where it wraps around. */
    method WholeRound(src: seq<byte>, pos: nat, avail: nat, ghost buf: seq<byte>, ghost wr0: nat, ghost rounds: nat)
      returns (ghost done: nat)
      requires Valid() && 2 <= data.Length == |buf| && wr0 < |buf| && pos + avail <= |src|
      requires pos == 0 ==> wr == wr0 && avail == |buf| - wr && data[..] == buf
      requires pos != 0 ==> wr == 0 && avail == |buf| - 1 && Rounds(buf, data[..], wr0, src, pos, rounds)
      modifies this`wr, data
      ensures Valid() && wr == 0 && Rounds(buf, data[..], wr0, src, pos + avail, done)
    {
      ghost var before := data[..];
      CopyIn(wr, src[pos..pos + avail]);
      wr := 0;
      if pos == 0 {
        FirstRound(buf, wr0, src);
        done := 0;
      } else {
        NextRound(buf, before, wr0, src, pos, rounds);
        done := rounds + 1;
      }
    }

    /** The last round of the copy loop, which ends before the wrap-around. */
    method FinalRound(src: seq<byte>, pos: nat, avail: nat, ghost buf: seq<byte>, ghost wr0: nat, ghost rounds: nat)
      requires Valid() && 2 <= data.Length == |buf| && wr0 < |buf| && pos <= |src| < pos + avail
      requires pos == 0 ==> wr == wr0 && avail == |buf| - wr && data[..] == buf
      requires pos != 0 ==> wr == 0 && avail == |buf| - 1 && Rounds(buf, data[..], wr0, src, pos, rounds)
      modifies this`wr, data
      ensures Valid() && OverwriteStored(buf, data[..], wr0, src, wr)
    {
      ghost var before := data[..];
      CopyIn(wr, src[pos..]);
      wr := wr + (|src| - pos);
      if pos == 0 {
        OnlyRound(buf, wr0, src);
        assert src[pos..] == src;
      } else {
        LastRoundStored(buf, before, wr0, src, pos, rounds);
      }
    }

    /** The overwriting write's copy loop; its second and later rounds stop one slot early. */
    method StoreRounds(src: seq<byte>)
      requires Valid() && 2 <= data.Length
      modifies this`wr, data
      ensures Valid()
      ensures OverwriteStored(old(data[..]), data[..], old(wr), src, wr)
    {
      var size := data.Length;
      ghost var buf, wr0, rounds: nat := data[..], wr, 0;
      var avail, pos: nat := size - wr, 0;
      while true
        invariant Valid() && pos <= |src|
        invariant pos == 0 ==> wr == wr0 && avail == size - wr && data[..] == buf && rounds == 0
        invariant pos != 0 ==> wr == 0 && avail == size - 1 && pos < |src| && Rounds(buf, data[..], wr0, src, pos, rounds)
        decreases |src| - pos
      {
        if avail > |src| - pos {
          FinalRound(src, pos, avail, buf, wr0, rounds);
          break;
        }
        rounds := WholeRound(src, pos, avail, buf, wr0, rounds);
        pos := pos + avail;
        avail := size - 1;
        if pos == |src| {
          LastRoundStored(buf, data[..], wr0, src, pos, rounds);
          PutNothing(data[..], src[pos..]);
          break;
        }
      }
    }

    /**
     The overwriting write leaves the newest bytes of the old contents followed by the new data
     exactly when it stays below one wrap-around plus `SizeOfBuffer - 1` bytes, or when the bytes it
     has put in the wrong place happen to be equal.
     */
    method WriteWithOverwrite(src: seq<byte>)
      requires Valid() && 2 <= data.Length && |src| + data.Length <= TWO_TO_THE_32
      modifies this`wr, this`rd, data
      ensures Valid()
      ensures Contents() == Newest(old(Contents()) + src, data.Length - 1) <==>
              |src| < OverwriteBound(data.Length, old(wr)) || Coincides(data.Length, old(wr), src)
    {
      ghost var buf, rd0, wr0 := data[..], rd, wr;
      MakeRoom(|src|);
      StoreRounds(src);
      OverwriteOutcome(buf, rd0, wr0, src, data[..], rd, wr, Contents(), Newest(old(Contents()) + src, data.Length - 1));
    }

    /** Write in the mode the ring was configured with; returns the number of bytes accepted. */
    method Write(src: seq<byte>, host: seq<nat>) returns (status: nat, taken: seq<byte>)
      requires Valid()
      modifies this`wr, this`rd, data
      ensures Valid() && status <= |src|
      ensures old(Contents()) + src[..status] == taken + Contents()
      ensures mode.NoBlockSkip? ==>
        && (status == |src| || status == 0)
        && (old(Free()) < |src| ==> status == 0)
        && (|src| <= old(Free()) ==> status == |src|)
        && (data[..], wr) == var r := SkipWrite(old(data[..]), old(rd), old(wr), src); (r.1, r.2)
      ensures mode.NoBlockTrim? ==> status == Min(old(Free()), |src|)
      ensures mode.BlockIfFifoFull? ==>
        && (|src| <= old(Free()) && 2 <= |host| ==> status == |src|)
        && (2 <= data.Length && |src| <= |host| && Hungry(host) ==> status == |src|)
      ensures mode.OtherMode? ==> status == 0
      ensures !mode.BlockIfFifoFull? ==> taken == [] && rd == old(rd)
    {
      taken := [];
      match mode {
        case NoBlockSkip =>
          var avail := GetAvailWriteSpace();
          if avail < |src| {
            status := 0;
          } else {
            status := |src|;
            WriteNoCheck(src);
          }
        case NoBlockTrim =>
          var avail := GetAvailWriteSpace();
          status := if avail < |src| then avail else |src|;
          WriteNoCheck(src[..status]);
        case BlockIfFifoFull =>
          var polls: nat;
          status, polls, taken := WriteBlocking(src, host);
        case OtherMode =>
          status := 0;
      }
      assert src[..|src|] == src;
    }

    /** The three-case skip write: the same ring as `Write` in skip mode, for every input. */
    method WriteSkip(src: seq<byte>) returns (copied: bool)
      requires Valid()
      modifies this`wr, data
      ensures Valid()
      ensures (copied, data[..], wr) == SkipWrite(old(data[..]), old(rd), old(wr), src)
    {
      if rd <= wr {
        var avail := data.Length - wr - 1;
        if avail >= |src| {
          CopyIn(wr, src);
          wr := wr + |src|;
          return true;
        }
        avail := avail + rd;
        if avail >= |src| {
          var rem := data.Length - wr;
          CopyIn(wr, src[..rem]);
          if |src| - rem != 0 {
            CopyIn(0, src[rem..]);
          }
          wr := |src| - rem;
          assert data[..] == Put(old(data[..]), old(wr), src);
          return true;
        }
      } else {
        var avail := rd - wr - 1;
        if avail >= |src| {
          CopyIn(wr, src);
          wr := wr + |src|;
          return true;
        }
      }
      return false;
    }

    /** One byte in skip mode. */
    method PutCharSkip(c: byte) returns (status: nat)
      requires Valid()
      modifies this`wr, data
      ensures Valid()
      ensures (status == 1, data[..], wr) == SkipWrite(old(data[..]), old(rd), old(wr), [c])
      ensures status <= 1
    {
      var next := wr + 1;
      if next == data.Length {
        next := 0;
      }
      if next != rd {
        CopyIn(wr, [c]);
        wr := next;
        status := 1;
      } else {
        status := 0;
      }
    }

    /** Polls until the slot behind the write offset is not the read offset, or the schedule ends. */
    method WaitForSlot(host: seq<nat>) returns (taken: seq<byte>)
      requires Valid()
      modifies this`rd
      ensures Valid()
      ensures old(Contents()) == taken + Contents()
      ensures 1 <= Free() <==> 1 <= old(Free()) || (2 <= data.Length && exists p :: 0 <= p < |host| && 1 <= host[p])
    {
      taken := [];
      var p: nat := 0;
      while p < |host|
        invariant p <= |host| && Valid()
        invariant old(Contents()) == taken + Contents()
        invariant 1 <= Free() <==> 1 <= old(Free()) || (2 <= data.Length && exists q :: 0 <= q < p && 1 <= host[q])
      {
        taken := Poll(host[p], old(Contents()), taken);
        p := p + 1;
        if Slot(data.Length, wr, 1) != rd {
          break;
        }
      }
    }

    /** A poll, and the bytes the host has taken before it. */
    method Poll(take: nat, ghost all: seq<byte>, taken: seq<byte>) returns (more: seq<byte>)
      requires Valid() && all == taken + Contents()
      modifies this`rd
      ensures Valid() && all == more + Contents()
      ensures 1 <= Free() <==> 1 <= old(Free()) || (2 <= data.Length && 1 <= take)
    {
      var batch := Read(take);
      assert taken + (batch + Contents()) == taken + batch + Contents();
      more := taken + batch;
    }

    /**
     One byte in the configured mode. In blocking mode the call polls the read offset until the
     slot is free; `host[p]` bytes are taken before poll `p`.
     */
    method PutChar(c: byte, host: seq<nat>) returns (status: nat, taken: seq<byte>)
      requires Valid()
      modifies this`wr, this`rd, data
      ensures Valid() && status <= 1
      ensures old(Contents()) + [c][..status] == taken + Contents()
      ensures !mode.BlockIfFifoFull? ==> taken == [] && (status == 1 <==> 1 <= old(Free()))
      ensures mode.BlockIfFifoFull? ==>
        (status == 1 <==> 1 <= old(Free()) || (2 <= data.Length && exists p :: 0 <= p < |host| && 1 <= host[p]))
    {
      taken := [];
      if mode.BlockIfFifoFull? {
        taken := WaitForSlot(host);
      }
      ghost var before := Contents();
      status := PutCharSkip(c);
      assert taken + before + [c][..status] == taken + (before + [c][..status]);
    }

    /** The number of bytes reported as used is the length of the queue exactly when RdOff <= WrOff. */
    method GetBytesInBuffer() returns (r: nat)
      requires Valid() && data.Length <= TWO_TO_THE_32 / 2
      ensures r == |Contents()| <==> rd <= wr
    {
      if rd <= wr {
        r := wr - rd;
      } else {
        r := SubU32(data.Length, SubU32(wr, rd));
      }
    }
  }
}
