/**
 How much one read and one write move, whatever the other side does meanwhile: each works on the
 offset it has looked at, and moves exactly as much as that one promises. Neither side ever waits.
 */
module RttProgress {
  import opened Machine
  import opened RttRing
  import opened RttInterleaving
  import opened Runs

  /** How many accepted bytes the host has not retired. */
  function Unread(s: State): int {
    |s.accepted| - |s.received|
  }

  /** How many bytes the ring still has room for; one slot always stays free. */
  function Room(s: State): int {
    |s.buf| - 1 - Unread(s)
  }

  lemma UnreadIsQueue(s: State)
    requires Inv(s)
    ensures 0 <= Unread(s) == Used(|s.buf|, s.rd, s.wr) < |s.buf|
    ensures s.received <= s.accepted
  {
  }

  lemma {:induction false} ReachedConcat(s: State, xs: seq<Event>, ys: seq<Event>)
    requires Reached(s, xs).Some?
    ensures Reached(s, xs + ys) == Reached(Reached(s, xs).value, ys)
    decreases |xs|
  {
    if xs == [] {
      assert xs + ys == ys;
    } else {
      assert (xs + ys)[1..] == xs[1..] + ys;
      ReachedConcat(Next(s, xs[0]).value, xs[1..], ys);
    }
  }

  lemma {:induction false} ReachedPrefix(s: State, xs: seq<Event>, ys: seq<Event>)
    requires Reached(s, xs + ys).Some?
    ensures Reached(s, xs).Some?
    decreases |xs|
  {
    if xs != [] {
      assert (xs + ys)[1..] == xs[1..] + ys;
      ReachedPrefix(Next(s, xs[0]).value, xs[1..], ys);
    }
  }

  lemma ReachedOne(s: State, e: Event)
    ensures Reached(s, [e]) == Next(s, e)
  {
    assert [e][1..] == [];
  }

  // ---------- one read ----------

  /** Between See in state `s` and Retire, when the host asks for `k` bytes. */
  ghost predicate Reading(s: State, k: nat, t: State) {
    && Inv(t) && |t.buf| == |s.buf| && t.rd == s.rd && t.received == s.received && s.accepted <= t.accepted
    && match t.reader
       case Idle => false
       case Saw(wrSnap) => wrSnap == s.wr
       case Fetching(n, _) => n == if k < Unread(s) then k else Unread(s)
  }

  /** An event of a read of `k` bytes, or any event of the target. */
  predicate WhileReading(k: nat, e: Event) {
    !e.Retire? && (e.Fetch? ==> e.bufferSize == k)
  }

  lemma ReadingStep(s: State, k: nat, t: State, e: Event)
    requires Inv(s) && Reading(s, k, t) && WhileReading(k, e) && Next(t, e).Some?
    ensures Reading(s, k, Next(t, e).value)
  {
    StepInv(t, e);
    UnreadIsQueue(s);
  }

  lemma {:induction false} ReadingRun(s: State, k: nat, t: State, events: seq<Event>)
    requires Inv(s) && Reading(s, k, t) && Reached(t, events).Some?
    requires forall i :: 0 <= i < |events| ==> WhileReading(k, events[i])
    ensures Reading(s, k, Reached(t, events).value)
    decreases |events|
  {
    if events != [] {
      ReadingStep(s, k, t, events[0]);
      ReadingRun(s, k, Next(t, events[0]).value, events[1..]);
    }
  }

  lemma ReadingEnds(s: State, k: nat, t: State)
    requires Inv(s) && Reading(s, k, t) && RetireRdOff(t).Some?
    ensures var u := RetireRdOff(t).value;
            u.reader.Idle? && u.received == s.accepted[..Min(|s.received| + k, |s.accepted|)]
  {
    UnreadIsQueue(s);
    var batch := Batch(t);
    TakeOldest(t.buf, t.rd, t.wr, batch);
    FrontOf(t.received, batch, Queued(t.buf, Slot(|t.buf|, t.rd, |batch|), t.wr), t.accepted, s.accepted);
  }

  lemma FrontOf(a: seq<byte>, b: seq<byte>, c: seq<byte>, all: seq<byte>, front: seq<byte>)
    requires all == a + (b + c) && front <= all && |a| + |b| <= |front|
    ensures a + b == front[..|a| + |b|]
  {
    assert all[..|a| + |b|] == a + b;
  }

  /**
   Every read, from any state that any interleaving reaches: whatever the target does between the
   steps, the host gets exactly the next `k` bytes that were accepted when it looked at WrOff, or
   all of them if there were fewer.
   */
  lemma ReadReturns(buf: seq<byte>, events: seq<Event>, during: seq<Event>, k: nat)
    requires buf != [] && Reached(Initial(buf), events).Some?
    requires forall i :: 0 <= i < |during| ==> WhileReading(k, during[i])
    requires Reached(Initial(buf), events).value.reader.Idle?
    requires Reached(Reached(Initial(buf), events).value, [See] + (during + [Retire])).Some?
    ensures var s := Reached(Initial(buf), events).value;
            var t := Reached(s, [See] + (during + [Retire])).value;
            && t.received == s.accepted[..Min(|s.received| + k, |s.accepted|)]
            && |t.received| - |s.received| == if k < Unread(s) then k else Unread(s)
  {
    InitialInv(buf);
    RunInv(Initial(buf), events);
    var s := Reached(Initial(buf), events).value;
    UnreadIsQueue(s);
    var seen := LookAtWrOff(s).value;
    assert ([See] + (during + [Retire]))[1..] == during + [Retire];
    ReadingSeen(s, k);
    ReachedPrefix(seen, during, [Retire]);
    ReachedConcat(seen, during, [Retire]);
    ReadingRun(s, k, seen, during);
    ReachedOne(Reached(seen, during).value, Retire);
    ReadingEnds(s, k, Reached(seen, during).value);
  }

  lemma ReadingSeen(s: State, k: nat)
    requires Inv(s) && s.reader.Idle?
    ensures Reading(s, k, LookAtWrOff(s).value)
  {
    StepInv(s, See);
  }

  // ---------- one write ----------

  /** What is posted of the call's data, with the room there was when the target looked. */
  ghost predicate IsPosted(s: State, policy: Policy, chunk: seq<byte>, rest: seq<byte>) {
    match policy
    case Skip => rest == [] && chunk == if |s.todo| <= Room(s) then s.todo else []
    case Trim => rest == [] && chunk <= s.todo && |chunk| == if |s.todo| <= Room(s) then |s.todo| else Room(s)
    case Blocking =>
      && chunk + rest == s.todo
      && (|chunk| == |s.todo| || |chunk| == Room(s) || s.wr + |chunk| == |s.buf|)
      && |chunk| <= Room(s) && s.wr + |chunk| <= |s.buf|
  }

  /** Between Look in state `s` and Publish. */
  ghost predicate Writing(s: State, policy: Policy, t: State) {
    && Inv(t) && |t.buf| == |s.buf| && t.wr == s.wr && t.accepted == s.accepted && t.asked == s.asked
    && match t.writer
       case Ready => false
       case Looked(rdSnap) => rdSnap == s.rd && t.todo == s.todo && t.lossless == s.lossless
       case Copying(chunk, _) =>
         IsPosted(s, policy, chunk, t.todo) && (t.lossless <==> s.lossless && chunk + t.todo == s.todo)
  }

  /** An event of a write under `policy`, or any event of the host. */
  predicate WhileWriting(policy: Policy, e: Event) {
    !e.Publish? && (e.Post? ==> e.policy == policy)
  }

  lemma PostPosts(s: State, policy: Policy, t: State)
    requires Inv(s) && Writing(s, policy, t) && PostTodo(t, policy).Some?
    ensures var u := PostTodo(t, policy).value; u.writer.Copying? && IsPosted(s, policy, u.writer.chunk, u.todo)
    ensures var u := PostTodo(t, policy).value; u.lossless <==> s.lossless && u.writer.chunk + u.todo == s.todo
  {
    UnreadIsQueue(s);
    var u := PostTodo(t, policy).value;
    assert u.writer.chunk + u.todo == s.todo ==> |u.writer.chunk| + |u.todo| == |s.todo|;
  }

  lemma WritingStep(s: State, policy: Policy, t: State, e: Event)
    requires Inv(s) && Writing(s, policy, t) && WhileWriting(policy, e) && Next(t, e).Some?
    ensures Writing(s, policy, Next(t, e).value)
  {
    StepInv(t, e);
    if e.Post? {
      PostPosts(s, policy, t);
    }
  }

  lemma {:induction false} WritingRun(s: State, policy: Policy, t: State, events: seq<Event>)
    requires Inv(s) && Writing(s, policy, t) && Reached(t, events).Some?
    requires forall i :: 0 <= i < |events| ==> WhileWriting(policy, events[i])
    ensures Writing(s, policy, Reached(t, events).value)
    decreases |events|
  {
    if events != [] {
      WritingStep(s, policy, t, events[0]);
      WritingRun(s, policy, Next(t, events[0]).value, events[1..]);
    }
  }

  /** The write that began in `s` has ended in `t`. */
  ghost predicate Published(s: State, policy: Policy, t: State) {
    && s.accepted <= t.accepted && t.asked == s.asked && t.writer.Ready?
    && IsPosted(s, policy, t.accepted[|s.accepted|..], t.todo)
    && (t.lossless <==> s.lossless && t.accepted[|s.accepted|..] + t.todo == s.todo)
  }

  lemma WritingEnds(s: State, policy: Policy, t: State)
    requires Inv(s) && Writing(s, policy, t) && PublishWrOff(t).Some?
    ensures Published(s, policy, PublishWrOff(t).value)
  {
    var chunk := t.writer.chunk;
    assert (s.accepted + chunk)[|s.accepted|..] == chunk;
  }

  lemma WritingLooked(s: State, policy: Policy)
    requires Inv(s) && LookAtRdOff(s).Some?
    ensures Writing(s, policy, LookAtRdOff(s).value)
  {
    StepInv(s, Look);
  }

  /**
   Every write, from any state that any interleaving reaches: whatever the host does between the
   steps, exactly what the room seen at Look allows is accepted. Skip takes all or nothing, trim the
   longest prefix that fits, and blocking as much as fits before the wrap-around, keeping the rest.
   */
  lemma WritePublishes(buf: seq<byte>, events: seq<Event>, during: seq<Event>, policy: Policy)
    requires buf != [] && Reached(Initial(buf), events).Some?
    requires forall i :: 0 <= i < |during| ==> WhileWriting(policy, during[i])
    requires Reached(Reached(Initial(buf), events).value, [Look] + (during + [Publish])).Some?
    ensures var s := Reached(Initial(buf), events).value;
            var t := Reached(s, [Look] + (during + [Publish])).value;
            Published(s, policy, t)
  {
    InitialInv(buf);
    RunInv(Initial(buf), events);
    var s := Reached(Initial(buf), events).value;
    assert ([Look] + (during + [Publish]))[1..] == during + [Publish];
    var looked := LookAtRdOff(s).value;
    WritingLooked(s, policy);
    ReachedPrefix(looked, during, [Publish]);
    ReachedConcat(looked, during, [Publish]);
    WritingRun(s, policy, looked, during);
    ReachedOne(Reached(looked, during).value, Publish);
    WritingEnds(s, policy, Reached(looked, during).value);
  }

  // ---------- nobody waits ----------

  /**
   In every reachable state the steps of both sides are enabled as their own progress asks: the
   target begins a call when the last one is done and looks when there is something to post, the
   host looks when it is idle, and copying, fetching and moving the offset never wait for the other side.
   */
  lemma NobodyWaits(buf: seq<byte>, events: seq<Event>, e: Event)
    requires buf != [] && Reached(Initial(buf), events).Some?
    ensures var s := Reached(Initial(buf), events).value;
            Next(s, e).Some? <==>
              match e
              case Call(_) => s.writer.Ready? && s.todo == []
              case Look => s.writer.Ready? && s.todo != []
              case Post(_) => s.writer.Looked?
              case CopyByte(j) => s.writer.Copying? && j < |s.writer.chunk| && j !in s.writer.copied
              case Publish => s.writer.Copying? && forall j: nat :: j < |s.writer.chunk| ==> j in s.writer.copied
              case See => s.reader.Idle?
              case Fetch(_) => s.reader.Saw?
              case FetchByte(k) => s.reader.Fetching? && k < s.reader.n
              case Retire => s.reader.Fetching? && forall k: nat :: k < s.reader.n ==> k in s.reader.got
  {
    InitialInv(buf);
    RunInv(Initial(buf), events);
  }

  function FetchesFrom(j: nat, n: nat): (events: seq<Event>)
    requires j <= n
    decreases n - j
  {
    if j == n then [Retire] else [FetchByte(j)] + FetchesFrom(j + 1, n)
  }

  lemma {:induction false} FetchesRun(t: State, j: nat)
    requires Inv(t) && t.reader.Fetching? && j <= t.reader.n && forall k: nat :: k < j ==> k in t.reader.got
    ensures Reached(t, FetchesFrom(j, t.reader.n)).Some?
    decreases t.reader.n - j
  {
    var n := t.reader.n;
    if j == n {
      ReachedOne(t, Retire);
    } else {
      StepInv(t, FetchByte(j));
      var u := FetchOneByte(t, j).value;
      FetchesRun(u, j + 1);
      assert FetchesFrom(j, n)[1..] == FetchesFrom(j + 1, n);
    }
  }

  /** The host can always read on its own: as many fetches as there are bytes to take, and it has them. */
  lemma ReadCompletes(buf: seq<byte>, events: seq<Event>, k: nat)
    requires buf != [] && Reached(Initial(buf), events).Some? && Reached(Initial(buf), events).value.reader.Idle?
    ensures var s := Reached(Initial(buf), events).value;
            && Unread(s) >= 0
            && Reached(s, [See, Fetch(k)] + FetchesFrom(0, Min(k, Unread(s)))).Some?
  {
    InitialInv(buf);
    RunInv(Initial(buf), events);
    var s := Reached(Initial(buf), events).value;
    UnreadIsQueue(s);
    var n := Min(k, Unread(s));
    StepInv(s, See);
    var t := LookAtWrOff(s).value;
    StepInv(t, Fetch(k));
    var u := BeginFetch(t, k).value;
    FetchesRun(u, 0);
    var all := [See, Fetch(k)] + FetchesFrom(0, n);
    assert all[1..][0] == Fetch(k) && all[1..][1..] == FetchesFrom(0, n);
    assert Reached(t, all[1..]) == Reached(u, FetchesFrom(0, n));
  }

  function CopiesFrom(j: nat, n: nat): (events: seq<Event>)
    requires j <= n
    decreases n - j
  {
    if j == n then [Publish] else [CopyByte(j)] + CopiesFrom(j + 1, n)
  }

  lemma {:induction false} CopiesRun(t: State, j: nat)
    requires Inv(t) && t.writer.Copying? && j <= |t.writer.chunk|
    requires forall i: nat :: i in t.writer.copied <==> i < j
    ensures Reached(t, CopiesFrom(j, |t.writer.chunk|)).Some?
    decreases |t.writer.chunk| - j
  {
    var n := |t.writer.chunk|;
    if j == n {
      ReachedOne(t, Publish);
    } else {
      StepInv(t, CopyByte(j));
      var u := CopyOneByte(t, j).value;
      CopiesRun(u, j + 1);
      assert CopiesFrom(j, n)[1..] == CopiesFrom(j + 1, n);
    }
  }

  /** The target can always post on its own. */
  lemma WriteCompletes(buf: seq<byte>, events: seq<Event>, policy: Policy)
    requires buf != [] && Reached(Initial(buf), events).Some?
    requires var s := Reached(Initial(buf), events).value; s.writer.Ready? && s.todo != []
    ensures var s := Reached(Initial(buf), events).value;
            exists n: nat :: Reached(s, [Look, Post(policy)] + CopiesFrom(0, n)).Some?
  {
    InitialInv(buf);
    RunInv(Initial(buf), events);
    var s := Reached(Initial(buf), events).value;
    StepInv(s, Look);
    var t := LookAtRdOff(s).value;
    StepInv(t, Post(policy));
    var u := PostTodo(t, policy).value;
    var n := |u.writer.chunk|;
    CopiesRun(u, 0);
    var all := [Look, Post(policy)] + CopiesFrom(0, n);
    assert all[1..][0] == Post(policy) && all[1..][1..] == CopiesFrom(0, n);
    assert Reached(t, all[1..]) == Reached(u, CopiesFrom(0, n));
  }
}
