/**
 The up-buffer shared without locks by the target (producer) and the debug probe (consumer).
 A write is four kinds of steps: look at RdOff, decide what to post, copy single bytes in any
 order, publish WrOff. A read is the mirror image. Events of the two sides interleave freely;
 memory is sequentially consistent, which is what the data memory barriers are there for.
 */
module RttInterleaving {
  import opened Machine
  import opened RttRing
  import opened Runs

  datatype Writer =
    | Ready
    | Looked(rdSnap: nat)
    | Copying(chunk: seq<byte>, copied: set<nat>)

  datatype Reader =
    | Idle
    | Saw(wrSnap: nat)
    | Fetching(n: nat, got: map<nat, byte>)

  /**
   `todo` is the part of the current call's data that has not been posted yet. The histories:
   `asked` is everything the calls were given, `accepted` everything published through WrOff,
   `received` everything the host has retired through RdOff; `lossless` says that no
   non-blocking call has dropped anything.
   */
  datatype State = State(
    buf: seq<byte>, rd: nat, wr: nat,
    writer: Writer, todo: seq<byte>,
    reader: Reader,
    asked: seq<byte>, accepted: seq<byte>, received: seq<byte>, lossless: bool)

  datatype Policy = Blocking | Skip | Trim

  datatype Event =
    | Call(src: seq<byte>)
    | Look
    | Post(policy: Policy)
    | CopyByte(j: nat)
    | Publish
    | See
    | Fetch(bufferSize: nat)
    | FetchByte(k: nat)
    | Retire

  /** The producer's free-space computation, from whatever RdOff it has looked at. */
  function Avail(size: nat, rd: nat, wr: nat): nat
    requires rd < size && wr < size
  {
    if rd > wr then rd - wr - 1 else size - (wr - rd + 1)
  }

  /** How much of `todo` the producer posts at once. */
  function ChunkSize(policy: Policy, size: nat, rdSnap: nat, wr: nat, todo: nat): nat
    requires rdSnap < size && wr < size
  {
    var avail := Avail(size, rdSnap, wr);
    match policy
    case Blocking => Min(Min(avail, size - wr), todo)
    case Skip => if avail < todo then 0 else todo
    case Trim => if avail < todo then avail else todo
  }

  ghost predicate OffsetsInRange(s: State) {
    s.rd < |s.buf| && s.wr < |s.buf|
  }

  // ---------- the producer's steps ----------

  function BeginCall(s: State, src: seq<byte>): Option<State> {
    if s.writer.Ready? && s.todo == [] then Some(s.(todo := src, asked := s.asked + src)) else None
  }

  function LookAtRdOff(s: State): Option<State> {
    if s.writer.Ready? && s.todo != [] then Some(s.(writer := Looked(s.rd))) else None
  }

  function PostTodo(s: State, policy: Policy): Option<State> {
    if s.writer.Looked? && s.writer.rdSnap < |s.buf| && s.wr < |s.buf| then
      var n := ChunkSize(policy, |s.buf|, s.writer.rdSnap, s.wr, |s.todo|);
      var rest := if policy.Blocking? then s.todo[n..] else [];
      Some(s.(writer := Copying(s.todo[..n], {}), todo := rest,
              lossless := s.lossless && (policy.Blocking? || n == |s.todo|)))
    else None
  }

  function CopyOneByte(s: State, j: nat): Option<State> {
    if s.writer.Copying? && s.wr < |s.buf| && j < |s.writer.chunk| <= |s.buf| && j !in s.writer.copied then
      Some(s.(buf := s.buf[Slot(|s.buf|, s.wr, j) := s.writer.chunk[j]],
              writer := s.writer.(copied := s.writer.copied + {j})))
    else None
  }

  function PublishWrOff(s: State): Option<State> {
    if && s.writer.Copying? && s.wr < |s.buf| && |s.writer.chunk| <= |s.buf|
       && (forall j: nat :: j < |s.writer.chunk| ==> j in s.writer.copied)
    then
      Some(s.(wr := Slot(|s.buf|, s.wr, |s.writer.chunk|), accepted := s.accepted + s.writer.chunk, writer := Ready))
    else None
  }

  // ---------- the consumer's steps ----------

  function LookAtWrOff(s: State): Option<State> {
    if s.reader.Idle? then Some(s.(reader := Saw(s.wr))) else None
  }

  function BeginFetch(s: State, bufferSize: nat): Option<State> {
    if s.reader.Saw? && s.reader.wrSnap < |s.buf| && s.rd < |s.buf| then
      Some(s.(reader := Fetching(Min(bufferSize, Used(|s.buf|, s.rd, s.reader.wrSnap)), map[])))
    else None
  }

  function FetchOneByte(s: State, k: nat): Option<State> {
    if s.reader.Fetching? && s.rd < |s.buf| && k < s.reader.n <= |s.buf| then
      Some(s.(reader := s.reader.(got := s.reader.got[k := s.buf[Slot(|s.buf|, s.rd, k)]])))
    else None
  }

  function RetireRdOff(s: State): Option<State> {
    if && s.reader.Fetching? && s.rd < |s.buf| && s.reader.n <= |s.buf|
       && (forall k: nat :: k < s.reader.n ==> k in s.reader.got)
    then
      Some(s.(rd := Slot(|s.buf|, s.rd, s.reader.n), received := s.received + Batch(s), reader := Idle))
    else None
  }

  /** The bytes of a finished fetch, oldest first. */
  function Batch(s: State): seq<byte>
    requires s.reader.Fetching? && forall k: nat :: k < s.reader.n ==> k in s.reader.got
  {
    seq(s.reader.n, k requires 0 <= k < s.reader.n => s.reader.got[k])
  }

  /** One step of either side; None when the event is not enabled. */
  function Next(s: State, e: Event): Option<State> {
    match e
    case Call(src) => BeginCall(s, src)
    case Look => LookAtRdOff(s)
    case Post(policy) => PostTodo(s, policy)
    case CopyByte(j) => CopyOneByte(s, j)
    case Publish => PublishWrOff(s)
    case See => LookAtWrOff(s)
    case Fetch(bufferSize) => BeginFetch(s, bufferSize)
    case FetchByte(k) => FetchOneByte(s, k)
    case Retire => RetireRdOff(s)
  }

  /** The state the steps `events` lead to; None when one of them is not enabled. */
  function Reached(s: State, events: seq<Event>): Option<State>
    decreases |events|
  {
    if events == [] then Some(s)
    else
      match Next(s, events[0])
      case None => None
      case Some(t) => Reached(t, events[1..])
  }

  function Initial(buf: seq<byte>): State {
    State(buf, 0, 0, Ready, [], Idle, [], [], [], true)
  }

  function InFlight(s: State): seq<byte> {
    if s.writer.Copying? then s.writer.chunk else []
  }

  /** The producer's private view is at worst stale, and its copies touch free slots only. */
  ghost predicate WriterInv(s: State)
    requires OffsetsInRange(s)
  {
    match s.writer
    case Ready => true
    case Looked(rdSnap) => rdSnap < |s.buf| && Used(|s.buf|, s.rd, s.wr) <= Used(|s.buf|, rdSnap, s.wr)
    case Copying(chunk, copied) =>
      && |chunk| <= |s.buf| - 1 - Used(|s.buf|, s.rd, s.wr)
      && (forall j: nat :: j in copied && j < |chunk| ==> s.buf[Slot(|s.buf|, s.wr, j)] == chunk[j])
  }

  /** The consumer's private view is at worst stale, and what it has fetched is still queued. */
  ghost predicate ReaderInv(s: State)
    requires OffsetsInRange(s)
  {
    match s.reader
    case Idle => true
    case Saw(wrSnap) => wrSnap < |s.buf| && Used(|s.buf|, s.rd, wrSnap) <= Used(|s.buf|, s.rd, s.wr)
    case Fetching(n, got) =>
      && n <= Used(|s.buf|, s.rd, s.wr)
      && (forall k: nat :: k in got && k < n ==> got[k] == s.buf[Slot(|s.buf|, s.rd, k)])
  }

  ghost predicate Inv(s: State) {
    && OffsetsInRange(s)
    && s.received + Queued(s.buf, s.rd, s.wr) == s.accepted
    && WriterInv(s)
    && ReaderInv(s)
    && (s.lossless ==> s.asked == s.accepted + InFlight(s) + s.todo)
  }

  lemma InitialInv(buf: seq<byte>)
    requires buf != []
    ensures Inv(Initial(buf))
  {
  }

  lemma CallStep(s: State, src: seq<byte>)
    requires Inv(s) && BeginCall(s, src).Some?
    ensures Inv(BeginCall(s, src).value)
  {
    assert s.accepted + [] + [] == s.accepted;
  }

  lemma PostStep(s: State, policy: Policy)
    requires Inv(s) && PostTodo(s, policy).Some?
    ensures Inv(PostTodo(s, policy).value)
  {
    var t := PostTodo(s, policy).value;
    assert t.lossless ==> InFlight(t) + t.todo == s.todo;
    assert s.accepted + [] + s.todo == s.accepted + s.todo;
    assert s.accepted + (InFlight(t) + t.todo) == s.accepted + InFlight(t) + t.todo;
  }

  /** A copied byte lands in a free slot: nothing queued changes. */
  lemma CopyLeavesQueue(s: State, j: nat)
    requires Inv(s) && CopyOneByte(s, j).Some?
    ensures Queued(CopyOneByte(s, j).value.buf, s.rd, s.wr) == Queued(s.buf, s.rd, s.wr)
  {
    FreeSlotUpdate(s.buf, s.rd, s.wr, j, s.writer.chunk[j]);
  }

  lemma FreeSlotUpdate(buf: seq<byte>, rd: nat, wr: nat, j: nat, c: byte)
    requires rd < |buf| && wr < |buf| && j < |buf| - 1 - Used(|buf|, rd, wr)
    ensures Queued(buf[Slot(|buf|, wr, j) := c], rd, wr) == Queued(buf, rd, wr)
  {
  }

  lemma CopyStep(s: State, j: nat)
    requires Inv(s) && CopyOneByte(s, j).Some?
    ensures Inv(CopyOneByte(s, j).value)
  {
    CopyLeavesQueue(s, j);
  }

  lemma PublishStep(s: State)
    requires Inv(s) && PublishWrOff(s).Some?
    ensures Inv(PublishWrOff(s).value)
  {
    var t := PublishWrOff(s).value;
    var chunk, queue := s.writer.chunk, Queued(s.buf, s.rd, s.wr);
    PublishAppends(s.buf, s.rd, s.wr, chunk);
    assert s.received + (queue + chunk) == s.received + queue + chunk;
    assert t.accepted + [] == s.accepted + chunk;
  }

  /** What a finished fetch holds are the oldest queued bytes. */
  lemma RetireStep(s: State)
    requires Inv(s) && RetireRdOff(s).Some?
    ensures Inv(RetireRdOff(s).value)
  {
    var t := RetireRdOff(s).value;
    TakeOldest(s.buf, s.rd, s.wr, Batch(s));
    assert s.received + (Batch(s) + Queued(t.buf, t.rd, t.wr)) == t.received + Queued(t.buf, t.rd, t.wr);
  }

  lemma StepInv(s: State, e: Event)
    requires Inv(s) && Next(s, e).Some?
    ensures Inv(Next(s, e).value)
  {
    match e
    case Call(src) => CallStep(s, src);
    case Look =>
    case Post(policy) => PostStep(s, policy);
    case CopyByte(j) => CopyStep(s, j);
    case Publish => PublishStep(s);
    case See =>
    case Fetch(bufferSize) =>
    case FetchByte(k) =>
    case Retire => RetireStep(s);
  }

  lemma {:induction false} RunInv(s: State, events: seq<Event>)
    requires Inv(s) && Reached(s, events).Some?
    ensures Inv(Reached(s, events).value)
    decreases |events|
  {
    if events == [] {
    } else {
      StepInv(s, events[0]);
      RunInv(Next(s, events[0]).value, events[1..]);
    }
  }

  /**
   Safety of every interleaving: both offsets stay inside the buffer, what the host has received
   is a prefix of what the target has accepted, the rest is still queued, and as long as only
   blocking writes (or non-blocking ones that fitted) were posted, every byte ever handed in is
   received, queued, being copied or still to be posted, in that order.
   */
  lemma HostReceivesPrefix(buf: seq<byte>, events: seq<Event>)
    requires buf != [] && Reached(Initial(buf), events).Some?
    ensures var s := Reached(Initial(buf), events).value;
            && OffsetsInRange(s)
            && s.received <= s.accepted
            && s.accepted == s.received + Queued(s.buf, s.rd, s.wr)
            && (s.lossless ==> s.asked == s.received + Queued(s.buf, s.rd, s.wr) + InFlight(s) + s.todo)
  {
    InitialInv(buf);
    RunInv(Initial(buf), events);
  }

  /**
   In every interleaving a stale RdOff only under-reports free space, a stale WrOff only
   under-reports available data, and a byte being copied never lands on an unread one.
   */
  lemma StaleViewsAreSafe(buf: seq<byte>, events: seq<Event>)
    requires buf != [] && Reached(Initial(buf), events).Some?
    ensures var s := Reached(Initial(buf), events).value;
            && OffsetsInRange(s)
            && (s.writer.Looked? ==> s.writer.rdSnap < |s.buf| && Avail(|s.buf|, s.writer.rdSnap, s.wr) <= Avail(|s.buf|, s.rd, s.wr))
            && (s.reader.Saw? ==> s.reader.wrSnap < |s.buf| && Used(|s.buf|, s.rd, s.reader.wrSnap) <= Used(|s.buf|, s.rd, s.wr))
            && (forall j: nat :: CopyOneByte(s, j).Some? ==>
                Queued(CopyOneByte(s, j).value.buf, s.rd, s.wr) == Queued(s.buf, s.rd, s.wr))
  {
    InitialInv(buf);
    RunInv(Initial(buf), events);
    var s := Reached(Initial(buf), events).value;
    forall j: nat | CopyOneByte(s, j).Some?
      ensures Queued(CopyOneByte(s, j).value.buf, s.rd, s.wr) == Queued(s.buf, s.rd, s.wr)
    {
      CopyLeavesQueue(s, j);
    }
  }
}
