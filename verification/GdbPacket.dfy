/**
 The packet layer of the GDB remote protocol: `$` payload `#` checksum, with `}` escapes. The
 receiver is specified as a machine that takes one character at a time; the nested loops that
 implement it are proved to follow that machine, and the machine to undo the sender.
 */
module GdbPacket {
  import opened Machine
  import opened Runs
  import HexCodec

  const START: byte := 0x24        // '$'
  const END: byte := 0x23          // '#'
  const ESCAPE: byte := 0x7D       // '}'
  const REMOTE_SOM: byte := 0x21   // '!'
  const ACK: byte := 0x2B          // '+'
  const NACK: byte := 0x2D         // '-'
  const END_OF_FILE: byte := 0x04

  // ---------- checksum text ----------

  function HexValue(c: byte): Option<byte> {
    if 48 <= c <= 57 then Some(c - 48)
    else if 65 <= c <= 70 then Some(c - 55)
    else if 97 <= c <= 102 then Some(c - 87)
    else None
  }

  predicate IsSpace(c: byte) {
    c == 32 || 9 <= c <= 13
  }

  /**
   strtol in base 16 on two characters, as far as it can equal a checksum: the value, or None when
   it is negative. A blank or a sign may precede a single digit, and what is no number reads as 0.
   */
  function ParseChecksum(c1: byte, c2: byte): Option<byte> {
    var last := if HexValue(c2).Some? then HexValue(c2).value else 0;
    if IsSpace(c1) || c1 == ACK then Some(last)
    else if c1 == NACK then (if last == 0 then Some(0) else None)
    else
      match HexValue(c1)
      case None => Some(0)
      case Some(first) => if HexValue(c2).Some? then Some((first << 4) | last) else Some(first)
  }

  /** One digit of "%02X". */
  function UpperDigit(n: byte): byte
    requires n < 16
  {
    if n < 10 then 48 + n else 55 + n
  }

  /** The character is the digit of `n`, in either case. */
  predicate Writes(c: byte, n: nat) {
    n < 16 && (c as int == LOWER_DIGITS[n] as int || c as int == UPPER_DIGITS[n] as int)
  }

  predicate NoDigit(c: byte) {
    forall n: nat :: n < 16 ==> !Writes(c, n)
  }

  /** What may stand before a number: a blank, a tabulator, a line end or a plus sign. */
  predicate Leads(c: byte) {
    c as int in {' ' as int, '\t' as int, '\n' as int, 11, 12, '\r' as int, '+' as int}
  }

  /** Two characters that stand for `csum`, as strtol reads them in base 16. */
  ghost predicate Denotes(c1: byte, c2: byte, csum: byte) {
    || (exists hi: nat, lo: nat :: Writes(c1, hi) && Writes(c2, lo) && csum as int == 16 * hi + lo)
    || (NoDigit(c2) && exists hi: nat :: Writes(c1, hi) && csum as int == hi)
    || (Leads(c1) && exists lo: nat :: Writes(c2, lo) && csum as int == lo)
    || (csum == 0 && Leads(c1) && NoDigit(c2))
    || (csum == 0 && c1 == NACK && (Writes(c2, 0) || NoDigit(c2)))
    || (csum == 0 && NoDigit(c1) && !Leads(c1) && c1 != NACK)
  }

  /** The digit values, character by character. */
  lemma DigitOf(c: byte, n: nat)
    ensures Writes(c, n) <==> HexValue(c).Some? && HexValue(c).value as int == n
  {
  }

  lemma NoDigitIs(c: byte)
    ensures NoDigit(c) <==> HexValue(c).None?
  {
    if HexValue(c).Some? {
      DigitOf(c, HexValue(c).value as int);
    } else {
      forall n: nat | n < 16
        ensures !Writes(c, n)
      {
        DigitOf(c, n);
      }
    }
  }

  lemma TwoDigits(hi: byte, lo: byte)
    requires hi < 16 && lo < 16
    ensures ((hi << 4) | lo) as int == 16 * (hi as int) + lo as int
  {
  }

  /** A character is the digit of one number at most, and then nothing else. */
  lemma OneDigit(c: byte)
    ensures NoDigit(c) || (HexValue(c).Some? && forall n: nat :: Writes(c, n) <==> n == HexValue(c).value as int)
    ensures !NoDigit(c) ==> !Leads(c) && c != NACK
    ensures NoDigit(c) ==> HexValue(c).None? && forall n: nat :: !Writes(c, n)
    ensures Leads(c) <==> IsSpace(c) || c == ACK
  {
    NoDigitIs(c);
    forall n: nat
      ensures Writes(c, n) <==> HexValue(c).Some? && HexValue(c).value as int == n
    {
      DigitOf(c, n);
    }
  }

  lemma DenotesDigits(c1: byte, c2: byte, csum: byte, first: byte, last: byte)
    requires HexValue(c1) == Some(first) && HexValue(c2) == Some(last)
    ensures Denotes(c1, c2, csum) <==> csum == (first << 4) | last
  {
    OneDigit(c1);
    OneDigit(c2);
    TwoDigits(first, last);
    SameNumber(csum, (first << 4) | last);
    DenotesNumber(c1, c2, csum, first as int, last as int);
  }

  lemma SameNumber(a: byte, b: byte)
    ensures a == b <==> a as int == b as int
  {
  }

  lemma DenotesNumber(c1: byte, c2: byte, csum: byte, first: nat, last: nat)
    requires !NoDigit(c2) && (forall n: nat :: Writes(c2, n) <==> n == last)
    requires !NoDigit(c1) && !Leads(c1) && c1 != NACK && (forall n: nat :: Writes(c1, n) <==> n == first)
    ensures Denotes(c1, c2, csum) <==> csum as int == 16 * first + last
  {
    assert Writes(c1, first) && Writes(c2, last);
  }

  lemma DenotesDigit(c1: byte, c2: byte, csum: byte, first: byte)
    requires HexValue(c1) == Some(first) && HexValue(c2).None?
    ensures Denotes(c1, c2, csum) <==> csum == first
  {
    OneDigit(c1);
    OneDigit(c2);
    assert Writes(c1, first as int);
  }

  lemma DenotesRest(c1: byte, c2: byte, csum: byte)
    requires HexValue(c1).None?
    ensures Denotes(c1, c2, csum) <==>
            if Leads(c1) then csum == (if HexValue(c2).Some? then HexValue(c2).value else 0)
            else csum == 0 && (c1 == NACK ==> HexValue(c2).None? || HexValue(c2) == Some(0))
  {
    OneDigit(c1);
    OneDigit(c2);
    if HexValue(c2).Some? {
      assert Writes(c2, HexValue(c2).value as int);
    }
  }

  /** The parser accepts a pair of characters for a checksum exactly when they denote it. */
  lemma ParsesDenoted(c1: byte, c2: byte, csum: byte)
    ensures ParseChecksum(c1, c2) == Some(csum) <==> Denotes(c1, c2, csum)
  {
    OneDigit(c1);
    if HexValue(c1).None? {
      DenotesRest(c1, c2, csum);
    } else if HexValue(c2).None? {
      DenotesDigit(c1, c2, csum, HexValue(c1).value);
    } else {
      DenotesDigits(c1, c2, csum, HexValue(c1).value, HexValue(c2).value);
    }
  }

  /** The sender prints upper-case digits, the high one first. */
  lemma PrintsUpperCase(csum: byte)
    ensures UpperDigit(csum >> 4) as int == UPPER_DIGITS[csum as int / 16] as int
    ensures UpperDigit(csum & 0xF) as int == UPPER_DIGITS[csum as int % 16] as int
  {
    HexCodec.Nibbles(csum);
    UpperDigitText(csum >> 4);
    UpperDigitText(csum & 0xF);
  }

  lemma UpperDigitText(n: byte)
    requires n < 16
    ensures UpperDigit(n) as int == UPPER_DIGITS[n] as int
  {
  }

  lemma ChecksumRoundTrip(csum: byte)
    ensures ParseChecksum(UpperDigit(csum >> 4), UpperDigit(csum & 0xF)) == Some(csum)
  {
    var hi, lo := csum >> 4, csum & 0xF;
    assert HexValue(UpperDigit(hi)) == Some(hi) && HexValue(UpperDigit(lo)) == Some(lo);
    assert (hi << 4) | lo == csum;
  }

  // ---------- the sender's text ----------

  predicate Special(c: byte) {
    c == START || c == END || c == ESCAPE
  }

  function EscapedChar(c: byte): seq<byte> {
    if Special(c) then [ESCAPE, c ^ 0x20] else [c]
  }

  function CharSum(c: byte): byte {
    if Special(c) then ESCAPE + (c ^ 0x20) else c
  }

  function Escaped(payload: seq<byte>): seq<byte> {
    if payload == [] then [] else Escaped(payload[..|payload| - 1]) + EscapedChar(payload[|payload| - 1])
  }

  function Checksum(payload: seq<byte>): byte {
    if payload == [] then 0 else Checksum(payload[..|payload| - 1]) + CharSum(payload[|payload| - 1])
  }

  /** The sum of the characters, in eight bits. */
  function Sum(s: seq<byte>): byte {
    if s == [] then 0 else Sum(s[..|s| - 1]) + s[|s| - 1]
  }

  lemma SumOne(s: seq<byte>, c: byte)
    ensures Sum(s + [c]) == Sum(s) + c
  {
    assert (s + [c])[..|s|] == s;
  }

  lemma SumRegroup(a: byte, b: byte, c: byte)
    ensures a + b + c == a + (b + c)
  {
  }

  lemma SumEscaped(s: seq<byte>, c: byte)
    ensures Sum(s + EscapedChar(c)) == Sum(s) + CharSum(c)
  {
    if Special(c) {
      SumOne(s, ESCAPE);
      SumOne(s + [ESCAPE], c ^ 0x20);
      assert s + [ESCAPE] + [c ^ 0x20] == s + EscapedChar(c);
      SumRegroup(Sum(s), ESCAPE, c ^ 0x20);
    } else {
      SumOne(s, c);
    }
  }

  /** The checksum is the sum of the body's characters as they are sent. */
  lemma {:induction false} ChecksumIsSum(payload: seq<byte>)
    ensures Checksum(payload) == Sum(Escaped(payload))
    decreases |payload|
  {
    if payload != [] {
      var init, c := payload[..|payload| - 1], payload[|payload| - 1];
      ChecksumIsSum(init);
      SumEscaped(Escaped(init), c);
    }
  }

  /** No body contains a character that begins or ends a frame. */
  lemma {:induction false} BodyIsClean(payload: seq<byte>)
    ensures START !in Escaped(payload) && END !in Escaped(payload)
    decreases |payload|
  {
    if payload != [] {
      BodyIsClean(payload[..|payload| - 1]);
      CharIsClean(payload[|payload| - 1]);
    }
  }

  lemma CharIsClean(c: byte)
    ensures START !in EscapedChar(c) && END !in EscapedChar(c)
  {
  }

  function FrameText(payload: seq<byte>, c1: byte, c2: byte): seq<byte> {
    [START] + (Escaped(payload) + [END, c1, c2])
  }

  /** The frame the sender transmits: its checksum text is that of "%02X". */
  function Frame(payload: seq<byte>): seq<byte> {
    var csum := Checksum(payload);
    FrameText(payload, UpperDigit(csum >> 4), UpperDigit(csum & 0xF))
  }

  // ---------- the receiver as a machine ----------

  datatype Rx =
    | Hunt                                    // waiting for a start character
    | Remote(buf: seq<byte>)                  // inside a '!' packet
    | Body(buf: seq<byte>, csum: byte)
    | Escape(buf: seq<byte>, csum: byte)
    | Sum1(buf: seq<byte>, csum: byte)
    | Sum2(buf: seq<byte>, csum: byte, c1: byte)
    | Done(packet: seq<byte>)

  datatype Event = Reply(c: byte) | RemotePacket(packet: seq<byte>)

  function Step(size: nat, rx: Rx, c: byte): (Rx, seq<Event>) {
    match rx
    case Hunt =>
      if c == END_OF_FILE then (Done([c]), [])
      else if c == START then (Body([], 0), [])
      else if c == REMOTE_SOM then (Remote([]), [])
      else (Hunt, [])
    case Remote(buf) =>
      if c == REMOTE_SOM then (Remote([]), [])
      else if c == END then (Hunt, [RemotePacket(buf)])
      else if c == START then (Body([], 0), [])
      else if |buf| < size then (Remote(buf + [c]), [])
      else (Hunt, [])
    case Body(buf, csum) =>
      if c == END then (Sum1(buf, csum), [])
      else if |buf| == size then (Sum1(buf, csum), [])
      else if c == START then (Body([], 0), [])
      else if c == ESCAPE then (Escape(buf, csum), [])
      else (Body(buf + [c], csum + c), [])
    case Escape(buf, csum) => (Body(buf + [c ^ 0x20], csum + (c + ESCAPE)), [])
    case Sum1(buf, csum) => (Sum2(buf, csum, c), [])
    case Sum2(buf, csum, c1) =>
      if ParseChecksum(c1, c) == Some(csum) then (Done(buf), [Reply(ACK)]) else (Hunt, [Reply(NACK)])
    case Done(_) => (rx, [])
  }

  /** The receiver with a buffer of `size` characters; it reads nothing more once it is done. */
  function Receiver(size: nat): (Rx, byte) -> Option<(Rx, seq<Event>)> {
    (rx: Rx, c: byte) => if rx.Done? then None else Some(Step(size, rx, c))
  }

  function Received(size: nat, rx: Rx, input: seq<byte>): Option<(Rx, seq<Event>)> {
    Run(Receiver(size), rx, input)
  }

  // ---------- the round trip ----------

  lemma ReceiveOne(size: nat, rx: Rx, c: byte)
    requires !rx.Done?
    ensures Received(size, rx, [c]) == Some(Step(size, rx, c))
  {
    var (t, out) := Step(size, rx, c);
    assert [c][1..] == [];
    assert Run(Receiver(size), t, [c][1..]) == Some((t, []));
    assert Receiver(size)(rx, [c][0]) == Some((t, out));
    assert out + [] == out;
  }

  /** Input that causes no events only moves the machine. */
  lemma Silently(size: nat, rx: Rx, xs: seq<byte>, mid: Rx, ys: seq<byte>)
    requires Received(size, rx, xs) == Some((mid, []))
    ensures Received(size, rx, xs + ys) == Received(size, mid, ys)
  {
    RunConcat(Receiver(size), rx, xs, ys);
    if Received(size, mid, ys).Some? {
      assert [] + Received(size, mid, ys).value.1 == Received(size, mid, ys).value.1;
    }
  }

  lemma ReceiveThen(size: nat, rx: Rx, xs: seq<byte>, mid: Rx, out: seq<Event>, ys: seq<byte>)
    requires Received(size, rx, xs) == Some((mid, out))
    ensures Received(size, rx, xs + ys) == After(out, Received(size, mid, ys))
  {
    RunConcat(Receiver(size), rx, xs, ys);
  }

  lemma ReceiveChar(size: nat, buf: seq<byte>, csum: byte, c: byte)
    requires |buf| < size
    ensures Received(size, Body(buf, csum), EscapedChar(c)) == Some((Body(buf + [c], csum + CharSum(c)), []))
  {
    if Special(c) {
      ReceiveOne(size, Body(buf, csum), ESCAPE);
      Silently(size, Body(buf, csum), [ESCAPE], Escape(buf, csum), [c ^ 0x20]);
      ReceiveOne(size, Escape(buf, csum), c ^ 0x20);
      assert (c ^ 0x20) ^ 0x20 == c;
      assert [ESCAPE] + [c ^ 0x20] == EscapedChar(c);
    } else {
      ReceiveOne(size, Body(buf, csum), c);
    }
  }

  /** The body of a frame is received as its payload, up to the full size of the buffer. */
  lemma {:induction false} ReceiveBody(size: nat, payload: seq<byte>)
    requires |payload| <= size
    ensures Received(size, Body([], 0), Escaped(payload)) == Some((Body(payload, Checksum(payload)), []))
    decreases |payload|
  {
    if payload == [] {
    } else {
      var init, c := payload[..|payload| - 1], payload[|payload| - 1];
      assert payload == init + [c];
      ReceiveBody(size, init);
      ReceiveChar(size, init, Checksum(init), c);
      Silently(size, Body([], 0), Escaped(init), Body(init, Checksum(init)), EscapedChar(c));
    }
  }

  /** The end of a frame: delivered and acknowledged, or refused. */
  lemma ReceiveEnd(size: nat, buf: seq<byte>, csum: byte, c1: byte, c2: byte)
    ensures Received(size, Body(buf, csum), [END, c1, c2]) ==
            if Denotes(c1, c2, csum) then Some((Done(buf), [Reply(ACK)])) else Some((Hunt, [Reply(NACK)]))
  {
    ParsesDenoted(c1, c2, csum);
    ReceiveOne(size, Body(buf, csum), END);
    Silently(size, Body(buf, csum), [END], Sum1(buf, csum), [c1, c2]);
    ReceiveOne(size, Sum1(buf, csum), c1);
    Silently(size, Sum1(buf, csum), [c1], Sum2(buf, csum, c1), [c2]);
    ReceiveOne(size, Sum2(buf, csum, c1), c2);
    assert [END] + [c1, c2] == [END, c1, c2] && [c1] + [c2] == [c1, c2];
  }

  /** A frame with any two checksum characters. */
  lemma ReceiveFrame(size: nat, payload: seq<byte>, c1: byte, c2: byte)
    requires |payload| <= size
    ensures Received(size, Hunt, FrameText(payload, c1, c2)) ==
            if Denotes(c1, c2, Checksum(payload)) then Some((Done(payload), [Reply(ACK)]))
            else Some((Hunt, [Reply(NACK)]))
  {
    ReceiveOne(size, Hunt, START);
    Silently(size, Hunt, [START], Body([], 0), Escaped(payload) + [END, c1, c2]);
    ReceiveRest(size, payload, c1, c2);
  }

  lemma ReceiveRest(size: nat, payload: seq<byte>, c1: byte, c2: byte)
    requires |payload| <= size
    ensures Received(size, Body([], 0), Escaped(payload) + [END, c1, c2]) ==
            if Denotes(c1, c2, Checksum(payload)) then Some((Done(payload), [Reply(ACK)]))
            else Some((Hunt, [Reply(NACK)]))
  {
    ReceiveBody(size, payload);
    Silently(size, Body([], 0), Escaped(payload), Body(payload, Checksum(payload)), [END, c1, c2]);
    ReceiveEnd(size, payload, Checksum(payload), c1, c2);
  }

  /**
   Two hexadecimal digits of either case decide: the frame is delivered and acknowledged when they
   are the eight-bit sum of its body's characters, and refused for every other number.
   */
  lemma DigitsDecide(size: nat, payload: seq<byte>, c1: byte, c2: byte, hi: nat, lo: nat)
    requires |payload| <= size && Writes(c1, hi) && Writes(c2, lo)
    ensures Received(size, Hunt, FrameText(payload, c1, c2)) ==
            if 16 * hi + lo == Sum(Escaped(payload)) as int then Some((Done(payload), [Reply(ACK)]))
            else Some((Hunt, [Reply(NACK)]))
  {
    ReceiveFrame(size, payload, c1, c2);
    ChecksumIsSum(payload);
    OneDigit(c1);
    OneDigit(c2);
    DenotesNumber(c1, c2, Checksum(payload), hi, lo);
  }

  /** Wherever a '$' begins a frame, the sender's frame is delivered and acknowledged. */
  lemma FrameBegins(size: nat, rx: Rx, payload: seq<byte>)
    requires !rx.Done? && Step(size, rx, START) == (Body([], 0), []) && |payload| <= size
    ensures Received(size, rx, Frame(payload)) == Some((Done(payload), [Reply(ACK)]))
  {
    var csum := Checksum(payload);
    var c1, c2 := UpperDigit(csum >> 4), UpperDigit(csum & 0xF);
    ChecksumRoundTrip(csum);
    ParsesDenoted(c1, c2, csum);
    ReceiveOne(size, rx, START);
    Silently(size, rx, [START], Body([], 0), Escaped(payload) + [END, c1, c2]);
    ReceiveRest(size, payload, c1, c2);
  }

  /** A '$' begins the frame anew as long as the buffer is not full. */
  lemma RestartDelivers(size: nat, part: seq<byte>, payload: seq<byte>)
    requires |part| < size && |payload| <= size
    ensures Received(size, Hunt, [START] + (Escaped(part) + Frame(payload))) == Some((Done(payload), [Reply(ACK)]))
  {
    ReceiveOne(size, Hunt, START);
    Silently(size, Hunt, [START], Body([], 0), Escaped(part) + Frame(payload));
    ReceiveBody(size, part);
    Silently(size, Body([], 0), Escaped(part), Body(part, Checksum(part)), Frame(payload));
    FrameBegins(size, Body(part, Checksum(part)), payload);
  }

  /** Behind a full buffer one more character of any kind stands for the '#'. */
  lemma FullBuffer(size: nat, payload: seq<byte>, c: byte, c1: byte, c2: byte)
    requires |payload| == size
    ensures Received(size, Hunt, [START] + (Escaped(payload) + [c, c1, c2])) ==
            if Denotes(c1, c2, Checksum(payload)) then Some((Done(payload), [Reply(ACK)]))
            else Some((Hunt, [Reply(NACK)]))
  {
    var csum := Checksum(payload);
    ReceiveOne(size, Hunt, START);
    Silently(size, Hunt, [START], Body([], 0), Escaped(payload) + [c, c1, c2]);
    ReceiveBody(size, payload);
    Silently(size, Body([], 0), Escaped(payload), Body(payload, csum), [c, c1, c2]);
    ReceiveOne(size, Body(payload, csum), c);
    Silently(size, Body(payload, csum), [c], Sum1(payload, csum), [c1, c2]);
    ReceiveOne(size, Body(payload, csum), END);
    Silently(size, Body(payload, csum), [END], Sum1(payload, csum), [c1, c2]);
    assert [c] + [c1, c2] == [c, c1, c2] && [END] + [c1, c2] == [END, c1, c2];
    ReceiveEnd(size, payload, csum, c1, c2);
  }

  /** The end of the connection is handed over as a packet of its own, without a reply. */
  lemma EndOfFileDelivered(size: nat, noise: seq<byte>)
    requires Noise(noise)
    ensures Received(size, Hunt, noise + [END_OF_FILE]) == Some((Done([END_OF_FILE]), []))
  {
    ReceiveNoise(size, noise);
    Silently(size, Hunt, noise, Hunt, [END_OF_FILE]);
    ReceiveOne(size, Hunt, END_OF_FILE);
  }

  // ---------- packets for the remote protocol ----------

  ghost predicate Plain(body: seq<byte>) {
    forall c :: c in body ==> c != REMOTE_SOM && c != END && c != START
  }

  lemma {:induction false} ReceiveRemote(size: nat, buf: seq<byte>, body: seq<byte>)
    requires Plain(body) && |buf| + |body| <= size
    ensures Received(size, Remote(buf), body) == Some((Remote(buf + body), []))
    decreases |body|
  {
    if body == [] {
      assert buf + body == buf;
    } else {
      var c, rest := body[0], body[1..];
      assert c in body && forall x :: x in rest ==> x in body;
      ReceiveOne(size, Remote(buf), c);
      Silently(size, Remote(buf), [c], Remote(buf + [c]), rest);
      ReceiveRemote(size, buf + [c], rest);
      assert [c] + rest == body && buf + [c] + rest == buf + body;
    }
  }

  /** A beginning that is given up for a second '!' leaves no trace: what follows is the remote packet, once and without a reply. */
  lemma RemoteIsDelivered(size: nat, noise: seq<byte>, part: seq<byte>, body: seq<byte>)
    requires Noise(noise) && Plain(part) && Plain(body) && |part| <= size && |body| <= size
    ensures Received(size, Hunt, noise + ([REMOTE_SOM] + (part + ([REMOTE_SOM] + (body + [END]))))) ==
            Some((Hunt, [RemotePacket(body)]))
  {
    var last := [REMOTE_SOM] + (body + [END]);
    ReceiveNoise(size, noise);
    Silently(size, Hunt, noise, Hunt, [REMOTE_SOM] + (part + last));
    ReceiveOne(size, Hunt, REMOTE_SOM);
    Silently(size, Hunt, [REMOTE_SOM], Remote([]), part + last);
    ReceiveRemote(size, [], part);
    assert [] + part == part && [] + body == body;
    Silently(size, Remote([]), part, Remote(part), last);
    ReceiveOne(size, Remote(part), REMOTE_SOM);
    Silently(size, Remote(part), [REMOTE_SOM], Remote([]), body + [END]);
    ReceiveRemote(size, [], body);
    Silently(size, Remote([]), body, Remote(body), [END]);
    ReceiveOne(size, Remote(body), END);
  }

  /** A frame that begins inside a remote packet is delivered, the remote packet is dropped. */
  lemma FrameInsideRemote(size: nat, part: seq<byte>, payload: seq<byte>)
    requires Plain(part) && |part| <= size && |payload| <= size
    ensures Received(size, Hunt, [REMOTE_SOM] + (part + Frame(payload))) == Some((Done(payload), [Reply(ACK)]))
  {
    ReceiveOne(size, Hunt, REMOTE_SOM);
    Silently(size, Hunt, [REMOTE_SOM], Remote([]), part + Frame(payload));
    ReceiveRemote(size, [], part);
    assert [] + part == part;
    Silently(size, Remote([]), part, Remote(part), Frame(payload));
    FrameBegins(size, Remote(part), payload);
  }

  /** A remote packet that outgrows the buffer is dropped. */
  lemma RemoteTooLong(size: nat, body: seq<byte>, c: byte)
    requires Plain(body + [c]) && |body| == size
    ensures Received(size, Hunt, [REMOTE_SOM] + (body + [c])) == Some((Hunt, []))
  {
    assert forall x :: x in body ==> x in body + [c];
    assert c in body + [c];
    ReceiveOne(size, Hunt, REMOTE_SOM);
    Silently(size, Hunt, [REMOTE_SOM], Remote([]), body + [c]);
    ReceiveRemote(size, [], body);
    assert [] + body == body;
    Silently(size, Remote([]), body, Remote(body), [c]);
    ReceiveOne(size, Remote(body), c);
  }

  // ---------- noise and spoiled frames ----------

  /** Characters that start nothing. */
  ghost predicate Noise(s: seq<byte>) {
    forall c :: c in s ==> c != START && c != REMOTE_SOM && c != END_OF_FILE
  }

  lemma {:induction false} ReceiveNoise(size: nat, noise: seq<byte>)
    requires Noise(noise)
    ensures Received(size, Hunt, noise) == Some((Hunt, []))
    decreases |noise|
  {
    if noise == [] {
    } else {
      assert noise[0] in noise && forall c :: c in noise[1..] ==> c in noise;
      ReceiveOne(size, Hunt, noise[0]);
      Silently(size, Hunt, [noise[0]], Hunt, noise[1..]);
      ReceiveNoise(size, noise[1..]);
      assert [noise[0]] + noise[1..] == noise;
    }
  }

  /** A frame whose checksum characters do not match its body, after some noise. */
  datatype Spoiled = Spoiled(noise: seq<byte>, payload: seq<byte>, c1: byte, c2: byte)

  ghost predicate IsSpoiled(size: nat, f: Spoiled) {
    Noise(f.noise) && |f.payload| <= size && !Denotes(f.c1, f.c2, Checksum(f.payload))
  }

  function SpoiledText(fs: seq<Spoiled>): seq<byte> {
    if fs == [] then []
    else
      var f := fs[|fs| - 1];
      SpoiledText(fs[..|fs| - 1]) + (f.noise + FrameText(f.payload, f.c1, f.c2))
  }

  function Nacks(n: nat): seq<Event> {
    seq(n, _ => Reply(NACK))
  }

  lemma {:induction false} ReceiveSpoiled(size: nat, fs: seq<Spoiled>)
    requires forall i :: 0 <= i < |fs| ==> IsSpoiled(size, fs[i])
    ensures Received(size, Hunt, SpoiledText(fs)) == Some((Hunt, Nacks(|fs|)))
    decreases |fs|
  {
    if fs == [] {
      assert Nacks(0) == [];
    } else {
      var init, f := fs[..|fs| - 1], fs[|fs| - 1];
      var text := FrameText(f.payload, f.c1, f.c2);
      ReceiveSpoiled(size, init);
      ReceiveThen(size, Hunt, SpoiledText(init), Hunt, Nacks(|init|), f.noise + text);
      ReceiveNoise(size, f.noise);
      Silently(size, Hunt, f.noise, Hunt, text);
      ReceiveFrame(size, f.payload, f.c1, f.c2);
      assert Nacks(|init|) + [Reply(NACK)] == Nacks(|fs|);
    }
  }

  /**
   The receiver undoes the sender: after any number of spoiled frames, each answered '-', and any
   noise, the sender's frame is delivered byte for byte and answered '+', for every payload up to
   the full size of the buffer.
   */
  lemma PayloadIsDelivered(size: nat, spoiled: seq<Spoiled>, noise: seq<byte>, payload: seq<byte>)
    requires forall i :: 0 <= i < |spoiled| ==> IsSpoiled(size, spoiled[i])
    requires Noise(noise) && |payload| <= size
    ensures Received(size, Hunt, SpoiledText(spoiled) + (noise + Frame(payload))) ==
            Some((Done(payload), Nacks(|spoiled|) + [Reply(ACK)]))
  {
    ReceiveSpoiled(size, spoiled);
    ReceiveThen(size, Hunt, SpoiledText(spoiled), Hunt, Nacks(|spoiled|), noise + Frame(payload));
    ReceiveNoise(size, noise);
    Silently(size, Hunt, noise, Hunt, Frame(payload));
    FrameBegins(size, Hunt, payload);
  }

  /** In every state a run can reach, the buffer holds at most `size` characters. */
  ghost predicate Bounded(size: nat, rx: Rx) {
    match rx
    case Hunt => true
    case Remote(buf) => |buf| <= size
    case Body(buf, _) => |buf| <= size
    case Escape(buf, _) => |buf| < size
    case Sum1(buf, _) => |buf| <= size
    case Sum2(buf, _, _) => |buf| <= size
    case Done(packet) => |packet| <= size || |packet| == 1
  }

  lemma {:induction false} IndexNeverExceedsSize(size: nat, rx: Rx, input: seq<byte>)
    requires Bounded(size, rx) && Received(size, rx, input).Some?
    ensures Bounded(size, Received(size, rx, input).value.0)
    decreases |input|
  {
    if input == [] {
    } else {
      IndexNeverExceedsSize(size, Step(size, rx, input[0]).0, input[1..]);
    }
  }

  // ---------- the receiver's loops ----------

  /**
   The serial link. `input` is everything that will ever arrive; a read past its end stands for a
   call that is still waiting. The ghost machine takes every character the code reads.
   */
  class Link {
    const input: seq<byte>
    const size: nat
    var pos: nat
    /** Replies written and remote packets handed over. */
    var sent: seq<Event>
    ghost var rx: Rx
    ghost var due: seq<Event>
    /** The machine's states, one per character read. */
    ghost var states: seq<(Rx, seq<Event>)>

    ghost predicate Valid()
      reads this
    {
      && pos <= |input| && |states| == pos + 1
      && states[0] == (Hunt, []) && states[pos] == (rx, due)
      && forall k {:trigger input[k]} :: 0 <= k < pos ==> Follows(size, states[k], input[k], states[k + 1])
    }

    /** The code has done everything the machine has asked for. */
    ghost predicate Settled()
      reads this
    {
      Valid() && sent == due
    }

    constructor (input: seq<byte>, size: nat)
      ensures Settled() && rx == Hunt && pos == 0 && this.input == input && this.size == size
    {
      this.input, this.size := input, size;
      pos, sent, rx, due, states := 0, [], Hunt, [], [(Hunt, [])];
    }

    method GetChar() returns (c: byte, ok: bool)
      requires Valid() && !rx.Done?
      modifies this`pos, this`rx, this`due, this`states
      ensures Valid()
      ensures ok ==> pos == old(pos) + 1
      ensures ok ==> (rx, due) == (Step(size, old(rx), c).0, old(due) + Step(size, old(rx), c).1)
      ensures !ok ==> pos == |input| && rx == old(rx) && due == old(due)
    {
      if pos == |input| {
        return 0, false;
      }
      c, ok := input[pos], true;
      due := due + Step(size, rx, c).1;
      rx := Step(size, rx, c).0;
      states := states + [(rx, due)];
      pos := pos + 1;
    }

    method Send(e: Event)
      modifies this`sent
      ensures sent == old(sent) + [e]
    {
      sent := sent + [e];
    }

    /** The ghost states are the receiver machine's run over what has been read. */
    lemma Follow(k: nat)
      requires Valid() && k <= pos
      ensures Received(size, Hunt, input[..k]) == Some(states[k])
      decreases k
    {
      if k == 0 {
      } else {
        Follow(k - 1);
        var (t, out) := states[k - 1];
        var c := input[k - 1];
        assert Follows(size, states[k - 1], c, states[k]);
        assert input[..k - 1] + [c] == input[..k];
        ReceiveThen(size, Hunt, input[..k - 1], t, out, [c]);
        ReceiveOne(size, t, c);
      }
    }
  }

  ghost predicate Follows(size: nat, from: (Rx, seq<Event>), c: byte, to: (Rx, seq<Event>)) {
    !from.0.Done? && to == (Step(size, from.0, c).0, from.1 + Step(size, from.0, c).1)
  }

  /** The character received becomes one more character of the packet. */
  method Append(packet: array<byte>, i: nat, c: byte, ghost body: seq<byte>)
    requires i < packet.Length && packet[..i] == body
    modifies packet
    ensures packet[..i + 1] == body + [c]
    ensures 0 < i ==> packet[0] == old(packet[0])
  {
    packet[i] := c;
  }

  /** Inside a '!' packet: collect it, restart it, hand it over, or leave it for a '$'. */
  method GetRemotePacket(link: Link, packet: array<byte>) returns (ok: bool)
    requires link.Settled() && link.rx == Remote([]) && packet.Length == link.size + 1
    requires packet[0] == REMOTE_SOM
    modifies link`pos, link`rx, link`due, link`states, link`sent, packet
    ensures link.Settled() && old(link.pos) <= link.pos
    ensures ok ==> if packet[0] == START then link.rx == Body([], 0) else link.rx == Hunt
    ensures !ok ==> link.pos == |link.input| && !link.rx.Done?
  {
    var i := 0;
    while true
      invariant link.Settled() && i <= link.size && old(link.pos) <= link.pos && link.rx == Remote(packet[..i])
      invariant packet[0] != START
      decreases |link.input| - link.pos
    {
      var c: byte;
      c, ok := link.GetChar();
      if !ok {
        return;
      }
      if c == REMOTE_SOM {
        i := 0;
      } else if c == END {
        packet[i] := 0;
        link.Send(RemotePacket(packet[..i]));
        return;
      } else if c == START {
        packet[0] := START;
        return;
      } else if i < link.size {
        Append(packet, i, c, packet[..i]);
        i := i + 1;
      } else {
        return;
      }
    }
  }

  /** Wait for the start of a packet; false also for the end-of-file character, with `eof` set. */
  method WaitForStart(link: Link, packet: array<byte>) returns (ok: bool, eof: bool)
    requires link.Settled() && link.rx == Hunt && packet.Length == link.size + 1
    modifies link`pos, link`rx, link`due, link`states, link`sent, packet
    ensures link.Settled() && old(link.pos) <= link.pos
    ensures ok ==> link.rx == Body([], 0)
    ensures !ok && eof ==> packet[0] == END_OF_FILE && link.rx == Done([END_OF_FILE])
    ensures !ok && !eof ==> link.pos == |link.input| && !link.rx.Done?
  {
    eof := false;
    while true
      invariant link.Settled() && old(link.pos) <= link.pos && link.rx == Hunt
      decreases |link.input| - link.pos
    {
      var c: byte;
      c, ok := link.GetChar();
      if !ok {
        return;
      }
      packet[0] := c;
      if packet[0] == END_OF_FILE {
        return false, true;
      }
      if packet[0] == REMOTE_SOM {
        ok := GetRemotePacket(link, packet);
        if !ok {
          return;
        }
      }
      if packet[0] == START {
        return;
      }
    }
  }

  datatype Progress = More | Full | Starved

  /** The character after a '}'. */
  method CaptureEscaped(link: Link, packet: array<byte>, i: nat, csum: byte, ghost body: seq<byte>) returns (sum: byte, ok: bool)
    requires packet.Length == link.size + 1 && i < link.size
    requires link.Settled() && packet[..i] == body && link.rx == Escape(body, csum)
    modifies link`pos, link`rx, link`due, link`states, packet
    ensures link.Settled()
    ensures ok ==> link.rx == Body(packet[..i + 1], sum) && old(link.pos) < link.pos
    ensures !ok ==> link.pos == |link.input| && !link.rx.Done?
  {
    sum := csum;
    var c: byte;
    c, ok := link.GetChar();
    if ok {
      sum := csum + (c + ESCAPE);
      Append(packet, i, c ^ 0x20, body);
    }
  }

  /** A character that is none of '#', '$', '}', into a buffer that is not full. */
  method CapturePlain(link: Link, packet: array<byte>, i: nat, csum: byte, c: byte, ghost body: seq<byte>) returns (sum: byte)
    requires i < packet.Length && packet[..i] == body && link.rx == Body(body + [c], csum + c)
    modifies packet
    ensures link.rx == Body(packet[..i + 1], sum)
  {
    Append(packet, i, c, body);
    sum := csum + c;
  }

  /** One turn of the capture loop. */
  method CaptureChar(link: Link, packet: array<byte>, i: nat, csum: byte) returns (j: nat, sum: byte, progress: Progress)
    requires packet.Length == link.size + 1 && i <= link.size
    requires link.Settled() && link.rx == Body(packet[..i], csum)
    modifies link`pos, link`rx, link`due, link`states, packet
    ensures link.Settled() && j <= link.size
    ensures progress.More? ==> link.rx == Body(packet[..j], sum) && old(link.pos) < link.pos
    ensures progress.Full? ==> link.rx == Sum1(packet[..j], sum) && old(link.pos) < link.pos
    ensures progress.Starved? ==> link.pos == |link.input| && !link.rx.Done?
  {
    ghost var body := packet[..i];
    j, sum, progress := i, csum, Starved;
    var c, ok := link.GetChar();
    if ok {
      if c == END || i == link.size {
        progress := Full;
      } else if c == START {
        assert packet[..0] == [];
        j, sum, progress := 0, 0, More;
      } else if c == ESCAPE {
        sum, ok := CaptureEscaped(link, packet, i, csum, body);
        if ok {
          j, progress := i + 1, More;
        }
      } else {
        sum := CapturePlain(link, packet, i, csum, c, body);
        j, progress := i + 1, More;
      }
    }
  }

  /** Capture the body into the buffer, up to '#' or one character too many. */
  method Capture(link: Link, packet: array<byte>) returns (i: nat, csum: byte, ok: bool)
    requires link.Settled() && link.rx == Body([], 0) && packet.Length == link.size + 1
    modifies link`pos, link`rx, link`due, link`states, packet
    ensures link.Settled() && i <= link.size && old(link.pos) <= link.pos
    ensures ok ==> link.rx == Sum1(packet[..i], csum)
    ensures !ok ==> link.pos == |link.input| && !link.rx.Done?
  {
    i, csum := 0, 0;
    var progress := More;
    while progress.More?
      invariant link.Settled() && i <= link.size && old(link.pos) <= link.pos
      invariant progress.More? ==> link.rx == Body(packet[..i], csum)
      invariant progress.Full? ==> link.rx == Sum1(packet[..i], csum)
      invariant progress.Starved? ==> link.pos == |link.input| && !link.rx.Done?
      decreases progress.More?, |link.input| - link.pos
    {
      i, csum, progress := CaptureChar(link, packet, i, csum);
    }
    ok := progress.Full?;
  }

  /** The outer loop of gdb_getpacket: one packet after another until a checksum matches. */
  method ReceiveLoop(link: Link, packet: array<byte>) returns (n: nat, ok: bool)
    requires link.Settled() && link.rx == Hunt && packet.Length == link.size + 1
    modifies link`pos, link`rx, link`due, link`states, link`sent, packet
    ensures link.Settled()
    ensures ok ==> n <= packet.Length && link.rx == Done(packet[..n])
    ensures ok ==> packet[0] == END_OF_FILE || (n <= link.size && packet[n] == 0)
    ensures !ok ==> link.pos == |link.input| && !link.rx.Done?
  {
    while true
      invariant link.Settled() && old(link.pos) <= link.pos && link.rx == Hunt
      decreases |link.input| - link.pos
    {
      var eof: bool;
      ok, eof := WaitForStart(link, packet);
      if eof && !ok {
        assert packet[..1] == [END_OF_FILE];
        return 1, true;
      }
      if !ok {
        return 0, false;
      }
      var i, csum, more := Capture(link, packet);
      if !more {
        return 0, false;
      }
      var matches;
      more, matches := TakeChecksum(link, csum, packet[..i]);
      if !more {
        return 0, false;
      }
      if matches {
        Terminate(packet, i);
        return i, true;
      }
    }
  }

  /** The two characters of the checksum, and the reply they get. */
  method TakeChecksum(link: Link, csum: byte, ghost body: seq<byte>) returns (ok: bool, matches: bool)
    requires link.Settled() && link.rx == Sum1(body, csum)
    modifies link`pos, link`rx, link`due, link`states, link`sent
    ensures link.Settled() && old(link.pos) <= link.pos
    ensures ok ==> old(link.pos) < link.pos && link.rx == if matches then Done(body) else Hunt
    ensures !ok ==> link.pos == |link.input| && !link.rx.Done?
  {
    matches := false;
    var c1, c2;
    c1, ok := link.GetChar();
    if !ok {
      return;
    }
    c2, ok := link.GetChar();
    if !ok {
      return;
    }
    matches := ParseChecksum(c1, c2) == Some(csum);
    link.Send(Reply(if matches then ACK else NACK));
  }

  /** The zero behind the packet. */
  method Terminate(packet: array<byte>, i: nat)
    requires i < packet.Length
    modifies packet
    ensures packet[..i] == old(packet[..i]) && packet[i] == 0
  {
    packet[i] := 0;
  }

  /**
   gdb_getpacket. It does what the receiver machine does: it returns exactly when the machine is
   done, with the machine's packet, having written exactly the machine's replies; until then it is
   waiting for input. The terminating zero lands inside the buffer of size + 1 characters.
   */
  method GetPacket(input: seq<byte>, packet: array<byte>, size: nat)
    returns (n: nat, ok: bool, consumed: nat, sent: seq<Event>)
    requires packet.Length == size + 1
    modifies packet
    ensures consumed <= |input|
    ensures ok ==> n <= packet.Length && Received(size, Hunt, input[..consumed]) == Some((Done(packet[..n]), sent))
    ensures ok ==> packet[0] == END_OF_FILE || (n <= size && packet[n] == 0)
    ensures !ok ==> consumed == |input| && var r := Received(size, Hunt, input);
      r.Some? && !r.value.0.Done? && r.value.1 == sent
  {
    var link := new Link(input, size);
    n, ok := ReceiveLoop(link, packet);
    link.Follow(link.pos);
    consumed, sent := link.pos, link.sent;
    if !ok {
      assert input[..consumed] == input;
    }
  }

  // ---------- the sender's loops ----------

  function Copies(frame: seq<byte>, n: nat): seq<byte> {
    if n == 0 then [] else Copies(frame, n - 1) + frame
  }

  /** The transmissions it takes: up to the first '+', at most four. A reply past the list is a timeout. */
  function Attempts(replies: seq<byte>): (n: nat)
    ensures 1 <= n <= 4
  {
    if 1 <= |replies| && replies[0] == ACK then 1
    else if 2 <= |replies| && replies[1] == ACK then 2
    else if 3 <= |replies| && replies[2] == ACK then 3
    else 4
  }

  lemma NextChar(packet: seq<byte>, i: nat)
    requires i < |packet|
    ensures Escaped(packet[..i + 1]) == Escaped(packet[..i]) + EscapedChar(packet[i])
    ensures Checksum(packet[..i + 1]) == Checksum(packet[..i]) + CharSum(packet[i])
  {
    assert packet[..i + 1][..i] == packet[..i];
  }

  /** One transmission of the frame. */
  method SendFrame(packet: seq<byte>) returns (out: seq<byte>)
    ensures out == Frame(packet)
  {
    var text, csum := SendBody(packet);
    out := [START] + (text + [END, UpperDigit(csum >> 4), UpperDigit(csum & 0xF)]);
  }

  /** The characters between '$' and '#', and their sum. */
  method SendBody(packet: seq<byte>) returns (out: seq<byte>, csum: byte)
    ensures out == Escaped(packet) && csum == Checksum(packet)
  {
    out, csum := [], 0;
    for i := 0 to |packet|
      invariant out == Escaped(packet[..i]) && csum == Checksum(packet[..i])
    {
      NextChar(packet, i);
      out, csum := SendChar(packet[i], out, csum);
    }
    assert packet[..|packet|] == packet;
  }

  /** One character, escaped if it has to be. */
  method SendChar(c: byte, out: seq<byte>, csum: byte) returns (more: seq<byte>, sum: byte)
    ensures more == out + EscapedChar(c) && sum == csum + CharSum(c)
  {
    if c == START || c == END || c == ESCAPE {
      more := out + [ESCAPE, c ^ 0x20];
      sum := csum + (ESCAPE + (c ^ 0x20));
    } else {
      more := out + [c];
      sum := csum + c;
    }
  }

  /** gdb_putpacket: identical copies of one frame until a '+' comes back, at most four. */
  method PutPacket(packet: seq<byte>, replies: seq<byte>) returns (out: seq<byte>)
    ensures out == Copies(Frame(packet), Attempts(replies))
  {
    out := [];
    var tries := 0;
    var n := 0;
    while true
      invariant tries == n <= 3 && out == Copies(Frame(packet), n)
      invariant forall k :: 0 <= k < n ==> k >= |replies| || replies[k] != ACK
      decreases 4 - n
    {
      var frame := SendFrame(packet);
      out := out + frame;
      var acked := n < |replies| && replies[n] == ACK;
      n := n + 1;
      if acked || tries >= 3 {
        return;
      }
      tries := tries + 1;
    }
  }

  // ---------- both ends together ----------

  function ReplyBytes(events: seq<Event>): seq<byte> {
    seq(|events|, i requires 0 <= i < |events| => if events[i].Reply? then events[i].c else 0)
  }

  /** The replies to some refused copies and an accepted one make the sender stop right there. */
  lemma RepliesStopSender(k: nat)
    requires k <= 3
    ensures Attempts(ReplyBytes(Nacks(k) + [Reply(ACK)])) == k + 1
  {
    assert ReplyBytes(Nacks(k) + [Reply(ACK)]) == seq(k, _ => NACK) + [ACK];
  }

  /**
   Retransmission: whatever the first few copies (at most three) became on the way, each a frame
   whose checksum text does not match its body, possibly behind noise, when the next one arrives
   intact the receiver delivers the payload exactly once, and its replies make the sender stop
   after exactly that copy.
   */
  lemma RetransmissionDelivers(size: nat, payload: seq<byte>, spoiled: seq<Spoiled>)
    requires |payload| <= size && |spoiled| <= 3
    requires forall i :: 0 <= i < |spoiled| ==> IsSpoiled(size, spoiled[i])
    ensures var r := Received(size, Hunt, SpoiledText(spoiled) + Frame(payload));
            && r.Some? && r.value.0 == Done(payload)
            && Attempts(ReplyBytes(r.value.1)) == |spoiled| + 1
  {
    PayloadIsDelivered(size, spoiled, [], payload);
    assert [] + Frame(payload) == Frame(payload);
    RepliesStopSender(|spoiled|);
  }

  const GDB_PUT_PACKET_SIZE: nat := 4096

  /** gdb_out: the text as an 'O' packet of hexadecimal digits; a text that is too long is dropped. */
  method GdbOut(buf: seq<byte>, replies: seq<byte>) returns (out: seq<byte>)
    ensures out == if 2 * |buf| + 1 >= GDB_PUT_PACKET_SIZE then []
                   else Copies(Frame([0x4F] + HexCodec.Hexified(buf)), Attempts(replies))
  {
    var i := |buf| * 2 + 1;
    if i >= GDB_PUT_PACKET_SIZE {
      return [];
    }
    var packet := OutputPacket(buf);
    out := PutPacket(packet, replies);
  }

  /** The 'O' and the digits behind it. */
  method OutputPacket(buf: seq<byte>) returns (packet: seq<byte>)
    ensures packet == [0x4F] + HexCodec.Hexified(buf)
  {
    var i := |buf| * 2 + 1;
    var hexdata := new byte[i + 1];
    hexdata[0] := 0x4F;
    HexCodec.Hexify(hexdata, 1, buf);
    packet := hexdata[..i];
    assert packet == [packet[0]] + hexdata[1..1 + 2 * |buf|];
  }

  /** What a receiver with a large enough buffer makes of it: unhexify recovers the text exactly. */
  lemma OutputTextIsRecovered(size: nat, noise: seq<byte>, buf: seq<byte>)
    requires Noise(noise) && 2 * |buf| + 1 <= size
    ensures var r := Received(size, Hunt, noise + Frame([0x4F] + HexCodec.Hexified(buf)));
            && r.Some? && r.value.0.Done? && |r.value.0.packet| == 2 * |buf| + 1
            && HexCodec.Unhexified(r.value.0.packet[1..]) == buf
  {
    var payload := [0x4F] + HexCodec.Hexified(buf);
    PayloadIsDelivered(size, [], noise, payload);
    assert SpoiledText([]) + (noise + Frame(payload)) == noise + Frame(payload);
    assert payload[1..] == HexCodec.Hexified(buf);
    HexCodec.HexRoundTrip(buf);
  }
}
