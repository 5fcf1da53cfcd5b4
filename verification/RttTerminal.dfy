/**
 Virtual terminals multiplexed over up-buffer 0. A switch is the byte 0xFF followed by the
 terminal's hexadecimal digit; everything after it belongs to that terminal.
 */
module RttTerminal {
  import opened Machine
  import opened RttRing

  const SWITCH: byte := 0xFF
  const TERMINALS: nat := 16

  type TerminalId = t: nat | t < TERMINALS

  /** The digit of terminal `t`: '0' to '9', then 'A' to 'F'. */
  function Digit(t: TerminalId): byte {
    if t < 10 then 48 + t as byte else 55 + t as byte
  }

  /** The terminal a switch digit names, if any. */
  function FromDigit(c: byte): (t: int)
    ensures -1 <= t < TERMINALS
  {
    if 48 <= c <= 57 then c as int - 48
    else if 65 <= c <= 70 then c as int - 55
    else -1
  }

  lemma DigitRoundTrip(t: TerminalId)
    ensures FromDigit(Digit(t)) == t && Digit(t) != SWITCH
  {
  }

  lemma DigitText(t: TerminalId)
    ensures Digit(t) as int == UPPER_DIGITS[t] as int
  {
  }

  function Switch(t: TerminalId): seq<byte> {
    [SWITCH, Digit(t)]
  }

  ghost predicate Plain(s: seq<byte>) {
    SWITCH !in s
  }

  // ---------- the host ----------

  /** What a host that splits the stream on switches shows on terminal `t`. */
  ghost function Shown(stream: seq<byte>, current: TerminalId, t: TerminalId): seq<byte>
    decreases |stream|
  {
    if stream == [] then []
    else if stream[0] != SWITCH then
      (if current == t then [stream[0]] else []) + Shown(stream[1..], current, t)
    else if |stream| == 1 then []
    else
      var named := FromDigit(stream[1]);
      Shown(stream[2..], if named < 0 then current else named, t)
  }

  /** The terminal the stream has last been switched to. */
  ghost function Current(stream: seq<byte>, current: TerminalId): TerminalId
    decreases |stream|
  {
    if stream == [] then current
    else if stream[0] != SWITCH then Current(stream[1..], current)
    else if |stream| == 1 then current
    else
      var named := FromDigit(stream[1]);
      Current(stream[2..], if named < 0 then current else named)
  }

  lemma {:induction false} ShownText(text: seq<byte>, rest: seq<byte>, current: TerminalId, t: TerminalId)
    requires Plain(text)
    ensures Shown(text + rest, current, t) == (if current == t then text else []) + Shown(rest, current, t)
    ensures Current(text + rest, current) == Current(rest, current)
    decreases |text|
  {
    if text == [] {
      assert text + rest == rest;
    } else {
      assert (text + rest)[1..] == text[1..] + rest;
      ShownText(text[1..], rest, current, t);
      if current == t {
        assert text == [text[0]] + text[1..];
        Associate([text[0]], text[1..], Shown(rest, current, t));
      }
    }
  }

  lemma ShownSwitch(to: TerminalId, rest: seq<byte>, current: TerminalId, t: TerminalId)
    ensures Shown(Switch(to) + rest, current, t) == Shown(rest, to, t)
    ensures Current(Switch(to) + rest, current) == Current(rest, to)
  {
    DigitRoundTrip(to);
    assert (Switch(to) + rest)[2..] == rest;
  }

  // ---------- what the calls contribute ----------

  /** An accepted call, with the text that was accepted. */
  datatype Entry =
    | OnTerminal(id: TerminalId, text: seq<byte>)
    | Switched(id: TerminalId)
    | OnActive(text: seq<byte>)

  ghost predicate PlainEntry(e: Entry) {
    match e
    case OnTerminal(_, text) => Plain(text)
    case Switched(_) => true
    case OnActive(text) => Plain(text)
  }

  ghost function Encoded(active: TerminalId, e: Entry): seq<byte> {
    match e
    case OnTerminal(id, text) => Switch(id) + text + Switch(active)
    case Switched(id) => Switch(id)
    case OnActive(text) => text
  }

  ghost function ActiveAfter(active: TerminalId, e: Entry): TerminalId {
    if e.Switched? then e.id else active
  }

  /** The text entry `e` puts on terminal `t`. */
  ghost function TextFor(active: TerminalId, e: Entry, t: TerminalId): seq<byte> {
    match e
    case OnTerminal(id, text) => if id == t then text else []
    case Switched(_) => []
    case OnActive(text) => if active == t then text else []
  }

  ghost function Active(log: seq<Entry>): TerminalId {
    if log == [] then 0 else ActiveAfter(Active(log[..|log| - 1]), log[|log| - 1])
  }

  ghost function Stream(log: seq<Entry>): seq<byte> {
    if log == [] then []
    else
      var init := log[..|log| - 1];
      Stream(init) + Encoded(Active(init), log[|log| - 1])
  }

  ghost function Texts(log: seq<Entry>, t: TerminalId): seq<byte> {
    if log == [] then []
    else
      var init := log[..|log| - 1];
      Texts(init, t) + TextFor(Active(init), log[|log| - 1], t)
  }

  lemma ShownEntry(active: TerminalId, e: Entry, rest: seq<byte>, t: TerminalId)
    requires PlainEntry(e)
    ensures Shown(Encoded(active, e) + rest, active, t) == TextFor(active, e, t) + Shown(rest, ActiveAfter(active, e), t)
    ensures Current(Encoded(active, e) + rest, active) == Current(rest, ActiveAfter(active, e))
  {
    match e
    case OnTerminal(id, text) =>
      var back := Switch(active) + rest;
      assert Encoded(active, e) + rest == Switch(id) + (text + back);
      ShownSwitch(id, text + back, active, t);
      ShownText(text, back, id, t);
      ShownSwitch(active, rest, id, t);
    case Switched(id) => ShownSwitch(id, rest, active, t);
    case OnActive(text) => ShownText(text, rest, active, t);
  }

  lemma {:induction false} ShownLog(log: seq<Entry>, rest: seq<byte>, t: TerminalId)
    requires forall i :: 0 <= i < |log| ==> PlainEntry(log[i])
    ensures Shown(Stream(log) + rest, 0, t) == Texts(log, t) + Shown(rest, Active(log), t)
    ensures Current(Stream(log) + rest, 0) == Current(rest, Active(log))
    decreases |log|
  {
    if log == [] {
      assert Stream(log) + rest == rest;
    } else {
      var init, e := log[..|log| - 1], log[|log| - 1];
      ShownLog(init, Encoded(Active(init), e) + rest, t);
      ShownEntry(Active(init), e, rest, t);
      Associate(Stream(init), Encoded(Active(init), e), rest);
      Associate(Texts(init, t), TextFor(Active(init), e, t), Shown(rest, Active(log), t));
    }
  }

  lemma Associate(a: seq<byte>, b: seq<byte>, c: seq<byte>)
    ensures a + b + c == a + (b + c)
  {
  }

  /**
   The multiplexer is undone by the host: for every run of calls with 0xFF-free text, every
   terminal shows exactly the text accepted for it, in order, and the stream ends on the active
   terminal.
   */
  lemma HostRecoversTerminals(log: seq<Entry>, t: TerminalId)
    requires forall i :: 0 <= i < |log| ==> PlainEntry(log[i])
    ensures Shown(Stream(log), 0, t) == Texts(log, t)
    ensures Current(Stream(log), 0) == Active(log)
  {
    ShownLog(log, [], t);
    assert Stream(log) + [] == Stream(log);
  }

  lemma OneMoreEntry(log: seq<Entry>, e: Entry, after: seq<Entry>)
    requires after == log + [e]
    ensures Stream(after) == Stream(log) + Encoded(Active(log), e) && Active(after) == ActiveAfter(Active(log), e)
    ensures (forall i :: 0 <= i < |log| ==> PlainEntry(log[i])) && PlainEntry(e) ==> forall i :: 0 <= i < |after| ==> PlainEntry(after[i])
  {
    assert after[..|after| - 1] == log && after[|after| - 1] == e;
  }

  // ---------- the calls ----------

  class Terminals {
    const ring: Ring
    var active: TerminalId

    /** Every accepted call so far, and every byte the host has taken so far. */
    ghost var log: seq<Entry>
    ghost var delivered: seq<byte>

    ghost predicate Valid()
      reads this, ring, ring.data
    {
      && ring.Valid()
      && active == Active(log)
      && (forall i :: 0 <= i < |log| ==> PlainEntry(log[i]))
      && delivered + ring.Contents() == Stream(log)
    }

    constructor (size: nat, mode: Mode)
      requires 0 < size < TWO_TO_THE_32
      ensures Valid() && fresh(ring) && fresh(ring.data) && log == [] && ring.mode == mode
    {
      ring := new Ring(size, mode);
      active, log, delivered := 0, [], [];
    }

    /** Records a call whose bytes have all been accepted. */
    ghost method Record(e: Entry, before: seq<byte>, taken: seq<byte>)
      requires PlainEntry(e) && (forall i :: 0 <= i < |log| ==> PlainEntry(log[i]))
      requires delivered + before == Stream(log)
      requires ring.Valid() && before + Encoded(Active(log), e) == taken + ring.Contents()
      requires active == ActiveAfter(Active(log), e)
      modifies this`log, this`delivered
      ensures Valid() && log == old(log) + [e]
    {
      Delivered(delivered, before, Encoded(Active(log), e), taken, ring.Contents());
      OneMoreEntry(log, e, log + [e]);
      delivered := delivered + taken;
      log := log + [e];
    }

    /**
     Switch, text, switch back, each with a blocking write. `done` is false when the host's
     schedule ended while one of the writes was still waiting for space.
     */
    method PostFragment(id: TerminalId, text: seq<byte>, host: seq<nat>)
      returns (status: nat, done: bool, taken: seq<byte>)
      requires ring.Valid()
      modifies ring`wr, ring`rd, ring.data
      ensures ring.Valid()
      ensures done ==> status == |text|
      ensures done ==> old(ring.Contents()) + (Switch(id) + text + Switch(active)) == taken + ring.Contents()
      ensures |text| + 4 <= old(ring.Free()) && 6 <= |host| ==> done
      ensures 2 <= ring.data.Length && |text| + 5 <= |host| && Hungry(host) ==> done
    {
      ghost var c0 := ring.Contents();
      var n, polls, taken0 := ring.WriteBlocking(Switch(id), host);
      ghost var c1 := ring.Contents();
      if n < 2 {
        return 0, false, taken0;
      }
      assert Switch(id)[..2] == Switch(id);
      var rest := host[polls..];
      var m, polls1, taken1 := ring.WriteBlocking(text, rest);
      ghost var c2 := ring.Contents();
      if m < |text| {
        return m, false, taken0 + taken1;
      }
      assert text[..|text|] == text;
      var k, polls2, taken2 := ring.WriteBlocking(Switch(active), rest[polls1..]);
      if k < 2 {
        return m, false, taken0 + taken1 + taken2;
      }
      assert Switch(active)[..2] == Switch(active);
      Chain(c0, Switch(id), taken0, c1, text, taken1, c2, Switch(active), taken2, ring.Contents());
      return m, true, taken0 + taken1 + taken2;
    }

    /** The fragment, with its entry in the log of accepted calls. */
    method PostAndRecord(id: TerminalId, text: seq<byte>, host: seq<nat>) returns (status: nat, done: bool)
      requires Valid() && Plain(text)
      modifies this`log, this`delivered, ring`wr, ring`rd, ring.data
      ensures done ==> Valid() && status == |text| && log == old(log) + [OnTerminal(id, text)]
      ensures |text| + 4 <= old(ring.Free()) && 6 <= |host| ==> done
      ensures 2 <= ring.data.Length && |text| + 5 <= |host| && Hungry(host) ==> done
    {
      ghost var before := ring.Contents();
      var taken: seq<byte>;
      status, done, taken := PostFragment(id, text, host);
      if done {
        Record(OnTerminal(id, text), before, taken);
      }
    }

    /**
     Prints a string on the given terminal and returns to the active one. In skip mode it is all
     or nothing, in trim mode the longest prefix that leaves room for both switches; in both
     modes the blocking writes inside never have to wait, whatever the host does.
     */
    method TerminalOut(id: nat, s: seq<byte>, host: seq<nat>) returns (status: int, done: bool)
      requires Valid() && Plain(s) && |s| + 4 < TWO_TO_THE_32
      modifies this`log, this`delivered, ring`wr, ring`rd, ring.data
      ensures done ==> Valid()
      ensures !ring.mode.BlockIfFifoFull? && 6 <= |host| ==> done
      ensures 2 <= ring.data.Length && |s| + 5 <= |host| && Hungry(host) ==> done
      ensures TERMINALS <= id || ring.mode.OtherMode? ==> status == -1 && log == old(log)
      ensures id < TERMINALS && ring.mode.NoBlockSkip? && done ==>
        if |s| + 4 <= old(ring.Free()) then status == |s| && log == old(log) + [OnTerminal(id, s)]
        else status == 0 && log == old(log)
      ensures id < TERMINALS && ring.mode.NoBlockTrim? && done ==>
        if 4 <= old(ring.Free()) then
          var n := Min(|s|, old(ring.Free()) - 4);
          status == n && log == old(log) + [OnTerminal(id, s[..n])]
        else status == -1 && log == old(log)
      ensures id < TERMINALS && ring.mode.BlockIfFifoFull? && done ==>
        status == |s| && log == old(log) + [OnTerminal(id, s)]
    {
      status, done := -1, true;
      if id < TERMINALS {
        var avail := ring.GetAvailWriteSpace();
        var text: seq<byte> := [];
        match ring.mode {
          case NoBlockSkip =>
            if avail < |s| + 4 {
              return 0, true;
            }
            text := s;
          case NoBlockTrim =>
            if avail < 4 {
              return -1, true;
            }
            text := s[..if |s| < avail - 4 then |s| else avail - 4];
          case BlockIfFifoFull =>
            text := s;
          case OtherMode =>
            return -1, true;
        }
        status, done := PostAndRecord(id, text, host);
      }
    }

    /** The blocking form of the switch: the terminal becomes active before the bytes are posted. */
    method SwitchBlocking(id: TerminalId, host: seq<nat>) returns (done: bool)
      requires Valid()
      modifies this`log, this`delivered, this`active, ring`wr, ring`rd, ring.data
      ensures active == id
      ensures done ==> Valid() && log == old(log) + [Switched(id)]
    {
      ghost var before := ring.Contents();
      active := id;
      var n, polls, taken := ring.WriteBlocking(Switch(id), host);
      done := n == 2;
      if done {
        assert Switch(id)[..2] == Switch(id);
        Record(Switched(id), before, taken);
      }
    }

    /** The non-blocking form: the terminal becomes active only when both bytes fit. */
    method SwitchIfRoom(id: TerminalId) returns (ok: bool)
      requires Valid()
      modifies this`log, this`delivered, this`active, ring`wr, ring.data
      ensures Valid()
      ensures ok <==> 2 <= old(ring.Free())
      ensures log == if ok then old(log) + [Switched(id)] else old(log)
      ensures active == if ok then id else old(active)
    {
      ghost var before := ring.Contents();
      var avail := ring.GetAvailWriteSpace();
      ok := avail >= 2;
      if ok {
        active := id;
        ring.WriteNoCheck(Switch(id));
        assert [] + ring.Contents() == before + Switch(id);
        Record(Switched(id), before, []);
      }
    }

    /** Makes `id` the active terminal, if the switch can be posted. */
    method SetTerminal(id: nat, host: seq<nat>) returns (r: int, done: bool)
      requires Valid()
      modifies this`log, this`delivered, this`active, ring`wr, ring`rd, ring.data
      ensures done ==> Valid()
      ensures !ring.mode.BlockIfFifoFull? ==> done
      ensures done ==>
        if id < TERMINALS && (ring.mode.BlockIfFifoFull? || 2 <= old(ring.Free())) then
          r == 0 && active == id && log == old(log) + [Switched(id)]
        else
          r == -1 && active == old(active) && log == old(log)
    {
      r, done := 0, true;
      if id < TERMINALS {
        if ring.mode.BlockIfFifoFull? {
          done := SwitchBlocking(id, host);
        } else {
          var ok := SwitchIfRoom(id);
          if !ok {
            r := -1;
          }
        }
      } else {
        r := -1;
      }
    }

    /** A plain write to channel 0: it goes to whatever terminal is active. */
    method Write(s: seq<byte>, host: seq<nat>) returns (status: nat)
      requires Valid() && Plain(s)
      modifies this`log, this`delivered, ring`wr, ring`rd, ring.data
      ensures Valid() && status <= |s|
      ensures log == old(log) + [OnActive(s[..status])]
    {
      ghost var before := ring.Contents();
      var taken: seq<byte>;
      status, taken := ring.Write(s, host);
      Record(OnActive(s[..status]), before, taken);
    }

    /** Once the host has taken everything, what it shows on `t` is what the calls had accepted for `t`. */
    lemma DrainedHostShows(t: TerminalId)
      requires Valid() && ring.Contents() == []
      ensures Shown(delivered, 0, t) == Texts(log, t) && Current(delivered, 0) == active
    {
      assert delivered + [] == delivered;
      HostRecoversTerminals(log, t);
    }
  }

  lemma Delivered(delivered: seq<byte>, before: seq<byte>, encoded: seq<byte>, taken: seq<byte>, contents: seq<byte>)
    requires before + encoded == taken + contents
    ensures delivered + before + encoded == delivered + taken + contents
  {
    Associate(delivered, before, encoded);
    Associate(delivered, taken, contents);
  }

  /** Three consecutive writes on one ring add up. */
  lemma Chain(c0: seq<byte>, a: seq<byte>, t0: seq<byte>, c1: seq<byte>, b: seq<byte>, t1: seq<byte>,
              c2: seq<byte>, c: seq<byte>, t2: seq<byte>, c3: seq<byte>)
    requires c0 + a == t0 + c1 && c1 + b == t1 + c2 && c2 + c == t2 + c3
    ensures c0 + (a + b + c) == t0 + t1 + t2 + c3
  {
    calc {
      c0 + (a + b + c);
      (c0 + a) + b + c;
      t0 + (c1 + b) + c;
      t0 + t1 + (c2 + c);
      t0 + t1 + t2 + c3;
    }
  }
}
