/** Numbers and buffers of the remote protocol: shortest hexadecimal out, hexadecimal with a limit in. */
module Remote {
  import opened Machine
  import HexCodec

  const TWO_TO_THE_64: nat := 0x1_0000_0000_0000_0000
  const REMOTE_RESP: uint8 := 38
  const REMOTE_EOM: uint8 := 35

  /** NTOH */
  function DigitOf(x: nat): uint8
    requires x < 16
  {
    if x <= 9 then 48 + x else 97 + x - 10
  }

  /** ISHEX */
  predicate IsHex(c: uint8) {
    48 <= c <= 57 || 65 <= c <= 70 || 97 <= c <= 102
  }

  /** TOUPPER */
  function ToUpper(c: uint8): uint8 {
    if 97 <= c <= 122 then c - 32 else c
  }

  /** HTON */
  function ValueOf(c: uint8): (v: nat)
    requires IsHex(c)
    ensures v < 16
  {
    if c <= 57 then c - 48 else ToUpper(c) - 65 + 10
  }

  lemma DigitValue(x: nat)
    requires x < 16
    ensures IsHex(DigitOf(x)) && ValueOf(DigitOf(x)) == x && DigitOf(x) != REMOTE_EOM
  {
  }

  /** Responses are written in lower case; digits of either case are read, and nothing else is a digit. */
  lemma DigitTexts(x: nat, c: uint8)
    requires x < 16
    ensures DigitOf(x) as int == LOWER_DIGITS[x] as int
    ensures IsHex(c) && ValueOf(c) == x <==> c == LOWER_DIGITS[x] as int || c == UPPER_DIGITS[x] as int
  {
  }

  /** The number a digit string stands for, before any truncation. */
  function Number(digits: seq<uint8>): nat
    requires forall k :: 0 <= k < |digits| ==> IsHex(digits[k])
    decreases |digits|
  {
    if digits == [] then 0 else 16 * Number(digits[..|digits| - 1]) + ValueOf(digits[|digits| - 1])
  }

  /** How many digits a reader with `limit` takes. */
  function DigitCount(s: seq<uint8>, limit: nat): (n: nat)
    ensures n <= |s| && n <= limit
    ensures forall k :: 0 <= k < n ==> IsHex(s[k])
    ensures n < limit && n < |s| ==> !IsHex(s[n])
    decreases limit
  {
    if limit == 0 || s == [] || !IsHex(s[0]) then 0 else 1 + DigitCount(s[1..], limit - 1)
  }

  /** remotehston: the digits up to the first other character or the limit, in 64 bits that wrap. */
  method Hston(limit: nat, s: seq<uint8>) returns (ret: nat)
    requires limit <= |s| || exists k :: 0 <= k < |s| && !IsHex(s[k])
    ensures ret == Number(s[..DigitCount(s, limit)]) % TWO_TO_THE_64
  {
    ret := 0;
    var at: nat, left := 0, limit;
    while left > 0
      invariant at + left == limit && at <= DigitCount(s, limit)
      invariant ret == Number(s[..at]) % TWO_TO_THE_64
    {
      left := left - 1;
      HasNext(s, limit, at);
      var c := s[at];
      if !IsHex(c) {
        return;
      }
      TakesDigit(s, limit, at);
      ShiftIn(Number(s[..at]), ValueOf(c));
      assert s[..at + 1][..at] == s[..at];
      ret := (ret * 16 + ValueOf(c)) % TWO_TO_THE_64;
      at := at + 1;
    }
  }

  lemma ShiftIn(n: nat, digit: nat)
    ensures (n % TWO_TO_THE_64 * 16 + digit) % TWO_TO_THE_64 == (16 * n + digit) % TWO_TO_THE_64
  {
    var q := n / TWO_TO_THE_64;
    assert 16 * n + digit == n % TWO_TO_THE_64 * 16 + digit + 16 * q * TWO_TO_THE_64;
  }

  /** A reader that has taken only digits stays inside its input. */
  lemma HasNext(s: seq<uint8>, limit: nat, at: nat)
    requires limit <= |s| || exists k :: 0 <= k < |s| && !IsHex(s[k])
    requires at < limit && at <= DigitCount(s, limit)
    ensures at < |s|
  {
    if limit > |s| {
      var k :| 0 <= k < |s| && !IsHex(s[k]);
      assert DigitCount(s, limit) <= k;
    }
  }

  lemma TakesDigit(s: seq<uint8>, limit: nat, at: nat)
    requires at < limit && at < |s| && at <= DigitCount(s, limit) && IsHex(s[at])
    ensures at + 1 <= DigitCount(s, limit)
  {
  }

  /** The shortest numeral, most significant digit first. */
  function HexOf(v: nat): (digits: seq<uint8>)
    ensures |digits| >= 1
    decreases v
  {
    if v < 16 then [DigitOf(v)] else HexOf(v / 16) + [DigitOf(v % 16)]
  }

  lemma {:induction false} HexOfValue(v: nat)
    ensures forall k :: 0 <= k < |HexOf(v)| ==> IsHex(HexOf(v)[k]) && HexOf(v)[k] != REMOTE_EOM
    ensures Number(HexOf(v)) == v
    decreases v
  {
    var digits := HexOf(v);
    DigitValue(v % 16);
    if v < 16 {
      assert digits[..0] == [];
    } else {
      HexOfValue(v / 16);
      assert digits[..|digits| - 1] == HexOf(v / 16);
    }
  }

  function Pow16(n: nat): (p: nat)
    ensures p >= 1
  {
    if n == 0 then 1 else 16 * Pow16(n - 1)
  }

  /** No digit string of at most `n` digits is enough for less: the numeral is the shortest one. */
  lemma {:induction false} HexOfShortest(v: nat, n: nat)
    requires n >= 1
    ensures |HexOf(v)| <= n <==> v < Pow16(n)
    decreases n
  {
    if n == 1 {
      assert Pow16(1) == 16 * Pow16(0);
    } else if v >= 16 {
      HexOfShortest(v / 16, n - 1);
      assert v / 16 < Pow16(n - 1) <==> v < 16 * Pow16(n - 1);
    } else {
      assert Pow16(n) >= 16;
    }
  }

  lemma Pow16Of16()
    ensures Pow16(16) == TWO_TO_THE_64
  {
    assert Pow16(4) == 65536;
    assert Pow16(8) == 65536 * 65536;
    assert Pow16(12) == 65536 * 65536 * 65536;
  }

  /** _respond: digits are collected backwards in a buffer of 35 and sent forwards, at most 16 of them. */
  method Respond(respCode: uint8, param: nat) returns (sent: seq<uint8>)
    requires param < TWO_TO_THE_64
    ensures sent == [REMOTE_RESP, respCode] + HexOf(param) + [REMOTE_EOM]
    ensures |sent| <= 19
  {
    var buf := new uint8[35];
    HexOfShortest(param, 16);
    Pow16Of16();
    var n := WriteBackwards(buf, param, HexOf(param));
    var text := SendBackwards(buf, n, HexOf(param));
    sent := [REMOTE_RESP, respCode] + text + [REMOTE_EOM];
  }

  /** The loop that takes the number apart, from its last digit on. */
  method WriteBackwards(buf: array<uint8>, param: nat, ghost digits: seq<uint8>) returns (p: nat)
    requires digits == HexOf(param) && |digits| <= buf.Length
    modifies buf
    ensures p == |digits| && forall k :: 0 <= k < p ==> buf[k] == digits[p - 1 - k]
  {
    var rest: nat, more := param, true;
    p := 0;
    while more
      invariant p <= |digits| && (!more ==> rest == 0 && p == |digits|)
      invariant more ==> digits == HexOf(rest) + digits[|digits| - p..]
      invariant forall k :: 0 <= k < p ==> buf[k] == digits[|digits| - 1 - k]
      decreases more, rest
    {
      LastDigit(rest);
      buf[p] := DigitOf(rest % 16);
      p, rest := p + 1, rest / 16;
      more := rest != 0;
    }
  }

  /** The loop that sends the digits, the last one stored first. */
  method SendBackwards(buf: array<uint8>, n: nat, ghost digits: seq<uint8>) returns (sent: seq<uint8>)
    requires n == |digits| <= buf.Length && forall k :: 0 <= k < n ==> buf[k] == digits[n - 1 - k]
    ensures sent == digits
  {
    var p := n;
    sent := [];
    while p > 0
      invariant 0 <= p <= n && sent == digits[..n - p]
    {
      p := p - 1;
      assert digits[..n - p] == digits[..n - p - 1] + [digits[n - p - 1]];
      sent := sent + [buf[p]];
    }
  }

  lemma LastDigit(v: nat)
    ensures var d := HexOf(v);
            && d[|d| - 1] == DigitOf(v % 16)
            && (v / 16 == 0 ==> |d| == 1) && (v / 16 != 0 ==> d == HexOf(v / 16) + [d[|d| - 1]])
  {
  }

  /**
   Whatever follows a response, the reader of a number field that has room for its digits gets the
   parameter back, and the field ends at the first end mark.
   */
  lemma NumberRoundTrip(v: nat, limit: nat, rest: seq<uint8>)
    requires v < TWO_TO_THE_64 && limit >= 16
    ensures var s := HexOf(v) + [REMOTE_EOM] + rest;
            DigitCount(s, limit) == |HexOf(v)| <= 16 && Number(s[..DigitCount(s, limit)]) % TWO_TO_THE_64 == v
  {
    HexOfShortest(v, 16);
    Pow16Of16();
    ReadsNumeral(v, limit, [REMOTE_EOM] + rest);
    assert HexOf(v) + [REMOTE_EOM] + rest == HexOf(v) + ([REMOTE_EOM] + rest);
  }

  /** Cutting a numeral short loses at least a factor of 16. */
  lemma {:induction false} PrefixIsSmaller(v: nat, n: nat)
    requires n < |HexOf(v)|
    ensures forall k :: 0 <= k < n ==> IsHex(HexOf(v)[k])
    ensures Number(HexOf(v)[..n]) <= v / 16
    decreases v
  {
    HexOfValue(v);
    if v >= 16 {
      HexOfValue(v / 16);
      assert HexOf(v)[..n] == HexOf(v / 16)[..n];
      if n == |HexOf(v / 16)| {
        assert HexOf(v / 16)[..n] == HexOf(v / 16);
      } else {
        PrefixIsSmaller(v / 16, n);
      }
    }
  }

  lemma {:induction false} CountsDigits(digits: seq<uint8>, rest: seq<uint8>, limit: nat)
    requires (forall k :: 0 <= k < |digits| ==> IsHex(digits[k])) && rest != [] && !IsHex(rest[0])
    ensures DigitCount(digits + rest, limit) == Min(limit, |digits|)
    decreases limit
  {
    var s := digits + rest;
    if digits == [] {
      assert s == rest;
    } else if limit > 0 {
      assert s[1..] == digits[1..] + rest;
      CountsDigits(digits[1..], rest, limit - 1);
    }
  }

  /** The reader returns the parameter exactly when its limit leaves room for the whole numeral, or the parameter is 0. */
  lemma ReadsNumeral(v: nat, limit: nat, rest: seq<uint8>)
    requires rest != [] && !IsHex(rest[0])
    ensures var s := HexOf(v) + rest;
            && DigitCount(s, limit) == Min(limit, |HexOf(v)|)
            && (Number(s[..DigitCount(s, limit)]) == v <==> limit >= |HexOf(v)| || v == 0)
  {
    var s := HexOf(v) + rest;
    HexOfValue(v);
    var n := DigitCount(s, limit);
    CountsDigits(HexOf(v), rest, limit);
    if n == |HexOf(v)| {
      assert s[..n] == HexOf(v);
    } else {
      PrefixIsSmaller(v, n);
      assert s[..n] == HexOf(v)[..n];
    }
  }

  /** _respond_buf: every byte as two digits. The loop runs at least once, so an empty buffer sends one byte. */
  method RespondBuf(respCode: byte, buffer: seq<byte>, len: nat) returns (sent: seq<byte>)
    requires 1 <= len <= |buffer| || (len == 0 && |buffer| >= 1)
    ensures sent == [38, respCode] + HexCodec.Hexified(buffer[..if len == 0 then 1 else len]) + [35]
  {
    sent := [38, respCode];
    var p: nat := 0;
    ghost var n := if len == 0 then 1 else len;
    ghost var all := HexCodec.Hexified(buffer[..n]);
    var more := true;
    while more
      invariant p <= n && sent == [38, respCode] + all[..2 * p]
      invariant more <==> p < n
      decreases n - p
    {
      var hex := new byte[3];
      HexCodec.Hexify(hex, 0, [buffer[p]]);
      assert hex[..2] == hex[0..2];
      sent := sent + [hex[0], hex[1]];
      p := p + 1;
      more := p < len;
    }
    assert all[..2 * n] == all;
    sent := sent + [35];
  }

  /** The host that unhexifies the body gets the buffer. */
  lemma BufferRoundTrip(respCode: byte, buffer: seq<byte>)
    ensures var sent := [38, respCode] + HexCodec.Hexified(buffer) + [35];
            HexCodec.Unhexified(sent[2..|sent| - 1]) == buffer
  {
    var sent := [38, respCode] + HexCodec.Hexified(buffer) + [35];
    assert sent[2..|sent| - 1] == HexCodec.Hexified(buffer);
    HexCodec.HexRoundTrip(buffer);
  }
}
