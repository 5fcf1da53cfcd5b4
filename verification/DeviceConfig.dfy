/**
 The persistent settings: a packed structure of 39 bytes, of which the first 33 are kept in EEPROM
 under a CRC. Every change goes to both, so a restart finds what was set.
 */
module DeviceConfig {
  import opened Machine
  import Crc16
  import E = Eeprom

  const RAM_SIZE: nat := 39
  const STORED_SIZE: nat := 33
  const MAC_SIZE: nat := 6
  const CRC_SIZE: nat := 2

  datatype Id =
    | IdCrc | IdDhcp | IdIp | IdNetmask | IdGateway | IdMac | IdLeds
    | IdInterface1 | IdInterface1Type | IdInterface1Port
    | IdInterface2 | IdInterface2Type | IdInterface2Port
    | IdTarget1 | IdTarget1Frequency | IdTarget2 | IdTarget2Frequency
    | IdOutOfRange

  /** Where the setting lies in the packed structure. */
  function Start(id: Id): nat {
    match id
    case IdCrc => 0
    case IdDhcp => 2
    case IdIp => 3
    case IdNetmask => 7
    case IdGateway => 11
    case IdLeds => 15
    case IdInterface1 => 19
    case IdInterface1Type => 19
    case IdInterface1Port => 20
    case IdInterface2 => 22
    case IdInterface2Type => 22
    case IdInterface2Port => 23
    case IdTarget1 => 25
    case IdTarget1Frequency => 25
    case IdTarget2 => 29
    case IdTarget2Frequency => 29
    case IdMac => 33
    case IdOutOfRange => 0
  }

  function Size(id: Id): nat {
    match id
    case IdCrc => 2
    case IdDhcp => 1
    case IdInterface1 => 3
    case IdInterface1Type => 1
    case IdInterface1Port => 2
    case IdInterface2 => 3
    case IdInterface2Type => 1
    case IdInterface2Port => 2
    case IdMac => 6
    case IdOutOfRange => 0
    case _ => 4
  }

  function End(id: Id): (e: nat)
    ensures e <= RAM_SIZE
  {
    Start(id) + Size(id)
  }

  function Field(ram: seq<byte>, id: Id): (value: seq<byte>)
    requires |ram| == RAM_SIZE
    ensures |value| == Size(id)
  {
    ram[Start(id)..End(id)]
  }

  /** The packed structure: each setting follows the one before it, an interface or target setting covers its parts, and the MAC address is not stored with the rest. */
  lemma Layout()
    ensures Start(IdCrc) == 0 && End(IdCrc) == Start(IdDhcp) && End(IdDhcp) == Start(IdIp) && End(IdIp) == Start(IdNetmask)
    ensures End(IdNetmask) == Start(IdGateway) && End(IdGateway) == Start(IdLeds) && End(IdLeds) == Start(IdInterface1)
    ensures End(IdInterface1) == Start(IdInterface2) && End(IdInterface2) == Start(IdTarget1) && End(IdTarget1) == Start(IdTarget2)
    ensures End(IdTarget2) == STORED_SIZE == Start(IdMac) && End(IdMac) == RAM_SIZE
    ensures Start(IdInterface1Type) == Start(IdInterface1) && End(IdInterface1Type) == Start(IdInterface1Port) && End(IdInterface1Port) == End(IdInterface1)
    ensures Start(IdInterface2Type) == Start(IdInterface2) && End(IdInterface2Type) == Start(IdInterface2Port) && End(IdInterface2Port) == End(IdInterface2)
    ensures Start(IdTarget1Frequency) == Start(IdTarget1) && End(IdTarget1Frequency) == End(IdTarget1)
    ensures Start(IdTarget2Frequency) == Start(IdTarget2) && End(IdTarget2Frequency) == End(IdTarget2)
  {
  }

  // ---------- what the calls do to the bytes ----------

  function LowByte(crc: bv16): byte {
    (crc & 0xFF) as byte
  }

  function HighByte(crc: bv16): byte {
    (crc >> 8) as byte
  }

  lemma CrcBytes(crc: bv16)
    ensures Crc16.Pair(LowByte(crc), HighByte(crc)) == crc
  {
  }

  /** The CRC over everything that is stored but the CRC itself. */
  function Checksum(image: seq<byte>): bv16
    requires |image| >= STORED_SIZE
  {
    Crc16.Fold(0xFFFF, image[CRC_SIZE..STORED_SIZE])
  }

  predicate ValidCrc(image: seq<byte>)
    requires |image| >= STORED_SIZE
  {
    Crc16.Pair(image[0], image[1]) == Checksum(image)
  }

  function WithCrc(ram: seq<byte>): (after: seq<byte>)
    requires |ram| >= STORED_SIZE
    ensures |after| == |ram|
  {
    [LowByte(Checksum(ram)), HighByte(Checksum(ram))] + ram[CRC_SIZE..]
  }

  lemma WithCrcValid(ram: seq<byte>)
    requires |ram| >= STORED_SIZE
    ensures ValidCrc(WithCrc(ram)) && Checksum(WithCrc(ram)) == Checksum(ram)
    ensures ValidCrc(ram) <==> WithCrc(ram) == ram
  {
    CrcBytes(Checksum(ram));
    assert WithCrc(ram)[CRC_SIZE..STORED_SIZE] == ram[CRC_SIZE..STORED_SIZE];
    if ValidCrc(ram) {
      Crc16.PairInjective(ram[0], ram[1], LowByte(Checksum(ram)), HighByte(Checksum(ram)));
      assert WithCrc(ram) == ram;
    }
  }

  /** A setting is changed: the new bytes, and the CRC over them. */
  function Changed(ram: seq<byte>, id: Id, value: seq<byte>): (after: seq<byte>)
    requires |ram| == RAM_SIZE && |value| == Size(id)
    ensures |after| == RAM_SIZE
  {
    WithCrc(E.Overlay(ram, Start(id), value))
  }

  /** Reading a setting after it was changed returns the new value, the CRC's only when it is the right one. */
  lemma GetAfterChange(ram: seq<byte>, id: Id, value: seq<byte>)
    requires |ram| == RAM_SIZE && |value| == Size(id)
    ensures Field(Changed(ram, id, value), id) == value <==>
            id != IdCrc || Crc16.Pair(value[0], value[1]) == Checksum(ram)
  {
    var overlaid, after := E.Overlay(ram, Start(id), value), Changed(ram, id, value);
    if id != IdCrc {
      forall k | 0 <= k < Size(id)
        ensures Field(after, id)[k] == value[k]
      {
        NotCrc(id);
        FieldByte(after, id, k);
        BehindCrc(overlaid, Start(id) + k);
      }
    } else {
      assert overlaid[CRC_SIZE..STORED_SIZE] == ram[CRC_SIZE..STORED_SIZE];
      CrcBytes(Checksum(ram));
      assert Field(after, id) == [LowByte(Checksum(ram)), HighByte(Checksum(ram))];
      if Crc16.Pair(value[0], value[1]) == Checksum(ram) {
        Crc16.PairInjective(value[0], value[1], LowByte(Checksum(ram)), HighByte(Checksum(ram)));
      }
    }
  }

  /** Settings with disjoint bytes do not disturb each other, the CRC aside. */
  lemma OthersUnaffected(ram: seq<byte>, id: Id, value: seq<byte>, other: Id)
    requires |ram| == RAM_SIZE && |value| == Size(id) && other != IdCrc
    requires End(id) <= Start(other) || End(other) <= Start(id)
    ensures Field(Changed(ram, id, value), other) == Field(ram, other)
  {
    forall k | 0 <= k < Size(other)
      ensures Field(Changed(ram, id, value), other)[k] == Field(ram, other)[k]
    {
      NotCrc(other);
      FieldByte(Changed(ram, id, value), other, k);
      FieldByte(ram, other, k);
      OtherByte(ram, id, value, Start(other) + k);
    }
  }

  lemma FieldByte(ram: seq<byte>, id: Id, k: nat)
    requires |ram| == RAM_SIZE && k < Size(id)
    ensures Field(ram, id)[k] == ram[Start(id) + k]
  {
    SliceByte(ram, Start(id), End(id), k);
  }

  lemma SliceByte(s: seq<byte>, lo: nat, hi: nat, k: nat)
    requires lo + k < hi <= |s|
    ensures s[lo..hi][k] == s[lo + k]
  {
  }

  /** Every setting but the CRC lies behind it. */
  lemma NotCrc(id: Id)
    requires id != IdCrc && Size(id) > 0
    ensures CRC_SIZE <= Start(id)
  {
  }

  lemma OtherByte(ram: seq<byte>, id: Id, value: seq<byte>, i: nat)
    requires |ram| == RAM_SIZE && |value| == Size(id) && CRC_SIZE <= i < RAM_SIZE && !(Start(id) <= i < End(id))
    ensures Changed(ram, id, value)[i] == ram[i]
  {
    BehindCrc(E.Overlay(ram, Start(id), value), i);
  }

  lemma BehindCrc(ram: seq<byte>, i: nat)
    requires STORED_SIZE <= |ram| && CRC_SIZE <= i < |ram|
    ensures WithCrc(ram)[i] == ram[i]
  {
  }

  const DEFAULT_SETTINGS: seq<byte> :=
    [0, 192, 168, 0, 2, 255, 255, 255, 0, 192, 168, 0, 1, 0xFF, 0xFF, 0xFF, 0xFF,
     0, 0, 0, 0, 0, 0, 0x40, 0x42, 0x0F, 0, 0x40, 0x42, 0x0F, 0]

  /** The defaults keep the CRC and the MAC address. */
  function Defaults(ram: seq<byte>): (after: seq<byte>)
    requires |ram| == RAM_SIZE
    ensures |after| == RAM_SIZE
  {
    E.Overlay(ram, CRC_SIZE, DEFAULT_SETTINGS)
  }

  /** The defaults, setting by setting: a fixed network address ... */
  lemma DefaultAddresses(ram: seq<byte>)
    requires |ram| == RAM_SIZE
    ensures Field(Defaults(ram), IdDhcp) == [0] && Field(Defaults(ram), IdIp) == [192, 168, 0, 2]
    ensures Field(Defaults(ram), IdNetmask) == [255, 255, 255, 0] && Field(Defaults(ram), IdGateway) == [192, 168, 0, 1]
  {
    DefaultField(ram, IdDhcp, [0]);
    DefaultField(ram, IdIp, [192, 168, 0, 2]);
    DefaultField(ram, IdNetmask, [255, 255, 255, 0]);
    DefaultField(ram, IdGateway, [192, 168, 0, 1]);
  }

  /** ... all LEDs, both interfaces zero, both targets at a megahertz, CRC and MAC address kept. */
  lemma OtherDefaults(ram: seq<byte>)
    requires |ram| == RAM_SIZE
    ensures Field(Defaults(ram), IdLeds) == [255, 255, 255, 255]
    ensures Field(Defaults(ram), IdInterface1) == [0, 0, 0] == Field(Defaults(ram), IdInterface2)
    ensures Field(Defaults(ram), IdTarget1) == [0x40, 0x42, 0x0F, 0] == Field(Defaults(ram), IdTarget2)
    ensures Field(Defaults(ram), IdCrc) == Field(ram, IdCrc) && Field(Defaults(ram), IdMac) == Field(ram, IdMac)
    ensures 0x40 + 256 * (0x42 + 256 * (0x0F + 256 * 0)) == 1_000_000
  {
    DefaultField(ram, IdLeds, [255, 255, 255, 255]);
    DefaultField(ram, IdInterface1, [0, 0, 0]);
    DefaultField(ram, IdInterface2, [0, 0, 0]);
    DefaultField(ram, IdTarget1, [0x40, 0x42, 0x0F, 0]);
    DefaultField(ram, IdTarget2, [0x40, 0x42, 0x0F, 0]);
  }

  lemma DefaultField(ram: seq<byte>, id: Id, value: seq<byte>)
    requires |ram| == RAM_SIZE && |value| == Size(id) && CRC_SIZE <= Start(id) && End(id) <= STORED_SIZE
    requires forall k :: 0 <= k < |value| ==> DEFAULT_SETTINGS[Start(id) - CRC_SIZE + k] == value[k]
    ensures Field(Defaults(ram), id) == value
  {
    forall k | 0 <= k < |value|
      ensures Field(Defaults(ram), id)[k] == value[k]
    {
      FieldByte(Defaults(ram), id, k);
    }
  }

  lemma Adjacent(ram: seq<byte>, at: nat, a: seq<byte>, b: seq<byte>)
    ensures E.Overlay(E.Overlay(ram, at, a), at + |a|, b) == E.Overlay(ram, at, a + b)
  {
  }

  /** The defaults, setting by setting. */
  lemma DefaultParts()
    ensures |DEFAULT_SETTINGS| == 31
    ensures DEFAULT_SETTINGS[..5] == [0] + [192, 168, 0, 2]
    ensures DEFAULT_SETTINGS[..9] == DEFAULT_SETTINGS[..5] + [255, 255, 255, 0]
    ensures DEFAULT_SETTINGS[..13] == DEFAULT_SETTINGS[..9] + [192, 168, 0, 1]
    ensures DEFAULT_SETTINGS[..17] == DEFAULT_SETTINGS[..13] + [0xFF, 0xFF, 0xFF, 0xFF]
    ensures DEFAULT_SETTINGS[..23] == DEFAULT_SETTINGS[..17] + [0, 0, 0, 0, 0, 0]
    ensures DEFAULT_SETTINGS[..27] == DEFAULT_SETTINGS[..23] + [0x40, 0x42, 0x0F, 0]
    ensures DEFAULT_SETTINGS == DEFAULT_SETTINGS[..27] + [0x40, 0x42, 0x0F, 0]
  {
  }

  /** After a write that stored its first bytes, EEPROM and RAM agree exactly when they already did on the others. */
  lemma PartlyWritten(before: seq<byte>, after: seq<byte>, ram: seq<byte>, stored: nat)
    requires |before| == E.SIZE && |ram| == RAM_SIZE && stored <= STORED_SIZE
    requires after == E.Overlay(before, 0, ram[..stored])
    ensures after[..STORED_SIZE] == ram[..STORED_SIZE] <==> before[stored..STORED_SIZE] == ram[stored..STORED_SIZE]
    ensures after[STORED_SIZE..] == before[STORED_SIZE..]
  {
    if after[..STORED_SIZE] == ram[..STORED_SIZE] {
      forall k | 0 <= k < STORED_SIZE - stored
        ensures before[stored..STORED_SIZE][k] == ram[stored..STORED_SIZE][k]
      {
        assert after[..STORED_SIZE][stored + k] == ram[..STORED_SIZE][stored + k];
      }
    }
    if before[stored..STORED_SIZE] == ram[stored..STORED_SIZE] {
      forall i | 0 <= i < STORED_SIZE
        ensures after[i] == ram[i]
      {
        assert i >= stored ==> before[stored..STORED_SIZE][i - stored] == ram[stored..STORED_SIZE][i - stored];
      }
    }
  }

  /** What a start finds: the stored settings when their CRC is right, otherwise the defaults; the MAC address in any case. */
  function Started(mem: seq<byte>): (ram: seq<byte>)
    requires |mem| == E.SIZE
    ensures |ram| == RAM_SIZE
  {
    var read := mem[..STORED_SIZE] + mem[E.LAST_ADDR..];
    if ValidCrc(read) then read else WithCrc(Defaults(read))
  }

  lemma StartedValid(mem: seq<byte>)
    requires |mem| == E.SIZE
    ensures ValidCrc(Started(mem))
    ensures ValidCrc(mem[..STORED_SIZE]) ==> Started(mem) == mem[..STORED_SIZE] + mem[E.LAST_ADDR..]
  {
    var read := mem[..STORED_SIZE] + mem[E.LAST_ADDR..];
    assert read[CRC_SIZE..STORED_SIZE] == mem[..STORED_SIZE][CRC_SIZE..STORED_SIZE];
    WithCrcValid(Defaults(read));
  }

  /** With a wrong CRC every setting starts with its default, and the MAC address with what its own place holds. */
  lemma StartedDefaults(mem: seq<byte>, ram: seq<byte>, id: Id)
    requires |mem| == E.SIZE && |ram| == RAM_SIZE && !ValidCrc(mem[..STORED_SIZE]) && id != IdCrc
    ensures id != IdMac ==> Field(Started(mem), id) == Field(Defaults(ram), id)
    ensures Field(Started(mem), IdMac) == mem[E.LAST_ADDR..]
  {
    var read := mem[..STORED_SIZE] + mem[E.LAST_ADDR..];
    assert read[CRC_SIZE..STORED_SIZE] == mem[..STORED_SIZE][CRC_SIZE..STORED_SIZE];
    forall k | 0 <= k < Size(id) && id != IdMac
      ensures Field(Started(mem), id)[k] == Field(Defaults(ram), id)[k]
    {
      NotCrc(id);
      FieldByte(Started(mem), id, k);
      FieldByte(Defaults(ram), id, k);
      BehindCrc(Defaults(read), Start(id) + k);
    }
    forall k | 0 <= k < MAC_SIZE
      ensures Field(Started(mem), IdMac)[k] == mem[E.LAST_ADDR..][k]
    {
      FieldByte(Started(mem), IdMac, k);
      BehindCrc(Defaults(read), STORED_SIZE + k);
    }
  }

  /** A change of the stored settings inside two neighbouring bytes is noticed, so the next start falls back to the defaults. */
  lemma CorruptionIsNoticed(image: seq<byte>, k: nat, a: byte, b: byte)
    requires |image| == STORED_SIZE && ValidCrc(image) && CRC_SIZE <= k && k + 2 <= STORED_SIZE
    requires a != image[k] || b != image[k + 1]
    ensures !ValidCrc(image[k := a][k + 1 := b])
  {
    var bad := image[k := a][k + 1 := b];
    var before, after := image[CRC_SIZE..k], image[k + 2..];
    assert image[CRC_SIZE..STORED_SIZE] == before + [image[k], image[k + 1]] + after;
    assert bad[CRC_SIZE..STORED_SIZE] == before + [a, b] + after;
    Crc16.PairIsNoticed(before, image[k], image[k + 1], a, b, after);
  }

  // ---------- the calls ----------

  class Settings {
    const ram: array<byte>
    const eeprom: E.Device

    ghost predicate Valid()
      reads this
    {
      ram.Length == RAM_SIZE && eeprom.mem.Length == E.SIZE && ram != eeprom.mem
    }

    /** EEPROM and RAM hold the same settings, under a right CRC. */
    ghost predicate Stored()
      requires Valid()
      reads this, ram, eeprom.mem
    {
      eeprom.mem[..STORED_SIZE] == ram[..STORED_SIZE] && ValidCrc(ram[..])
    }

    /** device_config_init on a device that has just been powered. */
    constructor (device: E.Device)
      requires device.mem.Length == E.SIZE
      modifies device`faults, device`clock, device.mem
      ensures Valid() && fresh(ram) && eeprom == device
      ensures device.faults == old(device.faults) ==> Stored() && ram[..] == Started(old(device.mem[..]))
      ensures device.faults == old(device.faults) && ValidCrc(old(device.mem[..STORED_SIZE])) ==> device.mem[..] == old(device.mem[..])
      ensures device.mem[STORED_SIZE..] == old(device.mem[STORED_SIZE..]) && device.faults >= old(device.faults)
    {
      ram := new byte[RAM_SIZE](_ => 0);
      eeprom := device;
      new;
      StartedValid(device.mem[..]);
      assert device.mem[..][..STORED_SIZE] == device.mem[..STORED_SIZE];
      var _ := ReadAll();
      var crc := Calculate();
      if Crc16.Pair(ram[0], ram[1]) != crc {
        Reset();
        var _ := WriteAll();
      }
    }

    /** memcpy into the structure. */
    method CopyIn(at: nat, bytes: seq<byte>)
      requires at + |bytes| <= ram.Length
      modifies ram
      ensures ram[..] == E.Overlay(old(ram[..]), at, bytes)
    {
      for i := 0 to |bytes|
        invariant forall j :: 0 <= j < ram.Length ==> ram[j] == if at <= j < at + i then bytes[j - at] else old(ram[j])
      {
        ram[at + i] := bytes[i];
      }
    }

    method Calculate() returns (crc: bv16)
      requires Valid()
      ensures crc == Checksum(ram[..])
    {
      assert ram[CRC_SIZE..STORED_SIZE] == ram[..][CRC_SIZE..STORED_SIZE];
      crc := Crc16.Crc(ram[CRC_SIZE..STORED_SIZE]);
    }

    /** device_config_read_all_settings */
    method ReadAll() returns (r: int)
      requires Valid()
      modifies ram, eeprom`faults, eeprom`clock
      ensures r >= 0 ==> ram[..] == eeprom.mem[..STORED_SIZE] + eeprom.mem[E.LAST_ADDR..] && eeprom.faults == old(eeprom.faults)
      ensures r < 0 ==> eeprom.faults > old(eeprom.faults)
    {
      var read, bytes := eeprom.Read(0, STORED_SIZE);
      CopyIn(0, bytes);
      if read < 0 {
        return -1;
      }
      read, bytes := eeprom.Read(E.LAST_ADDR, MAC_SIZE);
      CopyIn(STORED_SIZE, bytes);
      r := if read < 0 then -1 else 0;
    }

    /** device_config_reset_to_default */
    method Reset()
      requires Valid()
      modifies ram
      ensures ram[..] == Defaults(old(ram[..]))
    {
      ghost var before := ram[..];
      CopyIn(Start(IdDhcp), [0]);
      CopyIn(Start(IdIp), [192, 168, 0, 2]);
      Adjacent(before, 2, [0], [192, 168, 0, 2]);
      CopyIn(Start(IdNetmask), [255, 255, 255, 0]);
      Adjacent(before, 2, DEFAULT_SETTINGS[..5], [255, 255, 255, 0]);
      CopyIn(Start(IdGateway), [192, 168, 0, 1]);
      Adjacent(before, 2, DEFAULT_SETTINGS[..9], [192, 168, 0, 1]);
      CopyIn(Start(IdLeds), [0xFF, 0xFF, 0xFF, 0xFF]);
      Adjacent(before, 2, DEFAULT_SETTINGS[..13], [0xFF, 0xFF, 0xFF, 0xFF]);
      CopyIn(Start(IdInterface1), [0, 0, 0, 0, 0, 0]);
      Adjacent(before, 2, DEFAULT_SETTINGS[..17], [0, 0, 0, 0, 0, 0]);
      CopyIn(Start(IdTarget1Frequency), [0x40, 0x42, 0x0F, 0]);
      Adjacent(before, 2, DEFAULT_SETTINGS[..23], [0x40, 0x42, 0x0F, 0]);
      CopyIn(Start(IdTarget2Frequency), [0x40, 0x42, 0x0F, 0]);
      Adjacent(before, 2, DEFAULT_SETTINGS[..27], [0x40, 0x42, 0x0F, 0]);
      DefaultParts();
    }

    /** device_config_write_all_settings */
    method WriteAll() returns (r: int)
      requires Valid()
      modifies ram, eeprom.mem, eeprom`faults, eeprom`clock
      ensures ram[..] == WithCrc(old(ram[..]))
      ensures eeprom.faults == old(eeprom.faults) <==> r >= 0
      ensures eeprom.faults >= old(eeprom.faults)
      ensures r >= 0 <==> E.WriteOutcome(eeprom.bus, old(eeprom.clock), STORED_SIZE).0
      ensures var stored := E.WriteOutcome(eeprom.bus, old(eeprom.clock), STORED_SIZE).1;
              && eeprom.mem[..] == E.Overlay(old(eeprom.mem[..]), 0, ram[..stored])
              && (Stored() <==> old(eeprom.mem[..])[stored..STORED_SIZE] == ram[stored..STORED_SIZE])
      ensures r >= 0 ==> Stored()
      ensures eeprom.mem[STORED_SIZE..] == old(eeprom.mem[STORED_SIZE..])
    {
      ghost var before := ram[..];
      var crc := Calculate();
      CopyIn(0, [LowByte(crc), HighByte(crc)]);
      assert ram[..] == WithCrc(before);
      WithCrcValid(before);
      ghost var stored, mem := 0, eeprom.mem[..];
      r, stored := eeprom.Write(0, ram[..STORED_SIZE]);
      assert ram[..STORED_SIZE][..stored] == ram[..stored];
      PartlyWritten(mem, eeprom.mem[..], ram[..], stored);
      assert eeprom.mem[..][..STORED_SIZE] == eeprom.mem[..STORED_SIZE] && ram[..][..STORED_SIZE] == ram[..STORED_SIZE];
      assert ram[..][stored..STORED_SIZE] == ram[stored..STORED_SIZE];
    }

    /** device_config_get_value */
    method GetValue(id: Id, size: nat) returns (r: int, value: seq<byte>)
      requires Valid()
      ensures r == if size == 0 || id == IdOutOfRange || size != Size(id) then -1 else size
      ensures r >= 0 ==> value == Field(ram[..], id)
    {
      value := [];
      if size == 0 || id == IdOutOfRange {
        return -1, value;
      }
      if Size(id) == size {
        value := ram[Start(id)..End(id)];
        assert value == Field(ram[..], id);
        r := size;
      } else {
        r := -1;
      }
    }

    /**
     device_config_set_value: a value of the right size that differs is stored in RAM and, with the
     whole image, in EEPROM. The result of the EEPROM write does not reach the caller; settings that
     agreed still agree exactly when no byte behind the part that was stored has changed.
     */
    method SetValue(id: Id, value: seq<byte>) returns (r: int)
      requires Valid()
      modifies ram, eeprom.mem, eeprom`faults, eeprom`clock
      ensures r == if value == [] || id == IdOutOfRange || |value| != Size(id) then -1 else |value|
      ensures ram[..] == if r < 0 || Field(old(ram[..]), id) == value then old(ram[..]) else Changed(old(ram[..]), id, value)
      ensures r < 0 || Field(old(ram[..]), id) == value ==> eeprom.mem[..] == old(eeprom.mem[..])
      ensures old(Stored()) && eeprom.faults == old(eeprom.faults) ==> Stored()
      ensures old(Stored()) ==>
                var stored := E.WriteOutcome(eeprom.bus, old(eeprom.clock), STORED_SIZE).1;
                Stored() <==> ram[stored..STORED_SIZE] == old(ram[..])[stored..STORED_SIZE]
      ensures eeprom.mem[STORED_SIZE..] == old(eeprom.mem[STORED_SIZE..]) && eeprom.faults >= old(eeprom.faults)
    {
      if |value| == 0 || id == IdOutOfRange {
        return -1;
      }
      if Size(id) != |value| {
        return -1;
      }
      r := |value|;
      assert ram[Start(id)..End(id)] == Field(ram[..], id);
      if ram[Start(id)..End(id)] != value {
        ghost var before, mem, stored := ram[..], eeprom.mem[..], E.WriteOutcome(eeprom.bus, eeprom.clock, STORED_SIZE).1;
        CopyIn(Start(id), value);
        var _ := WriteAll();
        assert mem[stored..STORED_SIZE] == mem[..STORED_SIZE][stored..];
        assert before[stored..STORED_SIZE] == before[..STORED_SIZE][stored..];
      }
    }
  }

  /** A restart on an image that holds what RAM held. */
  lemma Restarted(mem: seq<byte>, ram: seq<byte>, after: seq<byte>)
    requires |mem| == E.SIZE && |ram| == RAM_SIZE && mem[..STORED_SIZE] == ram[..STORED_SIZE] && ValidCrc(ram)
    requires after == Started(mem)
    ensures after[..STORED_SIZE] == ram[..STORED_SIZE] && after[STORED_SIZE..] == mem[E.LAST_ADDR..]
  {
    assert ram[..STORED_SIZE][CRC_SIZE..STORED_SIZE] == ram[CRC_SIZE..STORED_SIZE];
    StartedValid(mem);
  }

  /** Any number of settings, then a restart: the new RAM holds what the old one held, except the MAC address, which is read from its own place. */
  method SetAndRestart(s: Settings, changes: seq<(Id, seq<byte>)>) returns (t: Settings)
    requires s.Valid() && s.Stored()
    modifies s.ram, s.eeprom.mem, s.eeprom`faults, s.eeprom`clock
    ensures t.Valid() && t.eeprom == s.eeprom
    ensures s.eeprom.faults == old(s.eeprom.faults) ==>
              && t.Stored() && t.ram[..STORED_SIZE] == s.ram[..STORED_SIZE]
              && t.ram[STORED_SIZE..] == old(s.eeprom.mem[E.LAST_ADDR..])
  {
    for i := 0 to |changes|
      invariant s.eeprom.faults >= old(s.eeprom.faults)
      invariant s.eeprom.faults == old(s.eeprom.faults) ==> s.Stored()
      invariant s.eeprom.mem[STORED_SIZE..] == old(s.eeprom.mem[STORED_SIZE..])
    {
      var _ := s.SetValue(changes[i].0, changes[i].1);
    }
    ghost var mem, ram := s.eeprom.mem[..], s.ram[..];
    t := new Settings(s.eeprom);
    if s.eeprom.faults == old(s.eeprom.faults) {
      assert mem[..STORED_SIZE] == ram[..STORED_SIZE];
      Restarted(mem, ram, t.ram[..]);
      assert t.ram[..][..STORED_SIZE] == t.ram[..STORED_SIZE] && t.ram[..][STORED_SIZE..] == t.ram[STORED_SIZE..];
      assert mem[E.LAST_ADDR..] == mem[STORED_SIZE..][E.LAST_ADDR - STORED_SIZE..];
    }
  }
}
