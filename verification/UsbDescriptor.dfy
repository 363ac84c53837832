/** USB_Desc_Set_Speed: an in-place walk over the configuration descriptor that rewrites the
    packet sizes of the endpoint records, and the endpoint tables it updates to match.

    The records are those of sections 9.5, 9.6.3, 9.6.5 and 9.6.6 of the USB 2.0
    specification: every record starts with its length and its type, and an endpoint record
    continues with address, attributes, a two-byte packet size and an interval. */
module UsbDescriptor {
  import opened MachineInt
  import opened Bits

  newtype byte = x: int | 0 <= x < 256

  type Record = seq<byte>

  const ENDPOINT: byte := 5
  const NOTIFICATION_ENDPOINT: byte := 1

  /** What one speed prescribes. */
  datatype Settings = Settings(bulkIn: nat, bulkOut: nat, interruptSize: nat, interruptInterval: byte)

  ghost predicate ValidSettings(s: Settings) {
    s.bulkIn < TWO_16 && s.bulkOut < TWO_16 && s.interruptSize < TWO_16
  }

  /** The constants of the descriptor header: only the interrupt interval differs. */
  const HIGH_SPEED: Settings := Settings(64, 64, 16, 7)
  const FULL_SPEED: Settings := Settings(64, 64, 16, 8)

  function SettingsFor(high: bool): Settings { if high then HIGH_SPEED else FULL_SPEED }

  function Low(size: nat): byte { (size % 256) as byte }
  function High(size: nat): byte { ((size / 256) % 256) as byte }

  predicate IsNotification(address: byte) { And(address as nat, 0x7F) == NOTIFICATION_ENDPOINT as nat }
  predicate IsIn(address: byte) { And(address as nat, 0x80) != 0 }

  /** The two masks read the endpoint number and the direction bit. */
  lemma AddressParts(address: byte)
    ensures IsNotification(address) <==> (address as int) % 128 == 1
    ensures IsIn(address) <==> 128 <= address
  {
    hide And, FieldMask;
    LowBits(address as nat);
    DirectionBit(address as nat);
  }

  lemma LowBits(a: nat)
    ensures And(a, 0x7F) == a % 128
  {
    LanePowers();
    AndLowMask(a, 7);
  }

  lemma DirectionBit(a: nat)
    requires a < 256
    ensures And(a, 0x80) == 128 * (a / 128)
  {
    hide And, FieldMask;
    LanePowers();
    assert Pow2(1) == 2;
    FieldMaskIs(7, 1);
    AndField(a, 7, 1);
    assert a / 128 % 2 == a / 128;
  }

  // ----- records

  /** A record that can stand in a descriptor: long enough for its own header, and for the
      fields of an endpoint if it is one. */
  predicate ValidRecord(r: Record) {
    2 <= |r| && r[0] as int == |r| && (r[1] == ENDPOINT ==> 7 <= |r|)
  }

  /** The bytes split into records that fill them exactly. */
  predicate WellFormed(bytes: seq<byte>)
    decreases |bytes|
  {
    bytes == [] ||
    (var len := bytes[0] as int;
     len <= |bytes| && ValidRecord(bytes[..len]) && WellFormed(bytes[len..]))
  }

  function Parse(bytes: seq<byte>): seq<Record>
    requires WellFormed(bytes)
    decreases |bytes|
  {
    if bytes == [] then [] else [bytes[..bytes[0] as int]] + Parse(bytes[bytes[0] as int..])
  }

  function Serialise(records: seq<Record>): seq<byte> {
    if records == [] then [] else records[0] + Serialise(records[1..])
  }

  ghost predicate ValidRecords(records: seq<Record>) { forall r | r in records :: ValidRecord(r) }

  lemma {:induction false} SerialiseParse(bytes: seq<byte>)
    requires WellFormed(bytes)
    ensures ValidRecords(Parse(bytes)) && Serialise(Parse(bytes)) == bytes
    decreases |bytes|
  {
    if bytes != [] {
      var len := bytes[0] as int;
      SerialiseParse(bytes[len..]);
      assert bytes == bytes[..len] + bytes[len..];
    }
  }

  lemma {:induction false} ParseSerialise(records: seq<Record>)
    requires ValidRecords(records)
    ensures WellFormed(Serialise(records)) && Parse(Serialise(records)) == records
  {
    if records != [] {
      var first, rest := records[0], Serialise(records[1..]);
      assert first in records && forall r | r in records[1..] :: r in records;
      ParseSerialise(records[1..]);
      var bytes := first + rest;
      assert bytes == Serialise(records) && bytes[0] == first[0];
      assert bytes[..|first|] == first && bytes[|first|..] == rest;
      assert records == [first] + records[1..];
    }
  }

  // ----- what the walk does to a record

  function Patch(s: Settings, r: Record): (p: Record)
    requires ValidRecord(r)
    ensures |p| == |r|
  {
    if r[1] != ENDPOINT then r
    else if IsNotification(r[2]) then r[4 := Low(s.interruptSize)][5 := High(s.interruptSize)][6 := s.interruptInterval]
    else if IsIn(r[2]) then r[4 := Low(s.bulkIn)][5 := High(s.bulkIn)]
    else r[4 := Low(s.bulkOut)][5 := High(s.bulkOut)]
  }

  function PatchAll(s: Settings, records: seq<Record>): (ps: seq<Record>)
    requires ValidRecords(records)
    ensures |ps| == |records|
  {
    if records == [] then [] else [Patch(s, records[0])] + PatchAll(s, records[1..])
  }

  /** The descriptor after a change of speed, by way of its records. */
  function SetSpeed(s: Settings, bytes: seq<byte>): seq<byte>
    requires WellFormed(bytes)
  {
    SerialiseParse(bytes);
    Serialise(PatchAll(s, Parse(bytes)))
  }

  // ----- the walk itself

  datatype Direction = Send | Receive

  datatype Endpoint = Endpoint(number: nat, pipe: nat, direction: Direction, size: nat)

  /** Everything but the size. */
  predicate SameButSize(e: Endpoint, f: Endpoint) {
    e.number == f.number && e.pipe == f.pipe && e.direction == f.direction
  }

  class Descriptors {
    const config: array<byte>
    const cicEp: array<Endpoint>
    const dicEp: array<Endpoint>

    ghost predicate Valid()
      reads config
    {
      WellFormed(config[..]) && cicEp.Length == 1 && cicEp != dicEp
    }

    constructor (config: array<byte>, cicEp: array<Endpoint>, dicEp: array<Endpoint>)
      requires WellFormed(config[..]) && cicEp.Length == 1 && cicEp != dicEp
      ensures Valid() && this.config == config && this.cicEp == cicEp && this.dicEp == dicEp
    {
      this.config, this.cicEp, this.dicEp := config, cicEp, dicEp;
    }

    /** Writes the fields of the endpoint record at `pos`, leaving the rest of the array. */
    method PatchRecord(s: Settings, pos: nat)
      requires pos < config.Length && pos + config[pos] as int <= config.Length
      requires ValidRecord(config[pos..pos + config[pos] as int])
      modifies config
      ensures var len := old(config[pos]) as int;
              config[..] == old(config[..pos]) + Patch(s, old(config[pos..pos + len])) + old(config[pos + len..])
    {
      hide Low, High, IsNotification, IsIn;
      ghost var was := config[..];
      ghost var len := config[pos] as int;
      ghost var r := config[pos..pos + len];
      assert r[0] == config[pos] && r[1] == config[pos + 1];
      if config[pos + 1] == ENDPOINT {
        assert r[2] == config[pos + 2];
        if IsNotification(config[pos + 2]) {
          config[pos + 4] := Low(s.interruptSize);
          config[pos + 5] := High(s.interruptSize);
          config[pos + 6] := s.interruptInterval;
        } else if IsIn(config[pos + 2]) {
          config[pos + 4] := Low(s.bulkIn);
          config[pos + 5] := High(s.bulkIn);
        } else {
          config[pos + 4] := Low(s.bulkOut);
          config[pos + 5] := High(s.bulkOut);
        }
      }
      assert config[pos..pos + len] == Patch(s, r);
      assert config[..pos] == was[..pos] && config[pos + len..] == was[pos + len..];
      Splice(config[..], pos, len);
    }

    lemma Splice(bytes: seq<byte>, pos: nat, len: nat)
      requires pos + len <= |bytes|
      ensures bytes == bytes[..pos] + bytes[pos..pos + len] + bytes[pos + len..]
    {}

    /** The pointer walk stops on the end of the table, and what it leaves behind is the
        serialisation of the patched records. */
    method Walk(s: Settings)
      requires Valid()
      modifies config
      ensures config[..] == SetSpeed(s, old(config[..]))
    {
      hide SetSpeed, WellFormed, ValidRecord, Patch;
      ghost var was := config[..];
      var ptr := 0;
      while ptr < config.Length
        invariant 0 <= ptr <= config.Length
        invariant WellFormed(was[ptr..]) && config[ptr..] == was[ptr..]
        invariant SetSpeed(s, was) == config[..ptr] + SetSpeed(s, was[ptr..])
      {
        ghost var rest, len := was[ptr..], config[ptr] as int;
        assert rest[0] == config[ptr];
        SetSpeedSplits(s, rest);
        assert config[ptr..ptr + len] == rest[..len];
        ghost var done := config[..ptr];
        PatchRecord(s, ptr);
        assert config[ptr] as int == len;
        assert config[..ptr + len] == done + Patch(s, rest[..len]);
        assert was[ptr + len..] == rest[len..];
        ptr := ptr + config[ptr] as int;
      }
      SetSpeedOfNothing(s);
      assert config[..ptr] == config[..];
    }

    /** Copies the sizes into the endpoint tables, by direction. */
    method UpdateTables(s: Settings)
      requires cicEp.Length == 1 && cicEp != dicEp
      modifies cicEp, dicEp
      ensures SameButSize(cicEp[0], old(cicEp[0])) && cicEp[0].size == s.interruptSize
      ensures forall k | 0 <= k < dicEp.Length ::
                SameButSize(dicEp[k], old(dicEp[k]))
                && dicEp[k].size == if old(dicEp[k].direction) == Send then s.bulkIn else s.bulkOut
    {
      cicEp[0] := cicEp[0].(size := s.interruptSize);
      for i := 0 to dicEp.Length
        invariant SameButSize(cicEp[0], old(cicEp[0])) && cicEp[0].size == s.interruptSize
        invariant forall k | i <= k < dicEp.Length :: dicEp[k] == old(dicEp[k])
        invariant forall k | 0 <= k < i ::
                    SameButSize(dicEp[k], old(dicEp[k]))
                    && dicEp[k].size == if old(dicEp[k].direction) == Send then s.bulkIn else s.bulkOut
      {
        if dicEp[i].direction == Send {
          dicEp[i] := dicEp[i].(size := s.bulkIn);
        } else {
          dicEp[i] := dicEp[i].(size := s.bulkOut);
        }
      }
    }

    method SetDeviceSpeed(high: bool)
      requires Valid()
      modifies config, cicEp, dicEp
      ensures Valid()
      ensures config[..] == SetSpeed(SettingsFor(high), old(config[..]))
      ensures SameButSize(cicEp[0], old(cicEp[0])) && cicEp[0].size == SettingsFor(high).interruptSize
      ensures forall k | 0 <= k < dicEp.Length ::
                SameButSize(dicEp[k], old(dicEp[k]))
                && dicEp[k].size == if old(dicEp[k].direction) == Send then SettingsFor(high).bulkIn
                                    else SettingsFor(high).bulkOut
      ensures forall r | r in Parse(config[..]) && IsEndpoint(r) ::
                && (SameEndpoint(old(cicEp[0]), r) && r[2] as int % 128 == 1 ==> cicEp[0].size == PacketSize(r))
                && forall k | 0 <= k < dicEp.Length && SameEndpoint(old(dicEp[k]), r) && r[2] as int % 128 != 1 ::
                     dicEp[k].size == PacketSize(r)
    {
      ghost var was := config[..];
      SetSpeedKeepsRecords(SettingsFor(high), was);
      Walk(SettingsFor(high));
      UpdateTables(SettingsFor(high));
      ghost var now := config[..];
      forall r | r in Parse(now) && IsEndpoint(r)
        ensures && (SameEndpoint(old(cicEp[0]), r) && r[2] as int % 128 == 1 ==> cicEp[0].size == PacketSize(r))
                && forall k | 0 <= k < dicEp.Length && SameEndpoint(old(dicEp[k]), r) && r[2] as int % 128 != 1 ::
                     dicEp[k].size == PacketSize(r)
      {
        var j :| 0 <= j < |Parse(now)| && Parse(now)[j] == r;
        AnnouncedSizes(SettingsFor(high), was, j);
      }
    }
  }

  // ----- consequences

  lemma PatchKeepsHeader(s: Settings, r: Record)
    requires ValidRecord(r)
    ensures ValidRecord(Patch(s, r)) && Patch(s, r)[0] == r[0] && Patch(s, r)[1] == r[1]
  {
  }

  lemma {:induction false} PatchAllAt(s: Settings, records: seq<Record>, k: nat)
    requires ValidRecords(records) && k < |records|
    ensures PatchAll(s, records)[k] == Patch(s, records[k])
  {
    if k > 0 {
      assert forall r | r in records[1..] :: r in records;
      PatchAllAt(s, records[1..], k - 1);
    }
  }

  lemma PatchAllIsValid(s: Settings, records: seq<Record>)
    requires ValidRecords(records)
    ensures ValidRecords(PatchAll(s, records))
  {
    forall p | p in PatchAll(s, records) ensures ValidRecord(p) {
      var k :| 0 <= k < |records| && PatchAll(s, records)[k] == p;
      PatchAllAt(s, records, k);
      assert records[k] in records;
      PatchKeepsHeader(s, records[k]);
    }
  }

  /** The result parses into exactly the patched records. */
  lemma SetSpeedKeepsRecords(s: Settings, bytes: seq<byte>)
    requires WellFormed(bytes)
    ensures ValidRecords(Parse(bytes)) && WellFormed(SetSpeed(s, bytes))
    ensures Parse(SetSpeed(s, bytes)) == PatchAll(s, Parse(bytes))
    ensures |SetSpeed(s, bytes)| == |bytes|
  {
    SerialiseParse(bytes);
    PatchAllIsValid(s, Parse(bytes));
    ParseSerialise(PatchAll(s, Parse(bytes)));
    PatchAllLength(s, Parse(bytes));
  }

  lemma {:induction false} PatchAllLength(s: Settings, records: seq<Record>)
    requires ValidRecords(records)
    ensures |Serialise(PatchAll(s, records))| == |Serialise(records)|
  {
    if records != [] {
      assert forall r | r in records[1..] :: r in records;
      PatchAllLength(s, records[1..]);
      assert PatchAll(s, records)[1..] == PatchAll(s, records[1..]);
    }
  }

  lemma SetSpeedSplits(s: Settings, bytes: seq<byte>)
    requires WellFormed(bytes) && bytes != []
    ensures var len := bytes[0] as int;
            && 2 <= len <= |bytes| && ValidRecord(bytes[..len]) && WellFormed(bytes[len..])
            && Patch(s, bytes[..len])[0] == bytes[0]
            && SetSpeed(s, bytes) == Patch(s, bytes[..len]) + SetSpeed(s, bytes[len..])
  {
    var len := bytes[0] as int;
    PatchKeepsHeader(s, bytes[..len]);
    var records := Parse(bytes);
    SerialiseParse(bytes);
    SerialiseParse(bytes[len..]);
    assert records[0] == bytes[..len] && records[1..] == Parse(bytes[len..]);
    assert PatchAll(s, records)[1..] == PatchAll(s, records[1..]);
  }

  lemma SetSpeedOfNothing(s: Settings)
    ensures WellFormed([]) && SetSpeed(s, []) == []
  {}

  /** Which bytes of a record a change of speed may touch. */
  predicate Touched(r: Record, k: nat)
    requires ValidRecord(r)
  {
    r[1] == ENDPOINT && (k == 4 || k == 5 || (k == 6 && (r[2] as int) % 128 == 1))
  }

  /** Record by record the type, length and address stay, and outside the packet size and the
      notification endpoint's interval every byte stays. */
  lemma OnlySizesChange(s: Settings, bytes: seq<byte>, k: nat, i: nat)
    requires WellFormed(bytes) && k < |Parse(bytes)| && i < |Parse(bytes)[k]|
    ensures ValidRecord(Parse(bytes)[k]) && WellFormed(SetSpeed(s, bytes))
    ensures |Parse(SetSpeed(s, bytes))| == |Parse(bytes)| && |Parse(SetSpeed(s, bytes))[k]| == |Parse(bytes)[k]|
    ensures !Touched(Parse(bytes)[k], i) ==> Parse(SetSpeed(s, bytes))[k][i] == Parse(bytes)[k][i]
  {
    SetSpeedKeepsRecords(s, bytes);
    var r := Parse(bytes)[k];
    assert r in Parse(bytes);
    PatchAllAt(s, Parse(bytes), k);
    if r[1] == ENDPOINT {
      AddressParts(r[2]);
    }
  }

  lemma PatchPatch(s: Settings, t: Settings, r: Record)
    requires ValidRecord(r)
    ensures ValidRecord(Patch(s, r)) && Patch(t, Patch(s, r)) == Patch(t, r)
  {
    PatchKeepsHeader(s, r);
  }

  lemma {:induction false} PatchAllPatchAll(s: Settings, t: Settings, records: seq<Record>)
    requires ValidRecords(records)
    ensures ValidRecords(PatchAll(s, records)) && PatchAll(t, PatchAll(s, records)) == PatchAll(t, records)
  {
    PatchAllIsValid(s, records);
    if records != [] {
      assert forall r | r in records[1..] :: r in records;
      PatchAllPatchAll(s, t, records[1..]);
      PatchPatch(s, t, records[0]);
      assert PatchAll(s, records)[1..] == PatchAll(s, records[1..]);
    }
  }

  /** The last speed set wins; in particular a second call at the same speed changes nothing. */
  lemma LastSpeedWins(s: Settings, t: Settings, bytes: seq<byte>)
    requires WellFormed(bytes)
    ensures WellFormed(SetSpeed(s, bytes))
    ensures SetSpeed(t, SetSpeed(s, bytes)) == SetSpeed(t, bytes)
  {
    SetSpeedKeepsRecords(s, bytes);
    PatchAllPatchAll(s, t, Parse(bytes));
  }

  /** The packet size a record announces. */
  function PacketSize(r: Record): nat
    requires 6 <= |r|
  {
    r[4] as nat + 256 * r[5] as nat
  }

  function DirectionOf(address: byte): Direction { if 128 <= address then Send else Receive }

  predicate IsEndpoint(r: Record) { 7 <= |r| && r[1] == ENDPOINT }

  /** The table entry and the endpoint record are about the same endpoint. */
  predicate SameEndpoint(e: Endpoint, r: Record)
    requires 3 <= |r|
  {
    e.number == (r[2] as int) % 128 && e.direction == DirectionOf(r[2])
  }

  /** After the call an endpoint record announces the size of its kind: the notification endpoint
      the interrupt size, with its interval, and the others the bulk size of their direction. */
  lemma AnnouncedSizes(s: Settings, bytes: seq<byte>, k: nat)
    requires ValidSettings(s) && WellFormed(bytes) && k < |Parse(bytes)|
    ensures WellFormed(SetSpeed(s, bytes)) && k < |Parse(SetSpeed(s, bytes))|
    ensures var r := Parse(SetSpeed(s, bytes))[k];
            1 < |r| && (r[1] == ENDPOINT ==>
              && IsEndpoint(r)
              && (r[2] as int % 128 == 1 ==> PacketSize(r) == s.interruptSize && r[6] == s.interruptInterval)
              && (r[2] as int % 128 != 1 && r[2] >= 128 ==> PacketSize(r) == s.bulkIn)
              && (r[2] as int % 128 != 1 && r[2] < 128 ==> PacketSize(r) == s.bulkOut))
  {
    SetSpeedKeepsRecords(s, bytes);
    var r := Parse(bytes)[k];
    assert r in Parse(bytes);
    PatchAllAt(s, Parse(bytes), k);
    PatchKeepsHeader(s, r);
    if r[1] == ENDPOINT {
      AddressParts(r[2]);
      SizeBytes(s.interruptSize);
      SizeBytes(s.bulkIn);
      SizeBytes(s.bulkOut);
    }
  }

  /** A table entry and a record of the same endpoint get the same size: always in a notification
      table for endpoint 1, and in a data table that leaves endpoint 1 out. */
  lemma TablesAgree(s: Settings, bytes: seq<byte>, k: nat, e: Endpoint)
    requires ValidSettings(s) && WellFormed(bytes) && k < |Parse(bytes)|
    ensures WellFormed(SetSpeed(s, bytes)) && k < |Parse(SetSpeed(s, bytes))|
    ensures var r := Parse(SetSpeed(s, bytes))[k];
            IsEndpoint(r) && SameEndpoint(e, r) ==>
              PacketSize(r) == if e.number == 1 then s.interruptSize else if e.direction == Send then s.bulkIn else s.bulkOut
  {
    AnnouncedSizes(s, bytes, k);
  }

  lemma SizeBytes(size: nat)
    requires size < TWO_16
    ensures Low(size) as nat + 256 * High(size) as nat == size
  {}

  // ----- the shipped table

  /** The configuration descriptor of the firmware, record by record.  The attribute byte of
      the first record comes from build switches outside the repository. */
  function ShippedRecords(attributes: byte): seq<Record> {
    [[9, 2, 67, 0, 2, 1, 0, attributes, 0x32],
     [9, 4, 0, 0, 1, 2, 2, 0, 0],
     [5, 0x24, 0, 0x10, 1],
     [5, 0x24, 1, 1, 1],
     [4, 0x24, 2, 6],
     [5, 0x24, 6, 0, 1],
     [7, 5, 0x81, 3, 16, 0, 8],
     [9, 4, 1, 0, 2, 0x0A, 0, 0, 0],
     [7, 5, 0x82, 2, 64, 0, 0],
     [7, 5, 0x03, 2, 64, 0, 0]]
  }

  /** The same with the interval of the notification endpoint as a parameter. */
  function RecordsWithInterval(attributes: byte, interval: byte): seq<Record> {
    ShippedRecords(attributes)[6 := [7, 5, 0x81, 3, 16, 0, interval]]
  }

  lemma ShippedPatches(attributes: byte, high: bool)
    ensures ValidRecords(ShippedRecords(attributes))
    ensures PatchAll(SettingsFor(high), ShippedRecords(attributes))
         == RecordsWithInterval(attributes, if high then 7 else 8)
  {
    var s, rs := SettingsFor(high), ShippedRecords(attributes);
    hide Patch;
    forall k | 0 <= k < |rs|
      ensures PatchAll(s, rs)[k] == RecordsWithInterval(attributes, if high then 7 else 8)[k]
    {
      PatchAllAt(s, rs, k);
      ShippedPatch(attributes, high, k);
    }
  }

  lemma ShippedPatch(attributes: byte, high: bool, k: nat)
    requires k < 10
    ensures ValidRecord(ShippedRecords(attributes)[k])
    ensures Patch(SettingsFor(high), ShippedRecords(attributes)[k])
         == RecordsWithInterval(attributes, if high then 7 else 8)[k]
  {
    hide IsNotification, IsIn;
    AddressParts(0x81);
    AddressParts(0x82);
    AddressParts(0x03);
  }

  /** The shipped table is well formed and already in its full-speed form; high speed changes
      its byte 43, the notification interval, from 8 to 7 and nothing else. */
  lemma ShippedTable(attributes: byte)
    ensures var table := Serialise(ShippedRecords(attributes));
            && |table| == 67 && WellFormed(table)
            && SetSpeed(FULL_SPEED, table) == table
            && table[43] == 8 && SetSpeed(HIGH_SPEED, table) == table[43 := 7]
  {
    hide PatchAll, Parse, Serialise, RecordsWithInterval, ShippedRecords;
    var rs := ShippedRecords(attributes);
    ShippedPatches(attributes, true);
    ShippedPatches(attributes, false);
    ParseSerialise(rs);
    ShippedInterval(attributes);
    SplitAroundInterval(attributes, 7);
    SplitAroundInterval(attributes, 8);
  }

  lemma ShippedInterval(attributes: byte)
    ensures RecordsWithInterval(attributes, 8) == ShippedRecords(attributes)
    ensures |ShippedRecords(attributes)| == 10
  {}

  lemma {:induction false} SerialiseConcat(xs: seq<Record>, ys: seq<Record>)
    ensures Serialise(xs + ys) == Serialise(xs) + Serialise(ys)
  {
    if xs == [] {
      assert xs + ys == ys;
    } else {
      SerialiseConcat(xs[1..], ys);
      SerialiseFirst(xs[0], xs[1..]);
      SerialiseFirst(xs[0], xs[1..] + ys);
      assert xs == [xs[0]] + xs[1..] && xs + ys == [xs[0]] + (xs[1..] + ys);
    }
  }

  lemma SerialiseFirst(r: Record, rest: seq<Record>)
    ensures Serialise([r] + rest) == r + Serialise(rest)
  {
    assert ([r] + rest)[1..] == rest;
  }

  lemma SplitAroundInterval(attributes: byte, interval: byte)
    ensures var rs := ShippedRecords(attributes);
            && Serialise(RecordsWithInterval(attributes, interval))
               == Serialise(rs[..6]) + [7, 5, 0x81, 3, 16, 0, interval] + Serialise(rs[7..])
            && |Serialise(rs[..6])| == 37 && |Serialise(rs[7..])| == 23
  {
    var rs := ShippedRecords(attributes);
    var middle := [7, 5, 0x81, 3, 16, 0, interval];
    assert RecordsWithInterval(attributes, interval) == (rs[..6] + [middle]) + rs[7..];
    SerialiseConcat(rs[..6] + [middle], rs[7..]);
    SerialiseConcat(rs[..6], [middle]);
    assert Serialise([middle]) == middle;
    assert rs[..6] == [rs[0], rs[1], rs[2]] + [rs[3], rs[4], rs[5]];
    assert rs[7..] == [rs[7], rs[8], rs[9]];
    SerialiseConcat([rs[0], rs[1], rs[2]], [rs[3], rs[4], rs[5]]);
    SerialiseThree(rs[0], rs[1], rs[2]);
    SerialiseThree(rs[3], rs[4], rs[5]);
    SerialiseThree(rs[7], rs[8], rs[9]);
  }

  lemma SerialiseThree(x: Record, y: Record, z: Record)
    ensures |Serialise([x, y, z])| == |x| + |y| + |z|
  {
    assert [x, y, z][1..] == [y, z] && [y, z][1..] == [z];
    assert Serialise([z]) == z;
  }
}
