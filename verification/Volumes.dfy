/** What a volume's files tell about it: directory records, volume information, and the
    metadata budget all volumes share. */
module Volumes {
  import opened Uefi
  import opened Bits
  import opened Bytes
  import opened Units
  import opened DevicePaths
  import opened Names

  const MAX_RECORD: nat := 4096
  const SMALLEST_RECORD: nat := 82
  const MAX_ENTRIES: nat := 128
  const MAX_TOTAL_ENTRIES: nat := 512
  const MAX_METADATA: nat := 1024 * 1024
  const NAME_OFFSET: nat := 80
  const LABEL_OFFSET: nat := 36
  const FORBIDDEN_ATTRIBUTES: nat := 0xffff_ffff_ffff_ffc8
  const DIRECTORY: nat := 0x10

  function StatusOf(error: Invalid): Status {
    if error == LimitReached then BadBufferSize else VolumeCorrupted
  }

  // ----- one record

  datatype Entry = Entry(name: string, fileSize: u64, physicalSize: u64, attributes: u64, directory: bool, dot: bool)

  // The record proper: its own size field bounds it.
  predicate IsSized(bytes: seq<byte>, nameOffset: nat) {
    && nameOffset >= 8
    && nameOffset + 2 <= |bytes| <= 4096
    && nameOffset + 2 <= ReadU64(bytes, 0) <= |bytes|
  }

  ghost predicate IsEntry(bytes: seq<byte>, root: bool, units: seq<unit>, e: Entry) {
    && IsSized(bytes, 80)
    && IsName(bytes[80..ReadU64(bytes, 0)], !root, units)
    && And(ReadU64(bytes, 72), FORBIDDEN_ATTRIBUTES) == 0
    && (root ==> And(ReadU64(bytes, 72), DIRECTORY) != 0 && units == [])
    && e == Entry(Escape(units), ReadU64(bytes, 8), ReadU64(bytes, 16), ReadU64(bytes, 72),
                  And(ReadU64(bytes, 72), DIRECTORY) != 0, units == [0x2e] || units == [0x2e, 0x2e])
  }

  // The attribute bits accepted are 0, 1, 2, 4 and 5, and bit 4 marks a directory.
  lemma AttributeBits(attributes: u64)
    ensures And(attributes, FORBIDDEN_ATTRIBUTES) == 0 <==> attributes < 64 && attributes / 8 % 2 == 0
    ensures And(attributes, DIRECTORY) != 0 <==> attributes / 16 % 2 == 1
  {
    hide Bits.And;
    var a1, a2, a3 := attributes / 2, attributes / 2 / 2, attributes / 2 / 2 / 2;
    AndStep(attributes, FORBIDDEN_ATTRIBUTES);
    AndStep(a1, 0x7fff_ffff_ffff_ffe4);
    AndStep(a2, 0x3fff_ffff_ffff_fff2);
    AndStep(a3, 0x1fff_ffff_ffff_fff9);
    AndStep(a3 / 2, 0xfff_ffff_ffff_fffc);
    AndStep(a3 / 2 / 2, 0x7ff_ffff_ffff_fffe);
    HighBits(attributes);
    AndStep(attributes, DIRECTORY);
    AndStep(a1, 8);
    AndStep(a2, 4);
    AndStep(a3, 2);
    AndStep(a3 / 2, 1);
    AndWithZero(a3 / 2 / 2);
  }

  // The forbidden bits from bit 6 on are all bits from bit 6 on.
  lemma HighBits(attributes: u64)
    ensures And(attributes / 2 / 2 / 2 / 2 / 2 / 2, 0x3ff_ffff_ffff_ffff) == attributes / 64
  {
    hide Bits.And, Bits.Pow2, Bits.Join;
    var high := attributes / 64;
    assert attributes / 2 / 2 / 2 / 2 / 2 / 2 == high;
    Pow2Values();
    assert Pow2(58) == 0x400_0000_0000_0000 by { HalfOf59(); }
    AndLow(high, 58);
  }

  lemma HalfOf59()
    ensures Pow2(59) == 2 * Pow2(58)
  {
  }

  lemma AndWithZero(a: nat)
    ensures And(a, 0) == 0
  {
  }

  method ParseEntry(bytes: seq<byte>, root: bool) returns (r: Result<Entry, Invalid>, ghost units: seq<unit>)
    ensures r.Ok? ==> IsEntry(bytes, root, units, r.value)
    ensures r.Err? ==> forall us, e :: !IsEntry(bytes, root, us, e)
    ensures r.Err? ==>
      r.error == if !IsSized(bytes, 80) then SizeInvalid
                 else if And(ReadU64(bytes, 72), FORBIDDEN_ATTRIBUTES) != 0 then AttributesInvalid
                 else if root && And(ReadU64(bytes, 72), DIRECTORY) == 0 then AttributesInvalid
                 else NameInvalid
  {
    units := [];
    if |bytes| < NAME_OFFSET + 2 || |bytes| > MAX_RECORD {
      return Err(SizeInvalid), units;
    }
    var size := ReadU64(bytes, 0);
    if size < NAME_OFFSET + 2 || size > |bytes| {
      return Err(SizeInvalid), units;
    }
    var attributes := ReadU64(bytes, 72);
    if And(attributes, FORBIDDEN_ATTRIBUTES) != 0 || (root && And(attributes, DIRECTORY) == 0) {
      return Err(AttributesInvalid), units;
    }
    var name := Name(bytes[NAME_OFFSET..size], !root);
    if name.Err? {
      return Err(name.error), units;
    }
    units :| IsName(bytes[NAME_OFFSET..size], !root, units) && name.value == Escape(units);
    DotsSurviveEscaping(units);
    EscapeInjective(units, []);
    if root && name.value != [] {
      return Err(NameInvalid), units;
    }
    r := Ok(Entry(name.value, ReadU64(bytes, 8), ReadU64(bytes, 16), attributes,
                  And(attributes, DIRECTORY) != 0, name.value == "." || name.value == ".."));
  }

  // ----- volume information

  datatype VolumeInfo = VolumeInfo(escaped: string, labelUnits: seq<unit>, readOnly: bool,
                                   size: u64, freeSpace: u64, blockSize: nat)

  ghost predicate IsVolume(bytes: seq<byte>, v: VolumeInfo) {
    && IsSized(bytes, 36)
    && IsName(bytes[36..ReadU64(bytes, 0)], false, v.labelUnits)
    && bytes[8] <= 1
    && ReadU64(bytes, 24) <= ReadU64(bytes, 16)
    && ReadU64(bytes, 16) != 0 && Le(bytes[32..36]) != 0
    && v == VolumeInfo(Escape(v.labelUnits), v.labelUnits, bytes[8] == 1,
                       ReadU64(bytes, 16), ReadU64(bytes, 24), Le(bytes[32..36]))
  }

  method ParseVolumeInfo(bytes: seq<byte>) returns (r: Result<VolumeInfo, Invalid>)
    ensures r.Ok? ==> IsVolume(bytes, r.value)
    ensures r.Err? ==> forall v :: !IsVolume(bytes, v)
    ensures r.Err? ==>
      r.error == if !IsSized(bytes, 36) then SizeInvalid
                 else if bytes[8] > 1 || ReadU64(bytes, 24) > ReadU64(bytes, 16) then GeometryInvalid
                 else if ReadU64(bytes, 16) == 0 || Le(bytes[32..36]) == 0 then GeometryInvalid
                 else NameInvalid
  {
    if |bytes| < LABEL_OFFSET + 2 || |bytes| > MAX_RECORD {
      return Err(SizeInvalid);
    }
    var end := ReadU64(bytes, 0);
    if end < LABEL_OFFSET + 2 || end > |bytes| {
      return Err(SizeInvalid);
    }
    var size, freeSpace, blockSize := ReadU64(bytes, 16), ReadU64(bytes, 24), Le(bytes[32..36]);
    if bytes[8] > 1 || freeSpace > size || size == 0 || blockSize == 0 {
      return Err(GeometryInvalid);
    }
    var escaped := Name(bytes[LABEL_OFFSET..end], false);
    if escaped.Err? {
      return Err(escaped.error);
    }
    // The same text once more, unescaped: it cannot fail now.
    var units := NameUnits(bytes[LABEL_OFFSET..end], false);
    r := Ok(VolumeInfo(escaped.value, units.value, bytes[8] != 0, size, freeSpace, blockSize));
  }

  // ----- the shared budget

  function Sum(sizes: seq<nat>): nat {
    if |sizes| == 0 then 0 else Sum(sizes[..|sizes| - 1]) + sizes[|sizes| - 1]
  }

  class Budget {
    var bytes: nat
    var entries: nat
    ghost var accepted: seq<nat>

    // Whatever has been spent is the sum of the accepted responses, within both limits.
    ghost predicate Valid()
      reads this
    {
      && bytes == Sum(accepted) <= 0x10_0000
      && entries <= 512
    }

    constructor ()
      ensures Valid() && accepted == [] && entries == 0
    {
      bytes, entries, accepted := 0, 0, [];
    }

    // What is granted holds the smallest record, is no more than the largest, and is covered
    // by the budget; it falls short of the largest only if it exhausts the budget.
    method Capacity() returns (r: Result<nat, Invalid>)
      requires Valid()
      ensures r.Err? ==> r.error == LimitReached && bytes + 82 > 0x10_0000
      ensures r.Ok? ==> 82 <= r.value <= 4096 && bytes + r.value <= 0x10_0000
      ensures r.Ok? ==> r.value == 4096 || bytes + r.value == 0x10_0000
    {
      var remaining := MAX_METADATA - bytes;
      if remaining < SMALLEST_RECORD {
        return Err(LimitReached);
      }
      r := Ok(if remaining < MAX_RECORD then remaining else MAX_RECORD);
    }

    // With a capacity granted before, the limit is never what fails.
    method Response(size: nat, capacity: nat) returns (r: Result<Unit, Invalid>)
      requires Valid()
      modifies this
      ensures Valid() && entries == old(entries)
      ensures r.Ok? <==> size <= capacity <= 4096 && old(bytes) + size <= 0x10_0000
      ensures r.Err? && capacity <= 4096 && old(bytes) + capacity <= 0x10_0000 ==> r.error == SizeInvalid
      ensures bytes == if r.Ok? then old(bytes) + size else old(bytes)
      ensures accepted == if r.Ok? then old(accepted) + [size] else old(accepted)
    {
      if size > capacity || capacity > MAX_RECORD {
        return Err(SizeInvalid);
      }
      if bytes + size > MAX_METADATA {
        return Err(LimitReached);
      }
      bytes := bytes + size;
      accepted := accepted + [size];
      assert accepted[..|accepted| - 1] == old(accepted);
      r := Ok(Unit);
    }

    method Record(volumeEntries: nat) returns (r: Result<Unit, Invalid>)
      requires Valid()
      modifies this
      ensures Valid() && accepted == old(accepted)
      ensures r.Ok? <==> volumeEntries < 128 && old(entries) < 512
      ensures r.Err? ==> r.error == LimitReached
      ensures entries == if r.Ok? then old(entries) + 1 else old(entries)
    {
      if volumeEntries >= MAX_ENTRIES || entries >= MAX_TOTAL_ENTRIES {
        return Err(LimitReached);
      }
      entries := entries + 1;
      r := Ok(Unit);
    }
  }
}
