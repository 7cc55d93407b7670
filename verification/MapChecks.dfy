/** The two firmware memory-map checks: the staging buffer's `MapBuffer.Coverage` and the
    ARM page owner's `ArmPages.ValidateMap`, with the 16 KiB alignment of the latter. */
module MapChecks {
  import opened Uefi
  import opened Bits
  import opened Bytes
  import opened MemoryMaps

  const MAP_BYTES: nat := 128 * 1024
  const MAX_DESCRIPTORS: nat := 4096
  const DESCRIPTOR_BYTES: nat := 40

  // The fields of one EFI_MEMORY_DESCRIPTOR that are looked at.
  function DescriptorAt(b: seq<byte>, at: nat): Descriptor
    requires at + DESCRIPTOR_BYTES <= |b|
  {
    Pow256Values();
    Descriptor(Le(b[at..at + 4]), ReadU64(b, at + 8), ReadU64(b, at + 24))
  }

  lemma EntryInBuffer(bytes: nat, stride: nat, index: nat)
    requires stride >= DESCRIPTOR_BYTES && index < bytes / stride
    ensures index * stride + DESCRIPTOR_BYTES <= bytes
  {
    assert (index + 1) * stride <= bytes / stride * stride;
  }

  function Entry(content: seq<byte>, bytes: nat, stride: nat, index: nat): Descriptor
    requires bytes <= |content| && stride >= DESCRIPTOR_BYTES && index < bytes / stride
  {
    EntryInBuffer(bytes, stride, index);
    DescriptorAt(content, index * stride)
  }

  // The list a map buffer holds.
  function Entries(content: seq<byte>, bytes: nat, stride: nat): seq<Descriptor>
    requires bytes <= |content| && stride >= DESCRIPTOR_BYTES
  {
    seq(bytes / stride, i requires 0 <= i < bytes / stride => Entry(content, bytes, stride, i))
  }

  // Descriptor d is at `at`: type in bytes 0 to 3, start in 8 to 15 and page count in 24 to 31,
  // each lowest byte first; the other bytes may be anything.
  predicate DescriptorSpelled(b: seq<byte>, at: nat, d: Descriptor) {
    SpellsFour(b, at, d.kind) && Spells(b, at + 8, d.start) && Spells(b, at + 24, d.pages)
  }

  // The list is what the bytes hold, one descriptor every `stride` bytes.
  predicate ListSpelled(content: seq<byte>, bytes: nat, stride: nat, ds: seq<Descriptor>)
    requires stride > 0
  {
    |ds| == bytes / stride && forall i :: 0 <= i < |ds| ==> DescriptorSpelled(content, i * stride, ds[i])
  }

  lemma DescriptorAtSpelled(b: seq<byte>, at: nat, d: Descriptor)
    requires at + DESCRIPTOR_BYTES <= |b|
    ensures DescriptorAt(b, at) == d <==> DescriptorSpelled(b, at, d)
  {
    hide Bytes.Le, Bytes.ReadU64, Bytes.Spells, Bytes.SpellsFour;
    ReadFourSpells(b, at, d.kind);
    ReadSpells(b, at + 8, d.start);
    ReadSpells(b, at + 24, d.pages);
  }

  // A map buffer holds a list exactly when its bytes spell the list.
  lemma EntriesAreSpelled(content: seq<byte>, bytes: nat, stride: nat, ds: seq<Descriptor>)
    requires bytes <= |content| && stride >= DESCRIPTOR_BYTES
    ensures Entries(content, bytes, stride) == ds <==> ListSpelled(content, bytes, stride, ds)
  {
    hide DescriptorAt, DescriptorSpelled;
    forall i: nat | i < |ds| && |ds| == bytes / stride
      ensures Entries(content, bytes, stride)[i] == ds[i] <==> DescriptorSpelled(content, i * stride, ds[i])
    {
      EntryInBuffer(bytes, stride, i);
      DescriptorAtSpelled(content, i * stride, ds[i]);
    }
  }

  // ----- one pass of the cursor, shared by both checks

  method Advance(ds: seq<Descriptor>, hi: nat, cursor: nat) returns (next: nat)
    requires cursor < hi
    ensures Furthest(ds, hi, cursor, next)
  {
    next := cursor;
    for i := 0 to |ds|
      invariant cursor <= next
      invariant forall j :: 0 <= j < i && Holds(ds[j], cursor) ==> Min(Limit(ds[j]), hi) <= next
      invariant next == cursor || exists j :: 0 <= j < i && Holds(ds[j], cursor) && next == Min(Limit(ds[j]), hi)
    {
      var limit := ds[i].start + ds[i].pages * PAGE;
      if ds[i].start <= cursor && cursor < limit {
        next := Max(next, Min(limit, hi));
      }
    }
  }

  // Up to `rounds` moves from lo. Says whether hi was reached, with `spare` asking that one
  // more round be left to notice it.
  method Walk(ds: seq<Descriptor>, lo: nat, hi: nat, rounds: nat, spare: bool) returns (reached: bool)
    requires lo <= hi
    ensures reached ==> Covered(ds, lo, hi)
    ensures Tiles(ds, lo, hi) ==>
      (reached <==> if spare then Intersecting(ds, lo, hi) < rounds else Intersecting(ds, lo, hi) <= rounds)
  {
    var cursor := lo;
    DoneAtStart(ds, lo, hi);
    DoneAtEnd(ds, lo, hi);
    for k := 0 to rounds
      invariant lo <= cursor <= hi
      invariant Covered(ds, lo, cursor)
      invariant Tiles(ds, lo, hi) ==> DoneCount(ds, lo, hi, cursor) == k
    {
      if cursor == hi {
        return true;
      }
      var next := Advance(ds, hi, cursor);
      MoveCovers(ds, lo, hi, cursor, next);
      if Tiles(ds, lo, hi) {
        MoveFinishesOne(ds, lo, hi, cursor, next);
      }
      if next == cursor {
        return false;
      }
      cursor := next;
    }
    if cursor < hi && Tiles(ds, lo, hi) {
      MoreToDo(ds, lo, hi, cursor);
    }
    reached := !spare && cursor == hi;
  }

  // ----- MapBuffer

  // What GetMemoryMap answered.
  datatype MapAnswer = MapAnswer(status: Option<Status>, content: seq<byte>, bytes: nat, stride: nat, version: nat)

  predicate Acceptable(answer: MapAnswer) {
    && answer.version == 1
    && answer.stride >= 40
    && 0 < answer.bytes <= 0x2_0000
    && answer.bytes % answer.stride == 0
    && answer.bytes / answer.stride <= 4096
  }

  // No overflow, the expected type where it meets the range, and page-aligned: everywhere,
  // or where it meets the range.
  predicate Sound(d: Descriptor, lo: nat, hi: nat, kind: nat, everywhere: bool) {
    && Limit(d) <= U64_MAX
    && (Intersects(d, lo, hi) ==> d.kind == kind)
    && (everywhere || Intersects(d, lo, hi) ==> d.start % PAGE == 0)
  }

  // The conditions under which a map is accepted for base and length.
  ghost predicate Accepts(ds: seq<Descriptor>, base: u64, bytes: nat, expected: nat) {
    && base + bytes <= U64_MAX
    && (forall i :: 0 <= i < |ds| ==> Sound(ds[i], base, base + bytes, expected, true))
    && Tiles(ds, base, base + bytes)
  }

  class MapBuffer {
    var content: seq<byte>
    var bytes: nat
    var stride: nat

    ghost predicate Valid()
      reads this
    {
      && |content| == MAP_BYTES
      && bytes <= MAP_BYTES
      && stride >= DESCRIPTOR_BYTES
      && bytes % stride == 0
      && bytes / stride <= MAX_DESCRIPTORS
    }

    constructor ()
      ensures |content| == MAP_BYTES && bytes == 0 && stride == 0
    {
      content := Zeros(MAP_BYTES);
      bytes := 0;
      stride := 0;
    }

    // Only a map of the known version whose size is a whole number of descriptors is kept.
    method Refresh(answer: MapAnswer) returns (r: Result<Unit, Status>)
      requires |answer.content| == MAP_BYTES
      modifies this
      ensures r.Ok? <==> answer.status.None? && Acceptable(answer)
      ensures r.Ok? ==> Valid() && content == answer.content && bytes == answer.bytes && stride == answer.stride
      ensures r.Err? ==> r.error == (if answer.status.Some? then answer.status.value else CompromisedData)
      ensures r.Err? ==> bytes == old(bytes) && stride == old(stride)
    {
      content := answer.content;
      if answer.status.Some? {
        return Err(answer.status.value);
      }
      if answer.version != 1
        || answer.stride < DESCRIPTOR_BYTES
        || answer.bytes > MAP_BYTES
        || answer.bytes == 0
        || answer.bytes % answer.stride != 0
        || answer.bytes / answer.stride > MAX_DESCRIPTORS
      {
        return Err(CompromisedData);
      }
      bytes := answer.bytes;
      stride := answer.stride;
      r := Ok(Unit);
    }

    function Descriptors(): seq<Descriptor>
      requires Valid()
      reads this
    {
      Entries(content, bytes, stride)
    }

    // Accepts exactly the tilings of the range by aligned descriptors of the expected type,
    // and then reports how many descriptors meet the range.
    method Coverage(base: u64, length: nat, expected: nat) returns (r: Result<nat, Status>)
      requires Valid()
      ensures r == if Accepts(Descriptors(), base, length, expected)
                   then Ok(Intersecting(Descriptors(), base, base + length))
                   else Err(CompromisedData)
      ensures forall ds :: ListSpelled(content, bytes, stride, ds) ==>
        r == if Accepts(ds, base, length, expected) then Ok(Intersecting(ds, base, base + length))
             else Err(CompromisedData)
    {
      hide Accepts, MemoryMaps.Intersecting, ListSpelled;
      forall ds {
        EntriesAreSpelled(content, bytes, stride, ds);
      }
      r := CheckCoverage(Descriptors(), base, length, expected);
    }
  }

  // The first loop of either check: the lengths of all overlaps with [lo, hi), added up
  // without overflow, and their number.
  method SumOverlaps(ds: seq<Descriptor>, lo: u64, hi: u64, kind: nat, everywhere: bool)
    returns (r: Option<(nat, nat)>)
    requires lo <= hi
    ensures r == if (forall i :: 0 <= i < |ds| ==> Sound(ds[i], lo, hi, kind, everywhere))
                    && TotalOverlap(ds, lo, hi) <= U64_MAX
                 then Some((TotalOverlap(ds, lo, hi), Intersecting(ds, lo, hi)))
                 else None
  {
    hide TotalOverlap, Intersecting;
    SumsOfNone(lo, hi);
    var total, intersecting := 0, 0;
    for index := 0 to |ds|
      invariant total == TotalOverlap(ds[..index], lo, hi) <= U64_MAX
      invariant intersecting == Intersecting(ds[..index], lo, hi)
      invariant forall i :: 0 <= i < index ==> Sound(ds[i], lo, hi, kind, everywhere)
    {
      var d := ds[index];
      SumsOfNext(ds, lo, hi, index);
      TotalOfPrefix(ds, lo, hi, index + 1);
      if d.pages * PAGE > U64_MAX || d.start + d.pages * PAGE > U64_MAX {
        return None;
      }
      if everywhere && d.start % PAGE != 0 {
        return None;
      }
      var from, until := Max(lo, d.start), Min(hi, d.start + d.pages * PAGE);
      if from < until {
        if d.kind != kind || d.start % PAGE != 0 {
          return None;
        }
        if total + (until - from) > U64_MAX {
          return None;
        }
        total := total + (until - from);
        intersecting := intersecting + 1;
      }
    }
    assert ds[..|ds|] == ds;
    r := Some((total, intersecting));
  }

  lemma SumsOfNone(lo: nat, hi: nat)
    ensures TotalOverlap([], lo, hi) == Intersecting([], lo, hi) == 0
  {
  }

  lemma SumsOfNext(ds: seq<Descriptor>, lo: nat, hi: nat, n: nat)
    requires n < |ds|
    ensures TotalOverlap(ds[..n + 1], lo, hi) == TotalOverlap(ds[..n], lo, hi) + Overlap(ds[n], lo, hi)
    ensures Intersecting(ds[..n + 1], lo, hi)
         == Intersecting(ds[..n], lo, hi) + if Intersects(ds[n], lo, hi) then 1 else 0
  {
    assert ds[..n + 1][..n] == ds[..n];
  }

  // The body of Coverage, on the descriptors in the buffer.
  method CheckCoverage(ds: seq<Descriptor>, base: u64, length: nat, expected: nat) returns (r: Result<nat, Status>)
    ensures r == if Accepts(ds, base, length, expected)
                 then Ok(Intersecting(ds, base, base + length))
                 else Err(CompromisedData)
  {
    hide MemoryMaps.Tiles, MemoryMaps.Covered, Sound;
    if base + length > U64_MAX {
      return Err(CompromisedData);
    }
    var end := base + length;
    TilingTotal(ds, base, end);
    var sums := SumOverlaps(ds, base, end, expected, true);
    if sums.None? || sums.value.0 != length {
      return Err(CompromisedData);
    }
    var reached := Walk(ds, base, end, sums.value.1, false);
    if !reached {
      return Err(CompromisedData);
    }
    TotalOfCovered(ds, base, end);
    r := Ok(sums.value.1);
  }

  // A tiling's lengths add up to the range.
  lemma TilingTotal(ds: seq<Descriptor>, lo: nat, hi: nat)
    requires lo <= hi
    ensures Tiles(ds, lo, hi) ==> TotalOverlap(ds, lo, hi) == hi - lo
  {
    if Tiles(ds, lo, hi) {
      assert Covered(ds, lo, hi);
      TotalOfCovered(ds, lo, hi);
    }
  }

  // ----- ArmPages

  const GRANULE: nat := 16384

  datatype MapMeta = MapMeta(version: nat, descriptorSize: nat, mapSize: nat)

  predicate MetaAcceptable(meta: MapMeta) {
    && meta.version == 1
    && meta.descriptorSize >= 40
    && meta.mapSize != 0
    && meta.mapSize % meta.descriptorSize == 0
    && meta.mapSize / meta.descriptorSize <= 4096
  }

  // Alignment is asked only of the descriptors that meet the range, and the walk has to
  // leave its last round to notice that the end is reached.
  ghost predicate AcceptsOwned(ds: seq<Descriptor>, base: u64, bytes: nat, kind: nat) {
    && base + bytes <= U64_MAX
    && (forall i :: 0 <= i < |ds| ==> Sound(ds[i], base, base + bytes, kind, false))
    && Tiles(ds, base, base + bytes)
    && Intersecting(ds, base, base + bytes) < 4096
  }

  // `ds` is whatever the firmware's map object yields.
  method ValidateMap(base: u64, bytes: nat, kind: nat, meta: MapMeta, ds: seq<Descriptor>)
    returns (r: Result<Unit, Status>)
    ensures r == if MetaAcceptable(meta) && AcceptsOwned(ds, base, bytes, kind) then Ok(Unit) else Err(CompromisedData)
  {
    hide MemoryMaps.Tiles, MemoryMaps.Covered, Sound;
    if meta.version != 1
      || meta.descriptorSize < DESCRIPTOR_BYTES
      || meta.mapSize == 0
      || meta.mapSize % meta.descriptorSize != 0
      || meta.mapSize / meta.descriptorSize > 4096
    {
      return Err(CompromisedData);
    }
    if base + bytes > U64_MAX {
      return Err(CompromisedData);
    }
    var end := base + bytes;
    TilingTotal(ds, base, end);
    var sums := SumOverlaps(ds, base, end, kind, false);
    if sums.None? || sums.value.0 != bytes {
      return Err(CompromisedData);
    }
    var reached := Walk(ds, base, end, 4096, true);
    if !reached {
      return Err(CompromisedData);
    }
    TotalOfCovered(ds, base, end);
    r := Ok(Unit);
  }

  // The allocation as the firmware made it, and the 16 KiB-aligned range used inside it.
  datatype ArmPages = ArmPages(original: u64, count: nat, base: u64, bytes: nat, kind: nat)

  datatype FirmwareMap = FirmwareMap(meta: MapMeta, descriptors: seq<Descriptor>)

  // The firmware's answers are parameters: the pages it returned and the map it then showed.
  method AllocateKind(bytes: nat, fixed: Option<u64>, kind: nat,
                      pages: Result<u64, Status>, memoryMap: Result<FirmwareMap, Status>)
    returns (r: Result<ArmPages, Status>)
    ensures !RequestValid(bytes, fixed) ==> r == Err(InvalidParameter)
    ensures RequestValid(bytes, fixed) && pages.Err? ==> r == Err(pages.error)
    ensures RequestValid(bytes, fixed) && pages.Ok? ==> r == Placed(bytes, fixed, kind, pages.value, memoryMap)
    ensures forall a :: r == Ok(a) <==>
      && RequestValid(bytes, fixed) && pages.Ok? && pages.value + 16383 <= U64_MAX
      && Allocated(bytes, fixed, kind, pages.value, memoryMap, a)
  {
    hide AcceptsOwned, MetaAcceptable, Allocated, AlignUp;
    if RequestValid(bytes, fixed) && pages.Ok? {
      forall a {
        PlacedIsAllocated(bytes, fixed, kind, pages.value, memoryMap, a);
      }
    }
    if bytes == 0 || bytes % GRANULE != 0 || bytes > ISIZE_MAX
      || (fixed.Some? && (fixed.value == 0 || fixed.value % GRANULE != 0))
    {
      return Err(InvalidParameter);
    }
    var count := bytes / PAGE + if fixed.Some? then 0 else 3;
    if pages.Err? {
      return Err(pages.error);
    }
    var start := pages.value;
    if start + 16383 > U64_MAX {
      return Err(OutOfResources);
    }
    var base := AlignUp(start);
    if start + count * PAGE > U64_MAX {
      return Err(CompromisedData);
    }
    if (fixed.Some? && fixed.value != base) || base + bytes > U64_MAX || base + bytes > start + count * PAGE {
      return Err(CompromisedData);
    }
    if memoryMap.Err? {
      return Err(memoryMap.error);
    }
    var valid := ValidateMap(base, bytes, kind, memoryMap.value.meta, memoryMap.value.descriptors);
    if valid.Err? {
      return Err(valid.error);
    }
    r := Ok(ArmPages(start, count, base, bytes, kind));
  }

  // What becomes of a valid request that was given pages at `start`.
  ghost function Placed(bytes: nat, fixed: Option<u64>, kind: nat, start: u64, memoryMap: Result<FirmwareMap, Status>)
    : Result<ArmPages, Status>
  {
    if start + 16383 > U64_MAX then Err(OutOfResources)
    else if !Contains(start, bytes, fixed) then Err(CompromisedData)
    else if memoryMap.Err? then Err(memoryMap.error)
    else
      var FirmwareMap(meta, ds) := memoryMap.value;
      if MetaAcceptable(meta) && AcceptsOwned(ds, AlignUp(start), bytes, kind)
      then Ok(ArmPages(start, Count(bytes, fixed), AlignUp(start), bytes, kind))
      else Err(CompromisedData)
  }

  // An allocation in order: `count` pages from `original` on, three more than the bytes need
  // unless the address is fixed; the range used starts at the first multiple of 16 KiB, ends
  // inside, is at the fixed address, and is tiled by the map's descriptors.
  ghost predicate Allocated(bytes: nat, fixed: Option<u64>, kind: nat, start: u64,
                            memoryMap: Result<FirmwareMap, Status>, a: ArmPages)
  {
    && a.original == start && a.bytes == bytes && a.kind == kind
    && a.count * 4096 == bytes + (if fixed.Some? then 0 else 3 * 4096)
    && start + a.count * 4096 <= U64_MAX
    && a.base % 16384 == 0 && start <= a.base < start + 16384
    && a.base + bytes <= start + a.count * 4096
    && (fixed.Some? ==> a.base == fixed.value)
    && memoryMap.Ok?
    && MetaAcceptable(memoryMap.value.meta)
    && AcceptsOwned(memoryMap.value.descriptors, a.base, bytes, kind)
  }

  // The specification succeeds with exactly the allocations in order. (Within 16 KiB of the
  // end of the address space rounding up is refused even where it would be possible.)
  lemma PlacedIsAllocated(bytes: nat, fixed: Option<u64>, kind: nat, start: u64,
                          memoryMap: Result<FirmwareMap, Status>, a: ArmPages)
    requires RequestValid(bytes, fixed)
    ensures Placed(bytes, fixed, kind, start, memoryMap) == Ok(a)
       <==> Allocated(bytes, fixed, kind, start, memoryMap, a) && start + 16383 <= U64_MAX
  {
    hide AcceptsOwned, MetaAcceptable;
    Rounding(start, start / GRANULE, start % GRANULE);
    WholePages(bytes);
    if a.base % 16384 == 0 && start <= a.base < start + 16384 {
      RoundsTo(start, a.base);
    }
  }

  lemma RoundsTo(start: nat, base: nat)
    requires base % GRANULE == 0 && start <= base < start + GRANULE
    ensures base == AlignUp(start)
  {
    RemainderOf(start + 16383, GRANULE, base / GRANULE, start + 16383 - base);
  }

  // Without a fixed address three pages more than needed are asked for.
  function Count(bytes: nat, fixed: Option<u64>): nat {
    bytes / PAGE + if fixed.Some? then 0 else 3
  }

  // The rounded-up range lies inside the allocation, at the fixed address if there is one.
  predicate Contains(start: nat, bytes: nat, fixed: Option<u64>) {
    && start + Count(bytes, fixed) * PAGE <= U64_MAX
    && AlignUp(start) + bytes <= start + Count(bytes, fixed) * PAGE
    && (fixed.Some? ==> AlignUp(start) == fixed.value)
  }

  // The three extra pages suffice exactly when the start is granule-aligned or at least one
  // page past a granule boundary, and so for every page-aligned start.
  lemma ExtraPagesSuffice(start: nat, bytes: nat)
    requires RequestValid(bytes, None) && start + Count(bytes, None) * PAGE <= U64_MAX
    ensures AlignUp(start) % GRANULE == 0 && start <= AlignUp(start) < start + GRANULE
    ensures Contains(start, bytes, None) <==> start % GRANULE == 0 || start % GRANULE >= PAGE
    ensures start % PAGE == 0 ==> Contains(start, bytes, None)
  {
    var q, m := start / GRANULE, start % GRANULE;
    RemainderOf(start, PAGE, 4 * q + m / PAGE, m % PAGE);
    Rounding(start, q, m);
    WholePages(bytes);
  }

  lemma Rounding(start: nat, q: nat, m: nat)
    requires start == GRANULE * q + m && m < GRANULE
    ensures AlignUp(start) == GRANULE * if m == 0 then q else q + 1
    ensures AlignUp(start) % GRANULE == 0
  {
    RemainderOf(start + 16383, GRANULE, if m == 0 then q else q + 1, if m == 0 then 16383 else m - 1);
    RemainderOf(AlignUp(start), GRANULE, if m == 0 then q else q + 1, 0);
  }

  lemma WholePages(bytes: nat)
    requires bytes % GRANULE == 0
    ensures bytes / PAGE * PAGE == bytes
  {
    RemainderOf(bytes, PAGE, 4 * (bytes / GRANULE), 0);
  }

  // An allocation at the fixed address needs none.
  lemma FixedPlaceSuffices(start: u64, bytes: nat)
    requires RequestValid(bytes, Some(start)) && start + bytes <= U64_MAX
    ensures Contains(start, bytes, Some(start))
  {
    Rounding(start, start / GRANULE, 0);
    WholePages(bytes);
  }

  predicate RequestValid(bytes: nat, fixed: Option<u64>) {
    && bytes > 0 && bytes % GRANULE == 0 && bytes <= ISIZE_MAX
    && (fixed.Some? ==> fixed.value > 0 && fixed.value % GRANULE == 0)
  }

  // (start + 16383) & !16383
  function AlignUp(start: nat): nat {
    (start + 16383) / GRANULE * GRANULE
  }

  // ----- the limit of the walk's round count

  // `count` one-page descriptors in a row.
  function Row(kind: nat, base: nat, count: nat): seq<Descriptor>
    requires base + count * PAGE <= U64_MAX
  {
    seq(count, i requires 0 <= i < count => Descriptor(kind, base + i * PAGE, 1))
  }

  lemma RowTiles(kind: nat, base: nat, count: nat)
    requires base + count * PAGE <= U64_MAX
    ensures Tiles(Row(kind, base, count), base, base + count * PAGE)
  {
    var ds := Row(kind, base, count);
    forall a: nat | base <= a < base + count * PAGE ensures Holders(ds, a) == 1 {
      var i := (a - base) / PAGE;
      assert Holds(ds[i], a);
      HoldersUnique(ds, a, i);
    }
  }

  lemma {:induction false} AllIntersect(ds: seq<Descriptor>, lo: nat, hi: nat)
    requires forall i :: 0 <= i < |ds| ==> Intersects(ds[i], lo, hi)
    ensures Intersecting(ds, lo, hi) == |ds|
  {
    if |ds| > 0 {
      AllIntersect(ds[..|ds| - 1], lo, hi);
    }
  }

  // A flawless map whose range happens to be cut into 4096 descriptors is rejected, although
  // a map of 4096 descriptors is within the accepted size.
  lemma FullMapIsRejected(kind: nat)
    ensures var ds, base, bytes := Row(kind, 0x100_0000, 4096), 0x100_0000, 4096 * PAGE;
      && Tiles(ds, base, base + bytes)
      && (forall i :: 0 <= i < |ds| ==> ds[i].kind == kind && ds[i].start % PAGE == 0 && Limit(ds[i]) <= U64_MAX)
      && MetaAcceptable(MapMeta(1, 48, 48 * |ds|))
      && !AcceptsOwned(ds, base, bytes, kind)
  {
    var ds := Row(kind, 0x100_0000, 4096);
    RowTiles(kind, 0x100_0000, 4096);
    AllIntersect(ds, 0x100_0000, 0x100_0000 + 4096 * PAGE);
  }
}
