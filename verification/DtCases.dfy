/** The DeviceTree probe's cases: RAM and table buffer of sixteen granules each, four pages
    mapped by the table builder at a low or a high address, and the program run over them. */
module DtCases {
  import opened Accesses
  import opened Uefi
  import opened Bits
  import opened Bytes
  import opened Granules
  import opened TableEntries
  import opened TableTrees
  import opened TableWalk
  import opened MmuTables
  import opened MmuRuns
  import opened A64
  import opened DtProgram
  import opened DtRuns
  import DeviceTree

  const VA_LO: u64 := 0x2000_0000
  const VA_HI: u64 := 0xffff_8000_2000_0000

  // The page numbers in RAM of the code, the tree, the stack and the output; `invalid` maps
  // the tree's page to an empty descriptor.
  datatype Case = Case(g: nat, upper: bool, invalid: bool, code: nat, dt: nat, stack: nat, output: nat)

  predicate Laid(c: Case) {
    && IsGranule(c.g)
    && c.code < 16 && c.dt < 16 && c.stack < 16 && c.output < 16
    && c.code != c.dt && c.code != c.stack && c.code != c.output
    && c.dt != c.stack && c.dt != c.output && c.stack != c.output
  }

  function Size(g: nat): nat {
    PageOffset(g, 16)
  }

  function Base(c: Case): u64 {
    if c.upper then VA_HI else VA_LO
  }

  // The descriptor of a page of RAM: accessed, for EL1 to read, write and execute.
  function PageDescriptor(g: nat, page: nat): nat {
    Or(RAM_PA + PageOffset(g, page), 0x403)
  }

  lemma FrameBits(frame: nat, bits: nat, shift: nat)
    requires frame < Pow2(bits) && 0x403 < Pow2(shift)
    ensures Or(frame * Pow2(shift), 0x403) == frame * Pow2(shift) + 0x403
    ensures And(frame * Pow2(shift) + 0x403, Join(Pow2(bits) - 1, 0, shift)) == frame * Pow2(shift)
  {
    hide Bits.Or, Bits.And, Bits.Join, Bits.Pow2;
    JoinIsSum(frame, 0, shift);
    JoinIsSum(frame, 0x403, shift);
    JoinZero(0x403, shift);
    OrJoin(frame, 0, 0, 0x403, shift);
    OrZero(frame);
    OrZero(0x403);
    JoinZero(frame, bits);
    MaskMiddle(0, frame, 0x403, bits, shift);
  }

  lemma GrantsAll(d: u64, q: nat, access: Access)
    requires d == 4096 * q + 0x403 && d < 0x20_0000_0000_0000
    ensures Grants(d, access)
  {
    RemainderOf(d, 4, 1024 * q + 256, 3);
    RemainderOf(d, 1024, 4 * q + 1, 3);
    RemainderOf(4 * q + 1, 2, 2 * q, 1);
    RemainderOf(d, 128, 32 * q + 8, 3);
    RemainderOf(32 * q + 8, 2, 16 * q + 4, 0);
    RemainderOf(d, 0x20_0000_0000_0000, 0, d);
  }

  lemma PageDescriptorBits(g: nat, page: nat)
    requires IsGranule(g) && page < 32
    ensures PageDescriptor(g, page) == RAM_PA + PageOffset(g, page) + 0x403
    ensures And(PageDescriptor(g, page), AddressMask(g)) == RAM_PA + PageOffset(g, page)
    ensures forall access: Access :: Grants(PageDescriptor(g, page), access)
  {
    hide Bits.Or, Bits.And, Bits.Join, Bits.Pow2, Grants;
    Pow2Values();
    var d := RAM_PA + PageOffset(g, page) + 0x403;
    forall access: Access ensures Grants(d, access) {
      GrantsAll(d, 0x1_0000 + if g == 16384 then 4 * page else page, access);
    }
    if g == 16384 {
      FrameBits(0x4000 + page, 34, 14);
      JoinIsSum(Pow2(34) - 1, 0, 14);
    } else {
      FrameBits(0x1_0000 + page, 36, 12);
      JoinIsSum(Pow2(36) - 1, 0, 12);
    }
  }

  function Address(c: Case, page: nat): u64
    requires IsGranule(c.g) && page < 32
  {
    Base(c) + PageOffset(c.g, page)
  }

  // The four mappings of a case.
  function Calls(c: Case): seq<Call>
    requires Laid(c)
  {
    PageDescriptorBits(c.g, c.code);
    PageDescriptorBits(c.g, c.dt);
    PageDescriptorBits(c.g, c.output);
    PageDescriptorBits(c.g, c.stack);
    [Call(Address(c, c.code), PageDescriptor(c.g, c.code)),
     Call(Address(c, c.dt), if c.invalid then 0 else PageDescriptor(c.g, c.dt)),
     Call(Address(c, c.output), PageDescriptor(c.g, c.output)),
     Call(Address(c, c.stack), PageDescriptor(c.g, c.stack))]
  }

  // ----- the table buffer is large enough

  lemma {:induction false} RunPages(g: nat, length: nat, calls: seq<Call>)
    requires IsGranule(g)
    ensures |Run(g, length, calls).pages| <= 2 + 3 * |calls|
  {
    hide MapTree, TableTrees.Shaped;
    if |calls| > 0 {
      var n := |calls| - 1;
      RunPages(g, length, calls[..n]);
      RunShaped(g, length, calls[..n]);
      StepPages(Run(g, length, calls[..n]), g, length, calls[n].va, calls[n].descriptor);
    }
  }

  lemma StepPages(t: Tree, g: nat, length: nat, va: u64, descriptor: u64)
    requires IsGranule(g) && Shaped(g, t)
    ensures |MapTree(t, g, length, va, descriptor).1.pages| <= |t.pages| + 3
  {
    hide Granules.Index, Granules.PathTo, Granules.Key, TableTrees.Shaped, Grow;
    MapTreePages(t, g, length, va, descriptor);
  }

  // Four mappings need at most twelve tables besides the roots.
  lemma FewCallsSucceed(g: nat, calls: seq<Call>, i: nat)
    requires IsGranule(g) && |calls| <= 4 && i < |calls|
    ensures Outcome(g, Size(g), calls, i).Ok?
  {
    hide Granules.Index, Granules.PathTo, Granules.Key, TableTrees.PagesShaped, Grow, MapTree, Run, TablePaths;
    var before, call := calls[..i], calls[i];
    RunPages(g, Size(g), before);
    RunShaped(g, Size(g), before);
    MissingIsCount(Run(g, Size(g), before), g, call.va);
    RootsFit(g, Size(g), call.va);
    MapFails(g, Size(g), before, call.va, call.descriptor);
    assert (before + [call])[..i] == before;
  }

  // The probe's table building, on its zeroed buffer; no mapping fails.
  method BuildTables(c: Case, bytes: array<byte>) returns (tables: Tables, results: seq<Result<Unit, Status>>)
    requires Laid(c) && bytes.Length == Size(c.g) && bytes[..] == Zeros(bytes.Length)
    modifies bytes
    ensures fresh(tables) && tables.bytes == bytes && tables.granule == c.g
    ensures tables.Valid() && tables.calls == Calls(c)
    ensures Built(c, bytes[..])
    ensures |results| == 4 && forall i :: 0 <= i < 4 ==> results[i].Ok?
  {
    hide Calls, TableWalk.Represents, TableWalk.LeafSpelled, PageDescriptor, Run, Outcome, Tables.Valid, Built;
    PageDescriptorBits(c.g, c.code);
    PageDescriptorBits(c.g, c.dt);
    PageDescriptorBits(c.g, c.output);
    PageDescriptorBits(c.g, c.stack);
    tables := new Tables(bytes, c.g);
    var code := tables.Map(Address(c, c.code), PageDescriptor(c.g, c.code));
    FewCallsSucceed(c.g, tables.calls, 0);
    var dt := tables.Map(Address(c, c.dt), if c.invalid then 0 else PageDescriptor(c.g, c.dt));
    FewCallsSucceed(c.g, tables.calls, 1);
    var output := tables.Map(Address(c, c.output), PageDescriptor(c.g, c.output));
    FewCallsSucceed(c.g, tables.calls, 2);
    var stack := tables.Map(Address(c, c.stack), PageDescriptor(c.g, c.stack));
    FewCallsSucceed(c.g, tables.calls, 3);
    results := [code, dt, output, stack];
    CallsAre(c);
    assert tables.calls == Calls(c);
    ValidIsBuilt(c, tables);
  }

  lemma ValidIsBuilt(c: Case, tables: Tables)
    requires Laid(c) && tables.Valid() && tables.calls == Calls(c)
    requires tables.granule == c.g && tables.bytes.Length == Size(c.g)
    ensures Built(c, tables.bytes[..])
  {
    hide TableWalk.Represents, Run, Calls, Size;
  }

  lemma CallsAre(c: Case)
    requires Laid(c)
    ensures |Calls(c)| == 4
    ensures Calls(c)[0].va == Address(c, c.code) && Calls(c)[0].descriptor == PageDescriptor(c.g, c.code)
    ensures Calls(c)[1].va == Address(c, c.dt)
    ensures Calls(c)[1].descriptor == if c.invalid then 0 else PageDescriptor(c.g, c.dt)
    ensures Calls(c)[2].va == Address(c, c.output) && Calls(c)[2].descriptor == PageDescriptor(c.g, c.output)
    ensures Calls(c)[3].va == Address(c, c.stack) && Calls(c)[3].descriptor == PageDescriptor(c.g, c.stack)
  {
    hide PageDescriptor;
  }

  // ----- addresses and keys

  // Offset x lies in page k.
  predicate InPage(g: nat, k: nat, x: nat) {
    PageOffset(g, k) <= x < PageOffset(g, k) + g
  }

  function PageOf(g: nat, x: nat): (k: nat)
    requires IsGranule(g)
    ensures InPage(g, k, x)
  {
    if g == 16384 then x / 16384 else x / 4096
  }

  lemma FrameOf(c: Case, k: nat, x: nat)
    requires IsGranule(c.g) && k < 32 && InPage(c.g, k, x)
    ensures Base(c) + x <= U64_MAX
    ensures Frame(c.g, Base(c) + x) == k + if c.g == 16384 then 0x8000 else if c.upper then 0x8_0002_0000 else 0x2_0000
  {
    var pages := BasePages(c);
    if c.g == 16384 {
      RemainderOf(Base(c) + x, 16384, pages + k, x - 16384 * k);
      RemainderOf(pages + k, 0x2_0000_0000, if c.upper then 0x1_ffff else 0, 0x8000 + k);
    } else {
      RemainderOf(Base(c) + x, 4096, 4 * pages + k, x - 4096 * k);
      RemainderOf(4 * pages + k, 0x10_0000_0000, if c.upper then 0xffff else 0,
                  k + if c.upper then 0x8_0002_0000 else 0x2_0000);
    }
  }

  lemma RootOf(va: u64)
    ensures Root(va) == if va < 0x8000_0000_0000_0000 then 0 else 1
  {
    hide Bits.Shr, Bits.Pow2;
    Pow2Values();
    ShrIsDivision(va, 63, 0x8000_0000_0000_0000);
  }

  // Addresses of the case share a translation exactly when they are in the same page.
  lemma KeysArePages(c: Case, k: nat, x: nat, l: nat, y: nat)
    requires IsGranule(c.g) && k < 32 && l < 32 && InPage(c.g, k, x) && InPage(c.g, l, y)
    ensures Base(c) + x <= U64_MAX && Base(c) + y <= U64_MAX
    ensures Key(c.g, Base(c) + x) == Key(c.g, Base(c) + y) <==> k == l
  {
    hide Granules.Key, Granules.Frame, Granules.Root;
    FrameOf(c, k, x);
    FrameOf(c, l, y);
    RootOf(Base(c) + x);
    RootOf(Base(c) + y);
    SameKey(c.g, Base(c) + x, Base(c) + y);
  }

  // ----- what a page of the case translates to

  predicate Mapped(c: Case, page: nat) {
    page == c.code || page == c.output || page == c.stack || (page == c.dt && !c.invalid)
  }

  function Mapping(c: Case, page: nat): nat {
    if Mapped(c, page) then PageDescriptor(c.g, page) else 0
  }

  lemma MappingOfCall(c: Case, i: nat, k: nat)
    requires Laid(c) && i < 4
    requires k == if i == 0 then c.code else if i == 1 then c.dt else if i == 2 then c.output else c.stack
    ensures |Calls(c)| == 4 && Calls(c)[i].va == Address(c, k) && Calls(c)[i].descriptor == Mapping(c, k)
  {
    hide PageDescriptor, Calls;
    CallsAre(c);
  }

  // Only the i-th call has this key.
  lemma {:induction false} OnlyMapping(g: nat, length: nat, calls: seq<Call>, i: nat, k: Path)
    requires IsGranule(g) && i < |calls| && Outcome(g, length, calls, i).Ok?
    requires Key(g, calls[i].va) == k && forall j :: i < j < |calls| ==> Key(g, calls[j].va) != k
    ensures LastMapped(g, length, calls, k) == calls[i].descriptor
  {
    hide Granules.Key, MapTree, Run;
    var n := |calls| - 1;
    if i < n {
      assert calls[..n][..i] == calls[..i];
      OnlyMapping(g, length, calls[..n], i, k);
    }
  }

  lemma {:induction false} NoMapping(g: nat, length: nat, calls: seq<Call>, k: Path)
    requires IsGranule(g) && forall j :: 0 <= j < |calls| ==> Key(g, calls[j].va) != k
    ensures LastMapped(g, length, calls, k) == 0
  {
    hide Granules.Key, Outcome;
    if |calls| > 0 {
      NoMapping(g, length, calls[..|calls| - 1], k);
    }
  }

  function CallPage(c: Case, i: nat): nat {
    if i == 0 then c.code else if i == 1 then c.dt else if i == 2 then c.output else c.stack
  }

  lemma KeyOfCall(c: Case, i: nat, k: nat, x: nat)
    requires Laid(c) && i < 4 && k < 32 && InPage(c.g, k, x)
    ensures |Calls(c)| == 4 && Base(c) + x <= U64_MAX
    ensures Key(c.g, Calls(c)[i].va) == Key(c.g, Base(c) + x) <==> CallPage(c, i) == k
  {
    hide Granules.Key, Calls, PageDescriptor;
    MappingOfCall(c, i, CallPage(c, i));
    KeysArePages(c, CallPage(c, i), PageOffset(c.g, CallPage(c, i)), k, x);
  }

  lemma LastMappedInPage(c: Case, k: nat, x: nat)
    requires Laid(c) && k < 32 && InPage(c.g, k, x)
    ensures Base(c) + x <= U64_MAX
    ensures LastMapped(c.g, Size(c.g), Calls(c), Key(c.g, Base(c) + x)) == Mapping(c, k)
  {
    hide Granules.Key, Calls, PageDescriptor, Outcome, LastMapped;
    forall i: nat | i < 4
      ensures |Calls(c)| == 4 && Base(c) + x <= U64_MAX
      ensures Key(c.g, Calls(c)[i].va) == Key(c.g, Base(c) + x) <==> CallPage(c, i) == k
    {
      KeyOfCall(c, i, k, x);
    }
    if i: nat :| i < 4 && CallPage(c, i) == k {
      FewCallsSucceed(c.g, Calls(c), i);
      MappingOfCall(c, i, k);
      OnlyMapping(c.g, Size(c.g), Calls(c), i, Key(c.g, Base(c) + x));
    } else {
      assert CallPage(c, 0) != k && CallPage(c, 1) != k && CallPage(c, 2) != k && CallPage(c, 3) != k;
      NoMapping(c.g, Size(c.g), Calls(c), Key(c.g, Base(c) + x));
    }
  }

  // Tables the builder has made for the case.
  ghost predicate Built(c: Case, tables: seq<byte>) {
    && Laid(c)
    && |tables| == Size(c.g)
    && Represents(tables, c.g, Run(c.g, |tables|, Calls(c)))
  }

  lemma WalkInPage(c: Case, tables: seq<byte>, k: nat, x: nat)
    requires Built(c, tables) && k < 32 && InPage(c.g, k, x)
    ensures Base(c) + x <= U64_MAX
    ensures Descriptor(WalkVa(tables, c.g, Base(c) + x)) == Mapping(c, k)
  {
    hide TableWalk.Represents, TableWalk.WalkVa, TableWalk.Descriptor, Calls, PageDescriptor, Run, LastMapped;
    hide Granules.Key, Mapping;
    LastMappedInPage(c, k, x);
    EveryWalkIsLastMapped(tables, c.g, Calls(c), Base(c) + x);
  }

  // A word of a mapped page is found where it lies in RAM.
  lemma WordInPage(c: Case, tables: seq<byte>, k: nat, x: nat, access: Access)
    requires Built(c, tables) && k < 16 && InPage(c.g, k, x) && x % 4 == 0 && Mapped(c, k)
    ensures Base(c) + x <= U64_MAX
    ensures RamWord(tables, c.g, Size(c.g), Base(c) + x, access) == Some(x)
  {
    hide TableWalk.WalkVa, PageDescriptor, Run, Calls, TableWalk.Represents, Bits.And, Grants;
    WalkInPage(c, tables, k, x);
    PageDescriptorBits(c.g, k);
    OffsetInPage(c, k, x);
  }

  lemma OffsetInPage(c: Case, k: nat, x: nat)
    requires IsGranule(c.g) && k < 16 && InPage(c.g, k, x) && x % 4 == 0
    ensures (Base(c) + x) % c.g == x - PageOffset(c.g, k)
    ensures (Base(c) + x) % 4 == 0 && x + 4 <= Size(c.g)
    ensures Base(c) + x <= U64_MAX && InRange(c.g, Base(c) + x)
  {
    var pages := BasePages(c);
    if c.g == 16384 {
      RemainderOf(Base(c) + x, 16384, pages + k, x - 16384 * k);
    } else {
      RemainderOf(Base(c) + x, 4096, 4 * pages + k, x - 4096 * k);
    }
    RemainderOf(Base(c) + x, 4, 4096 * pages + x / 4, 0);
    AlignedEnd(x, c.g * 4);
  }

  lemma AlignedEnd(x: nat, quarter: nat)
    requires x % 4 == 0 && x < 4 * quarter
    ensures x + 4 <= 4 * quarter
  {
    assert x == 4 * (x / 4);
  }

  // The base is a whole number of 16 KiB pages.
  function BasePages(c: Case): (pages: nat)
    ensures Base(c) == 16384 * pages
  {
    if c.upper then 0x3_fffe_0000_8000 else 0x8000
  }

  // No access to a page that is not mapped succeeds.
  lemma NoWordInPage(c: Case, tables: seq<byte>, k: nat, x: nat, access: Access)
    requires Built(c, tables) && k < 32 && InPage(c.g, k, x) && !Mapped(c, k)
    ensures Base(c) + x <= U64_MAX
    ensures RamWord(tables, c.g, Size(c.g), Base(c) + x, access) == None
  {
    hide TableWalk.WalkVa, PageDescriptor, Run, Calls, TableWalk.Represents, Bits.And, Mapped;
    WalkInPage(c, tables, k, x);
  }

  // ----- the cases

  function Place(c: Case, valueOffset: nat): Placement
    requires Laid(c)
  {
    Placement(Base(c), PageOffset(c.g, c.code), PageOffset(c.g, c.dt), PageOffset(c.g, c.output), valueOffset)
  }

  lemma CodeFetched(c: Case, tables: seq<byte>, k: nat)
    requires Built(c, tables) && k < 16
    ensures Laid(c) && Base(c) + PageOffset(c.g, c.code) + 4 * k <= U64_MAX
    ensures var x := PageOffset(c.g, c.code) + 4 * k; RamWord(tables, c.g, Size(c.g), Base(c) + x, Fetch) == Some(x)
  {
    hide Built, RamWord, Size;
    BuiltLaid(c, tables);
    WordOffset(c, c.code, k);
    WordInPage(c, tables, c.code, PageOffset(c.g, c.code) + 4 * k, Fetch);
  }

  lemma OutputStored(c: Case, tables: seq<byte>, i: nat)
    requires Built(c, tables) && i < 7
    ensures Laid(c) && Base(c) + PageOffset(c.g, c.output) + 4 * i <= U64_MAX
    ensures var x := PageOffset(c.g, c.output) + 4 * i; RamWord(tables, c.g, Size(c.g), Base(c) + x, Store) == Some(x)
  {
    hide Built, RamWord, Size;
    BuiltLaid(c, tables);
    WordOffset(c, c.output, i);
    WordInPage(c, tables, c.output, PageOffset(c.g, c.output) + 4 * i, Store);
  }

  lemma WordOffset(c: Case, page: nat, k: nat)
    requires IsGranule(c.g) && page < 16 && k < 16
    ensures InPage(c.g, page, PageOffset(c.g, page) + 4 * k) && (PageOffset(c.g, page) + 4 * k) % 4 == 0
    ensures Base(c) + PageOffset(c.g, page) + 4 * k <= U64_MAX
  {
    RemainderOf(PageOffset(c.g, page) + 4 * k, 4, c.g / 4 * page + k, 0);
  }

  lemma PlaceFits(c: Case, valueOffset: nat)
    requires Laid(c) && Accepts(valueOffset)
    ensures Fits(Place(c, valueOffset), Size(c.g))
  {
  }

  lemma CaseReady(c: Case, tables: seq<byte>, valueOffset: nat)
    requires Built(c, tables) && Accepts(valueOffset)
    ensures Laid(c) && Ready(tables, c.g, Size(c.g), Place(c, valueOffset))
  {
    hide Built, RamWord, Size, Fits;
    BuiltLaid(c, tables);
    PlaceFits(c, valueOffset);
    var p, g := Place(c, valueOffset), c.g;
    forall k: nat | k < 16
      ensures p.base + p.code + 4 * k <= U64_MAX
      ensures RamWord(tables, g, Size(g), p.base + p.code + 4 * k, Fetch) == Some(p.code + 4 * k)
    {
      CodeFetched(c, tables, k);
    }
    forall i: nat | i < 7
      ensures p.base + p.output + 4 * i <= U64_MAX
      ensures RamWord(tables, g, Size(g), p.base + p.output + 4 * i, Store) == Some(p.output + 4 * i)
    {
      OutputStored(c, tables, i);
    }
  }

  lemma BuiltLaid(c: Case, tables: seq<byte>)
    requires Built(c, tables)
    ensures Laid(c)
  {
  }

  // The page the i-th word is loaded from.
  function SourcePage(c: Case, valueOffset: nat, i: nat): nat
    requires Laid(c)
  {
    PageOf(c.g, Origin(Place(c, valueOffset), i))
  }

  // How many words are loaded before the first whose page is not mapped.
  function Loaded(c: Case, valueOffset: nat, i: nat): (n: nat)
    requires Laid(c) && i <= 6
    ensures i <= n <= 6
    decreases 6 - i
  {
    if i < 6 && Mapped(c, SourcePage(c, valueOffset, i)) then Loaded(c, valueOffset, i + 1) else i
  }

  lemma {:induction false} LoadedMeans(c: Case, valueOffset: nat, i: nat)
    requires Laid(c) && i <= 6
    ensures var n := Loaded(c, valueOffset, i);
      && (forall j :: i <= j < n ==> Mapped(c, SourcePage(c, valueOffset, j)))
      && (n < 6 ==> !Mapped(c, SourcePage(c, valueOffset, n)))
    decreases 6 - i
  {
    hide Mapped, SourcePage;
    if i < 6 && Mapped(c, SourcePage(c, valueOffset, i)) {
      LoadedMeans(c, valueOffset, i + 1);
    }
  }

  lemma SourceSmall(c: Case, valueOffset: nat, i: nat)
    requires Laid(c) && Accepts(valueOffset) && i < 6
    ensures var x := Origin(Place(c, valueOffset), i);
      SourcePage(c, valueOffset, i) < 32 && InPage(c.g, SourcePage(c, valueOffset, i), x) && x % 4 == 0
  {
  }

  lemma SourceLoads(c: Case, tables: seq<byte>, p: Placement, i: nat)
    requires Built(c, tables) && Accepts(p.valueOffset) && i < 6
    requires Ready(tables, c.g, Size(c.g), p) && p == Place(c, p.valueOffset)
    requires Mapped(c, SourcePage(c, p.valueOffset, i))
    ensures CanLoad(tables, c.g, Size(c.g), p, i) && Origin(p, i) + 4 <= Size(c.g)
  {
    hide Built, RamWord, Mapped, Ready, Origin, SourcePage, InPage, Size, Place;
    BuiltLaid(c, tables);
    ReadyFits(tables, c.g, Size(c.g), p);
    SourceSmall(c, p.valueOffset, i);
    MappedIsSmall(c, SourcePage(c, p.valueOffset, i));
    WordInPage(c, tables, SourcePage(c, p.valueOffset, i), Origin(p, i), Load);
    OffsetInPage(c, SourcePage(c, p.valueOffset, i), Origin(p, i));
    PlaceBase(c, p.valueOffset);
  }

  lemma SourceFaults(c: Case, tables: seq<byte>, p: Placement, i: nat)
    requires Built(c, tables) && Accepts(p.valueOffset) && i < 6 && p == Place(c, p.valueOffset)
    requires !Mapped(c, SourcePage(c, p.valueOffset, i))
    ensures p.base + Origin(p, i) <= U64_MAX
    ensures RamWord(tables, c.g, Size(c.g), p.base + Origin(p, i), Load) == None
  {
    hide Built, RamWord, Mapped, Origin, SourcePage, InPage, Size, Place;
    BuiltLaid(c, tables);
    SourceSmall(c, p.valueOffset, i);
    NoWordInPage(c, tables, SourcePage(c, p.valueOffset, i), Origin(p, i), Load);
    PlaceBase(c, p.valueOffset);
  }

  lemma PlaceBase(c: Case, valueOffset: nat)
    requires Laid(c)
    ensures Place(c, valueOffset).base == Base(c)
  {
  }

  lemma MappedIsSmall(c: Case, k: nat)
    requires Laid(c) && Mapped(c, k)
    ensures k < 16
  {
  }

  // A machine about to run the program of the case.
  predicate Starts(c: Case, m: Machine, valueOffset: nat) {
    Laid(c) && |m.ram| == Size(c.g) && Initial(m, Place(c, valueOffset))
  }

  // The program in its page and the argument registers set, whatever RAM and the other
  // registers hold.
  function Prepared(c: Case, ram: seq<byte>, x: Registers, valueOffset: nat): Machine
    requires Laid(c) && Accepts(valueOffset) && |ram| == Size(c.g)
  {
    var p := Place(c, valueOffset);
    var program := Pack(ProgramWords(valueOffset));
    CodeInRam(c, valueOffset);
    var arguments := x[0 := p.base + p.dt][1 := p.base + p.output];
    Machine(arguments, p.base + p.code, Put(ram, p.code, program), 0, 0, 0, 0, Running)
  }

  lemma CodeInRam(c: Case, valueOffset: nat)
    requires Laid(c)
    ensures Place(c, valueOffset).code + 64 <= Size(c.g)
  {
  }

  // That is a start of the case, with everything else as it was.
  lemma PreparedStarts(c: Case, ram: seq<byte>, x: Registers, valueOffset: nat)
    requires Laid(c) && Accepts(valueOffset) && |ram| == Size(c.g)
    ensures var m := Prepared(c, ram, x, valueOffset);
      && Starts(c, m, valueOffset)
      && (forall at :: 0 <= at < |ram| && PageOf(c.g, at) != c.code ==> m.ram[at] == ram[at])
      && (forall r :: 2 <= r < 31 ==> m.x[r] == x[r])
  {
    hide Laid, Pack, ProgramWords, PageOf, Place, Size, Bytes.Put, Fits;
    var p := Place(c, valueOffset);
    PlaceFits(c, valueOffset);
    CodeInRam(c, valueOffset);
    PutIsThere(ram, p.code, Pack(ProgramWords(valueOffset)));
    PlaceOffset(c, valueOffset);
    CodePage(c, p);
  }

  lemma PlaceOffset(c: Case, valueOffset: nat)
    requires Laid(c)
    ensures Place(c, valueOffset).valueOffset == valueOffset
  {
  }

  lemma PutIsThere(b: seq<byte>, offset: nat, v: seq<byte>)
    requires offset + |v| <= |b|
    ensures Put(b, offset, v)[offset..offset + |v|] == v
    ensures forall at :: 0 <= at < |b| && (at < offset || offset + |v| <= at) ==> Put(b, offset, v)[at] == b[at]
  {
  }

  lemma CodePage(c: Case, p: Placement)
    requires Laid(c) && p == Place(c, p.valueOffset)
    ensures forall at :: p.code <= at < p.code + 64 ==> PageOf(c.g, at) == c.code
  {
    forall at | p.code <= at < p.code + 64 ensures PageOf(c.g, at) == c.code {
      PageOfInPage(c.g, c.code, at);
    }
  }

  // For every case, every RAM contents and every value offset the generator takes: the
  // program copies as many words as lie in mapped pages, then halts or faults.
  lemma CaseRuns(c: Case, tables: seq<byte>, m: Machine, valueOffset: nat, steps: nat)
    requires Built(c, tables) && Starts(c, m, valueOffset) && steps >= 16
    ensures var p, n := Place(c, valueOffset), Loaded(c, valueOffset, 0);
      && Fits(p, |m.ram|) && InRam(p, |m.ram|, n)
      && Steps(tables, c.g, m, steps) == if n == 6 then AfterHalt(m, p) else AfterFault(m, p, n)
  {
    hide Built, RamWord, Mapped, Ready, Initial, SourcePage;
    var p, n := Place(c, valueOffset), Loaded(c, valueOffset, 0);
    InitialFits(m, p);
    LoadedMeans(c, valueOffset, 0);
    CaseReady(c, tables, valueOffset);
    forall i: nat | i < n ensures CanLoad(tables, c.g, |m.ram|, p, i) && Origin(p, i) + 4 <= |m.ram| {
      SourceLoads(c, tables, p, i);
    }
    if n < 6 {
      SourceFaults(c, tables, p, n);
    }
    Runs(tables, c.g, p, m, n, steps);
  }

  lemma InitialFits(m: Machine, p: Placement)
    requires Initial(m, p)
    ensures Fits(p, |m.ram|) && Accepts(p.valueOffset)
  {
  }

  // ----- what the probe expects

  lemma PageOfInPage(g: nat, k: nat, x: nat)
    requires IsGranule(g) && InPage(g, k, x)
    ensures PageOf(g, x) == k
  {
  }

  // The words all come from the tree's page exactly when the value ends inside it. With
  // 4 KiB pages the generator takes offsets for which it does not.
  lemma SourcesInTree(c: Case, valueOffset: nat)
    requires Laid(c) && Accepts(valueOffset)
    ensures (forall i: nat :: i < 6 ==> SourcePage(c, valueOffset, i) == c.dt) <==> valueOffset + 16 <= c.g
  {
    var p := Place(c, valueOffset);
    if valueOffset + 16 <= c.g {
      forall i: nat | i < 6 ensures SourcePage(c, valueOffset, i) == c.dt {
        PageOfInPage(c.g, c.dt, Origin(p, i));
      }
    } else {
      assert Origin(p, 5) >= PageOffset(c.g, c.dt) + c.g;
      assert SourcePage(c, valueOffset, 5) != c.dt;
    }
  }

  // The final machine: 28 bytes of output and X2 are all that changes.
  function Expected(c: Case, m: Machine, valueOffset: nat): Machine
    requires Starts(c, m, valueOffset)
    requires PageOffset(c.g, c.dt) + valueOffset + 16 <= |m.ram|
  {
    var p := Place(c, valueOffset);
    var value := p.dt + valueOffset;
    var output := m.ram[p.dt..p.dt + 8] + m.ram[value..value + 16] + [0xcd, 0xab, 0, 0];
    m.(x := m.x[2 := 0xabcd], pc := m.pc + 64, ram := Put(m.ram, p.output, output),
       retired := 16, fetches := 16, requests := 13, completed := 13, condition := Halted)
  }

  lemma HaltingCase(c: Case, tables: seq<byte>, m: Machine, valueOffset: nat, steps: nat)
    requires Built(c, tables) && Starts(c, m, valueOffset) && steps >= 16
    requires forall i: nat :: i < 6 ==>
      Mapped(c, SourcePage(c, valueOffset, i)) && SourcePage(c, valueOffset, i) != c.output
    ensures PageOffset(c.g, c.dt) + valueOffset + 16 <= |m.ram|
    ensures Steps(tables, c.g, m, steps) == Expected(c, m, valueOffset)
  {
    hide Built, Mapped, SourcePage, Steps, Initial, Origin, AfterHalt, Expected;
    var p := Place(c, valueOffset);
    CaseRuns(c, tables, m, valueOffset, steps);
    LoadedMeans(c, valueOffset, 0);
    assert Loaded(c, valueOffset, 0) == 6;
    forall i: nat | i < 6 ensures Apart(p, i) {
      ApartPages(c, valueOffset, i);
    }
    ExpectedIsHalt(c, m, valueOffset);
  }

  lemma ExpectedIsHalt(c: Case, m: Machine, valueOffset: nat)
    requires Starts(c, m, valueOffset) && InRam(Place(c, valueOffset), |m.ram|, 6)
    requires forall i: nat :: i < 6 ==> Apart(Place(c, valueOffset), i)
    ensures PageOffset(c.g, c.dt) + valueOffset + 16 <= |m.ram|
    ensures Fits(Place(c, valueOffset), |m.ram|)
    ensures Expected(c, m, valueOffset) == AfterHalt(m, Place(c, valueOffset))
  {
    hide Apart, InRam, Copied, Initial, Bytes.ToLe, Bytes.Put;
    var p := Place(c, valueOffset);
    InitialFits(m, p);
    InitialPc(m, p);
    OutputIs(m.ram, p);
  }

  lemma InitialPc(m: Machine, p: Placement)
    requires Initial(m, p)
    ensures m.pc == p.base + p.code
  {
  }

  lemma ApartPages(c: Case, valueOffset: nat, i: nat)
    requires Laid(c) && Accepts(valueOffset) && i < 6
    requires SourcePage(c, valueOffset, i) != c.output
    ensures Apart(Place(c, valueOffset), i)
  {
    hide Origin, SourcePage, InPage, PageOffset;
    SourceSmall(c, valueOffset, i);
    PagesApart(c.g, SourcePage(c, valueOffset, i), c.output, Origin(Place(c, valueOffset), i));
  }

  // An aligned word is clear of the first 28 bytes of every other page.
  lemma PagesApart(g: nat, k: nat, l: nat, x: nat)
    requires IsGranule(g) && InPage(g, k, x) && x % 4 == 0 && k != l
    ensures x + 4 <= PageOffset(g, l) || PageOffset(g, l) + 28 <= x
  {
    AlignedEnd(x, if g == 16384 then 4096 * k + 4096 else 1024 * k + 1024);
  }

  // A value that ends inside the tree's page: header, value and marker are written, X3 and
  // everything else is kept, and all sixteen instructions retire.
  lemma ValidCase(c: Case, tables: seq<byte>, m: Machine, valueOffset: nat, steps: nat)
    requires Built(c, tables) && Starts(c, m, valueOffset) && steps >= 16
    requires !c.invalid && valueOffset + 16 <= c.g
    ensures PageOffset(c.g, c.dt) + valueOffset + 16 <= |m.ram|
    ensures Steps(tables, c.g, m, steps) == Expected(c, m, valueOffset)
  {
    hide Built, SourcePage, Steps, Expected, Initial, HoldsProgram;
    InitialFits(m, Place(c, valueOffset));
    SourcesInTree(c, valueOffset);
    HaltingCase(c, tables, m, valueOffset, steps);
  }

  // The tree's page mapped to an empty descriptor: one instruction retires, and the first
  // load faults with nothing changed.
  lemma InvalidCase(c: Case, tables: seq<byte>, m: Machine, valueOffset: nat, steps: nat)
    requires Built(c, tables) && Starts(c, m, valueOffset) && steps >= 16 && c.invalid
    ensures Steps(tables, c.g, m, steps)
         == m.(pc := m.pc + 4, retired := 1, fetches := 2, requests := 1, completed := 0,
               condition := Faulted(Address(c, c.dt)))
  {
    hide Built, Steps, HoldsProgram;
    CaseRuns(c, tables, m, valueOffset, steps);
    LoadedMeans(c, valueOffset, 0);
    PageOfInPage(c.g, c.dt, Origin(Place(c, valueOffset), 0));
  }

  // With 4 KiB pages the guard lets the value start in the next page: laid out as the probe
  // lays them out, the program then reports bytes of the stack as the value.
  lemma GuardAllowsNextPage(tables: seq<byte>, m: Machine, upper: bool, steps: nat)
    requires var c := Case(4096, upper, false, 1, 2, 3, 4);
      Built(c, tables) && Starts(c, m, 4096) && steps >= 16
    ensures |m.ram| == 65536
    ensures var c := Case(4096, upper, false, 1, 2, 3, 4);
      var tree, stack, output := PageOffset(4096, c.dt), PageOffset(4096, c.stack), PageOffset(4096, c.output);
      Steps(tables, 4096, m, steps).ram
      == Put(m.ram, output, m.ram[tree..tree + 8] + m.ram[stack..stack + 16] + [0xcd, 0xab, 0, 0])
  {
    hide Built, Steps, HoldsProgram;
    HaltingCase(Case(4096, upper, false, 1, 2, 3, 4), tables, m, 4096, steps);
  }

  // With the authored tree in its page, the output is the tree's header, the value the
  // decoder finds at the same offset, and the marker.
  lemma TreeCase(c: Case, tables: seq<byte>, m: Machine, value: seq<byte>, steps: nat)
    requires Built(c, tables) && Starts(c, m, 84) && steps >= 16 && !c.invalid
    requires |value| == 16 && DeviceTree.Encodable(DeviceTree.Authored(value, false))
    requires var tree, dt := DeviceTree.Tree(DeviceTree.Authored(value, false)), PageOffset(c.g, c.dt);
      dt + |tree| <= |m.ram| && m.ram[dt..dt + |tree|] == tree
    ensures PageOffset(c.g, c.output) + 28 <= |m.ram|
    ensures Steps(tables, c.g, m, steps).ram
         == Put(m.ram, PageOffset(c.g, c.output), [2, 0, 0, 0, 0, 0, 0, 0] + value + [0xcd, 0xab, 0, 0])
  {
    hide Built, Steps, HoldsProgram, DeviceTree.Tree, DeviceTree.Authored, DeviceTree.Encodable, DeviceTree.Header;
    hide Bytes.Put, Bytes.ToLe;
    var props, dt := DeviceTree.Authored(value, false), PageOffset(c.g, c.dt);
    ValidCase(c, tables, m, 84, steps);
    AuthoredParts(value);
    HeaderBytes();
    SliceOfSlice(m.ram, dt, dt + |DeviceTree.Tree(props)|, 0, 8);
    SliceOfSlice(m.ram, dt, dt + |DeviceTree.Tree(props)|, 84, 100);
  }

  lemma HeaderBytes()
    ensures DeviceTree.Header(2) == [2, 0, 0, 0, 0, 0, 0, 0]
  {
    assert ToLe(2, 4) == [2] + ToLe(0, 3);
    assert ToLe(0, 4) == [0] + ToLe(0, 3);
    assert ToLe(0, 3) == [0] + ToLe(0, 2);
    assert ToLe(0, 2) == [0] + ToLe(0, 1);
  }

  lemma AuthoredParts(value: seq<byte>)
    requires |value| == 16
    ensures var props := DeviceTree.Authored(value, false);
      && DeviceTree.Encodable(props)
      && |DeviceTree.Tree(props)| >= 100
      && DeviceTree.Tree(props)[0..8] == DeviceTree.Header(2)
      && DeviceTree.Tree(props)[84..100] == value
  {
    hide DeviceTree.Tree, DeviceTree.Header, DeviceTree.Encodable, DeviceTree.ValueStart;
    var props := DeviceTree.Authored(value, false);
    DeviceTree.AuthoredIsEncodable(value, false);
    DeviceTree.ValueInTree(props, 1);
    DeviceTree.TreeStarts(props);
  }
}
