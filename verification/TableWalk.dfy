/** The architecture's table walk over a flat byte buffer, and the proof that on a buffer
    representing a `Tree` it computes the tree's lookup. The walk sees bytes only. */
module TableWalk {
  import opened Bits
  import opened Bytes
  import opened Granules
  import opened TableEntries
  import opened TableTrees

  // ----- the buffer as a heap of entries

  ghost function Entry(b: seq<byte>, g: nat, page: nat, i: nat): nat {
    var at := PageOffset(g, page) + 8 * i;
    if at + 8 <= |b| then ReadU64(b, at) else 0
  }

  ghost function HeapOf(b: seq<byte>, g: nat): Heap {
    (page: nat, i: nat) => Entry(b, g, page, i)
  }

  // Different entries do not overlap.
  lemma OffsetsApart(g: nat, page: nat, i: nat, page': nat, i': nat)
    requires IsGranule(g) && i < Entries(g) && i' < Entries(g) && (page' != page || i' != i)
    ensures var at, at' := PageOffset(g, page) + 8 * i, PageOffset(g, page') + 8 * i';
      at + 8 <= at' || at' + 8 <= at
  {
    if page == page' {
    } else {
      MultiplesOrdered(g, page, page');
      MultiplesOrdered(g, page', page);
    }
  }

  // Writing one entry changes that entry and no other.
  lemma WriteUpdates(b: seq<byte>, g: nat, page: nat, i: nat, v: u64)
    requires IsGranule(g) && i < Entries(g)
    requires PageOffset(g, page) + 8 * i + 8 <= |b|
    ensures Updated(HeapOf(b, g), HeapOf(WriteU64(b, PageOffset(g, page) + 8 * i, v), g), g, page, i, v)
  {
    hide Bytes.ReadU64, Bytes.WriteU64;
    var at := PageOffset(g, page) + 8 * i;
    ReadAfterWrite(b, at, v, at);
    forall page': nat, i': nat | i' < Entries(g) && (page' != page || i' != i)
      ensures Entry(WriteU64(b, at, v), g, page', i') == Entry(b, g, page', i')
    {
      var at' := PageOffset(g, page') + 8 * i';
      OffsetsApart(g, page, i, page', i');
      if at' + 8 <= |b| {
        ReadAfterWrite(b, at, v, at');
      }
    }
  }

  // Whole table pages in the buffer.
  function Capacity(g: nat, length: nat): nat
    requires IsGranule(g)
  {
    if g == 16384 then length / 16384 else length / 4096
  }

  ghost predicate Represents(b: seq<byte>, g: nat, t: Tree) {
    && IsGranule(g)
    && TABLE_PA + |b| <= ADDRESS_LIMIT
    && Shaped(g, t)
    && Stored(HeapOf(b, g), g, Capacity(g, |b|), t)
  }

  lemma ZeroBufferIsEmpty(b: seq<byte>, g: nat)
    requires IsGranule(g) && TABLE_PA + |b| <= ADDRESS_LIMIT && b == Zeros(|b|)
    ensures Represents(b, g, EMPTY_TREE)
  {
    hide Bytes.ReadU64, TableTrees.Stored, TableTrees.Shaped;
    forall page: nat, i: nat | i < Entries(g) ensures HeapOf(b, g)(page, i) == 0 {
      ZeroEntry(b, g, page, i);
    }
    EmptyIsShaped(g);
    EmptyIsStored(HeapOf(b, g), g, Capacity(g, |b|));
  }

  lemma ZeroEntry(b: seq<byte>, g: nat, page: nat, i: nat)
    requires b == Zeros(|b|)
    ensures Entry(b, g, page, i) == 0
  {
    var at := PageOffset(g, page) + 8 * i;
    if at + 8 <= |b| {
      assert b[at..at + 8] == Zeros(8);
      LeZeros(8);
    }
  }

  // ----- the walk

  datatype Walk =
    | Fault(level: nat)
    | Leaf(descriptor: u64, address: nat, attrs: nat)

  // Attribute bits are collected on the way down; level is where a failing walk stops.
  function WalkFrom(b: seq<byte>, g: nat, va: u64, level: nat, table: nat, attrs: nat): Walk
    requires level <= 3
    decreases 3 - level
  {
    var at := table + 8 * Index(g, va, level);
    if at < TABLE_PA || at - TABLE_PA + 8 > |b| then Fault(level)
    else
      var d := ReadU64(b, at - TABLE_PA);
      if level == 3 then Leaf(d, at, attrs)
      else if d % 4 != 3 then Fault(level)
      else WalkFrom(b, g, va, level + 1, And(d, AddressMask(g)), Or(attrs, Attributes(d)))
  }

  // Translation table walk for va, from the root its top bit selects.
  function WalkVa(b: seq<byte>, g: nat, va: u64): Walk {
    WalkFrom(b, g, va, StartLevel(g), PageAddress(g, Root(va)), 0)
  }

  function Descriptor(w: Walk): u64 {
    match w
    case Fault(_) => 0
    case Leaf(d, _, _) => d
  }

  // ----- what the tree says the walk finds

  function ExpectedWalk(t: Tree, g: nat, va: u64, n: nat, acc: nat): Walk
    requires 1 <= n <= Depth(g)
  {
    var r := Reach(t, g, va, n);
    var p := PathTo(g, va, r);
    if r == Depth(g) && p in t.pages
    then Leaf(Lookup(t, Key(g, va)), PageAddress(g, t.pages[p]) + 8 * Index(g, va, 3), Inherited(t, g, va, n, acc))
    else Fault(StartLevel(g) + r - 1)
  }

  // ----- reading entries off the buffer

  lemma RepresentsGranule(b: seq<byte>, g: nat, t: Tree)
    requires Represents(b, g, t)
    ensures IsGranule(g) && TABLE_PA + |b| <= ADDRESS_LIMIT && t.attrs.Keys == t.pages.Keys
  {
  }

  lemma PageFits(b: seq<byte>, g: nat, t: Tree, p: Path, i: nat)
    requires Represents(b, g, t) && p in t.pages && i < Entries(g)
    requires p.Child? || Child(p, i) in t.pages
    ensures PageOffset(g, t.pages[p]) + 8 * i + 8 <= |b|
    ensures PageAddress(g, t.pages[p]) < ADDRESS_LIMIT
  {
    PageInBuffer(HeapOf(b, g), g, Capacity(g, |b|), t, p);
  }

  lemma ReadTable(b: seq<byte>, g: nat, t: Tree, p: Path, i: nat)
    requires Represents(b, g, t) && p in t.pages && Length(p) < Depth(g) && i < Entries(g)
    requires PageOffset(g, t.pages[p]) + 8 * i + 8 <= |b|
    ensures ReadU64(b, PageOffset(g, t.pages[p]) + 8 * i) == ChildEntry(g, t, Child(p, i))
  {
    assert HeapOf(b, g)(t.pages[p], i) == ChildEntry(g, t, Child(p, i));
  }

  lemma ReadLeaf(b: seq<byte>, g: nat, t: Tree, p: Path, i: nat)
    requires Represents(b, g, t) && p in t.pages && Length(p) == Depth(g) && i < Entries(g)
    requires PageOffset(g, t.pages[p]) + 8 * i + 8 <= |b|
    ensures ReadU64(b, PageOffset(g, t.pages[p]) + 8 * i) == Lookup(t, Child(p, i))
  {
    assert HeapOf(b, g)(t.pages[p], i) == Lookup(t, Child(p, i));
  }

  lemma PathStep(g: nat, va: u64, n: nat)
    requires IsGranule(g) && 1 <= n <= Depth(g)
    ensures Index(g, va, StartLevel(g) + n - 1) < Entries(g)
    ensures PathTo(g, va, n + 1) == Child(PathTo(g, va, n), Index(g, va, StartLevel(g) + n - 1))
    ensures Key(g, va) == Child(PathTo(g, va, Depth(g)), Index(g, va, 3))
  {
    IndexIsRemainder(g, va, StartLevel(g) + n - 1);
  }

  // Where the walk looks next after the first n elements of the path to va.
  function Slot(t: Tree, g: nat, va: u64, n: nat): nat
    requires 1 <= n <= Depth(g) && PathTo(g, va, n) in t.pages
  {
    PageOffset(g, t.pages[PathTo(g, va, n)]) + 8 * Index(g, va, StartLevel(g) + n - 1)
  }

  // The n-th table on va's path exists, and this is where the walk looks in it.
  ghost predicate SlotAt(t: Tree, g: nat, va: u64, n: nat, at: nat) {
    1 <= n <= Depth(g) && PathTo(g, va, n) in t.pages && Slot(t, g, va, n) == at
  }

  lemma SlotHoldsTable(b: seq<byte>, g: nat, t: Tree, va: u64, n: nat)
    requires Represents(b, g, t)
    requires 1 <= n < Depth(g) && PathTo(g, va, n) in t.pages && PathTo(g, va, n + 1) in t.pages
    ensures Slot(t, g, va, n) + 8 <= |b|
    ensures ReadU64(b, Slot(t, g, va, n)) == ChildEntry(g, t, PathTo(g, va, n + 1))
    ensures PageAddress(g, t.pages[PathTo(g, va, n + 1)]) < ADDRESS_LIMIT
  {
    hide Represents, Granules.Index, Granules.PathTo;
    RepresentsGranule(b, g, t);
    PathStep(g, va, n);
    PageFits(b, g, t, PathTo(g, va, n + 1), 0);
    PageFits(b, g, t, PathTo(g, va, n), Index(g, va, StartLevel(g) + n - 1));
    ReadTable(b, g, t, PathTo(g, va, n), Index(g, va, StartLevel(g) + n - 1));
  }

  lemma SlotIsEmpty(b: seq<byte>, g: nat, t: Tree, va: u64, n: nat)
    requires Represents(b, g, t)
    requires 1 <= n < Depth(g) && PathTo(g, va, n) in t.pages && PathTo(g, va, n + 1) !in t.pages
    ensures Slot(t, g, va, n) + 8 <= |b| ==> ReadU64(b, Slot(t, g, va, n)) == 0
  {
    hide Represents, Granules.Index, Granules.PathTo, Bytes.ReadU64;
    RepresentsGranule(b, g, t);
    PathStep(g, va, n);
    if Slot(t, g, va, n) + 8 <= |b| {
      ReadTable(b, g, t, PathTo(g, va, n), Index(g, va, StartLevel(g) + n - 1));
    }
  }

  lemma SlotHoldsLeaf(b: seq<byte>, g: nat, t: Tree, va: u64)
    requires Represents(b, g, t) && PathTo(g, va, Depth(g)) in t.pages
    ensures Slot(t, g, va, Depth(g)) + 8 <= |b|
    ensures ReadU64(b, Slot(t, g, va, Depth(g))) == Lookup(t, Key(g, va))
  {
    hide Represents, Granules.Index, Granules.PathTo, Granules.Key, Bytes.ReadU64;
    RepresentsGranule(b, g, t);
    PathStep(g, va, Depth(g));
    PageFits(b, g, t, PathTo(g, va, Depth(g)), Index(g, va, 3));
    ReadLeaf(b, g, t, PathTo(g, va, Depth(g)), Index(g, va, 3));
  }

  // One level of the walk through a table descriptor.
  lemma WalkThroughTable(b: seq<byte>, g: nat, va: u64, level: nat, table: nat, page: nat, attrs: nat, acc: nat)
    requires IsGranule(g) && level < 3 && PageAddress(g, page) < ADDRESS_LIMIT
    requires TABLE_PA <= table && table - TABLE_PA + 8 * Index(g, va, level) + 8 <= |b|
    requires ReadU64(b, table - TABLE_PA + 8 * Index(g, va, level)) == TableEntry(g, page, attrs)
    ensures WalkFrom(b, g, va, level, table, acc)
         == WalkFrom(b, g, va, level + 1, PageAddress(g, page), Or(acc, attrs))
  {
    NextTableAddressMasked(g, page, attrs);
    TableEntryType(g, page, attrs);
    TableEntryAttributes(g, page, attrs);
  }

  lemma ExpectedThroughTable(t: Tree, g: nat, va: u64, n: nat, acc: nat)
    requires IsGranule(g) && t.attrs.Keys == t.pages.Keys
    requires 1 <= n < Depth(g) && PathTo(g, va, n + 1) in t.pages
    ensures ExpectedWalk(t, g, va, n, acc) == ExpectedWalk(t, g, va, n + 1, Or(acc, t.attrs[PathTo(g, va, n + 1)]))
  {
  }

  // The address of the table the walk consults after n steps.
  function TableAddress(t: Tree, g: nat, va: u64, n: nat): nat
    requires 1 <= n <= Depth(g) && PathTo(g, va, n) in t.pages
  {
    PageAddress(g, t.pages[PathTo(g, va, n)])
  }

  lemma WalkAtTable(b: seq<byte>, g: nat, t: Tree, va: u64, n: nat, acc: nat)
    requires Represents(b, g, t)
    requires 1 <= n < Depth(g) && PathTo(g, va, n) in t.pages && PathTo(g, va, n + 1) in t.pages
    ensures WalkFrom(b, g, va, StartLevel(g) + n - 1, TableAddress(t, g, va, n), acc)
         == WalkFrom(b, g, va, StartLevel(g) + n, TableAddress(t, g, va, n + 1), Or(acc, t.attrs[PathTo(g, va, n + 1)]))
  {
    hide Represents, WalkFrom, Granules.Index;
    var page, c := t.pages[PathTo(g, va, n)], PathTo(g, va, n + 1);
    RepresentsGranule(b, g, t);
    SlotHoldsTable(b, g, t, va, n);
    WalkThroughTable(b, g, va, StartLevel(g) + n - 1, PageAddress(g, page), t.pages[c], t.attrs[c], acc);
  }

  lemma WalkAtEmpty(b: seq<byte>, g: nat, t: Tree, va: u64, n: nat, acc: nat)
    requires Represents(b, g, t)
    requires 1 <= n < Depth(g) && PathTo(g, va, n) in t.pages && PathTo(g, va, n + 1) !in t.pages
    ensures WalkFrom(b, g, va, StartLevel(g) + n - 1, TableAddress(t, g, va, n), acc) == ExpectedWalk(t, g, va, n, acc)
  {
    hide Represents, Granules.Index, Bits.And, Bits.Or, TableEntries.Attributes;
    SlotIsEmpty(b, g, t, va, n);
  }

  lemma WalkAtLeaf(b: seq<byte>, g: nat, t: Tree, va: u64, acc: nat)
    requires Represents(b, g, t) && PathTo(g, va, Depth(g)) in t.pages
    ensures WalkFrom(b, g, va, 3, TableAddress(t, g, va, Depth(g)), acc) == ExpectedWalk(t, g, va, Depth(g), acc)
  {
    hide Represents, Granules.Index, Bits.And, Bits.Or, TableEntries.Attributes;
    SlotHoldsLeaf(b, g, t, va);
  }

  lemma {:induction false} WalkFollowsTree(b: seq<byte>, g: nat, t: Tree, va: u64, n: nat, acc: nat)
    requires Represents(b, g, t)
    requires 1 <= n <= Depth(g) && PathTo(g, va, n) in t.pages
    ensures WalkFrom(b, g, va, StartLevel(g) + n - 1, TableAddress(t, g, va, n), acc) == ExpectedWalk(t, g, va, n, acc)
    decreases Depth(g) - n
  {
    hide Represents, WalkFrom, ExpectedWalk, Granules.Index, Granules.PathTo, Bits.Or;
    if n == Depth(g) {
      WalkAtLeaf(b, g, t, va, acc);
    } else if PathTo(g, va, n + 1) in t.pages {
      RepresentsGranule(b, g, t);
      WalkAtTable(b, g, t, va, n, acc);
      WalkFollowsTree(b, g, t, va, n + 1, Or(acc, t.attrs[PathTo(g, va, n + 1)]));
      ExpectedThroughTable(t, g, va, n, acc);
    } else {
      WalkAtEmpty(b, g, t, va, n, acc);
    }
  }

  // The bytes refine the finite map: walking any address finds exactly what the tree
  // holds for its key, at the address the tree gives, or stops at the first missing table.
  lemma WalkIsLookup(b: seq<byte>, g: nat, t: Tree, va: u64)
    requires Represents(b, g, t)
    ensures WalkVa(b, g, va) == ExpectedWalk(t, g, va, 1, 0)
    ensures Descriptor(WalkVa(b, g, va)) == Lookup(t, Key(g, va))
  {
    assert TableAddress(t, g, va, 1) == PageAddress(g, Root(va)) by {
      assert PathTo(g, va, 1) == Top(Root(va));
    }
    WalkFollowsTree(b, g, t, va, 1, 0);
    ExpectedDescriptor(g, t, va);
  }

  // ----- the entries, byte by byte

  // The walk of va ends at an entry whose eight bytes are the descriptor, lowest byte first.
  predicate LeafSpelled(b: seq<byte>, g: nat, va: u64, descriptor: nat) {
    match WalkVa(b, g, va)
    case Fault(_) => false
    case Leaf(d, address, _) => d == descriptor && address >= TABLE_PA && Spells(b, address - TABLE_PA, d)
  }

  lemma {:induction false} WalkEndsAtSpelled(b: seq<byte>, g: nat, va: u64, level: nat, table: nat, attrs: nat)
    requires level <= 3
    ensures match WalkFrom(b, g, va, level, table, attrs)
      case Fault(_) => true
      case Leaf(d, address, _) => address >= TABLE_PA && Spells(b, address - TABLE_PA, d)
    decreases 3 - level
  {
    hide Granules.Index, Bits.And, Bits.Or, Attributes, Bytes.ReadU64, Spells;
    var at := table + 8 * Index(g, va, level);
    if at >= TABLE_PA && at - TABLE_PA + 8 <= |b| {
      var d := ReadU64(b, at - TABLE_PA);
      ReadSpells(b, at - TABLE_PA, d);
      if level < 3 && d % 4 == 3 {
        WalkEndsAtSpelled(b, g, va, level + 1, And(d, AddressMask(g)), Or(attrs, Attributes(d)));
      }
    }
  }

  lemma WalkIsSpelled(b: seq<byte>, g: nat, t: Tree, va: u64)
    requires Represents(b, g, t) && PathTo(g, va, Depth(g)) in t.pages
    ensures LeafSpelled(b, g, va, Lookup(t, Key(g, va)))
  {
    hide WalkFrom, Spells, Represents, ExpectedWalk, Granules.PathTo, Granules.Key;
    WalkEndsAtSpelled(b, g, va, StartLevel(g), PageAddress(g, Root(va)), 0);
    WalkIsLookup(b, g, t, va);
    ExpectedLeaf(b, g, t, va);
  }

  lemma ExpectedLeaf(b: seq<byte>, g: nat, t: Tree, va: u64)
    requires Represents(b, g, t) && PathTo(g, va, Depth(g)) in t.pages
    ensures ExpectedWalk(t, g, va, 1, 0).Leaf? && ExpectedWalk(t, g, va, 1, 0).descriptor == Lookup(t, Key(g, va))
  {
    hide Granules.Index, Granules.PathTo, Granules.Key, HeapOf, TableTrees.Stored;
    ReachesAll(g, t, va, 1);
  }

  // The table pages as they lie in memory: entry i of the page of path p is 0 or, lowest byte
  // first, the descriptor of the next table, and in a last-level page the descriptor mapped.
  lemma EntriesSpelled(b: seq<byte>, g: nat, t: Tree, p: Path, i: nat)
    requires Represents(b, g, t) && p in t.pages && i < g / 8 && t.pages[p] * g + 8 * i + 8 <= |b|
    ensures Length(p) < Depth(g) && Child(p, i) !in t.pages ==> Spells(b, t.pages[p] * g + 8 * i, 0)
    ensures Length(p) < Depth(g) && Child(p, i) in t.pages ==>
      && Child(p, i) in t.attrs
      && Spells(b, t.pages[p] * g + 8 * i,
                0x3000_0000 + t.pages[Child(p, i)] * g + 3 + t.attrs[Child(p, i)] * 0x800_0000_0000_0000)
    ensures Length(p) == Depth(g) ==> Spells(b, t.pages[p] * g + 8 * i, Lookup(t, Child(p, i)))
  {
    hide TableTrees.PagesShaped, TableTrees.LeavesShaped, TableTrees.PoolBlank, Bytes.ReadU64, Spells;
    var at := PageOffset(g, t.pages[p]) + 8 * i;
    assert HeapOf(b, g)(t.pages[p], i) == ReadU64(b, at);
    ReadSpells(b, at, ReadU64(b, at));
  }

  lemma ExpectedDescriptor(g: nat, t: Tree, va: u64)
    requires IsGranule(g) && Shaped(g, t)
    ensures Descriptor(ExpectedWalk(t, g, va, 1, 0)) == Lookup(t, Key(g, va))
  {
    if Key(g, va) in t.leaves {
      assert Key(g, va) == Child(PathTo(g, va, Depth(g)), Index(g, va, 3));
      ReachesAll(g, t, va, 1);
    }
  }

  lemma {:induction false} PrefixesAllocated(g: nat, t: Tree, va: u64, n: nat, m: nat)
    requires PagesShaped(g, t.pages) && 1 <= m <= n <= Depth(g) && PathTo(g, va, n) in t.pages
    ensures PathTo(g, va, m) in t.pages
  {
    if m < n {
      assert PathTo(g, va, n) == Child(PathTo(g, va, n - 1), Index(g, va, StartLevel(g) + n - 2));
      PrefixesAllocated(g, t, va, n - 1, m);
    }
  }

  lemma {:induction false} ReachesAll(g: nat, t: Tree, va: u64, n: nat)
    requires PagesShaped(g, t.pages) && 1 <= n <= Depth(g) && PathTo(g, va, Depth(g)) in t.pages
    ensures Reach(t, g, va, n) == Depth(g)
    decreases Depth(g) - n
  {
    if n < Depth(g) {
      PrefixesAllocated(g, t, va, Depth(g), n + 1);
      ReachesAll(g, t, va, n + 1);
    }
  }

  function RootEntryEnd(g: nat, va: u64): nat {
    PageOffset(g, Root(va)) + 8 * Index(g, va, StartLevel(g)) + 8
  }

  // Only the root entry can lie outside the buffer.
  lemma SlotInBuffer(t: Tree, b: seq<byte>, g: nat, va: u64, n: nat)
    requires Represents(b, g, t) && 1 <= n <= Depth(g) && PathTo(g, va, n) in t.pages
    ensures n == 1 ==> Slot(t, g, va, n) + 8 == RootEntryEnd(g, va)
    ensures n > 1 ==> Slot(t, g, va, n) + 8 <= |b|
  {
    IndexIsRemainder(g, va, StartLevel(g) + n - 1);
    if n == 1 {
      assert PathTo(g, va, 1) == Top(Root(va));
    } else {
      PageInBuffer(HeapOf(b, g), g, Capacity(g, |b|), t, PathTo(g, va, n));
    }
  }

  lemma CapacityIsRoom(g: nat, page: nat, length: nat)
    requires IsGranule(g)
    ensures page < Capacity(g, length) <==> PageOffset(g, page) + g <= length
  {
  }

  // ----- the builder's writes, on bytes

  lemma TableEntryFits(g: nat, page: nat, attrs: nat)
    requires PageAddress(g, page) < ADDRESS_LIMIT && attrs < 32
    ensures TableEntry(g, page, attrs) <= U64_MAX
  {
  }

  lemma PageNumberBound(g: nat, t: Tree, p: Path)
    requires PagesShaped(g, t.pages) && p in t.pages
    ensures t.pages[p] < |t.pages|
  {
  }

  lemma WriteTable(b: seq<byte>, g: nat, t: Tree, va: u64, n: nat, attrs: nat)
    requires Represents(b, g, t) && attrs < 32
    requires 1 <= n < Depth(g) && PathTo(g, va, n) in t.pages && PathTo(g, va, n + 1) !in t.pages
    requires |t.pages| < Capacity(g, |b|)
    ensures Slot(t, g, va, n) + 8 <= |b| && TableEntry(g, |t.pages|, attrs) <= U64_MAX
    ensures Represents(WriteU64(b, Slot(t, g, va, n), TableEntry(g, |t.pages|, attrs)), g,
                       AddTable(t, PathTo(g, va, n + 1), attrs))
  {
    hide Granules.Index, Granules.PathTo, Granules.Key, TableTrees.PagesShaped, TableTrees.LeavesShaped;
    hide TableTrees.TablesStored, TableTrees.LeavesStored, TableTrees.PoolBlank, Bytes.WriteU64, HeapOf;
    var p, i := PathTo(g, va, n), Index(g, va, StartLevel(g) + n - 1);
    PathStep(g, va, n);
    PageNumberBound(g, t, p);
    TableEntryFits(g, |t.pages|, attrs);
    var v := TableEntry(g, |t.pages|, attrs);
    WriteUpdates(b, g, t.pages[p], i, v);
    var b' := WriteU64(b, Slot(t, g, va, n), v);
    AddTableStored(HeapOf(b, g), HeapOf(b', g), g, Capacity(g, |b|), t, p, i, attrs);
  }

  lemma WriteAttributes(b: seq<byte>, g: nat, t: Tree, va: u64, n: nat, attrs: nat)
    requires Represents(b, g, t) && attrs < 32
    requires 1 <= n < Depth(g) && PathTo(g, va, n) in t.pages && PathTo(g, va, n + 1) in t.pages
    ensures Slot(t, g, va, n) + 8 <= |b|
    ensures TableEntry(g, t.pages[PathTo(g, va, n + 1)], attrs) <= U64_MAX
    ensures Represents(WriteU64(b, Slot(t, g, va, n), TableEntry(g, t.pages[PathTo(g, va, n + 1)], attrs)), g,
                       SetAttributes(t, PathTo(g, va, n + 1), attrs))
  {
    hide Granules.Index, Granules.PathTo, Granules.Key, TableTrees.PagesShaped, TableTrees.LeavesShaped;
    hide TableTrees.TablesStored, TableTrees.LeavesStored, TableTrees.PoolBlank, Bytes.WriteU64, HeapOf;
    var p, i := PathTo(g, va, n), Index(g, va, StartLevel(g) + n - 1);
    PathStep(g, va, n);
    var c := PathTo(g, va, n + 1);
    SlotHoldsTable(b, g, t, va, n);
    TableEntryFits(g, t.pages[c], attrs);
    var v := TableEntry(g, t.pages[c], attrs);
    WriteUpdates(b, g, t.pages[p], i, v);
    var b' := WriteU64(b, Slot(t, g, va, n), v);
    SetAttributesStored(HeapOf(b, g), HeapOf(b', g), g, Capacity(g, |b|), t, p, i, attrs);
  }

  lemma WriteLeaf(b: seq<byte>, g: nat, t: Tree, va: u64, descriptor: u64)
    requires Represents(b, g, t) && PathTo(g, va, Depth(g)) in t.pages
    ensures Slot(t, g, va, Depth(g)) + 8 <= |b|
    ensures Represents(WriteU64(b, Slot(t, g, va, Depth(g)), descriptor), g, SetLeaf(t, Key(g, va), descriptor))
  {
    hide Granules.Index, Granules.PathTo, Granules.Key, TableTrees.PagesShaped, TableTrees.LeavesShaped;
    hide TableTrees.TablesStored, TableTrees.LeavesStored, TableTrees.PoolBlank, Bytes.WriteU64, HeapOf;
    var p, i := PathTo(g, va, Depth(g)), Index(g, va, 3);
    PathStep(g, va, Depth(g));
    SlotHoldsLeaf(b, g, t, va);
    WriteUpdates(b, g, t.pages[p], i, descriptor);
    var b' := WriteU64(b, Slot(t, g, va, Depth(g)), descriptor);
    SetLeafStored(HeapOf(b, g), HeapOf(b', g), g, Capacity(g, |b|), t, p, i, descriptor);
  }
}
