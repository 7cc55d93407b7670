/** The page-table builder of the MMU probe (also used, unchanged, by the DeviceTree,
    dynamic-memory and ASID probes): `Tables.Map` installs one leaf descriptor, allocating
    the missing intermediate tables from the unused pages at the end of its buffer. */
module MmuTables {
  import opened Uefi
  import opened Bits
  import opened Bytes
  import opened Granules
  import opened TableEntries
  import opened TableTrees
  import opened TableWalk

  // ----- what a call does to the tree

  // t with a table for each path prefix longer than lo, up to length hi.
  function Grow(t: Tree, g: nat, va: u64, lo: nat, hi: nat): Tree
    requires 1 <= lo && hi <= Depth(g)
    decreases hi
  {
    if hi <= lo then t else AddTable(Grow(t, g, va, lo, hi - 1), PathTo(g, va, hi), 0)
  }

  function Reached(t: Tree, g: nat, va: u64): (r: nat)
    ensures 1 <= r <= Depth(g)
  {
    Reach(t, g, va, 1)
  }

  // Table pages a mapping of va still needs.
  function Missing(t: Tree, g: nat, va: u64): nat {
    Depth(g) - Reached(t, g, va)
  }

  function Spare(t: Tree, g: nat, length: nat): nat
    requires IsGranule(g)
  {
    if Capacity(g, length) < |t.pages| then 0 else Capacity(g, length) - |t.pages|
  }

  // The outcome of mapping va in a buffer of `length` bytes. A call that runs out of
  // pages has by then used up the ones that were left.
  function MapTree(t: Tree, g: nat, length: nat, va: u64, descriptor: u64): (Result<Unit, Status>, Tree)
    requires IsGranule(g)
  {
    var r := Reached(t, g, va);
    if RootEntryEnd(g, va) > length then (Err(BadBufferSize), t)
    else if Missing(t, g, va) > Spare(t, g, length) then
      (Err(OutOfResources), Grow(t, g, va, r, r + Spare(t, g, length)))
    else (Ok(Unit), SetLeaf(Grow(t, g, va, r, Depth(g)), Key(g, va), descriptor))
  }

  datatype Call = Call(va: u64, descriptor: u64)

  // The tree after a sequence of calls on a zeroed buffer, some of which may have failed.
  function Run(g: nat, length: nat, calls: seq<Call>): Tree
    requires IsGranule(g)
  {
    if |calls| == 0 then EMPTY_TREE
    else
      var last := calls[|calls| - 1];
      MapTree(Run(g, length, calls[..|calls| - 1]), g, length, last.va, last.descriptor).1
  }

  // What the i-th call of the sequence returned.
  function Outcome(g: nat, length: nat, calls: seq<Call>, i: nat): Result<Unit, Status>
    requires IsGranule(g) && i < |calls|
  {
    MapTree(Run(g, length, calls[..i]), g, length, calls[i].va, calls[i].descriptor).0
  }

  // ----- facts about growing

  // The table paths of va with lengths in (lo, hi].
  function TablePaths(g: nat, va: u64, lo: nat, hi: nat): set<Path>
    requires 1 <= lo && hi <= Depth(g)
    decreases hi
  {
    if hi <= lo then {} else TablePaths(g, va, lo, hi - 1) + {PathTo(g, va, hi)}
  }

  lemma {:induction false} TablePathsMembers(g: nat, va: u64, lo: nat, hi: nat, p: Path)
    requires 1 <= lo && hi <= Depth(g)
    ensures p in TablePaths(g, va, lo, hi) <==> lo < Length(p) <= hi && p == PathTo(g, va, Length(p))
    decreases hi
  {
    if lo < hi {
      TablePathsMembers(g, va, lo, hi - 1, p);
    }
  }

  lemma {:induction false} GrowMembers(t: Tree, g: nat, va: u64, lo: nat, hi: nat, p: Path)
    requires 1 <= lo <= hi <= Depth(g)
    ensures p in Grow(t, g, va, lo, hi).pages <==> p in t.pages || p in TablePaths(g, va, lo, hi)
    decreases hi
  {
    hide Granules.PathTo;
    if lo < hi {
      GrowMembers(t, g, va, lo, hi - 1, p);
    }
  }

  lemma {:induction false} GrowKeepsLeaves(t: Tree, g: nat, va: u64, lo: nat, hi: nat)
    requires 1 <= lo && hi <= Depth(g)
    ensures Grow(t, g, va, lo, hi).leaves == t.leaves
    decreases hi
  {
    hide Granules.PathTo;
    if lo < hi {
      GrowKeepsLeaves(t, g, va, lo, hi - 1);
    }
  }

  lemma {:induction false} GrowShaped(t: Tree, g: nat, va: u64, lo: nat, hi: nat)
    requires IsGranule(g) && Shaped(g, t)
    requires 1 <= lo <= hi <= Depth(g) && PathTo(g, va, lo) in t.pages
    requires TablePaths(g, va, lo, hi) !! t.pages.Keys
    ensures Shaped(g, Grow(t, g, va, lo, hi)) && PathTo(g, va, hi) in Grow(t, g, va, lo, hi).pages
    decreases hi
  {
    hide TableTrees.Shaped, Granules.PathTo, Granules.Index;
    if lo < hi {
      GrowShaped(t, g, va, lo, hi - 1);
      PathStep(g, va, hi - 1);
      TablePathsMembers(g, va, lo, hi - 1, PathTo(g, va, hi));
      GrowMembers(t, g, va, lo, hi - 1, PathTo(g, va, hi));
      AddTableShaped(g, Grow(t, g, va, lo, hi - 1), PathTo(g, va, hi - 1), Index(g, va, StartLevel(g) + hi - 2), 0);
    }
  }

  lemma GrowNext(t: Tree, g: nat, va: u64, lo: nat, hi: nat)
    requires 1 <= lo < hi <= Depth(g)
    ensures Grow(t, g, va, lo, hi) == AddTable(Grow(t, g, va, lo, hi - 1), PathTo(g, va, hi), 0)
    ensures TablePaths(g, va, lo, hi) == TablePaths(g, va, lo, hi - 1) + {PathTo(g, va, hi)}
  {
    hide Granules.PathTo, AddTable;
  }

  lemma {:induction false} GrowAdds(t: Tree, g: nat, va: u64, lo: nat, hi: nat)
    requires 1 <= lo <= hi <= Depth(g)
    requires TablePaths(g, va, lo, hi) !! t.pages.Keys
    ensures |Grow(t, g, va, lo, hi).pages| == |t.pages| + hi - lo
    decreases hi
  {
    hide Granules.PathTo, Grow, TablePaths;
    if lo == hi {
      GrowNothing(t, g, va, lo);
    } else {
      GrowNext(t, g, va, lo, hi);
      var p, s := PathTo(g, va, hi), Grow(t, g, va, lo, hi - 1);
      GrowAdds(t, g, va, lo, hi - 1);
      TablePathsMembers(g, va, lo, hi - 1, p);
      GrowMembers(t, g, va, lo, hi - 1, p);
      MapGrows(s.pages, p, |s.pages|);
    }
  }

  lemma GrowNothing(t: Tree, g: nat, va: u64, lo: nat)
    requires 1 <= lo <= Depth(g)
    ensures Grow(t, g, va, lo, lo) == t
  {
  }

  // The allocated prefixes of a path are exactly those up to its reach.
  lemma AllocatedUpToReach(t: Tree, g: nat, va: u64, m: nat)
    requires PagesShaped(g, t.pages) && 1 <= m <= Depth(g)
    ensures PathTo(g, va, m) in t.pages <==> m <= Reached(t, g, va)
  {
    var r := Reached(t, g, va);
    assert PathTo(g, va, 1) == Top(Root(va));
    if m <= r {
      PrefixesAllocated(g, t, va, r, m);
    } else if PathTo(g, va, m) in t.pages {
      PrefixesAllocated(g, t, va, m, r + 1);
    }
  }

  lemma NoneBeyondReach(t: Tree, g: nat, va: u64, hi: nat)
    requires PagesShaped(g, t.pages) && hi <= Depth(g)
    ensures TablePaths(g, va, Reached(t, g, va), hi) !! t.pages.Keys
  {
    forall p | p in TablePaths(g, va, Reached(t, g, va), hi) ensures p !in t.pages {
      TablePathsMembers(g, va, Reached(t, g, va), hi, p);
      AllocatedUpToReach(t, g, va, Length(p));
    }
  }

  // ----- one call, level by level

  // The builder started from t0 and has made sure of the first n tables on va's path.
  ghost predicate Grown(t0: Tree, t: Tree, g: nat, length: nat, va: u64, n: nat) {
    && IsGranule(g)
    && 1 <= n <= Depth(g)
    && PagesShaped(g, t0.pages)
    && PathTo(g, va, n) in t.pages
    && t == Grow(t0, g, va, Reached(t0, g, va), n)
    && (if n <= Reached(t0, g, va) then |t.pages| == |t0.pages|
        else |t.pages| == |t0.pages| + n - Reached(t0, g, va) <= Capacity(g, length))
  }

  lemma NextIsAllocated(t0: Tree, t: Tree, g: nat, length: nat, va: u64, n: nat)
    requires Grown(t0, t, g, length, va, n) && n < Depth(g)
    ensures PathTo(g, va, n + 1) in t.pages <==> n + 1 <= Reached(t0, g, va)
  {
    hide Granules.PathTo, TableTrees.PagesShaped, TablePaths, Reached;
    var r := Reached(t0, g, va);
    AllocatedUpToReach(t0, g, va, n + 1);
    if n > r {
      NoneBeyondReach(t0, g, va, n);
      GrowAdds(t0, g, va, r, n);
      GrowMembers(t0, g, va, r, n, PathTo(g, va, n + 1));
      TablePathsMembers(g, va, r, n, PathTo(g, va, n + 1));
    }
  }

  lemma GrownHasTable(t0: Tree, t: Tree, g: nat, length: nat, va: u64, n: nat)
    requires Grown(t0, t, g, length, va, n)
    ensures IsGranule(g) && 1 <= n <= Depth(g) && PathTo(g, va, n) in t.pages
  {
  }

  lemma GrownFollows(t0: Tree, t: Tree, g: nat, length: nat, va: u64, n: nat)
    requires Grown(t0, t, g, length, va, n) && n < Depth(g) && PathTo(g, va, n + 1) in t.pages
    ensures Grown(t0, t, g, length, va, n + 1)
  {
    NextIsAllocated(t0, t, g, length, va, n);
  }

  lemma GrownAllocates(t0: Tree, t: Tree, g: nat, length: nat, va: u64, n: nat)
    requires Grown(t0, t, g, length, va, n) && n < Depth(g) && PathTo(g, va, n + 1) !in t.pages
    requires |t.pages| < Capacity(g, length)
    ensures Grown(t0, AddTable(t, PathTo(g, va, n + 1), 0), g, length, va, n + 1)
  {
    NextIsAllocated(t0, t, g, length, va, n);
    MapGrows(t.pages, PathTo(g, va, n + 1), |t.pages|);
  }

  lemma OutOfRange(t0: Tree, t: Tree, g: nat, length: nat, va: u64, descriptor: u64)
    requires Grown(t0, t, g, length, va, 1) && RootEntryEnd(g, va) > length
    ensures MapTree(t0, g, length, va, descriptor) == (Err(BadBufferSize), t)
  {
  }

  lemma PoolExhausted(t0: Tree, t: Tree, g: nat, length: nat, va: u64, n: nat, descriptor: u64)
    requires Grown(t0, t, g, length, va, n) && n < Depth(g) && PathTo(g, va, n + 1) !in t.pages
    requires RootEntryEnd(g, va) <= length && |t.pages| >= Capacity(g, length)
    ensures MapTree(t0, g, length, va, descriptor) == (Err(OutOfResources), t)
  {
    hide Grow, Granules.PathTo, Granules.Key, Granules.Index, TableTrees.PagesShaped, Capacity;
    NextIsAllocated(t0, t, g, length, va, n);
  }

  lemma DescentEnds(t0: Tree, t: Tree, g: nat, length: nat, va: u64, descriptor: u64)
    requires Grown(t0, t, g, length, va, Depth(g)) && RootEntryEnd(g, va) <= length
    ensures MapTree(t0, g, length, va, descriptor) == (Ok(Unit), SetLeaf(t, Key(g, va), descriptor))
  {
  }

  // ----- what the builder meets in the buffer

  // What the builder reads decides whether it follows a table or allocates one.
  lemma EntryRead(t: Tree, b: seq<byte>, g: nat, va: u64, n: nat, at: nat)
    requires Represents(b, g, t) && n < Depth(g) && SlotAt(t, g, va, n, at) && at + 8 <= |b|
    ensures ReadU64(b, at) == 0 <==> PathTo(g, va, n + 1) !in t.pages
    ensures PathTo(g, va, n + 1) in t.pages ==>
      And(ReadU64(b, at), 0x0000_ffff_ffff_f000) == TableAddress(t, g, va, n + 1)
  {
    hide TableWalk.Represents, Granules.Index, Granules.PathTo, Bits.And, Bytes.ReadU64;
    RepresentsGranule(b, g, t);
    var c := PathTo(g, va, n + 1);
    if c in t.pages {
      SlotHoldsTable(b, g, t, va, n);
      NextTableAddress(g, t.pages[c], t.attrs[c]);
    } else {
      SlotIsEmpty(b, g, t, va, n);
    }
  }

  // ----- the loop's position: Grown, the last table's byte offset, and the root checked

  ghost predicate Standing(t0: Tree, t: Tree, g: nat, length: nat, va: u64, level: nat, table: nat) {
    && StartLevel(g) <= level <= 3
    && Grown(t0, t, g, length, va, level - StartLevel(g) + 1)
    && table == PageOffset(g, t.pages[PathTo(g, va, level - StartLevel(g) + 1)])
    && (level > StartLevel(g) ==> RootEntryEnd(g, va) <= length)
  }

  lemma StandingStarts(t: Tree, b: seq<byte>, g: nat, va: u64)
    requires Represents(b, g, t)
    ensures Standing(t, t, g, |b|, va, StartLevel(g), if Shr(va, 63) == 0 then 0 else g)
  {
    assert PathTo(g, va, 1) == Top(Root(va));
  }

  lemma StandingHasTable(t0: Tree, t: Tree, g: nat, length: nat, va: u64, level: nat, table: nat)
    requires Standing(t0, t, g, length, va, level, table)
    ensures IsGranule(g) && StartLevel(g) <= level <= 3
    ensures SlotAt(t, g, va, level - StartLevel(g) + 1, table + 8 * Index(g, va, level))
  {
    hide Granules.Index, Granules.PathTo, Grow;
  }

  // Either the entry is in the buffer or the call fails here, at the root, changing nothing.
  lemma StandingInBuffer(t0: Tree, t: Tree, b: seq<byte>, g: nat, va: u64, level: nat, table: nat, descriptor: u64)
    requires Represents(b, g, t) && Standing(t0, t, g, |b|, va, level, table)
    ensures table + 8 * Index(g, va, level) + 8 <= |b| ==> RootEntryEnd(g, va) <= |b|
    ensures table + 8 * Index(g, va, level) + 8 > |b| ==>
      MapTree(t0, g, |b|, va, descriptor) == (Err(BadBufferSize), t)
  {
    hide TableWalk.Represents, Granules.Index, Grown, MapTree;
    StandingHasTable(t0, t, g, |b|, va, level, table);
    SlotInBuffer(t, b, g, va, level - StartLevel(g) + 1);
    if level == StartLevel(g) && RootEntryEnd(g, va) > |b| {
      OutOfRange(t0, t, g, |b|, va, descriptor);
    }
  }

  lemma StandingFollows(t0: Tree, t: Tree, b: seq<byte>, g: nat, va: u64, level: nat, table: nat)
    requires Represents(b, g, t) && level < 3 && Standing(t0, t, g, |b|, va, level, table)
    requires table + 8 * Index(g, va, level) + 8 <= |b|
    requires PathTo(g, va, level - StartLevel(g) + 2) in t.pages
    ensures Standing(t0, t, g, |b|, va, level + 1, PageOffset(g, t.pages[PathTo(g, va, level - StartLevel(g) + 2)]))
  {
    hide TableWalk.Represents, Granules.Index, Granules.PathTo, Grown;
    StandingInBuffer(t0, t, b, g, va, level, table, 0);
    GrownFollows(t0, t, g, |b|, va, level - StartLevel(g) + 1);
  }

  lemma StandingExhausted(t0: Tree, t: Tree, b: seq<byte>, g: nat, va: u64, level: nat, table: nat, descriptor: u64)
    requires Represents(b, g, t) && level < 3 && Standing(t0, t, g, |b|, va, level, table)
    requires table + 8 * Index(g, va, level) + 8 <= |b|
    requires PathTo(g, va, level - StartLevel(g) + 2) !in t.pages
    requires |t.pages| >= Capacity(g, |b|)
    ensures MapTree(t0, g, |b|, va, descriptor) == (Err(OutOfResources), t)
  {
    hide TableWalk.Represents, Granules.Index, Granules.PathTo, Grown, MapTree;
    StandingInBuffer(t0, t, b, g, va, level, table, 0);
    PoolExhausted(t0, t, g, |b|, va, level - StartLevel(g) + 1, descriptor);
  }

  lemma StandingAllocates(t0: Tree, t: Tree, b: seq<byte>, g: nat, va: u64, level: nat, table: nat)
    requires Represents(b, g, t) && level < 3 && Standing(t0, t, g, |b|, va, level, table)
    requires table + 8 * Index(g, va, level) + 8 <= |b|
    requires PathTo(g, va, level - StartLevel(g) + 2) !in t.pages
    requires |t.pages| < Capacity(g, |b|)
    ensures var c, at := PathTo(g, va, level - StartLevel(g) + 2), table + 8 * Index(g, va, level);
      && Or(PageAddress(g, |t.pages|), 3) <= U64_MAX
      && Represents(WriteU64(b, at, Or(PageAddress(g, |t.pages|), 3)), g, AddTable(t, c, 0))
      && |AddTable(t, c, 0).pages| == |t.pages| + 1
      && Standing(t0, AddTable(t, c, 0), g, |b|, va, level + 1, PageOffset(g, |t.pages|))
  {
    hide TableWalk.Represents, Granules.Index, Granules.PathTo, Grown, Bytes.WriteU64;
    var n := level - StartLevel(g) + 1;
    StandingHasTable(t0, t, g, |b|, va, level, table);
    StandingInBuffer(t0, t, b, g, va, level, table, 0);
    WriteTable(b, g, t, va, n, 0);
    GrownAllocates(t0, t, g, |b|, va, n);
    RepresentsGranule(b, g, t);
    FreshTableEntry(g, |t.pages|);
    MapGrows(t.pages, PathTo(g, va, n + 1), |t.pages|);
  }

  lemma StandingEnds(t0: Tree, t: Tree, b: seq<byte>, g: nat, va: u64, table: nat, descriptor: u64)
    requires Represents(b, g, t) && Standing(t0, t, g, |b|, va, 3, table)
    requires table + 8 * Index(g, va, 3) + 8 <= |b|
    ensures MapTree(t0, g, |b|, va, descriptor) == (Ok(Unit), SetLeaf(t, Key(g, va), descriptor))
    ensures PathTo(g, va, Depth(g)) in t.pages
    ensures Represents(WriteU64(b, table + 8 * Index(g, va, 3), descriptor), g, SetLeaf(t, Key(g, va), descriptor))
  {
    hide TableWalk.Represents, Granules.Index, MapTree, Bytes.WriteU64, Granules.Key, Grown, Granules.PathTo;
    StandingInBuffer(t0, t, b, g, va, 3, table, 0);
    RepresentsGranule(b, g, t);
    GrownHasTable(t0, t, g, |b|, va, Depth(g));
    DescentEnds(t0, t, g, |b|, va, descriptor);
    WriteLeaf(b, g, t, va, descriptor);
  }

  // ----- the builder

  class Tables {
    const bytes: array<byte>
    const granule: nat
    var next: nat
    ghost var tree: Tree
    ghost var calls: seq<Call>

    // The buffer holds the tree, and `next` counts its pages.
    ghost predicate Consistent()
      reads this, bytes
    {
      && Represents(bytes[..], granule, tree)
      && next == |tree.pages|
    }

    ghost predicate Valid()
      reads this, bytes
    {
      && Consistent()
      && tree == Run(granule, bytes.Length, calls)
    }

    // A zeroed buffer; pages 0 and 1 are the two roots.
    constructor (bytes: array<byte>, granule: nat)
      requires IsGranule(granule) && TABLE_PA + bytes.Length <= ADDRESS_LIMIT
      requires bytes[..] == Zeros(bytes.Length)
      ensures Valid() && calls == []
      ensures this.bytes == bytes && this.granule == granule
    {
      this.bytes := bytes;
      this.granule := granule;
      next := 2;
      tree := EMPTY_TREE;
      calls := [];
      ZeroBufferIsEmpty(bytes[..], granule);
      EmptyIsShaped(granule);
    }

    method Read(offset: nat) returns (value: u64)
      requires offset + 8 <= bytes.Length
      ensures value == ReadU64(bytes[..], offset) && Spells(bytes[..], offset, value)
    {
      assert bytes[offset..offset + 8] == bytes[..][offset..offset + 8];
      Pow256Values();
      ReadSpells(bytes[..], offset, ReadU64(bytes[..], offset));
      value := Le(bytes[offset..offset + 8]);
    }

    method Write(offset: nat, value: u64)
      requires offset + 8 <= bytes.Length
      modifies bytes
      ensures bytes[..] == WriteU64(old(bytes[..]), offset, value) && Spells(bytes[..], offset, value)
      ensures forall k :: 0 <= k < 8 ==> bytes[offset + k] == value / Pow256(k) % 256
      ensures forall i :: 0 <= i < bytes.Length && !(offset <= i < offset + 8) ==> bytes[i] == old(bytes[i])
    {
      WriteSpells(bytes[..], offset, value);
      var source := ToLe(value, 8);
      forall i | 0 <= i < 8 {
        bytes[offset + i] := source[i];
      }
    }

    // One level: the table the entry at `offset` points to, allocated if there is none.
    method NextTable(ghost t0: Tree, ghost va: u64, ghost level: nat, ghost table: nat, offset: nat)
      returns (r: Result<nat, Status>)
      requires Consistent()
      requires level < 3 && Standing(t0, tree, granule, bytes.Length, va, level, table)
      requires offset == table + 8 * Index(granule, va, level) && offset + 8 <= bytes.Length
      modifies this`next, this`tree, bytes
      ensures Consistent()
      ensures r.Ok? ==> Standing(t0, tree, granule, bytes.Length, va, level + 1, r.value)
      ensures r.Err? ==> forall d: u64 :: MapTree(t0, granule, bytes.Length, va, d) == (Err(r.error), tree)
    {
      hide TableWalk.Represents, Grown, Standing, MapTree, Granules.Index, Granules.PathTo, Bits.And, Bits.Or;
      hide TableEntries.TableEntry, Bytes.WriteU64, Bytes.ReadU64, Bytes.Spells;
      ghost var n, g, b := level - StartLevel(granule) + 1, granule, bytes[..];
      StandingHasTable(t0, tree, g, |b|, va, level, table);
      var previous := Read(offset);
      EntryRead(tree, b, g, va, n, offset);
      if previous != 0 {
        StandingFollows(t0, tree, b, g, va, level, table);
        var table' := And(previous, 0x0000_ffff_ffff_f000) - TABLE_PA;
        return Ok(table');
      }
      r := FreshTable(t0, va, level, table, offset);
    }

    // Takes the next page of the pool and links it in the empty entry at `offset`.
    method FreshTable(ghost t0: Tree, ghost va: u64, ghost level: nat, ghost table: nat, offset: nat)
      returns (r: Result<nat, Status>)
      requires Consistent()
      requires level < 3 && Standing(t0, tree, granule, bytes.Length, va, level, table)
      requires offset == table + 8 * Index(granule, va, level) && offset + 8 <= bytes.Length
      requires PathTo(granule, va, level - StartLevel(granule) + 2) !in tree.pages
      modifies this`next, this`tree, bytes
      ensures Consistent()
      ensures r.Ok? ==> Standing(t0, tree, granule, bytes.Length, va, level + 1, r.value)
      ensures r.Err? ==> forall d: u64 :: MapTree(t0, granule, bytes.Length, va, d) == (Err(r.error), tree)
    {
      hide TableWalk.Represents, Grown, Standing, MapTree, Granules.Index, Granules.PathTo, Bits.Or;
      hide TableEntries.TableEntry, Bytes.WriteU64, Bytes.Spells;
      ghost var g, b := granule, bytes[..];
      RepresentsGranule(b, g, tree);
      var unused := PageOffset(granule, next);
      CapacityIsRoom(g, next, bytes.Length);
      if unused + granule > bytes.Length {
        forall d: u64 {
          StandingExhausted(t0, tree, b, g, va, level, table, d);
        }
        return Err(OutOfResources);
      }
      StandingAllocates(t0, tree, b, g, va, level, table);
      Write(offset, Or(TABLE_PA + unused, 3));
      next := next + 1;
      tree := AddTable(tree, PathTo(g, va, level - StartLevel(g) + 2), 0);
      return Ok(unused);
    }

    method Map(va: u64, descriptor: u64) returns (r: Result<Unit, Status>)
      requires Valid()
      modifies this, bytes
      ensures Valid()
      ensures calls == old(calls) + [Call(va, descriptor)]
      ensures r == Outcome(granule, bytes.Length, calls, |old(calls)|)
      ensures r.Ok? ==> LeafSpelled(bytes[..], granule, va, descriptor)
    {
      hide TableWalk.Represents, Grown, Standing, MapTree, Granules.Index, Granules.PathTo, Granules.Key;
      hide Bytes.WriteU64, Bits.Shr, Run, Outcome, TableWalk.LeafSpelled, Bytes.Spells;
      ghost var t0, g, length := tree, granule, bytes.Length;
      RepresentsGranule(bytes[..], g, tree);
      RunGrows(g, length, calls, Call(va, descriptor));
      calls := calls + [Call(va, descriptor)];
      var table: nat := if Shr(va, 63) == 0 then 0 else granule;
      StandingStarts(tree, bytes[..], g, va);
      for level := StartLevel(granule) to 4
        invariant Consistent() && level <= 3
        invariant calls == old(calls) + [Call(va, descriptor)]
        invariant Standing(t0, tree, g, length, va, level, table)
      {
        var offset := table + Index(granule, va, level) * 8;
        StandingInBuffer(t0, tree, bytes[..], g, va, level, table, descriptor);
        if offset + 8 > bytes.Length {
          return Err(BadBufferSize);
        }
        if level == 3 {
          StandingEnds(t0, tree, bytes[..], g, va, table, descriptor);
          Write(offset, descriptor);
          tree := SetLeaf(tree, Key(g, va), descriptor);
          WalkIsSpelled(bytes[..], g, tree, va);
          return Ok(Unit);
        }
        var next := NextTable(t0, va, level, table, offset);
        if next.Err? {
          return Err(next.error);
        }
        table := next.value;
      }
      r := Err(CompromisedData);
    }
  }

  lemma RunGrows(g: nat, length: nat, calls: seq<Call>, call: Call)
    requires IsGranule(g)
    ensures (Outcome(g, length, calls + [call], |calls|), Run(g, length, calls + [call]))
         == MapTree(Run(g, length, calls), g, length, call.va, call.descriptor)
  {
    assert (calls + [call])[..|calls|] == calls;
  }
}
