/** What holds of the page-table builder over any sequence of `Map` calls on a zeroed
    buffer, failed calls included: which translations exist, how many pages are used, and
    exactly when a call fails. */
module MmuRuns {
  import opened Uefi
  import opened Bits
  import opened Bytes
  import opened Granules
  import opened TableTrees
  import opened TableWalk
  import opened MmuTables

  // The descriptor of the last successful call whose address has key k, or 0.
  function LastMapped(g: nat, length: nat, calls: seq<Call>, k: Path): u64
    requires IsGranule(g)
  {
    if |calls| == 0 then 0
    else
      var n := |calls| - 1;
      if Outcome(g, length, calls, n).Ok? && Key(g, calls[n].va) == k then calls[n].descriptor
      else LastMapped(g, length, calls[..n], k)
  }

  // ----- one call, on trees

  lemma MapTreeLeaves(t: Tree, g: nat, length: nat, va: u64, descriptor: u64)
    requires IsGranule(g)
    ensures MapTree(t, g, length, va, descriptor).1.leaves
         == if MapTree(t, g, length, va, descriptor).0.Ok? then t.leaves[Key(g, va) := descriptor] else t.leaves
  {
    hide Granules.Index, Granules.PathTo, Granules.Key, Grow, Reached, Capacity, Depth;
    var r := Reached(t, g, va);
    GrowKeepsLeaves(t, g, va, r, Depth(g));
    if Missing(t, g, va) > Spare(t, g, length) {
      GrowKeepsLeaves(t, g, va, r, r + Spare(t, g, length));
    }
  }

  lemma MapTreePages(t: Tree, g: nat, length: nat, va: u64, descriptor: u64)
    requires IsGranule(g) && Shaped(g, t)
    ensures var (r, t') := MapTree(t, g, length, va, descriptor);
      && Shaped(g, t')
      && |t'.pages| == |t.pages| + (if r.Ok? then Missing(t, g, va)
                                    else if r.error == OutOfResources then Spare(t, g, length) else 0)
  {
    hide Granules.Index, Granules.PathTo, Granules.Key, TableTrees.PagesShaped, TableTrees.LeavesShaped;
    hide Grow, TablePaths, Reached;
    var r := Reached(t, g, va);
    NoneBeyondReach(t, g, va, Depth(g));
    AllocatedUpToReach(t, g, va, r);
    GrowAdds(t, g, va, r, Depth(g));
    GrowShaped(t, g, va, r, Depth(g));
    PathStep(g, va, Depth(g));
    SetLeafShaped(g, Grow(t, g, va, r, Depth(g)), PathTo(g, va, Depth(g)), Index(g, va, 3), descriptor);
    if Missing(t, g, va) > Spare(t, g, length) {
      var m := r + Spare(t, g, length);
      NoneBeyondReach(t, g, va, m);
      GrowAdds(t, g, va, r, m);
      GrowShaped(t, g, va, r, m);
    }
  }

  lemma {:induction false} RunShaped(g: nat, length: nat, calls: seq<Call>)
    requires IsGranule(g)
    ensures Shaped(g, Run(g, length, calls))
  {
    hide TableTrees.Shaped, MapTree;
    if |calls| == 0 {
      EmptyIsShaped(g);
    } else {
      var n := |calls| - 1;
      RunShaped(g, length, calls[..n]);
      MapTreePages(Run(g, length, calls[..n]), g, length, calls[n].va, calls[n].descriptor);
    }
  }

  // ----- translations

  lemma {:induction false} RunHoldsLastMapped(g: nat, length: nat, calls: seq<Call>, k: Path)
    requires IsGranule(g)
    ensures Lookup(Run(g, length, calls), k) == LastMapped(g, length, calls, k)
  {
    hide MapTree, Granules.Key;
    if |calls| > 0 {
      var n := |calls| - 1;
      RunHoldsLastMapped(g, length, calls[..n], k);
      MapTreeLeaves(Run(g, length, calls[..n]), g, length, calls[n].va, calls[n].descriptor);
    }
  }

  // After any run, walking the bytes from either root yields, for every address, the
  // descriptor last mapped under its key, and 0 where nothing was mapped.
  lemma EveryWalkIsLastMapped(b: seq<byte>, g: nat, calls: seq<Call>, va: u64)
    requires IsGranule(g) && Represents(b, g, Run(g, |b|, calls))
    ensures Descriptor(WalkVa(b, g, va)) == LastMapped(g, |b|, calls, Key(g, va))
  {
    hide TableWalk.Represents, WalkVa, Descriptor, LastMapped, Granules.Key;
    WalkIsLookup(b, g, Run(g, |b|, calls), va);
    RunHoldsLastMapped(g, |b|, calls, Key(g, va));
  }

  lemma {:induction false} SuccessesAreLeaves(g: nat, length: nat, calls: seq<Call>, i: nat)
    requires IsGranule(g) && i < |calls| && Outcome(g, length, calls, i).Ok?
    ensures Key(g, calls[i].va) in Run(g, length, calls).leaves
  {
    hide MapTree, Granules.Key;
    var n := |calls| - 1;
    MapTreeLeaves(Run(g, length, calls[..n]), g, length, calls[n].va, calls[n].descriptor);
    if i < n {
      assert calls[..n][..i] == calls[..i];
      SuccessesAreLeaves(g, length, calls[..n], i);
    }
  }

  // A mapped address is walked all the way to level 3, even when descriptor 0 was mapped.
  lemma MappedWalksEndAtLeaf(b: seq<byte>, g: nat, calls: seq<Call>, va: u64, i: nat)
    requires IsGranule(g) && Represents(b, g, Run(g, |b|, calls))
    requires i < |calls| && Outcome(g, |b|, calls, i).Ok? && Key(g, calls[i].va) == Key(g, va)
    ensures WalkVa(b, g, va).Leaf? && WalkVa(b, g, va).descriptor == LastMapped(g, |b|, calls, Key(g, va))
  {
    hide MapTree, WalkVa, LastMapped, Run, Outcome, Granules.Index;
    var t := Run(g, |b|, calls);
    EveryWalkIsLastMapped(b, g, calls, va);
    SuccessesAreLeaves(g, |b|, calls, i);
    WalkIsLookup(b, g, t, va);
    LeafKeyReaches(g, t, va);
  }

  lemma LeafKeyReaches(g: nat, t: Tree, va: u64)
    requires IsGranule(g) && Shaped(g, t) && Key(g, va) in t.leaves
    ensures ExpectedWalk(t, g, va, 1, 0).Leaf?
  {
    hide Granules.Index;
    PathStep(g, va, Depth(g));
    ReachesAll(g, t, va, 1);
  }

  // ----- the first call, in numbers

  // The tables of one path up to length hi, made one after the other.
  ghost predicate FirstTables(t: Tree, g: nat, va: u64, hi: nat)
    requires hi <= Depth(g)
  {
    && |t.pages| == hi + 1
    && (forall p | p in t.pages :: Length(p) <= hi)
    && (forall m :: 2 <= m <= hi ==> NthTable(t, g, va, m))
    && Top(0) in t.pages && t.pages[Top(0)] == 0 && Top(1) in t.pages && t.pages[Top(1)] == 1
    && t.attrs.Keys == t.pages.Keys && (forall p | p in t.attrs :: t.attrs[p] == 0)
  }

  predicate NthTable(t: Tree, g: nat, va: u64, m: nat)
    requires 1 <= m <= Depth(g)
  {
    PathTo(g, va, m) in t.pages && t.pages[PathTo(g, va, m)] == m
  }

  lemma FirstTablesNext(t: Tree, g: nat, va: u64, hi: nat)
    requires 2 <= hi <= Depth(g) && FirstTables(t, g, va, hi - 1)
    ensures FirstTables(AddTable(t, PathTo(g, va, hi), 0), g, va, hi)
  {
    hide Granules.PathTo;
    var p := PathTo(g, va, hi);
    PathLength(g, va, hi);
    MapGrows(t.pages, p, |t.pages|);
    forall m | 2 <= m <= hi ensures NthTable(AddTable(t, p, 0), g, va, m) {
      PathLength(g, va, m);
      assert m < hi ==> NthTable(t, g, va, m);
    }
  }

  lemma {:induction false} FirstPages(g: nat, va: u64, hi: nat)
    requires IsGranule(g) && 1 <= hi <= Depth(g)
    ensures FirstTables(Grow(EMPTY_TREE, g, va, 1, hi), g, va, hi)
    decreases hi
  {
    hide Granules.PathTo;
    if hi == 1 {
      EmptyIsShaped(g);
    } else {
      hide FirstTables, Grow;
      FirstPages(g, va, hi - 1);
      GrowNext(EMPTY_TREE, g, va, 1, hi);
      FirstTablesNext(Grow(EMPTY_TREE, g, va, 1, hi - 1), g, va, hi);
    }
  }

  // What the first successful call leaves in memory: page n holds the n-th table of the path
  // (a root first), each entry on the path is the next page's address with type bits 0b11, and
  // the last one is the descriptor, all of them lowest byte first.
  lemma FirstCallBytes(b: seq<byte>, g: nat, va: u64, descriptor: u64, n: nat)
    requires IsGranule(g) && Represents(b, g, Run(g, |b|, [Call(va, descriptor)]))
    requires Outcome(g, |b|, [Call(va, descriptor)], 0).Ok? && 1 <= n <= Depth(g)
    ensures var page := if n > 1 then n else if va < 0x8000_0000_0000_0000 then 0 else 1;
      Spells(b, page * g + 8 * Index(g, va, StartLevel(g) + n - 1),
             if n < Depth(g) then 0x3000_0003 + (n + 1) * g else descriptor)
  {
    hide TableWalk.Represents, Granules.Index, Granules.Key, Granules.PathTo, Spells, Grow, FirstTables, Run, Outcome;
    var t := Run(g, |b|, [Call(va, descriptor)]);
    FirstTree(g, |b|, va, descriptor);
    FirstPages(g, va, Depth(g));
    LeafAdded(Grow(EMPTY_TREE, g, va, 1, Depth(g)), g, va, descriptor);
    FirstEntry(b, g, va, t, n);
  }

  lemma LeafAdded(t: Tree, g: nat, va: u64, descriptor: u64)
    requires FirstTables(t, g, va, Depth(g))
    ensures FirstTables(SetLeaf(t, Key(g, va), descriptor), g, va, Depth(g))
    ensures Lookup(SetLeaf(t, Key(g, va), descriptor), Key(g, va)) == descriptor
  {
    hide Granules.Key, Granules.PathTo;
    forall m | 2 <= m <= Depth(g) ensures NthTable(SetLeaf(t, Key(g, va), descriptor), g, va, m) {
      assert NthTable(t, g, va, m);
    }
  }

  lemma FirstTree(g: nat, length: nat, va: u64, descriptor: u64)
    requires IsGranule(g) && Outcome(g, length, [Call(va, descriptor)], 0).Ok?
    ensures Run(g, length, [Call(va, descriptor)])
         == SetLeaf(Grow(EMPTY_TREE, g, va, 1, Depth(g)), Key(g, va), descriptor)
  {
    hide Granules.Index, Granules.Key, Grow;
    assert [Call(va, descriptor)][..0] == [];
    PathLength(g, va, 2);
    assert Reached(EMPTY_TREE, g, va) == 1;
  }

  lemma FirstEntry(b: seq<byte>, g: nat, va: u64, t: Tree, n: nat)
    requires Represents(b, g, t) && 1 <= n <= Depth(g) && FirstTables(t, g, va, Depth(g))
    ensures var page := if n > 1 then n else if va < 0x8000_0000_0000_0000 then 0 else 1;
      Spells(b, page * g + 8 * Index(g, va, StartLevel(g) + n - 1),
             if n < Depth(g) then 0x3000_0003 + (n + 1) * g else Lookup(t, Key(g, va)))
  {
    hide TableWalk.Represents, Granules.Index, Granules.PathTo, Granules.Key, Spells;
    var p, i := PathTo(g, va, n), Index(g, va, StartLevel(g) + n - 1);
    FirstPage(g, va, t, n);
    RepresentsGranule(b, g, t);
    PathStep(g, va, n);
    if n < Depth(g) {
      FirstPage(g, va, t, n + 1);
      assert t.attrs[Child(p, i)] == 0;
    }
    EntryFits(b, g, t, va, n);
    PathLength(g, va, n);
    EntriesSpelled(b, g, t, p, i);
  }

  lemma FirstPage(g: nat, va: u64, t: Tree, n: nat)
    requires 1 <= n <= Depth(g) && FirstTables(t, g, va, Depth(g))
    ensures PathTo(g, va, n) in t.pages && PathTo(g, va, n) in t.attrs
    ensures t.pages[PathTo(g, va, n)] == if n > 1 then n else if va < 0x8000_0000_0000_0000 then 0 else 1
  {
    hide Granules.PathTo;
    RootByHalf(g, va);
    assert n > 1 ==> NthTable(t, g, va, n);
  }

  lemma EntryFits(b: seq<byte>, g: nat, t: Tree, va: u64, n: nat)
    requires Represents(b, g, t) && 1 <= n <= Depth(g) && PathTo(g, va, n) in t.pages
    requires n < Depth(g) ==> PathTo(g, va, n + 1) in t.pages
    ensures t.pages[PathTo(g, va, n)] * g + 8 * Index(g, va, StartLevel(g) + n - 1) + 8 <= |b|
  {
    hide TableWalk.Represents, Granules.Index, Granules.PathTo, Bytes.ReadU64;
    RepresentsGranule(b, g, t);
    if n < Depth(g) {
      SlotHoldsTable(b, g, t, va, n);
    } else {
      SlotHoldsLeaf(b, g, t, va);
    }
  }

  lemma RootByHalf(g: nat, va: u64)
    ensures PathTo(g, va, 1) == Top(if va < 0x8000_0000_0000_0000 then 0 else 1)
  {
    hide Bits.Shr, Bits.Pow2;
    Pow2Values();
    ShrIsDivision(va, 63, 0x8000_0000_0000_0000);
  }

  // ----- page accounting

  // Every non-root table that some successful call needs.
  function Needed(g: nat, length: nat, calls: seq<Call>): set<Path>
    requires IsGranule(g)
  {
    if |calls| == 0 then {}
    else
      var n := |calls| - 1;
      Needed(g, length, calls[..n])
      + if Outcome(g, length, calls, n).Ok? then TablePaths(g, calls[n].va, 1, Depth(g)) else {}
  }

  predicate RanOut(g: nat, length: nat, calls: seq<Call>)
    requires IsGranule(g)
  {
    exists i :: 0 <= i < |calls| && Outcome(g, length, calls, i) == Err(OutOfResources)
  }

  lemma {:induction false} TablePathsCount(g: nat, va: u64, lo: nat, hi: nat)
    requires 1 <= lo <= hi <= Depth(g)
    ensures |TablePaths(g, va, lo, hi)| == hi - lo
    decreases hi
  {
    hide Granules.PathTo;
    if lo < hi {
      TablePathsCount(g, va, lo, hi - 1);
      PathLength(g, va, hi);
      TablePathsMembers(g, va, lo, hi - 1, PathTo(g, va, hi));
    }
  }

  lemma {:induction false} TablePathsSplit(g: nat, va: u64, lo: nat, mid: nat, hi: nat)
    requires 1 <= lo <= mid <= hi <= Depth(g)
    ensures TablePaths(g, va, lo, hi) == TablePaths(g, va, lo, mid) + TablePaths(g, va, mid, hi)
    decreases hi
  {
    hide Granules.PathTo;
    if mid < hi {
      TablePathsSplit(g, va, lo, mid, hi - 1);
    }
  }

  lemma ReachedPaths(t: Tree, g: nat, va: u64)
    requires PagesShaped(g, t.pages)
    ensures TablePaths(g, va, 1, Reached(t, g, va)) <= t.pages.Keys
  {
    hide Granules.PathTo, TableTrees.PagesShaped;
    forall p | p in TablePaths(g, va, 1, Reached(t, g, va)) ensures p in t.pages {
      TablePathsMembers(g, va, 1, Reached(t, g, va), p);
      AllocatedUpToReach(t, g, va, Length(p));
    }
  }

  // The pages a call asks for are the tables on its path that do not exist yet.
  lemma MissingIsCount(t: Tree, g: nat, va: u64)
    requires PagesShaped(g, t.pages)
    ensures TablePaths(g, va, 1, Depth(g)) - t.pages.Keys == TablePaths(g, va, Reached(t, g, va), Depth(g))
    ensures Missing(t, g, va) == |TablePaths(g, va, 1, Depth(g)) - t.pages.Keys|
  {
    hide Granules.PathTo, TableTrees.PagesShaped;
    var r := Reached(t, g, va);
    TablePathsSplit(g, va, 1, r, Depth(g));
    ReachedPaths(t, g, va);
    NoneBeyondReach(t, g, va, Depth(g));
    TablePathsCount(g, va, r, Depth(g));
  }

  lemma Absorb<T>(all: set<T>, part: set<T>, more: set<T>)
    requires part <= all
    ensures all + more == all + (part + more)
  {
  }

  lemma GrowKeys(t: Tree, g: nat, va: u64, lo: nat, hi: nat)
    requires 1 <= lo <= hi <= Depth(g)
    ensures Grow(t, g, va, lo, hi).pages.Keys == t.pages.Keys + TablePaths(g, va, lo, hi)
  {
    hide Grow, TablePaths, Granules.PathTo;
    forall p ensures p in Grow(t, g, va, lo, hi).pages <==> p in t.pages || p in TablePaths(g, va, lo, hi) {
      GrowMembers(t, g, va, lo, hi, p);
    }
  }

  lemma SuccessKeys(t: Tree, g: nat, length: nat, va: u64, descriptor: u64)
    requires IsGranule(g) && PagesShaped(g, t.pages)
    requires MapTree(t, g, length, va, descriptor).0.Ok?
    ensures MapTree(t, g, length, va, descriptor).1.pages.Keys == t.pages.Keys + TablePaths(g, va, 1, Depth(g))
  {
    hide Granules.PathTo, Granules.Index, Granules.Key, TableTrees.PagesShaped, Grow, TablePaths;
    var r := Reached(t, g, va);
    TablePathsSplit(g, va, 1, r, Depth(g));
    ReachedPaths(t, g, va);
    GrowKeys(t, g, va, r, Depth(g));
    Absorb(t.pages.Keys, TablePaths(g, va, 1, r), TablePaths(g, va, r, Depth(g)));
  }

  lemma FailureKeys(t: Tree, g: nat, length: nat, va: u64, descriptor: u64)
    requires IsGranule(g)
    requires MapTree(t, g, length, va, descriptor).0.Err?
    ensures t.pages.Keys <= MapTree(t, g, length, va, descriptor).1.pages.Keys
    ensures MapTree(t, g, length, va, descriptor).0 == Err(BadBufferSize) ==>
      MapTree(t, g, length, va, descriptor).1 == t
  {
    hide Granules.PathTo, Granules.Index, Granules.Key, Grow, TablePaths;
    var r := Reached(t, g, va);
    if RootEntryEnd(g, va) <= length {
      GrowKeys(t, g, va, r, r + Spare(t, g, length));
    }
  }

  const ROOTS: set<Path> := {Top(0), Top(1)}

  // As long as no call has run out of pages, `next` is 2 plus the number of distinct
  // intermediate tables the mapped addresses need. Once one has, the pool stays empty.
  lemma {:induction false} PageAccounting(g: nat, length: nat, calls: seq<Call>)
    requires IsGranule(g)
    ensures ROOTS + Needed(g, length, calls) <= Run(g, length, calls).pages.Keys
    ensures !RanOut(g, length, calls) ==>
      && Run(g, length, calls).pages.Keys == ROOTS + Needed(g, length, calls)
      && |Run(g, length, calls).pages| == 2 + |Needed(g, length, calls)|
    ensures RanOut(g, length, calls) ==> |Run(g, length, calls).pages| >= Capacity(g, length)
  {
    hide MapTree, Granules.PathTo, TablePaths, TableTrees.Shaped;
    if |calls| == 0 {
      assert EMPTY_TREE.pages.Keys == ROOTS;
    } else {
      var n := |calls| - 1;
      var before, call := calls[..n], calls[n];
      PageAccounting(g, length, before);
      OutcomesOfPrefix(g, length, calls);
      RunShaped(g, length, before);
      StepAccounting(Run(g, length, before), g, length, call.va, call.descriptor);
    }
    NeededHasNoRoot(g, length, calls);
    SizeIsKeys(Run(g, length, calls).pages);
    DisjointSize(ROOTS, Needed(g, length, calls));
  }

  lemma DisjointSize<T>(a: set<T>, b: set<T>)
    requires a !! b
    ensures |a + b| == |a| + |b|
  {
  }

  lemma SizeIsKeys<K, V>(m: map<K, V>)
    ensures |m| == |m.Keys|
  {
  }

  lemma StepAccounting(t: Tree, g: nat, length: nat, va: u64, descriptor: u64)
    requires IsGranule(g) && Shaped(g, t)
    ensures var (r, t') := MapTree(t, g, length, va, descriptor);
      && t.pages.Keys <= t'.pages.Keys
      && |t.pages| <= |t'.pages|
      && (r.Ok? ==> t'.pages.Keys == t.pages.Keys + TablePaths(g, va, 1, Depth(g)))
      && (r == Err(BadBufferSize) ==> t' == t)
      && (r == Err(OutOfResources) ==> |t'.pages| >= Capacity(g, length))
      && (r.Ok? || r == Err(BadBufferSize) || r == Err(OutOfResources))
  {
    hide Granules.PathTo, Granules.Index, Granules.Key, TableTrees.PagesShaped, Grow;
    if MapTree(t, g, length, va, descriptor).0.Ok? {
      SuccessKeys(t, g, length, va, descriptor);
    } else {
      FailureKeys(t, g, length, va, descriptor);
    }
    MapTreePages(t, g, length, va, descriptor);
  }

  lemma OutcomesOfPrefix(g: nat, length: nat, calls: seq<Call>)
    requires IsGranule(g) && |calls| > 0
    ensures RanOut(g, length, calls)
       <==> RanOut(g, length, calls[..|calls| - 1]) || Outcome(g, length, calls, |calls| - 1) == Err(OutOfResources)
  {
    hide MapTree, Run;
    var n := |calls| - 1;
    forall i | 0 <= i < n ensures Outcome(g, length, calls, i) == Outcome(g, length, calls[..n], i) {
      assert calls[..n][..i] == calls[..i];
    }
  }

  lemma {:induction false} NeededHasNoRoot(g: nat, length: nat, calls: seq<Call>)
    requires IsGranule(g)
    ensures ROOTS !! Needed(g, length, calls)
  {
    hide MapTree, Granules.PathTo;
    if |calls| > 0 {
      var n := |calls| - 1;
      NeededHasNoRoot(g, length, calls[..n]);
      TablePathsMembers(g, calls[n].va, 1, Depth(g), Top(0));
      TablePathsMembers(g, calls[n].va, 1, Depth(g), Top(1));
    }
  }

  // ----- when a call fails

  // A call runs out of pages exactly when the tables it lacks outnumber the pages left;
  // a root entry past the end of the buffer is the only other failure.
  lemma MapFails(g: nat, length: nat, calls: seq<Call>, va: u64, descriptor: u64)
    requires IsGranule(g)
    ensures var t := Run(g, length, calls);
      var r := Outcome(g, length, calls + [Call(va, descriptor)], |calls|);
      var lacking := TablePaths(g, va, 1, Depth(g)) - t.pages.Keys;
      && (r == Err(BadBufferSize) <==> RootEntryEnd(g, va) > length)
      && (r == Err(OutOfResources) <==>
            RootEntryEnd(g, va) <= length && lacking != {} && |t.pages| + |lacking| > Capacity(g, length))
      && (r.Ok? || r == Err(BadBufferSize) || r == Err(OutOfResources))
  {
    hide Run, Granules.PathTo, Granules.Index, Granules.Key, TableTrees.PagesShaped, TablePaths, Grow;
    RunGrows(g, length, calls, Call(va, descriptor));
    RunShaped(g, length, calls);
    MissingIsCount(Run(g, length, calls), g, va);
  }

  // Two whole pages are enough for both roots.
  lemma RootsFit(g: nat, length: nat, va: u64)
    requires IsGranule(g) && length >= 2 * g
    ensures RootEntryEnd(g, va) <= length
  {
    hide Granules.Index;
    IndexIsRemainder(g, va, StartLevel(g));
  }
}
