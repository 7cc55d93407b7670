/** The hierarchical builder over any sequence of calls. Apart from the attribute bits it does
    just what the plain builder does, so that translations, pages in use and failures are the
    plain builder's. */
module HierarchyRuns {
  import opened Uefi
  import opened Bits
  import opened Bytes
  import opened Granules
  import opened TableTrees
  import opened TableWalk
  import opened HierarchyTables
  import MmuTables
  import MmuRuns

  // ----- without the marks

  // The same calls, made to the plain builder.
  function Plain(requests: seq<Request>): (calls: seq<MmuTables.Call>)
    ensures |calls| == |requests|
  {
    seq(|requests|, i requires 0 <= i < |requests| => MmuTables.Call(requests[i].va, requests[i].leaf))
  }

  // The same tables in the same pages, and the same leaves.
  predicate SameTables(h: Tree, t: Tree) {
    h.pages == t.pages && h.leaves == t.leaves
  }

  // Both succeed, or both fail with the same status.
  predicate SameOutcome(r: Result<nat, Status>, s: Result<Unit, Status>) {
    if r.Ok? then s.Ok? else s == Err(r.error)
  }

  lemma DescendFollows(t: Tree, g: nat, length: nat, q: Request, n: nat, attrs: nat)
    requires IsGranule(g) && AttrsShaped(t) && 1 <= n < Depth(g) && PathTo(g, q.va, n) in t.pages
    requires PathTo(g, q.va, n + 1) in t.pages
    requires attrs == Or(t.attrs[PathTo(g, q.va, n + 1)], Mark(g, q, StartLevel(g) + n - 1))
    ensures var t' := SetAttributes(t, PathTo(g, q.va, n + 1), attrs);
      AttrsShaped(t') && Descend(t, g, length, q, n) == Descend(t', g, length, q, n + 1)
  {
    hide Granules.Index, Granules.PathTo, Granules.Key, Mark, Bits.Or, Capacity;
    MarkFits(g, q, StartLevel(g) + n - 1);
    OrFits(t.attrs[PathTo(g, q.va, n + 1)], Mark(g, q, StartLevel(g) + n - 1));
  }

  lemma DescendAllocates(t: Tree, g: nat, length: nat, q: Request, n: nat)
    requires IsGranule(g) && AttrsShaped(t) && 1 <= n < Depth(g) && PathTo(g, q.va, n) in t.pages
    requires PathTo(g, q.va, n + 1) !in t.pages && |t.pages| < Capacity(g, length)
    ensures var t' := AddTable(t, PathTo(g, q.va, n + 1), Mark(g, q, StartLevel(g) + n - 1));
      AttrsShaped(t') && Descend(t, g, length, q, n) == Descend(t', g, length, q, n + 1)
  {
    hide Granules.Index, Granules.PathTo, Granules.Key, Mark, Bits.Or, Capacity;
    MarkFits(g, q, StartLevel(g) + n - 1);
  }

  lemma DescendFails(t: Tree, g: nat, length: nat, q: Request, n: nat)
    requires IsGranule(g) && AttrsShaped(t) && 1 <= n < Depth(g) && PathTo(g, q.va, n) in t.pages
    requires PathTo(g, q.va, n + 1) !in t.pages && |t.pages| >= Capacity(g, length)
    ensures Descend(t, g, length, q, n) == (Err(OutOfResources), t)
  {
    hide Granules.Index, Granules.PathTo, Granules.Key, Mark, Bits.Or, Capacity;
  }

  lemma DescendEnds(t: Tree, g: nat, length: nat, q: Request)
    requires IsGranule(g) && AttrsShaped(t) && PathTo(g, q.va, Depth(g)) in t.pages
    ensures Descend(t, g, length, q, Depth(g)).0.Ok?
    ensures Descend(t, g, length, q, Depth(g)).1 == SetLeaf(t, Key(g, q.va), q.leaf)
  {
    hide Granules.Index, Granules.PathTo, Granules.Key, Mark, Bits.Or, TableEntries.PageAddress;
    hide Capacity, SetAttributes, AddTable;
  }

  lemma HasAttrs(t: Tree, p: Path)
    requires AttrsShaped(t) && p in t.pages
    ensures p in t.attrs
  {
  }

  // From the n-th table on, the marking descent does to h what is left of a plain call on t0.
  lemma {:induction false} DescendAlike(t0: Tree, t: Tree, h: Tree, g: nat, length: nat, q: Request, n: nat)
    requires MmuTables.Grown(t0, t, g, length, q.va, n) && RootEntryEnd(g, q.va) <= length
    requires AttrsShaped(h) && SameTables(h, t)
    ensures IsGranule(g) && 1 <= n <= Depth(g) && PathTo(g, q.va, n) in h.pages
    ensures var (r, h'), (s, t') := Descend(h, g, length, q, n), MmuTables.MapTree(t0, g, length, q.va, q.leaf);
      SameOutcome(r, s) && SameTables(h', t')
    decreases Depth(g) - n
  {
    hide MmuTables.MapTree, MmuTables.Grown, Mark, Granules.Index, Granules.PathTo, Granules.Key, Bits.Or, Capacity;
    hide Descend, AttrsShaped, TableWalk.RootEntryEnd;
    MmuTables.GrownHasTable(t0, t, g, length, q.va, n);
    if n == Depth(g) {
      MmuTables.DescentEnds(t0, t, g, length, q.va, q.leaf);
      DescendEnds(h, g, length, q);
    } else {
      var c := PathTo(g, q.va, n + 1);
      if c in t.pages {
        assert c in h.attrs by { HasAttrs(h, c); }
        var attrs := Or(h.attrs[c], Mark(g, q, StartLevel(g) + n - 1));
        DescendFollows(h, g, length, q, n, attrs);
        MmuTables.GrownFollows(t0, t, g, length, q.va, n);
        DescendAlike(t0, t, SetAttributes(h, c, attrs), g, length, q, n + 1);
      } else if |t.pages| < Capacity(g, length) {
        DescendAllocates(h, g, length, q, n);
        MmuTables.GrownAllocates(t0, t, g, length, q.va, n);
        DescendAlike(t0, AddTable(t, c, 0), AddTable(h, c, Mark(g, q, StartLevel(g) + n - 1)), g, length, q, n + 1);
      } else {
        DescendFails(h, g, length, q, n);
        MmuTables.PoolExhausted(t0, t, g, length, q.va, n, q.leaf);
      }
    }
  }

  lemma GrownFromRoot(t: Tree, g: nat, length: nat, va: u64)
    requires IsGranule(g) && PagesShaped(g, t.pages)
    ensures MmuTables.Grown(t, t, g, length, va, 1)
  {
    assert PathTo(g, va, 1) == Top(Root(va));
  }

  // One call.
  lemma MapAlike(h: Tree, t: Tree, g: nat, length: nat, q: Request)
    requires IsGranule(g) && Shaped(g, h) && SameTables(h, t)
    ensures var (r, h'), (s, t') := MapTree(h, g, length, q), MmuTables.MapTree(t, g, length, q.va, q.leaf);
      SameOutcome(r, s) && SameTables(h', t')
  {
    hide MmuTables.Grown, MmuTables.MapTree, Descend, TableTrees.PagesShaped, TableTrees.LeavesShaped;
    hide TableWalk.RootEntryEnd;
    GrownFromRoot(t, g, length, q.va);
    if RootEntryEnd(g, q.va) <= length {
      DescendAlike(t, t, h, g, length, q, 1);
      assert PathTo(g, q.va, 1) == Top(Root(q.va));
    } else {
      MmuTables.OutOfRange(t, t, g, length, q.va, q.leaf);
    }
  }

  // Any number of calls, failed ones included: marks change no table, no leaf, no outcome.
  lemma {:induction false} RunsAlike(g: nat, length: nat, requests: seq<Request>)
    requires IsGranule(g)
    ensures SameTables(Run(g, length, requests), MmuTables.Run(g, length, Plain(requests)))
    ensures forall i: nat | i < |requests| ::
      SameOutcome(Outcome(g, length, requests, i), MmuTables.Outcome(g, length, Plain(requests), i))
  {
    hide Run, Outcome, MmuTables.Run, MmuTables.Outcome, SameTables, SameOutcome, TableTrees.Shaped;
    hide MapTree, MmuTables.MapTree;
    if |requests| == 0 {
      BothEmpty(g, length);
    } else {
      var n := |requests| - 1;
      var before, q := requests[..n], requests[n];
      var call := MmuTables.Call(q.va, q.leaf);
      assert requests == before + [q] && Plain(requests) == Plain(before) + [call];
      RunsAlike(g, length, before);
      RunGrows(g, length, before, q);
      MmuTables.RunGrows(g, length, Plain(before), call);
      MapAlike(Run(g, length, before), MmuTables.Run(g, length, Plain(before)), g, length, q);
      forall i: nat | i < n
        ensures SameOutcome(Outcome(g, length, requests, i), MmuTables.Outcome(g, length, Plain(requests), i))
      {
        assert SameOutcome(Outcome(g, length, before, i), MmuTables.Outcome(g, length, Plain(before), i));
        OutcomesStand(g, length, requests, n, i);
      }
    }
  }

  lemma OutcomesStand(g: nat, length: nat, requests: seq<Request>, n: nat, i: nat)
    requires IsGranule(g) && i < n <= |requests|
    ensures Outcome(g, length, requests[..n], i) == Outcome(g, length, requests, i)
    ensures MmuTables.Outcome(g, length, Plain(requests[..n]), i) == MmuTables.Outcome(g, length, Plain(requests), i)
  {
    hide Run, MmuTables.Run, MapTree, MmuTables.MapTree;
    assert requests[..n][..i] == requests[..i];
    assert Plain(requests[..n])[..i] == Plain(requests)[..i];
  }

  lemma BothEmpty(g: nat, length: nat)
    requires IsGranule(g)
    ensures SameTables(Run(g, length, []), MmuTables.Run(g, length, []))
  {
  }

  // ----- translations

  // The leaf of the last successful request whose address has key k, or 0.
  function LastLeaf(g: nat, length: nat, requests: seq<Request>, k: Path): u64
    requires IsGranule(g)
  {
    if |requests| == 0 then 0
    else
      var n := |requests| - 1;
      if Outcome(g, length, requests, n).Ok? && Key(g, requests[n].va) == k then requests[n].leaf
      else LastLeaf(g, length, requests[..n], k)
  }

  lemma {:induction false} RunHoldsLastLeaf(g: nat, length: nat, requests: seq<Request>, k: Path)
    requires IsGranule(g)
    ensures Lookup(Run(g, length, requests), k) == LastLeaf(g, length, requests, k)
  {
    hide MapTree, MmuTables.MapTree, Granules.Key, TableTrees.PagesShaped, TableTrees.LeavesShaped;
    if |requests| > 0 {
      var n := |requests| - 1;
      var t, q := Run(g, length, requests[..n]), requests[n];
      RunHoldsLastLeaf(g, length, requests[..n], k);
      MapAlike(t, t, g, length, q);
      MmuRuns.MapTreeLeaves(t, g, length, q.va, q.leaf);
    }
  }

  // After any run, walking the bytes from either root yields, for every address, the leaf
  // last mapped under its key, and 0 where nothing was mapped.
  lemma EveryWalkIsLastLeaf(b: seq<byte>, g: nat, requests: seq<Request>, va: u64)
    requires IsGranule(g) && Represents(b, g, Run(g, |b|, requests))
    ensures Descriptor(WalkVa(b, g, va)) == LastLeaf(g, |b|, requests, Key(g, va))
  {
    hide TableWalk.Represents, WalkVa, Descriptor, LastLeaf, Run, Granules.Key;
    WalkIsLookup(b, g, Run(g, |b|, requests), va);
    RunHoldsLastLeaf(g, |b|, requests, Key(g, va));
  }

  // No successful request after the n-th has the key k.
  ghost predicate NotRemapped(g: nat, length: nat, requests: seq<Request>, n: nat, k: Path)
    requires IsGranule(g)
  {
    forall i: nat | n <= i < |requests| && Outcome(g, length, requests, i).Ok? :: Key(g, requests[i].va) != k
  }

  lemma {:induction false} LeafStays(g: nat, length: nat, requests: seq<Request>, n: nat, k: Path)
    requires IsGranule(g) && n <= |requests| && NotRemapped(g, length, requests, n, k)
    ensures LastLeaf(g, length, requests, k) == LastLeaf(g, length, requests[..n], k)
    decreases |requests|
  {
    hide Run, MapTree, Granules.Key;
    if n == |requests| {
      assert requests[..n] == requests;
    } else {
      var before := requests[..|requests| - 1];
      assert before[..n] == requests[..n];
      forall i: nat | n <= i < |before| && Outcome(g, length, before, i).Ok? ensures Key(g, before[i].va) != k {
        assert before[..i] == requests[..i];
        assert Outcome(g, length, requests, i).Ok?;
      }
      LeafStays(g, length, before, n, k);
    }
  }

  // ----- pages and failures

  // A call runs out of pages exactly when the tables it lacks outnumber the pages left;
  // a root entry past the end of the buffer is the only other failure.
  lemma CallFails(g: nat, length: nat, requests: seq<Request>, q: Request)
    requires IsGranule(g)
    ensures var t := Run(g, length, requests);
      var r := Outcome(g, length, requests + [q], |requests|);
      var lacking := MmuTables.TablePaths(g, q.va, 1, Depth(g)) - t.pages.Keys;
      && (r == Err(BadBufferSize) <==> RootEntryEnd(g, q.va) > length)
      && (r == Err(OutOfResources) <==>
            RootEntryEnd(g, q.va) <= length && lacking != {} && |t.pages| + |lacking| > Capacity(g, length))
      && (r.Ok? || r == Err(BadBufferSize) || r == Err(OutOfResources))
  {
    hide Run, Outcome, MmuTables.Run, MmuTables.Outcome, MmuTables.TablePaths, Capacity, TableWalk.RootEntryEnd;
    var calls, call := Plain(requests), MmuTables.Call(q.va, q.leaf);
    RunsAlike(g, length, requests);
    RunsAlike(g, length, requests + [q]);
    assert Plain(requests + [q]) == calls + [call];
    MmuRuns.MapFails(g, length, calls, q.va, q.leaf);
    assert SameOutcome(Outcome(g, length, requests + [q], |requests|),
                       MmuTables.Outcome(g, length, calls + [call], |requests|));
  }

  // While no call has run out of pages, the pages in use are the two roots and one for each
  // distinct table the mapped addresses need.
  lemma PagesInUse(g: nat, length: nat, requests: seq<Request>)
    requires IsGranule(g)
    ensures (forall i: nat | i < |requests| :: Outcome(g, length, requests, i) != Err(OutOfResources)) ==>
      |Run(g, length, requests).pages| == 2 + |MmuRuns.Needed(g, length, Plain(requests))|
  {
    hide Run, Outcome, MmuTables.Run, MmuTables.Outcome, MmuRuns.Needed;
    RunsAlike(g, length, requests);
    MmuRuns.PageAccounting(g, length, Plain(requests));
    if i: nat :| i < |requests| && MmuTables.Outcome(g, length, Plain(requests), i) == Err(OutOfResources) {
      assert SameOutcome(Outcome(g, length, requests, i), MmuTables.Outcome(g, length, Plain(requests), i));
    }
  }
}
