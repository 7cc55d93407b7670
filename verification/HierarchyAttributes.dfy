/** What the hierarchical builder's marks do to the attributes walks collect: what one call
    adds to its own walk and to others that share its tables, and how runs accumulate it. */
module HierarchyAttributes {
  import opened Uefi
  import opened Bits
  import opened Bytes
  import opened Granules
  import opened TableEntries
  import opened TableTrees
  import opened TableWalk
  import opened HierarchyTables

  // ----- attributes along a path

  lemma OrSwap(a: nat, b: nat, c: nat)
    ensures Or(Or(a, b), c) == Or(Or(a, c), b)
  {
    OrAssociates(a, b, c);
    OrCommutes(b, c);
    OrAssociates(a, c, b);
  }

  lemma {:induction false} InheritedFrom(t: Tree, g: nat, va: u64, n: nat, a: nat, x: nat)
    requires 1 <= n <= Depth(g)
    ensures Inherited(t, g, va, n, Or(a, x)) == Or(Inherited(t, g, va, n, a), x)
    decreases Depth(g) - n
  {
    hide Granules.PathTo, Bits.Or;
    if n < Depth(g) && PathTo(g, va, n + 1) in t.attrs {
      var m := t.attrs[PathTo(g, va, n + 1)];
      OrSwap(a, x, m);
      InheritedFrom(t, g, va, n + 1, Or(a, m), x);
    }
  }

  // Peeling off the first table below the n-th.
  lemma InheritedPeel(t: Tree, g: nat, va: u64, n: nat)
    requires 1 <= n < Depth(g) && PathTo(g, va, n + 1) in t.attrs
    ensures Inherited(t, g, va, n, 0) == Or(Inherited(t, g, va, n + 1, 0), t.attrs[PathTo(g, va, n + 1)])
  {
    hide Granules.PathTo;
    InheritedFrom(t, g, va, n + 1, 0, t.attrs[PathTo(g, va, n + 1)]);
  }

  // Trees that agree below the n-th table collect the same attributes there.
  lemma {:induction false} InheritedAgrees(t: Tree, t': Tree, g: nat, va: u64, n: nat, acc: nat)
    requires 1 <= n <= Depth(g)
    requires forall p :: Length(p) > n ==> (p in t.attrs <==> p in t'.attrs)
    requires forall p :: Length(p) > n && p in t.attrs ==> p in t'.attrs && t.attrs[p] == t'.attrs[p]
    ensures Inherited(t, g, va, n, acc) == Inherited(t', g, va, n, acc)
    decreases Depth(g) - n
  {
    if n < Depth(g) {
      PathLength(g, va, n + 1);
      if PathTo(g, va, n + 1) in t.attrs {
        InheritedAgrees(t, t', g, va, n + 1, Or(acc, t.attrs[PathTo(g, va, n + 1)]));
      }
    }
  }

  // ----- the marks of one call

  // The union of the marks left below the n-th table.
  function MarksFrom(g: nat, q: Request, n: nat): nat
    requires 1 <= n <= Depth(g)
    decreases Depth(g) - n
  {
    if n == Depth(g) then 0 else Or(MarksFrom(g, q, n + 1), Mark(g, q, StartLevel(g) + n - 1))
  }

  // Whatever `choice` is, both fields are placed somewhere on the path.
  lemma MarksCoverBoth(g: nat, q: Request)
    requires IsGranule(g)
    ensures MarksFrom(g, q, 1) == Or(ApBits(q), XnBits(q))
  {
    var a, x, s := ApBits(q), XnBits(q), StartLevel(g);
    assert MarksFrom(g, q, Depth(g)) == 0;
    assert MarksFrom(g, q, Depth(g) - 1) == Mark(g, q, 2);
    assert MarksFrom(g, q, Depth(g) - 2) == Or(Mark(g, q, 2), Mark(g, q, 1));
    assert g == 4096 ==> MarksFrom(g, q, 1) == Or(Or(Mark(g, q, 2), Mark(g, q, 1)), Mark(g, q, 0));
    OrCommutes(a, x);
  }

  // ----- one call

  // A call leaves alone every table not below the n-th on its own path.
  lemma {:induction false} DescendKeeps(t: Tree, g: nat, length: nat, q: Request, n: nat, p: Path)
    requires IsGranule(g) && AttrsShaped(t) && 1 <= n <= Depth(g) && PathTo(g, q.va, n) in t.pages
    requires p in t.pages && Length(p) <= n
    ensures var t' := Descend(t, g, length, q, n).1; p in t'.attrs && t'.attrs[p] == t.attrs[p]
    decreases Depth(g) - n
  {
    hide Mark, Granules.Index, Granules.PathTo, Granules.Key, Bits.Or, Capacity, TableEntries.PageAddress;
    if n < Depth(g) {
      var c, mark := PathTo(g, q.va, n + 1), Mark(g, q, StartLevel(g) + n - 1);
      PathLength(g, q.va, n + 1);
      MarkFits(g, q, StartLevel(g) + n - 1);
      if c in t.pages {
        OrFits(t.attrs[c], mark);
        DescendKeeps(SetAttributes(t, c, Or(t.attrs[c], mark)), g, length, q, n + 1, p);
      } else if |t.pages| < Capacity(g, length) {
        DescendKeeps(AddTable(t, c, mark), g, length, q, n + 1, p);
      }
    }
  }

  lemma OrRearranged(x: nat, m: nat, a: nat, k: nat)
    ensures Or(Or(x, m), Or(a, k)) == Or(Or(x, a), Or(m, k))
  {
    OrAssociates(Or(x, m), a, k);
    OrSwap(x, m, a);
    OrAssociates(Or(x, a), m, k);
  }

  // The first table below the n-th after the call has been there.
  function Marked(t: Tree, g: nat, q: Request, n: nat): Tree
    requires AttrsShaped(t) && 1 <= n < Depth(g)
  {
    var c, mark := PathTo(g, q.va, n + 1), Mark(g, q, StartLevel(g) + n - 1);
    if c in t.pages then SetAttributes(t, c, Or(t.attrs[c], mark)) else AddTable(t, c, mark)
  }

  lemma InheritedBelowMarked(t: Tree, g: nat, q: Request, n: nat)
    requires IsGranule(g) && Shaped(g, t) && 1 <= n < Depth(g)
    ensures Inherited(Marked(t, g, q, n), g, q.va, n + 1, 0)
         == if PathTo(g, q.va, n + 1) in t.pages then Inherited(t, g, q.va, n + 1, 0) else 0
  {
    hide Mark, Granules.Index, Bits.Or, TableTrees.LeavesShaped;
    var c := PathTo(g, q.va, n + 1);
    if c in t.pages {
      MarkedBelow(t, g, q.va, n, Or(t.attrs[c], Mark(g, q, StartLevel(g) + n - 1)));
    } else if n + 1 < Depth(g) {
      assert PathTo(g, q.va, n + 2) == Child(c, Index(g, q.va, StartLevel(g) + n));
    }
  }

  // A successful call adds exactly its marks to what the walk collects.
  lemma {:induction false} DescendCollects(t: Tree, g: nat, length: nat, q: Request, n: nat)
    requires IsGranule(g) && Shaped(g, t) && 1 <= n <= Depth(g) && PathTo(g, q.va, n) in t.pages
    requires Descend(t, g, length, q, n).0.Ok?
    ensures Inherited(Descend(t, g, length, q, n).1, g, q.va, n, 0)
         == Or(Inherited(t, g, q.va, n, 0), MarksFrom(g, q, n))
    decreases Depth(g) - n
  {
    hide Mark, Granules.Index, Granules.PathTo, Granules.Key, Bits.Or, TableTrees.PagesShaped, TableTrees.LeavesShaped;
    if n == Depth(g) {
      OrZero(Inherited(t, g, q.va, n, 0));
    } else {
      var c, mark := PathTo(g, q.va, n + 1), Mark(g, q, StartLevel(g) + n - 1);
      DescendOnce(t, g, q, n);
      var t1 := Marked(t, g, q, n);
      var t2 := Descend(t1, g, length, q, n + 1).1;
      PathLength(g, q.va, n + 1);
      DescendKeeps(t1, g, length, q, n + 1, c);
      DescendCollects(t1, g, length, q, n + 1);
      InheritedBelowMarked(t, g, q, n);
      InheritedPeel(t2, g, q.va, n);
      var x, m := Inherited(t, g, q.va, n + 1, 0), MarksFrom(g, q, n + 1);
      if c in t.pages {
        InheritedPeel(t, g, q.va, n);
        OrRearranged(x, m, t.attrs[c], mark);
      } else {
        OrZero(m);
        OrZero(Or(m, mark));
      }
    }
  }

  // ----- what one call does to another address

  // The union of the call's marks on the tables below the n-th that both paths pass.
  function SharedFrom(g: nat, q: Request, va: u64, n: nat): nat
    requires 1 <= n <= Depth(g)
    decreases Depth(g) - n
  {
    if n == Depth(g) || PathTo(g, va, n + 1) != PathTo(g, q.va, n + 1) then 0
    else Or(SharedFrom(g, q, va, n + 1), Mark(g, q, StartLevel(g) + n - 1))
  }

  // The union of the call's marks on every table it shares with va.
  function SharedMarks(g: nat, q: Request, va: u64): nat
    requires IsGranule(g)
  {
    if Root(va) == Root(q.va) then SharedFrom(g, q, va, 1) else 0
  }

  // Paths that have parted never meet again.
  lemma {:induction false} PathsPart(g: nat, va: u64, va': u64, k: nat, m: nat)
    requires 1 <= k <= m <= Depth(g) && PathTo(g, va, k) != PathTo(g, va', k)
    ensures PathTo(g, va, m) != PathTo(g, va', m)
  {
    hide Granules.Index, Granules.Root;
    if k < m {
      PathsPart(g, va, va', k, m - 1);
    }
  }

  // A call leaves alone every table that is not on its own path.
  lemma {:induction false} DescendOffPath(t: Tree, g: nat, length: nat, q: Request, n: nat, p: Path)
    requires IsGranule(g) && AttrsShaped(t) && 1 <= n <= Depth(g) && PathTo(g, q.va, n) in t.pages
    requires forall m :: n < m <= Depth(g) ==> p != PathTo(g, q.va, m)
    ensures var t' := Descend(t, g, length, q, n).1;
      (p in t'.attrs <==> p in t.attrs) && (p in t.attrs ==> t'.attrs[p] == t.attrs[p])
    decreases Depth(g) - n
  {
    hide Mark, Granules.Index, Granules.PathTo, Granules.Key, Bits.Or, Capacity, TableEntries.PageAddress;
    if n < Depth(g) {
      var c, mark := PathTo(g, q.va, n + 1), Mark(g, q, StartLevel(g) + n - 1);
      MarkFits(g, q, StartLevel(g) + n - 1);
      if c in t.pages {
        OrFits(t.attrs[c], mark);
        DescendOffPath(SetAttributes(t, c, Or(t.attrs[c], mark)), g, length, q, n + 1, p);
      } else if |t.pages| < Capacity(g, length) {
        DescendOffPath(AddTable(t, c, mark), g, length, q, n + 1, p);
      }
    }
  }

  // Trees that agree on the tables of va's path collect the same attributes for va.
  lemma {:induction false} InheritedSame(t: Tree, t': Tree, g: nat, va: u64, n: nat, acc: nat)
    requires 1 <= n <= Depth(g)
    requires forall m :: n < m <= Depth(g) ==> (PathTo(g, va, m) in t.attrs <==> PathTo(g, va, m) in t'.attrs)
    requires forall m :: n < m <= Depth(g) && PathTo(g, va, m) in t.attrs ==>
      t.attrs[PathTo(g, va, m)] == t'.attrs[PathTo(g, va, m)]
    ensures Inherited(t, g, va, n, acc) == Inherited(t', g, va, n, acc)
    decreases Depth(g) - n
  {
    hide Granules.PathTo, Bits.Or;
    if n < Depth(g) && PathTo(g, va, n + 1) in t.attrs {
      InheritedSame(t, t', g, va, n + 1, Or(acc, t.attrs[PathTo(g, va, n + 1)]));
    }
  }

  // An address whose path parts from the call's by the k-th element is not affected below.
  lemma PartedKeeps(t: Tree, g: nat, length: nat, q: Request, n: nat, va: u64, k: nat)
    requires IsGranule(g) && AttrsShaped(t) && 1 <= n <= Depth(g) && PathTo(g, q.va, n) in t.pages
    requires 1 <= k <= n + 1 && k <= Depth(g) && PathTo(g, va, k) != PathTo(g, q.va, k)
    ensures Inherited(Descend(t, g, length, q, n).1, g, va, n, 0) == Inherited(t, g, va, n, 0)
  {
    hide Granules.PathTo, Descend, Inherited, AttrsShaped;
    var t' := Descend(t, g, length, q, n).1;
    forall m | n < m <= Depth(g)
      ensures PathTo(g, va, m) in t'.attrs <==> PathTo(g, va, m) in t.attrs
      ensures PathTo(g, va, m) in t.attrs ==> t'.attrs[PathTo(g, va, m)] == t.attrs[PathTo(g, va, m)]
    {
      forall m' | n < m' <= Depth(g) ensures PathTo(g, va, m) != PathTo(g, q.va, m') {
        PathLength(g, va, m);
        PathLength(g, q.va, m');
        PathsPart(g, va, q.va, k, m);
      }
      DescendOffPath(t, g, length, q, n, PathTo(g, va, m));
    }
    InheritedSame(t', t, g, va, n, 0);
  }

  // From a table both paths pass, a call adds to a mapped address exactly its marks on the
  // tables they go on to share, whether the call then succeeds or not.
  lemma {:induction false} DescendShares(t: Tree, g: nat, length: nat, q: Request, n: nat, va: u64)
    requires IsGranule(g) && Shaped(g, t) && 1 <= n <= Depth(g) && PathTo(g, q.va, n) in t.pages
    requires PathTo(g, va, n) == PathTo(g, q.va, n) && PathTo(g, va, Depth(g)) in t.pages
    ensures Inherited(Descend(t, g, length, q, n).1, g, va, n, 0)
         == Or(Inherited(t, g, va, n, 0), SharedFrom(g, q, va, n))
    decreases Depth(g) - n
  {
    hide Mark, Granules.Index, Granules.PathTo, Granules.Key, Bits.Or, TableTrees.PagesShaped, TableTrees.LeavesShaped;
    OrZero(Inherited(t, g, va, n, 0));
    if n < Depth(g) {
      if PathTo(g, va, n + 1) != PathTo(g, q.va, n + 1) {
        PartedKeeps(t, g, length, q, n, va, n + 1);
      } else {
        DescendSharesNext(t, g, length, q, n, va);
      }
    }
  }

  lemma {:induction false} DescendSharesNext(t: Tree, g: nat, length: nat, q: Request, n: nat, va: u64)
    requires IsGranule(g) && Shaped(g, t) && 1 <= n < Depth(g) && PathTo(g, q.va, n) in t.pages
    requires PathTo(g, va, n + 1) == PathTo(g, q.va, n + 1) && PathTo(g, va, Depth(g)) in t.pages
    ensures Inherited(Descend(t, g, length, q, n).1, g, va, n, 0)
         == Or(Inherited(t, g, va, n, 0), SharedFrom(g, q, va, n))
    decreases Depth(g) - n, 0
  {
    hide Mark, Granules.Index, Granules.PathTo, Granules.Key, Bits.Or, TableTrees.PagesShaped, TableTrees.LeavesShaped;
    var c, mark := PathTo(g, q.va, n + 1), Mark(g, q, StartLevel(g) + n - 1);
    PrefixesAllocated(g, t, va, Depth(g), n + 1);
    DescendOnce(t, g, q, n);
    var t1 := Marked(t, g, q, n);
    var t2 := Descend(t1, g, length, q, n + 1).1;
    PathLength(g, q.va, n + 1);
    DescendKeeps(t1, g, length, q, n + 1, c);
    DescendShares(t1, g, length, q, n + 1, va);
    MarkedBelow(t, g, va, n, Or(t.attrs[c], mark));
    InheritedPeel(t2, g, va, n);
    InheritedPeel(t, g, va, n);
    OrRearranged(Inherited(t, g, va, n + 1, 0), SharedFrom(g, q, va, n + 1), t.attrs[c], mark);
  }

  // Changing the attributes of the first table below the n-th changes nothing further down.
  lemma MarkedBelow(t: Tree, g: nat, va: u64, n: nat, attrs: nat)
    requires 1 <= n < Depth(g) && PathTo(g, va, n + 1) in t.attrs
    ensures Inherited(SetAttributes(t, PathTo(g, va, n + 1), attrs), g, va, n + 1, 0) == Inherited(t, g, va, n + 1, 0)
  {
    hide Granules.PathTo;
    PathLength(g, va, n + 1);
    InheritedAgrees(SetAttributes(t, PathTo(g, va, n + 1), attrs), t, g, va, n + 1, 0);
  }

  // ----- tables only gain attributes

  ghost predicate Gained(t: Tree, t': Tree) {
    && t.attrs.Keys == t.pages.Keys
    && t'.attrs.Keys == t'.pages.Keys
    && forall p | p in t.pages :: p in t'.pages && t'.pages[p] == t.pages[p] && Subset(t.attrs[p], t'.attrs[p])
  }

  lemma GainedTransitive(t: Tree, t': Tree, t'': Tree)
    requires Gained(t, t') && Gained(t', t'')
    ensures Gained(t, t'')
  {
    hide Bits.Subset;
    forall p | p in t.pages
      ensures p in t''.pages && t''.pages[p] == t.pages[p] && Subset(t.attrs[p], t''.attrs[p])
    {
      SubsetTransitive(t.attrs[p], t'.attrs[p], t''.attrs[p]);
    }
  }

  lemma GainedReflexive(t: Tree)
    requires t.attrs.Keys == t.pages.Keys
    ensures Gained(t, t)
  {
    forall p | p in t.pages ensures Subset(t.attrs[p], t.attrs[p]) {
      OrIdempotent(t.attrs[p]);
    }
  }

  lemma MarkedGains(t: Tree, g: nat, q: Request, n: nat)
    requires AttrsShaped(t) && 1 <= n < Depth(g)
    ensures Gained(t, Marked(t, g, q, n))
  {
    hide Mark, Granules.PathTo, Bits.Or;
    var c, mark := PathTo(g, q.va, n + 1), Mark(g, q, StartLevel(g) + n - 1);
    GainedReflexive(t);
    if c in t.pages {
      OrGrows(t.attrs[c], mark);
    }
  }

  lemma {:induction false} DescendGains(t: Tree, g: nat, length: nat, q: Request, n: nat)
    requires IsGranule(g) && Shaped(g, t) && 1 <= n <= Depth(g) && PathTo(g, q.va, n) in t.pages
    ensures Gained(t, Descend(t, g, length, q, n).1)
    ensures Descend(t, g, length, q, n).1.leaves
         == if Descend(t, g, length, q, n).0.Ok? then t.leaves[Key(g, q.va) := q.leaf] else t.leaves
    decreases Depth(g) - n
  {
    hide Mark, Granules.Index, Granules.PathTo, Granules.Key, Bits.Or, Gained;
    hide TableTrees.PagesShaped, TableTrees.LeavesShaped;
    GainedReflexive(t);
    if n == Depth(g) {
      LeafGains(t, Key(g, q.va), q.leaf);
    } else {
      DescendOnce(t, g, q, n);
      var c, t1 := PathTo(g, q.va, n + 1), Marked(t, g, q, n);
      if c in t.pages || |t.pages| < Capacity(g, length) {
        MarkedGains(t, g, q, n);
        DescendGains(t1, g, length, q, n + 1);
        GainedTransitive(t, t1, Descend(t1, g, length, q, n + 1).1);
      }
    }
  }

  lemma LeafGains(t: Tree, k: Path, d: u64)
    requires t.attrs.Keys == t.pages.Keys
    ensures Gained(t, SetLeaf(t, k, d))
  {
    GainedReflexive(t);
  }

  lemma {:induction false} InheritedGrows(t: Tree, t': Tree, g: nat, va: u64, n: nat, acc: nat, acc': nat)
    requires 1 <= n <= Depth(g) && Gained(t, t') && Subset(acc, acc')
    requires PathTo(g, va, Depth(g)) in t.pages && PagesShaped(g, t.pages)
    ensures Subset(Inherited(t, g, va, n, acc), Inherited(t', g, va, n, acc'))
    decreases Depth(g) - n
  {
    hide Granules.PathTo, Bits.Subset, Bits.Or, TableTrees.PagesShaped;
    if n < Depth(g) {
      var c := PathTo(g, va, n + 1);
      PrefixesAllocated(g, t, va, Depth(g), n + 1);
      OrMonotone(acc, t.attrs[c], acc', t'.attrs[c]);
      InheritedGrows(t, t', g, va, n + 1, Or(acc, t.attrs[c]), Or(acc', t'.attrs[c]));
    }
  }

  // ----- whole runs

  // Attributes collected for va after a sequence of calls.
  function Collected(g: nat, length: nat, requests: seq<Request>, va: u64): nat
    requires IsGranule(g)
  {
    Inherited(Run(g, length, requests), g, va, 1, 0)
  }

  // A successful call makes the walk of its address collect what it collected before, plus
  // the requested access-permission and execute-never bits, and end at the returned address.
  lemma CallCollects(b: seq<byte>, g: nat, requests: seq<Request>, q: Request)
    requires IsGranule(g) && Represents(b, g, Run(g, |b|, requests + [q]))
    requires Outcome(g, |b|, requests + [q], |requests|).Ok?
    ensures WalkVa(b, g, q.va)
         == Leaf(q.leaf, Outcome(g, |b|, requests + [q], |requests|).value,
                 Or(Collected(g, |b|, requests, q.va), Or(ApBits(q), XnBits(q))))
  {
    hide WalkVa, Run, Outcome, Granules.Index, Granules.PathTo, Granules.Key, Bits.Or;
    hide Reach, Inherited, Descend, MarksFrom;
    hide TableTrees.PagesShaped, TableTrees.LeavesShaped;
    var t, t' := Run(g, |b|, requests), Run(g, |b|, requests + [q]);
    RunGrows(g, |b|, requests, q);
    RootReached(g, t, q.va);
    DescendCollects(t, g, |b|, q, 1);
    MarksCoverBoth(g, q);
    DescendGains(t, g, |b|, q, 1);
    WalkIsLookup(b, g, t', q.va);
    DescendAddress(t, g, |b|, q, 1);
    ReachesAll(g, t', q.va, 1);
  }

  lemma RootReached(g: nat, t: Tree, va: u64)
    requires Shaped(g, t)
    ensures PathTo(g, va, 1) in t.pages && Rooted(t)
  {
    assert PathTo(g, va, 1) == Top(Root(va));
  }

  lemma {:induction false} DescendAddress(t: Tree, g: nat, length: nat, q: Request, n: nat)
    requires IsGranule(g) && Shaped(g, t) && 1 <= n <= Depth(g) && PathTo(g, q.va, n) in t.pages
    requires Descend(t, g, length, q, n).0.Ok?
    ensures var (r, t') := Descend(t, g, length, q, n);
      && PathTo(g, q.va, Depth(g)) in t'.pages
      && r.value == PageAddress(g, t'.pages[PathTo(g, q.va, Depth(g))]) + 8 * Index(g, q.va, 3)
    decreases Depth(g) - n
  {
    hide Mark, Granules.Index, Granules.PathTo, Granules.Key, Bits.Or, TableTrees.PagesShaped, TableTrees.LeavesShaped;
    if n < Depth(g) {
      DescendOnce(t, g, q, n);
      DescendAddress(Marked(t, g, q, n), g, length, q, n + 1);
    }
  }

  // Table p, if there was one, keeps its attributes, and the mark is added to them.
  predicate Adds(t: Tree, t': Tree, p: Path, mark: nat) {
    p in t'.attrs && t'.attrs[p] == Or(if p in t.attrs then t.attrs[p] else 0, mark)
  }

  lemma {:induction false} DescendAdds(t: Tree, g: nat, length: nat, q: Request, n: nat, m: nat)
    requires IsGranule(g) && Shaped(g, t) && 1 <= n < m <= Depth(g) && PathTo(g, q.va, n) in t.pages
    requires Descend(t, g, length, q, n).0.Ok?
    ensures Adds(t, Descend(t, g, length, q, n).1, PathTo(g, q.va, m), Mark(g, q, StartLevel(g) + m - 2))
    decreases Depth(g) - n
  {
    hide Mark, Granules.Index, Granules.PathTo, Granules.Key, Bits.Or, TableTrees.PagesShaped, TableTrees.LeavesShaped;
    hide Adds;
    var c, mark := PathTo(g, q.va, n + 1), Mark(g, q, StartLevel(g) + n - 1);
    DescendOnce(t, g, q, n);
    var t1 := Marked(t, g, q, n);
    var t2 := Descend(t1, g, length, q, n + 1).1;
    if m == n + 1 {
      PathLength(g, q.va, n + 1);
      DescendKeeps(t1, g, length, q, n + 1, c);
      AddsHere(t, t1, t2, c, mark);
    } else {
      DescendAdds(t1, g, length, q, n + 1, m);
      PathLength(g, q.va, n + 1);
      PathLength(g, q.va, m);
      AddsBelow(t, t1, t2, c, PathTo(g, q.va, m), Mark(g, q, StartLevel(g) + m - 2));
    }
  }

  // t1 is t with the mark added to c, and t2 keeps that.
  lemma AddsHere(t: Tree, t1: Tree, t2: Tree, c: Path, mark: nat)
    requires t.attrs.Keys == t.pages.Keys && c in t1.attrs && c in t2.attrs && t2.attrs[c] == t1.attrs[c]
    requires t1.attrs[c] == if c in t.pages then Or(t.attrs[c], mark) else mark
    ensures Adds(t, t2, c, mark)
  {
    OrZero(mark);
  }

  // Further down t1 is t.
  lemma AddsBelow(t: Tree, t1: Tree, t2: Tree, c: Path, p: Path, mark: nat)
    requires c != p && Adds(t1, t2, p, mark) && (p in t.attrs <==> p in t1.attrs)
    requires p in t.attrs ==> t.attrs[p] == t1.attrs[p]
    ensures Adds(t, t2, p, mark)
  {
  }

  // Which table a successful call marks with what: parent's low three bits go to bits 63:61
  // and xn's low five to bits 63:59 of the entries that `choice` selects, xn's one level below
  // parent's, or at the first level when parent's is the last.
  lemma CallMarksTables(g: nat, length: nat, requests: seq<Request>, q: Request)
    requires IsGranule(g) && Outcome(g, length, requests + [q], |requests|).Ok?
    ensures var t, t' := Run(g, length, requests), Run(g, length, requests + [q]);
      var p2, p3, ap, xn := PathTo(g, q.va, 2), PathTo(g, q.va, 3), q.parent % 8 * 4, q.xn % 32;
      && (g == 16384 && q.choice % 2 == 0 ==> Adds(t, t', p2, ap) && Adds(t, t', p3, xn))
      && (g == 16384 && q.choice % 2 == 1 ==> Adds(t, t', p2, xn) && Adds(t, t', p3, ap))
    ensures g == 4096 ==>
      var t, t' := Run(g, length, requests), Run(g, length, requests + [q]);
      var p2, p3, p4 := PathTo(g, q.va, 2), PathTo(g, q.va, 3), PathTo(g, q.va, 4);
      var ap, xn := q.parent % 8 * 4, q.xn % 32;
      && (q.choice % 3 == 0 ==> Adds(t, t', p2, ap) && Adds(t, t', p3, xn) && Adds(t, t', p4, 0))
      && (q.choice % 3 == 1 ==> Adds(t, t', p2, 0) && Adds(t, t', p3, ap) && Adds(t, t', p4, xn))
      && (q.choice % 3 == 2 ==> Adds(t, t', p2, xn) && Adds(t, t', p3, 0) && Adds(t, t', p4, ap))
  {
    hide Run, Outcome, Mark, Adds, Descend, Granules.PathTo, TableTrees.PagesShaped, TableTrees.LeavesShaped;
    var t := Run(g, length, requests);
    RunGrows(g, length, requests, q);
    RootReached(g, t, q.va);
    DescendAdds(t, g, length, q, 1, 2);
    DescendAdds(t, g, length, q, 1, 3);
    if g == 4096 {
      DescendAdds(t, g, length, q, 1, 4);
    }
    MarksByChoice(g, q);
  }

  lemma MarksByChoice(g: nat, q: Request)
    requires IsGranule(g)
    ensures var ap, xn, s := q.parent % 8 * 4, q.xn % 32, StartLevel(g);
      && (g == 16384 && q.choice % 2 == 0 ==> Mark(g, q, s) == ap && Mark(g, q, s + 1) == xn)
      && (g == 16384 && q.choice % 2 == 1 ==> Mark(g, q, s) == xn && Mark(g, q, s + 1) == ap)
      && (g == 4096 && q.choice % 3 == 0 ==> Mark(g, q, s) == ap && Mark(g, q, s + 1) == xn && Mark(g, q, s + 2) == 0)
      && (g == 4096 && q.choice % 3 == 1 ==> Mark(g, q, s) == 0 && Mark(g, q, s + 1) == ap && Mark(g, q, s + 2) == xn)
      && (g == 4096 && q.choice % 3 == 2 ==> Mark(g, q, s) == xn && Mark(g, q, s + 1) == 0 && Mark(g, q, s + 2) == ap)
  {
    hide Bits.Or;
    OrZero(ApBits(q));
    OrZero(XnBits(q));
    OrZero(0);
    NextRemainder(q.choice, 3);
    NextRemainder(q.choice, 2);
    RemainderOf(q.parent * 4, 32, q.parent / 8, q.parent % 8 * 4);
  }

  lemma NextRemainder(a: nat, m: nat)
    requires m > 1
    ensures (a + 1) % m == if a % m == m - 1 then 0 else a % m + 1
  {
    var q, r := a / m, a % m;
    if r == m - 1 {
      RemainderOf(a + 1, m, q + 1, 0);
    } else {
      RemainderOf(a + 1, m, q, r + 1);
    }
  }

  // So on a path no earlier call has been down, the tables carry just these.
  lemma FreshPathTables(g: nat, length: nat, requests: seq<Request>, q: Request)
    requires IsGranule(g) && Outcome(g, length, requests + [q], |requests|).Ok?
    requires PathTo(g, q.va, 2) !in Run(g, length, requests).pages
    ensures var attrs := Run(g, length, requests + [q]).attrs;
      var p2, p3, ap, xn := PathTo(g, q.va, 2), PathTo(g, q.va, 3), q.parent % 8 * 4, q.xn % 32;
      && p2 in attrs && p3 in attrs
      && (g == 16384 ==> (attrs[p2], attrs[p3]) == if q.choice % 2 == 0 then (ap, xn) else (xn, ap))
    ensures g == 4096 ==>
      var attrs := Run(g, length, requests + [q]).attrs;
      var p2, p3, p4 := PathTo(g, q.va, 2), PathTo(g, q.va, 3), PathTo(g, q.va, 4);
      var ap, xn := q.parent % 8 * 4, q.xn % 32;
      && p2 in attrs && p3 in attrs && p4 in attrs
      && (attrs[p2], attrs[p3], attrs[p4])
         == if q.choice % 3 == 0 then (ap, xn, 0) else if q.choice % 3 == 1 then (0, ap, xn) else (xn, 0, ap)
  {
    hide Run, Outcome, Granules.PathTo, TableTrees.LeavesShaped, TableTrees.PagesShaped, Bits.Or;
    var t := Run(g, length, requests);
    CallMarksTables(g, length, requests, q);
    BelowFresh(g, t, q.va, 2);
    BelowFresh(g, t, q.va, 3);
    if g == 4096 {
      BelowFresh(g, t, q.va, 4);
    }
    OrZero(q.parent % 8 * 4);
    OrZero(q.xn % 32);
    OrZero(0);
  }

  lemma BelowFresh(g: nat, t: Tree, va: u64, n: nat)
    requires Shaped(g, t) && 2 <= n <= Depth(g) && PathTo(g, va, 2) !in t.pages
    ensures PathTo(g, va, n) !in t.attrs
  {
    hide Granules.PathTo, TableTrees.LeavesShaped, TableTrees.PagesShaped;
    if PathTo(g, va, n) in t.pages {
      PrefixesAllocated(g, t, va, n, 2);
    }
  }

  // On a path no earlier call has been down, the walk collects exactly the requested bits.
  lemma FreshPathCollects(b: seq<byte>, g: nat, requests: seq<Request>, q: Request)
    requires IsGranule(g) && Represents(b, g, Run(g, |b|, requests + [q]))
    requires Outcome(g, |b|, requests + [q], |requests|).Ok?
    requires PathTo(g, q.va, 2) !in Run(g, |b|, requests).pages
    ensures WalkVa(b, g, q.va)
         == Leaf(q.leaf, Outcome(g, |b|, requests + [q], |requests|).value, Or(ApBits(q), XnBits(q)))
  {
    hide TableWalk.Represents, WalkVa, Run, Outcome, Granules.Index, Bits.Or, Granules.PathTo;
    CallCollects(b, g, requests, q);
    OrZero(Or(ApBits(q), XnBits(q)));
  }

  // Later calls, successful or not, only ever add attribute bits to a mapped address.
  lemma {:induction false} RunGains(g: nat, length: nat, requests: seq<Request>, n: nat)
    requires IsGranule(g) && n <= |requests|
    ensures Gained(Run(g, length, requests[..n]), Run(g, length, requests))
    decreases |requests|
  {
    hide Descend, Gained, TableTrees.PagesShaped, TableTrees.LeavesShaped, TableWalk.RootEntryEnd;
    if n == |requests| {
      assert requests[..n] == requests;
      GainedReflexive(Run(g, length, requests));
    } else {
      var m := |requests| - 1;
      var before := Run(g, length, requests[..m]);
      assert requests[..m][..n] == requests[..n];
      RunGains(g, length, requests[..m], n);
      RootReached(g, before, requests[m].va);
      DescendGains(before, g, length, requests[m], 1);
      GainedReflexive(before);
      GainedTransitive(Run(g, length, requests[..n]), before, Run(g, length, requests));
    }
  }

  lemma CollectedGrows(g: nat, length: nat, requests: seq<Request>, n: nat, va: u64)
    requires IsGranule(g) && n <= |requests|
    requires PathTo(g, va, Depth(g)) in Run(g, length, requests[..n]).pages
    ensures Subset(Collected(g, length, requests[..n], va), Collected(g, length, requests, va))
  {
    hide Gained, Run, Granules.PathTo, Bits.Subset, TableTrees.LeavesShaped;
    RunGains(g, length, requests, n);
    SubsetReflexive(0);
    InheritedGrows(Run(g, length, requests[..n]), Run(g, length, requests), g, va, 1, 0, 0);
  }

  lemma SubsetReflexive(a: nat)
    ensures Subset(a, a)
  {
    OrIdempotent(a);
  }

  // Along one run an address that translates at some point keeps the place of its leaf entry
  // for good, and its walk only gains attributes.
  lemma MappedWalkStays(b: seq<byte>, b': seq<byte>, g: nat, requests: seq<Request>, n: nat, va: u64)
    requires IsGranule(g) && n <= |requests| && |b| == |b'|
    requires Represents(b, g, Run(g, |b|, requests[..n])) && Represents(b', g, Run(g, |b|, requests))
    requires WalkVa(b, g, va).Leaf?
    ensures WalkVa(b', g, va).Leaf? && WalkVa(b', g, va).address == WalkVa(b, g, va).address
    ensures Subset(WalkVa(b, g, va).attrs, WalkVa(b', g, va).attrs)
  {
    hide TableWalk.Represents, WalkVa, Run, Granules.Index, Bits.Subset, Granules.PathTo;
    var t, t' := Run(g, |b|, requests[..n]), Run(g, |b|, requests);
    WalkIsLookup(b, g, t, va);
    WalkIsLookup(b', g, t', va);
    RunGains(g, |b|, requests, n);
    ReachesAll(g, t', va, 1);
    CollectedGrows(g, |b|, requests, n, va);
  }

  // ----- what a call does to other addresses

  // The marks a call leaves on the tables of va: none when it stops at its root entry.
  function MarksLeft(g: nat, length: nat, q: Request, va: u64): nat
    requires IsGranule(g)
  {
    if RootEntryEnd(g, q.va) <= length then SharedMarks(g, q, va) else 0
  }

  // After any call, failed or not, a mapped address collects what it collected before and
  // the call's marks on the tables they share.
  lemma CallMarks(g: nat, length: nat, requests: seq<Request>, q: Request, va: u64)
    requires IsGranule(g) && PathTo(g, va, Depth(g)) in Run(g, length, requests).pages
    ensures Collected(g, length, requests + [q], va)
         == Or(Collected(g, length, requests, va), MarksLeft(g, length, q, va))
  {
    hide Run, Outcome, Descend, Inherited, SharedFrom, Granules.Index, Bits.Or;
    hide TableTrees.PagesShaped, TableTrees.LeavesShaped;
    var t := Run(g, length, requests);
    RunGrows(g, length, requests, q);
    RootReached(g, t, q.va);
    OrZero(Inherited(t, g, va, 1, 0));
    assert PathTo(g, va, 1) == Top(Root(va)) && PathTo(g, q.va, 1) == Top(Root(q.va));
    if RootEntryEnd(g, q.va) <= length {
      if Root(va) == Root(q.va) {
        DescendShares(t, g, length, q, 1, va);
      } else {
        PartedKeeps(t, g, length, q, 1, va, 1);
      }
    }
  }

  // The call maps no address with key k: it fails, or its address has another key.
  predicate Elsewhere(g: nat, length: nat, requests: seq<Request>, q: Request, k: Path)
    requires IsGranule(g)
  {
    Outcome(g, length, requests + [q], |requests|).Err? || Key(g, q.va) != k
  }

  // A failed call changes no translation, and any other call only its own.
  lemma CallKeepsTranslations(g: nat, length: nat, requests: seq<Request>, q: Request, k: Path)
    requires IsGranule(g) && Elsewhere(g, length, requests, q, k)
    ensures Lookup(Run(g, length, requests + [q]), k) == Lookup(Run(g, length, requests), k)
  {
    hide Descend, Gained, TableTrees.PagesShaped, TableTrees.LeavesShaped, TableWalk.RootEntryEnd, Granules.Key;
    var t := Run(g, length, requests);
    RunGrows(g, length, requests, q);
    RootReached(g, t, q.va);
    DescendGains(t, g, length, q, 1);
  }

  lemma LeafIsMapped(t: Tree, g: nat, va: u64)
    requires ExpectedWalk(t, g, va, 1, 0).Leaf?
    ensures PathTo(g, va, Depth(g)) in t.pages
    ensures ExpectedWalk(t, g, va, 1, 0).attrs == Inherited(t, g, va, 1, 0)
    ensures ExpectedWalk(t, g, va, 1, 0).descriptor == Lookup(t, Key(g, va))
  {
  }

  // Exactly when a call leaves the walk of another mapped address alone, in particular when
  // a failed call does: if and only if the walk had already collected the call's marks on
  // the tables the two share. In any case only its attributes change, by those marks.
  lemma CallLeavesWalk(b: seq<byte>, b': seq<byte>, g: nat, requests: seq<Request>, q: Request, va: u64)
    requires IsGranule(g) && |b| == |b'|
    requires Represents(b, g, Run(g, |b|, requests)) && Represents(b', g, Run(g, |b|, requests + [q]))
    requires Elsewhere(g, |b|, requests, q, Key(g, va)) && WalkVa(b, g, va).Leaf?
    ensures WalkVa(b', g, va) == WalkVa(b, g, va).(attrs := Or(WalkVa(b, g, va).attrs, MarksLeft(g, |b|, q, va)))
    ensures WalkVa(b', g, va) == WalkVa(b, g, va) <==> Subset(MarksLeft(g, |b|, q, va), WalkVa(b, g, va).attrs)
  {
    hide TableWalk.Represents, WalkVa, Run, Granules.Index, Granules.PathTo, Granules.Key, MarksLeft, Bits.Or;
    hide Elsewhere;
    var t, t' := Run(g, |b|, requests), Run(g, |b|, requests + [q]);
    WalkIsLookup(b, g, t, va);
    WalkIsLookup(b', g, t', va);
    LeafIsMapped(t, g, va);
    CallMarks(g, |b|, requests, q, va);
    CallKeepsTranslations(g, |b|, requests, q, Key(g, va));
    assert (requests + [q])[..|requests|] == requests;
    MappedWalkStays(b, b', g, requests + [q], |requests|, va);
    LeafIsMapped(t', g, va);
    OrCommutes(WalkVa(b, g, va).attrs, MarksLeft(g, |b|, q, va));
  }
}
