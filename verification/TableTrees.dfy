/** The abstract content of a translation-table buffer. A `Tree` says which table page
    serves which index prefix, which attribute bits its parent entry carries, and which
    descriptor is stored for which full key. `Stored` ties a heap of table entries to a
    tree; the lemmas show that each of the three ways a builder writes an entry keeps it. */
module TableTrees {
  import opened Bits
  import opened Granules
  import opened TableEntries

  // Entry i of table page p.
  type Heap = (nat, nat) -> nat

  datatype Tree = Tree(pages: map<Path, nat>, attrs: map<Path, nat>, leaves: map<Path, u64>)

  const EMPTY_TREE: Tree := Tree(map[Top(0) := 0, Top(1) := 1], map[Top(0) := 0, Top(1) := 0], map[])

  // Two trees over disjoint pages: each page has one path, each non-root page one parent.
  ghost predicate PagesShaped(g: nat, pages: map<Path, nat>) {
    && Top(0) in pages && pages[Top(0)] == 0
    && Top(1) in pages && pages[Top(1)] == 1
    && (forall p | p in pages :: Length(p) <= Depth(g) && pages[p] < |pages|)
    && (forall p | p in pages && p.Top? :: p.root < 2)
    && (forall q, i: nat | Child(q, i) in pages :: q in pages && i < Entries(g))
    && (forall p, q | p in pages && q in pages && pages[p] == pages[q] :: p == q)
  }

  // Only entries of last-level tables hold leaves.
  ghost predicate LeavesShaped(g: nat, t: Tree) {
    && (forall k | k in t.leaves :: k.Child? && Length(k) == Depth(g) + 1)
    && (forall q, i: nat | Child(q, i) in t.leaves :: q in t.pages && i < Entries(g))
  }

  ghost predicate AttrsShaped(t: Tree) {
    t.attrs.Keys == t.pages.Keys && forall p | p in t.attrs :: t.attrs[p] < 32
  }

  ghost predicate Shaped(g: nat, t: Tree) {
    PagesShaped(g, t.pages) && LeavesShaped(g, t) && AttrsShaped(t)
  }

  function ChildEntry(g: nat, t: Tree, p: Path): nat
    requires t.attrs.Keys == t.pages.Keys
  {
    if p in t.pages then TableEntry(g, t.pages[p], t.attrs[p]) else 0
  }

  function Lookup(t: Tree, k: Path): u64 {
    if k in t.leaves then t.leaves[k] else 0
  }

  ghost predicate TablesStored(e: Heap, g: nat, t: Tree)
    requires t.attrs.Keys == t.pages.Keys
  {
    forall p, i: nat {:trigger e(t.pages[p], i)} | p in t.pages && Length(p) < Depth(g) && i < Entries(g) ::
      e(t.pages[p], i) == ChildEntry(g, t, Child(p, i))
  }

  ghost predicate LeavesStored(e: Heap, g: nat, t: Tree) {
    forall p, i: nat {:trigger e(t.pages[p], i)} | p in t.pages && Length(p) == Depth(g) && i < Entries(g) ::
      e(t.pages[p], i) == Lookup(t, Child(p, i))
  }

  // The pages not handed out yet are blank.
  ghost predicate PoolBlank(e: Heap, g: nat, t: Tree) {
    forall page: nat, i: nat | page >= |t.pages| && i < Entries(g) :: e(page, i) == 0
  }

  // The buffer has room for `capacity` whole pages.
  ghost predicate Stored(e: Heap, g: nat, capacity: nat, t: Tree)
    requires t.attrs.Keys == t.pages.Keys
  {
    && (forall p | p in t.pages && p.Child? :: t.pages[p] < capacity)
    && TablesStored(e, g, t)
    && LeavesStored(e, g, t)
    && PoolBlank(e, g, t)
  }

  // e' is e with one entry overwritten.
  ghost predicate Updated(e: Heap, e': Heap, g: nat, page: nat, i: nat, v: nat) {
    && e'(page, i) == v
    && forall page': nat, i': nat | i' < Entries(g) && (page' != page || i' != i) ::
         e'(page', i') == e(page', i')
  }

  lemma EmptyIsShaped(g: nat)
    ensures |EMPTY_TREE.pages| == 2 && Shaped(g, EMPTY_TREE)
  {
    assert EMPTY_TREE.pages.Keys == {Top(0), Top(1)};
    assert |EMPTY_TREE.pages| == |EMPTY_TREE.pages.Keys| == 2;
  }

  lemma EmptyIsStored(e: Heap, g: nat, capacity: nat)
    requires forall page: nat, i: nat | i < Entries(g) :: e(page, i) == 0
    ensures EMPTY_TREE.attrs.Keys == EMPTY_TREE.pages.Keys && Stored(e, g, capacity, EMPTY_TREE)
  {
    EmptyIsShaped(g);
  }

  // ----- what one write leaves alone

  lemma TablesUntouched(e: Heap, e': Heap, g: nat, t: Tree, p: Path, i: nat, v: nat)
    requires Shaped(g, t) && TablesStored(e, g, t)
    requires p in t.pages && Length(p) == Depth(g)
    requires Updated(e, e', g, t.pages[p], i, v)
    ensures TablesStored(e', g, t)
  {
  }

  lemma LeavesUntouched(e: Heap, e': Heap, g: nat, t: Tree, p: Path, i: nat, v: nat)
    requires Shaped(g, t) && LeavesStored(e, g, t)
    requires p in t.pages && Length(p) < Depth(g)
    requires Updated(e, e', g, t.pages[p], i, v)
    ensures LeavesStored(e', g, t)
  {
  }

  lemma PoolUntouched(e: Heap, e': Heap, g: nat, t: Tree, p: Path, i: nat, v: nat)
    requires Shaped(g, t) && PoolBlank(e, g, t)
    requires p in t.pages
    requires Updated(e, e', g, t.pages[p], i, v)
    ensures PoolBlank(e', g, t)
  {
  }

  // ----- the three ways a builder changes the buffer

  function AddTable(t: Tree, p: Path, attrs: nat): Tree {
    Tree(t.pages[p := |t.pages|], t.attrs[p := attrs], t.leaves)
  }

  function SetLeaf(t: Tree, k: Path, descriptor: u64): Tree {
    t.(leaves := t.leaves[k := descriptor])
  }

  function SetAttributes(t: Tree, p: Path, attrs: nat): Tree {
    t.(attrs := t.attrs[p := attrs])
  }

  lemma MapGrows<K, V>(m: map<K, V>, k: K, v: V)
    requires k !in m
    ensures |m[k := v]| == |m| + 1
  {
    assert m[k := v].Keys == m.Keys + {k};
    assert |m[k := v]| == |m[k := v].Keys| == |m.Keys + {k}|;
  }

  lemma AddPageShaped(g: nat, pages: map<Path, nat>, pages': map<Path, nat>, c: Path)
    requires PagesShaped(g, pages)
    requires c.Child? && c.parent in pages && c.index < Entries(g) && Length(c) <= Depth(g) && c !in pages
    requires pages' == pages[c := |pages|] && |pages'| == |pages| + 1
    ensures PagesShaped(g, pages')
  {
    assert pages'[c] == |pages|;
    forall p | p in pages' && p != c ensures p in pages && pages'[p] == pages[p] {
    }
  }

  lemma AddTableShaped(g: nat, t: Tree, p: Path, i: nat, attrs: nat)
    requires Shaped(g, t) && attrs < 32
    requires p in t.pages && Length(p) < Depth(g) && i < Entries(g) && Child(p, i) !in t.pages
    ensures Shaped(g, AddTable(t, Child(p, i), attrs))
    ensures |AddTable(t, Child(p, i), attrs).pages| == |t.pages| + 1
  {
    hide PagesShaped;
    MapGrows(t.pages, Child(p, i), |t.pages|);
    AddPageShaped(g, t.pages, AddTable(t, Child(p, i), attrs).pages, Child(p, i));
  }

  lemma AddTableTables(e: Heap, e': Heap, g: nat, t: Tree, p: Path, i: nat, attrs: nat)
    requires Shaped(g, t) && TablesStored(e, g, t) && PoolBlank(e, g, t)
    requires p in t.pages && Length(p) < Depth(g) && i < Entries(g) && Child(p, i) !in t.pages
    requires Updated(e, e', g, t.pages[p], i, TableEntry(g, |t.pages|, attrs))
    ensures AddTable(t, Child(p, i), attrs).attrs.Keys == AddTable(t, Child(p, i), attrs).pages.Keys
    ensures TablesStored(e', g, AddTable(t, Child(p, i), attrs))
  {
    var t' := AddTable(t, Child(p, i), attrs);
    forall q, j: nat | q in t'.pages && Length(q) < Depth(g) && j < Entries(g)
      ensures e'(t'.pages[q], j) == ChildEntry(g, t', Child(q, j))
    {
      if q == Child(p, i) {
        assert Child(q, j) !in t.pages;
      }
    }
  }

  lemma AddTableLeaves(e: Heap, e': Heap, g: nat, t: Tree, p: Path, i: nat, attrs: nat)
    requires Shaped(g, t) && LeavesStored(e, g, t) && PoolBlank(e, g, t)
    requires p in t.pages && Length(p) < Depth(g) && i < Entries(g) && Child(p, i) !in t.pages
    requires Updated(e, e', g, t.pages[p], i, TableEntry(g, |t.pages|, attrs))
    ensures LeavesStored(e', g, AddTable(t, Child(p, i), attrs))
  {
    LeavesUntouched(e, e', g, t, p, i, TableEntry(g, |t.pages|, attrs));
    var t' := AddTable(t, Child(p, i), attrs);
    forall q, j: nat | q in t'.pages && Length(q) == Depth(g) && j < Entries(g)
      ensures e'(t'.pages[q], j) == Lookup(t', Child(q, j))
    {
      if q == Child(p, i) {
        assert Child(q, j) !in t.leaves;
      }
    }
  }

  // A zero entry of a reachable table receives the next unused page.
  lemma AddTableStored(e: Heap, e': Heap, g: nat, capacity: nat, t: Tree, p: Path, i: nat, attrs: nat)
    requires Shaped(g, t) && Stored(e, g, capacity, t) && attrs < 32
    requires p in t.pages && Length(p) < Depth(g) && i < Entries(g) && Child(p, i) !in t.pages
    requires |t.pages| < capacity
    requires Updated(e, e', g, t.pages[p], i, TableEntry(g, |t.pages|, attrs))
    ensures Shaped(g, AddTable(t, Child(p, i), attrs))
    ensures Stored(e', g, capacity, AddTable(t, Child(p, i), attrs))
  {
    AddTableShaped(g, t, p, i, attrs);
    AddTableTables(e, e', g, t, p, i, attrs);
    AddTableLeaves(e, e', g, t, p, i, attrs);
    PoolUntouched(e, e', g, t, p, i, TableEntry(g, |t.pages|, attrs));
  }

  lemma SetLeafLeaves(e: Heap, e': Heap, g: nat, t: Tree, p: Path, i: nat, descriptor: u64)
    requires Shaped(g, t) && LeavesStored(e, g, t)
    requires p in t.pages
    requires Updated(e, e', g, t.pages[p], i, descriptor)
    ensures LeavesStored(e', g, SetLeaf(t, Child(p, i), descriptor))
  {
    var t' := SetLeaf(t, Child(p, i), descriptor);
    forall q, j: nat | q in t'.pages && Length(q) == Depth(g) && j < Entries(g)
      ensures e'(t'.pages[q], j) == Lookup(t', Child(q, j))
    {
      if q == p && i == j {
      } else {
        assert Lookup(t', Child(q, j)) == Lookup(t, Child(q, j));
      }
    }
  }

  lemma SetLeafShaped(g: nat, t: Tree, p: Path, i: nat, descriptor: u64)
    requires Shaped(g, t)
    requires p in t.pages && Length(p) == Depth(g) && i < Entries(g)
    ensures Shaped(g, SetLeaf(t, Child(p, i), descriptor))
  {
  }

  lemma SetLeafStored(e: Heap, e': Heap, g: nat, capacity: nat, t: Tree, p: Path, i: nat, descriptor: u64)
    requires Shaped(g, t) && Stored(e, g, capacity, t)
    requires p in t.pages && Length(p) == Depth(g) && i < Entries(g)
    requires Updated(e, e', g, t.pages[p], i, descriptor)
    ensures Shaped(g, SetLeaf(t, Child(p, i), descriptor))
    ensures Stored(e', g, capacity, SetLeaf(t, Child(p, i), descriptor))
  {
    hide Updated, PagesShaped, LeavesShaped, LeavesStored;
    SetLeafShaped(g, t, p, i, descriptor);
    TablesUntouched(e, e', g, t, p, i, descriptor);
    SetLeafLeaves(e, e', g, t, p, i, descriptor);
    PoolUntouched(e, e', g, t, p, i, descriptor);
  }

  lemma SetAttributesShaped(g: nat, t: Tree, p: Path, attrs: nat)
    requires Shaped(g, t) && p in t.pages && attrs < 32
    ensures Shaped(g, SetAttributes(t, p, attrs))
  {
  }

  lemma SetAttributesTables(e: Heap, e': Heap, g: nat, t: Tree, p: Path, i: nat, attrs: nat)
    requires Shaped(g, t) && TablesStored(e, g, t)
    requires p in t.pages && Child(p, i) in t.pages
    requires Updated(e, e', g, t.pages[p], i, TableEntry(g, t.pages[Child(p, i)], attrs))
    ensures SetAttributes(t, Child(p, i), attrs).attrs.Keys == t.pages.Keys
    ensures TablesStored(e', g, SetAttributes(t, Child(p, i), attrs))
  {
    var t' := SetAttributes(t, Child(p, i), attrs);
    forall q, j: nat | q in t'.pages && Length(q) < Depth(g) && j < Entries(g)
      ensures e'(t'.pages[q], j) == ChildEntry(g, t', Child(q, j))
    {
      if q == p && i == j {
      } else {
        assert ChildEntry(g, t', Child(q, j)) == ChildEntry(g, t, Child(q, j));
      }
    }
  }

  // The parent entry of an existing table is rewritten with other attribute bits.
  lemma SetAttributesStored(e: Heap, e': Heap, g: nat, capacity: nat, t: Tree, p: Path, i: nat, attrs: nat)
    requires Shaped(g, t) && Stored(e, g, capacity, t) && attrs < 32
    requires p in t.pages && Length(p) < Depth(g) && Child(p, i) in t.pages
    requires Updated(e, e', g, t.pages[p], i, TableEntry(g, t.pages[Child(p, i)], attrs))
    ensures Shaped(g, SetAttributes(t, Child(p, i), attrs))
    ensures Stored(e', g, capacity, SetAttributes(t, Child(p, i), attrs))
  {
    SetAttributesTables(e, e', g, t, p, i, attrs);
    LeavesUntouched(e, e', g, t, p, i, TableEntry(g, t.pages[Child(p, i)], attrs));
    PoolUntouched(e, e', g, t, p, i, TableEntry(g, t.pages[Child(p, i)], attrs));
  }

  // Once some non-root table exists, every table page including the roots is in the buffer.
  lemma PageInBuffer(e: Heap, g: nat, capacity: nat, t: Tree, p: Path)
    requires Shaped(g, t) && Stored(e, g, capacity, t) && p in t.pages
    requires p.Child? || exists c :: c in t.pages && c.Child?
    ensures t.pages[p] < capacity
  {
    hide LeavesShaped, AttrsShaped, TablesStored, LeavesStored, PoolBlank;
    if p.Top? {
      var c :| c in t.pages && c.Child?;
      assert t.pages[c] != t.pages[Top(0)] && t.pages[c] != t.pages[Top(1)];
    }
  }

  // How long a prefix of the path to va, at least n, names an allocated table.
  function Reach(t: Tree, g: nat, va: u64, n: nat): (r: nat)
    requires 1 <= n <= Depth(g)
    ensures n <= r <= Depth(g)
    ensures n < r ==> PathTo(g, va, r) in t.pages
    ensures r < Depth(g) ==> PathTo(g, va, r + 1) !in t.pages
    decreases Depth(g) - n
  {
    if n < Depth(g) && PathTo(g, va, n + 1) in t.pages then Reach(t, g, va, n + 1) else n
  }

  // The union of the attribute bits found below the first n elements of the path to va.
  function Inherited(t: Tree, g: nat, va: u64, n: nat, acc: nat): nat
    requires 1 <= n <= Depth(g)
    decreases Depth(g) - n
  {
    if n < Depth(g) && PathTo(g, va, n + 1) in t.attrs
    then Inherited(t, g, va, n + 1, Or(acc, t.attrs[PathTo(g, va, n + 1)]))
    else acc
  }
}
