/** The builder of the hierarchical-permission probe. It walks and allocates like
    `MmuTables.Tables`, and on the way down ORs access-permission and execute-never bits
    into the table descriptors it passes, which other addresses may share. */
module HierarchyTables {
  import opened Uefi
  import opened Bits
  import opened Bytes
  import opened Granules
  import opened TableEntries
  import opened TableTrees
  import opened TableWalk

  datatype Request = Request(va: u64, leaf: u64, parent: byte, xn: byte, choice: nat)

  function ApLevel(g: nat, choice: nat): nat {
    StartLevel(g) + choice % (3 - StartLevel(g))
  }

  function XnLevel(g: nat, choice: nat): nat {
    StartLevel(g) + (choice + 1) % (3 - StartLevel(g))
  }

  // `parent << 61` and `xn << 59`, as contents of the attribute field, bits 63:59.
  function ApBits(q: Request): nat {
    q.parent * 4 % 32
  }

  function XnBits(q: Request): nat {
    q.xn % 32
  }

  // What the call ORs into the descriptor it passes at `level`.
  function Mark(g: nat, q: Request, level: nat): nat {
    Or(if level == ApLevel(g, q.choice) then ApBits(q) else 0,
       if level == XnLevel(g, q.choice) then XnBits(q) else 0)
  }

  lemma MarkFits(g: nat, q: Request, level: nat)
    ensures Mark(g, q, level) < 32
  {
    OrFits(if level == ApLevel(g, q.choice) then ApBits(q) else 0,
           if level == XnLevel(g, q.choice) then XnBits(q) else 0);
  }

  // ----- the tree after a call

  // Continue from the table n elements down the path.
  function Descend(t: Tree, g: nat, length: nat, q: Request, n: nat): (Result<nat, Status>, Tree)
    requires IsGranule(g) && AttrsShaped(t)
    requires 1 <= n <= Depth(g) && PathTo(g, q.va, n) in t.pages
    decreases Depth(g) - n
  {
    if n == Depth(g) then
      (Ok(PageAddress(g, t.pages[PathTo(g, q.va, n)]) + 8 * Index(g, q.va, 3)), SetLeaf(t, Key(g, q.va), q.leaf))
    else
      var c, mark := PathTo(g, q.va, n + 1), Mark(g, q, StartLevel(g) + n - 1);
      MarkFits(g, q, StartLevel(g) + n - 1);
      if c in t.pages then
        OrFits(t.attrs[c], mark);
        Descend(SetAttributes(t, c, Or(t.attrs[c], mark)), g, length, q, n + 1)
      else if |t.pages| < Capacity(g, length) then
        Descend(AddTable(t, c, mark), g, length, q, n + 1)
      else (Err(OutOfResources), t)
  }

  predicate Rooted(t: Tree) {
    Top(0) in t.pages && Top(1) in t.pages
  }

  function MapTree(t: Tree, g: nat, length: nat, q: Request): (Result<nat, Status>, Tree)
    requires IsGranule(g) && AttrsShaped(t) && Rooted(t)
  {
    if RootEntryEnd(g, q.va) > length then (Err(BadBufferSize), t)
    else
      assert PathTo(g, q.va, 1) == Top(Root(q.va));
      Descend(t, g, length, q, 1)
  }

  // ----- shape is kept

  lemma DescendOnce(t: Tree, g: nat, q: Request, n: nat)
    requires IsGranule(g) && Shaped(g, t)
    requires 1 <= n < Depth(g) && PathTo(g, q.va, n) in t.pages
    ensures var c, mark := PathTo(g, q.va, n + 1), Mark(g, q, StartLevel(g) + n - 1);
      if c in t.pages
      then Or(t.attrs[c], mark) < 32 && Shaped(g, SetAttributes(t, c, Or(t.attrs[c], mark)))
      else mark < 32 && Shaped(g, AddTable(t, c, mark)) && |AddTable(t, c, mark).pages| == |t.pages| + 1
  {
    hide Mark, Granules.Index, Granules.PathTo, TableTrees.Shaped, Bits.Or;
    var c, mark := PathTo(g, q.va, n + 1), Mark(g, q, StartLevel(g) + n - 1);
    MarkFits(g, q, StartLevel(g) + n - 1);
    PathStep(g, q.va, n);
    ShapedAttributes(g, t);
    if c in t.pages {
      OrFits(t.attrs[c], mark);
      SetAttributesShaped(g, t, c, Or(t.attrs[c], mark));
    } else {
      AddTableShaped(g, t, PathTo(g, q.va, n), Index(g, q.va, StartLevel(g) + n - 1), mark);
      MapGrows(t.pages, c, |t.pages|);
    }
  }

  lemma ShapedAttributes(g: nat, t: Tree)
    requires Shaped(g, t)
    ensures AttrsShaped(t)
  {
  }

  // The tree after a sequence of calls on a zeroed buffer, some of which may have failed.
  function Run(g: nat, length: nat, requests: seq<Request>): (t: Tree)
    requires IsGranule(g)
    ensures Shaped(g, t)
  {
    if |requests| == 0 then
      EmptyIsShaped(g);
      EMPTY_TREE
    else
      var before, q := requests[..|requests| - 1], requests[|requests| - 1];
      MapTreeShaped(Run(g, length, before), g, length, q);
      MapTree(Run(g, length, before), g, length, q).1
  }

  // What the i-th call of the sequence returned.
  function Outcome(g: nat, length: nat, requests: seq<Request>, i: nat): Result<nat, Status>
    requires IsGranule(g) && i < |requests|
  {
    MapTree(Run(g, length, requests[..i]), g, length, requests[i]).0
  }

  lemma RunGrows(g: nat, length: nat, requests: seq<Request>, q: Request)
    requires IsGranule(g)
    ensures (Outcome(g, length, requests + [q], |requests|), Run(g, length, requests + [q]))
         == MapTree(Run(g, length, requests), g, length, q)
  {
    assert (requests + [q])[..|requests|] == requests;
  }

  lemma {:induction false} DescendShaped(t: Tree, g: nat, length: nat, q: Request, n: nat)
    requires IsGranule(g) && Shaped(g, t)
    requires 1 <= n <= Depth(g) && PathTo(g, q.va, n) in t.pages
    ensures Shaped(g, Descend(t, g, length, q, n).1)
    decreases Depth(g) - n
  {
    hide Mark, Granules.Index, Granules.PathTo, Granules.Key, TableTrees.PagesShaped, TableTrees.LeavesShaped;
    if n == Depth(g) {
      PathStep(g, q.va, n);
      SetLeafShaped(g, t, PathTo(g, q.va, n), Index(g, q.va, 3), q.leaf);
    } else {
      var c, mark := PathTo(g, q.va, n + 1), Mark(g, q, StartLevel(g) + n - 1);
      DescendOnce(t, g, q, n);
      if c in t.pages {
        DescendShaped(SetAttributes(t, c, Or(t.attrs[c], mark)), g, length, q, n + 1);
      } else if |t.pages| < Capacity(g, length) {
        DescendShaped(AddTable(t, c, mark), g, length, q, n + 1);
      }
    }
  }

  lemma MapTreeShaped(t: Tree, g: nat, length: nat, q: Request)
    requires IsGranule(g) && Shaped(g, t)
    ensures Shaped(g, MapTree(t, g, length, q).1)
  {
    assert PathTo(g, q.va, 1) == Top(Root(q.va));
    if RootEntryEnd(g, q.va) <= length {
      DescendShaped(t, g, length, q, 1);
    }
  }

  // ----- the descriptor arithmetic of one level

  lemma ShiftedBits(q: Request)
    ensures Shl(q.parent, 61) == ApBits(q) * 0x800_0000_0000_0000
    ensures Shl(q.xn, 59) == XnBits(q) * 0x800_0000_0000_0000
  {
    hide Bits.Pow2, Bits.Shl;
    Pow2Values();
    ShlIs(q.parent, 61, 0x2000_0000_0000_0000);
    ShlIs(q.xn, 59, 0x800_0000_0000_0000);
    RemainderOf(q.parent * 0x2000_0000_0000_0000, WORDS, q.parent / 8, q.parent % 8 * 0x2000_0000_0000_0000);
    RemainderOf(q.xn * 0x800_0000_0000_0000, WORDS, q.xn / 32, q.xn % 32 * 0x800_0000_0000_0000);
    RemainderOf(q.parent * 4, 32, q.parent / 8, q.parent % 8 * 4);
  }

  const WORDS: nat := 0x1_0000_0000_0000_0000

  lemma ShlIs(a: nat, k: nat, m: nat)
    requires m == Pow2(k) && Pow2(64) == WORDS
    ensures Shl(a, k) == a * m % WORDS
  {
  }

  // Both conditional ORs together add exactly the mark of the level.
  lemma MarkedDescriptor(g: nat, page: nat, attrs: nat, q: Request, level: nat)
    requires IsGranule(g) && PageAddress(g, page) < ADDRESS_LIMIT
    ensures var d := TableEntry(g, page, attrs);
      var d1 := if level == ApLevel(g, q.choice) then Or(d, Shl(q.parent, 61)) else d;
      var d2 := if level == XnLevel(g, q.choice) then Or(d1, Shl(q.xn, 59)) else d1;
      d2 == TableEntry(g, page, Or(attrs, Mark(g, q, level)))
  {
    hide Bits.Shl, Bits.Pow2, ApLevel, XnLevel, TableEntries.TableEntry;
    ShiftedBits(q);
    var ap := if level == ApLevel(g, q.choice) then ApBits(q) else 0;
    var xn := if level == XnLevel(g, q.choice) then XnBits(q) else 0;
    OrAttributes(g, page, attrs, ap);
    OrAttributes(g, page, Or(attrs, ap), xn);
    OrAssociates(attrs, ap, xn);
  }

  // ----- one call, level by level

  lemma RepresentsShaped(b: seq<byte>, g: nat, t: Tree)
    requires Represents(b, g, t)
    ensures Shaped(g, t) && AttrsShaped(t) && Rooted(t)
  {
  }

  // A call on t0 has come down to the n-th table of t, and does what is left from there.
  ghost predicate Continues(t0: Tree, t: Tree, g: nat, length: nat, q: Request, n: nat) {
    && IsGranule(g)
    && AttrsShaped(t0) && Rooted(t0) && AttrsShaped(t)
    && 1 <= n <= Depth(g) && PathTo(g, q.va, n) in t.pages
    && RootEntryEnd(g, q.va) <= length
    && MapTree(t0, g, length, q) == Descend(t, g, length, q, n)
  }

  // A call on t0 fails, having made t of it.
  ghost predicate Fails(t0: Tree, t: Tree, g: nat, length: nat, q: Request, error: Status) {
    && IsGranule(g) && AttrsShaped(t0) && Rooted(t0)
    && MapTree(t0, g, length, q) == (Err(error), t)
  }

  ghost predicate Standing(t0: Tree, t: Tree, g: nat, length: nat, q: Request, level: nat, table: nat) {
    && IsGranule(g)
    && StartLevel(g) <= level <= 3
    && AttrsShaped(t0) && Rooted(t0) && AttrsShaped(t)
    && PathTo(g, q.va, level - StartLevel(g) + 1) in t.pages
    && table == PageOffset(g, t.pages[PathTo(g, q.va, level - StartLevel(g) + 1)])
    && (level == StartLevel(g) ==> t == t0)
    && (level > StartLevel(g) ==> Continues(t0, t, g, length, q, level - StartLevel(g) + 1))
  }

  lemma StandingParts(t0: Tree, t: Tree, g: nat, length: nat, q: Request, level: nat, table: nat)
    requires Standing(t0, t, g, length, q, level, table)
    ensures IsGranule(g) && StartLevel(g) <= level <= 3 && AttrsShaped(t)
    ensures SlotAt(t, g, q.va, level - StartLevel(g) + 1, table + 8 * Index(g, q.va, level))
  {
    hide Granules.PathTo, Granules.Index, MapTree, Descend, AttrsShaped, Rooted;
  }

  lemma StandingStarts(t: Tree, b: seq<byte>, g: nat, q: Request)
    requires Represents(b, g, t)
    ensures Standing(t, t, g, |b|, q, StartLevel(g), if Shr(q.va, 63) == 0 then 0 else g)
  {
    hide Descend, Granules.Index;
    assert PathTo(g, q.va, 1) == Top(Root(q.va));
  }

  lemma StandingInBuffer(t0: Tree, t: Tree, b: seq<byte>, g: nat, q: Request, level: nat, table: nat)
    requires Represents(b, g, t) && Standing(t0, t, g, |b|, q, level, table)
    ensures SlotAt(t, g, q.va, level - StartLevel(g) + 1, table + 8 * Index(g, q.va, level))
    ensures table + 8 * Index(g, q.va, level) + 8 > |b| ==> Fails(t0, t, g, |b|, q, BadBufferSize)
    ensures table + 8 * Index(g, q.va, level) + 8 <= |b| ==> Continues(t0, t, g, |b|, q, level - StartLevel(g) + 1)
  {
    hide TableWalk.Represents, Granules.Index, Descend, TableTrees.PagesShaped, TableTrees.LeavesShaped;
    SlotInBuffer(t, b, g, q.va, level - StartLevel(g) + 1);
  }

  lemma NextEntryRead(t0: Tree, t: Tree, b: seq<byte>, g: nat, q: Request, level: nat, table: nat)
    requires Represents(b, g, t) && level < 3 && Standing(t0, t, g, |b|, q, level, table)
    requires table + 8 * Index(g, q.va, level) + 8 <= |b|
    ensures IsGranule(g) && t.attrs.Keys == t.pages.Keys && 1 <= level - StartLevel(g) + 2 <= Depth(g)
    ensures ReadU64(b, table + 8 * Index(g, q.va, level)) == 0
       <==> PathTo(g, q.va, level - StartLevel(g) + 2) !in t.pages
  {
    hide TableWalk.Represents, Granules.Index, Granules.PathTo, Standing, Bytes.ReadU64;
    var n := level - StartLevel(g) + 1;
    RepresentsGranule(b, g, t);
    StandingParts(t0, t, g, |b|, q, level, table);
    if PathTo(g, q.va, n + 1) in t.pages {
      SlotHoldsTable(b, g, t, q.va, n);
    } else {
      SlotIsEmpty(b, g, t, q.va, n);
    }
  }

  // One step of the descent, through an existing table or into a fresh one.
  lemma ContinuesFollows(t0: Tree, t: Tree, g: nat, length: nat, q: Request, n: nat, attrs: nat)
    requires Continues(t0, t, g, length, q, n) && n < Depth(g) && PathTo(g, q.va, n + 1) in t.pages
    requires attrs == Or(t.attrs[PathTo(g, q.va, n + 1)], Mark(g, q, StartLevel(g) + n - 1)) && attrs < 32
    ensures Continues(t0, SetAttributes(t, PathTo(g, q.va, n + 1), attrs), g, length, q, n + 1)
  {
    hide Granules.PathTo, Granules.Index, MapTree, Mark, Bits.Or, Rooted, TableWalk.RootEntryEnd;
  }

  lemma ContinuesAllocates(t0: Tree, t: Tree, g: nat, length: nat, q: Request, n: nat)
    requires Continues(t0, t, g, length, q, n) && n < Depth(g) && PathTo(g, q.va, n + 1) !in t.pages
    requires |t.pages| < Capacity(g, length) && Mark(g, q, StartLevel(g) + n - 1) < 32
    ensures Continues(t0, AddTable(t, PathTo(g, q.va, n + 1), Mark(g, q, StartLevel(g) + n - 1)), g, length, q, n + 1)
  {
    hide Granules.PathTo, Granules.Index, MapTree, Mark, Bits.Or, Rooted, TableWalk.RootEntryEnd, Capacity;
  }

  lemma StandsAtNext(t0: Tree, t: Tree, g: nat, length: nat, q: Request, level: nat)
    requires StartLevel(g) < level <= 3 && Continues(t0, t, g, length, q, level - StartLevel(g) + 1)
    ensures Standing(t0, t, g, length, q, level, PageOffset(g, t.pages[PathTo(g, q.va, level - StartLevel(g) + 1)]))
  {
    hide Granules.PathTo, Granules.Index, MapTree, Descend, TableWalk.RootEntryEnd;
  }

  // Through an existing table: its descriptor gains the mark of the level.
  lemma StandingFollows(t0: Tree, t: Tree, b: seq<byte>, g: nat, q: Request, level: nat, table: nat)
    requires Represents(b, g, t) && level < 3 && Standing(t0, t, g, |b|, q, level, table)
    requires table + 8 * Index(g, q.va, level) + 8 <= |b|
    requires PathTo(g, q.va, level - StartLevel(g) + 2) in t.pages
    ensures var c, at := PathTo(g, q.va, level - StartLevel(g) + 2), table + 8 * Index(g, q.va, level);
      var attrs := Or(t.attrs[c], Mark(g, q, level));
      && ReadU64(b, at) == TableEntry(g, t.pages[c], t.attrs[c])
      && PageAddress(g, t.pages[c]) < ADDRESS_LIMIT
      && TableEntry(g, t.pages[c], attrs) <= U64_MAX
      && Represents(WriteU64(b, at, TableEntry(g, t.pages[c], attrs)), g, SetAttributes(t, c, attrs))
      && Standing(t0, SetAttributes(t, c, attrs), g, |b|, q, level + 1, PageOffset(g, t.pages[c]))
  {
    hide TableWalk.Represents, Granules.Index, Granules.PathTo, MapTree, Mark, Bytes.WriteU64, TableEntries.TableEntry;
    hide TableTrees.PagesShaped, TableTrees.LeavesShaped, Descend, Continues, Bits.Or, Bytes.ReadU64;
    StandingParts(t0, t, g, |b|, q, level, table);
    RepresentsShaped(b, g, t);
    var n := level - StartLevel(g) + 1;
    StandingInBuffer(t0, t, b, g, q, level, table);
    SlotHoldsTable(b, g, t, q.va, n);
    MarkFits(g, q, level);
    var attrs := Or(t.attrs[PathTo(g, q.va, n + 1)], Mark(g, q, level));
    OrFits(t.attrs[PathTo(g, q.va, n + 1)], Mark(g, q, level));
    WriteAttributes(b, g, t, q.va, n, attrs);
    ContinuesFollows(t0, t, g, |b|, q, n, attrs);
    StandsAtNext(t0, SetAttributes(t, PathTo(g, q.va, n + 1), attrs), g, |b|, q, level + 1);
  }

  lemma StandingAllocates(t0: Tree, t: Tree, b: seq<byte>, g: nat, q: Request, level: nat, table: nat)
    requires Represents(b, g, t) && level < 3 && Standing(t0, t, g, |b|, q, level, table)
    requires table + 8 * Index(g, q.va, level) + 8 <= |b|
    requires PathTo(g, q.va, level - StartLevel(g) + 2) !in t.pages
    requires |t.pages| < Capacity(g, |b|)
    ensures var c, at := PathTo(g, q.va, level - StartLevel(g) + 2), table + 8 * Index(g, q.va, level);
      var attrs := Mark(g, q, level);
      && PageAddress(g, |t.pages|) < ADDRESS_LIMIT
      && TableEntry(g, |t.pages|, attrs) <= U64_MAX
      && Represents(WriteU64(b, at, TableEntry(g, |t.pages|, attrs)), g, AddTable(t, c, attrs))
      && |AddTable(t, c, attrs).pages| == |t.pages| + 1
      && Standing(t0, AddTable(t, c, attrs), g, |b|, q, level + 1, PageOffset(g, |t.pages|))
  {
    hide TableWalk.Represents, Granules.Index, Granules.PathTo, MapTree, Mark, Bytes.WriteU64, TableEntries.TableEntry;
    hide TableTrees.PagesShaped, TableTrees.LeavesShaped, Descend, Continues, Bits.Or, Bytes.ReadU64;
    StandingParts(t0, t, g, |b|, q, level, table);
    RepresentsShaped(b, g, t);
    var n := level - StartLevel(g) + 1;
    StandingInBuffer(t0, t, b, g, q, level, table);
    RepresentsGranule(b, g, t);
    CapacityIsRoom(g, |t.pages|, |b|);
    MarkFits(g, q, level);
    WriteTable(b, g, t, q.va, n, Mark(g, q, level));
    MapGrows(t.pages, PathTo(g, q.va, n + 1), |t.pages|);
    ContinuesAllocates(t0, t, g, |b|, q, n);
    StandsAtNext(t0, AddTable(t, PathTo(g, q.va, n + 1), Mark(g, q, level)), g, |b|, q, level + 1);
  }

  lemma StandingExhausted(t0: Tree, t: Tree, b: seq<byte>, g: nat, q: Request, level: nat, table: nat)
    requires Represents(b, g, t) && level < 3 && Standing(t0, t, g, |b|, q, level, table)
    requires table + 8 * Index(g, q.va, level) + 8 <= |b|
    requires PathTo(g, q.va, level - StartLevel(g) + 2) !in t.pages
    requires |t.pages| >= Capacity(g, |b|)
    ensures Fails(t0, t, g, |b|, q, OutOfResources)
  {
    hide TableWalk.Represents, Granules.Index, Granules.PathTo, MapTree, Mark;
    StandingInBuffer(t0, t, b, g, q, level, table);
  }

  lemma StandingEnds(t0: Tree, t: Tree, b: seq<byte>, g: nat, q: Request, table: nat)
    requires Represents(b, g, t) && Standing(t0, t, g, |b|, q, 3, table)
    requires table + 8 * Index(g, q.va, 3) + 8 <= |b|
    ensures MapTree(t0, g, |b|, q) == (Ok(TABLE_PA + table + 8 * Index(g, q.va, 3)), SetLeaf(t, Key(g, q.va), q.leaf))
    ensures PathTo(g, q.va, Depth(g)) in t.pages
    ensures Represents(WriteU64(b, table + 8 * Index(g, q.va, 3), q.leaf), g, SetLeaf(t, Key(g, q.va), q.leaf))
  {
    hide TableWalk.Represents, Granules.Index, Granules.PathTo, MapTree, Bytes.WriteU64;
    StandingInBuffer(t0, t, b, g, q, 3, table);
    WriteLeaf(b, g, t, q.va, q.leaf);
  }

  // ----- the builder

  class Tables {
    const bytes: array<byte>
    const granule: nat
    var next: nat
    ghost var tree: Tree
    ghost var requests: seq<Request>

    ghost predicate Consistent()
      reads this, bytes
    {
      && Represents(bytes[..], granule, tree)
      && next == |tree.pages|
    }

    ghost predicate Valid()
      reads this, bytes
    {
      && Consistent()
      && tree == Run(granule, bytes.Length, requests)
    }

    constructor (bytes: array<byte>, granule: nat)
      requires IsGranule(granule) && TABLE_PA + bytes.Length <= ADDRESS_LIMIT
      requires bytes[..] == Zeros(bytes.Length)
      ensures Valid() && requests == []
      ensures this.bytes == bytes && this.granule == granule
    {
      this.bytes := bytes;
      this.granule := granule;
      next := 2;
      tree := EMPTY_TREE;
      requests := [];
      ZeroBufferIsEmpty(bytes[..], granule);
      EmptyIsShaped(granule);
    }

    method Write(offset: nat, value: u64)
      requires offset + 8 <= bytes.Length
      modifies bytes
      ensures bytes[..] == WriteU64(old(bytes[..]), offset, value) && Spells(bytes[..], offset, value)
      ensures forall k :: 0 <= k < 8 ==> bytes[offset + k] == value / Pow256(k) % 256
      ensures forall i :: 0 <= i < bytes.Length && !(offset <= i < offset + 8) ==> bytes[i] == old(bytes[i])
    {
      WriteSpells(bytes[..], offset, value);
      var source := ToLe(value, 8);
      forall i | 0 <= i < 8 {
        bytes[offset + i] := source[i];
      }
    }

    // One level: mark the descriptor of the next table, which is allocated if there is none.
    method NextTable(ghost t0: Tree, q: Request, level: nat, ghost table: nat, at: nat)
      returns (r: Result<nat, Status>)
      requires Consistent()
      requires level < 3 && Standing(t0, tree, granule, bytes.Length, q, level, table)
      requires at == table + 8 * Index(granule, q.va, level) && at + 8 <= bytes.Length
      modifies this`next, this`tree, bytes
      ensures Consistent()
      ensures r.Ok? ==> Standing(t0, tree, granule, bytes.Length, q, level + 1, r.value)
      ensures r.Err? ==> MapTree(t0, granule, bytes.Length, q) == (Err(r.error), tree)
    {
      hide TableWalk.Represents, Standing, MapTree, Granules.Index, Granules.PathTo, Mark, ApLevel, XnLevel;
      hide TableEntries.TableEntry, Bytes.WriteU64, TableTrees.PagesShaped, TableTrees.LeavesShaped, Bits.Shl;
      hide Bits.Or, Bits.And, Bytes.Spells;
      ghost var g, b, t := granule, bytes[..], tree;
      ghost var c := PathTo(g, q.va, level - StartLevel(g) + 2);
      assert bytes[at..at + 8] == b[at..at + 8];
      Pow256Values();
      var descriptor := Le(bytes[at..at + 8]);
      NextEntryRead(t0, t, b, g, q, level, table);
      ghost var page := if c in t.pages then t.pages[c] else |t.pages|;
      ghost var attrs := if c in t.pages then t.attrs[c] else 0;
      if descriptor == 0 {
        var unused := PageOffset(granule, next);
        CapacityIsRoom(g, next, bytes.Length);
        if unused + granule > bytes.Length {
          StandingExhausted(t0, t, b, g, q, level, table);
          return Err(OutOfResources);
        }
        StandingAllocates(t0, t, b, g, q, level, table);
        FreshTableEntry(g, next);
        OrZero(Mark(g, q, level));
        next := next + 1;
        descriptor := Or(TABLE_PA + unused, 3);
        tree := AddTable(t, c, Mark(g, q, level));
      } else {
        StandingFollows(t0, t, b, g, q, level, table);
        tree := SetAttributes(t, c, Or(attrs, Mark(g, q, level)));
      }
      assert descriptor == TableEntry(g, page, attrs);
      MarkedDescriptor(g, page, attrs, q, level);
      NextTableAddressMasked(g, page, Or(attrs, Mark(g, q, level)));
      if level == ApLevel(granule, q.choice) {
        descriptor := Or(descriptor, Shl(q.parent, 61));
      }
      if level == XnLevel(granule, q.choice) {
        descriptor := Or(descriptor, Shl(q.xn, 59));
      }
      Write(at, descriptor);
      var table' := And(descriptor, AddressMask(granule)) - TABLE_PA;
      return Ok(table');
    }

    method Map(va: u64, leaf: u64, parent: byte, xn: byte, choice: nat) returns (r: Result<u64, Status>)
      requires Valid()
      modifies this, bytes
      ensures Valid()
      ensures requests == old(requests) + [Request(va, leaf, parent, xn, choice)]
      ensures r == Outcome(granule, bytes.Length, requests, |old(requests)|)
      ensures r.Ok? ==> LeafSpelled(bytes[..], granule, va, leaf)
    {
      hide TableWalk.Represents, Standing, MapTree, Granules.Index, Granules.PathTo, Granules.Key;
      hide Bytes.WriteU64, Bits.Shr, Run, Outcome, Descend, TableWalk.Slot, TableWalk.RootEntryEnd;
      hide TableTrees.AttrsShaped, TableTrees.Shaped, Rooted, TableWalk.LeafSpelled, Bytes.Spells;
      var q := Request(va, leaf, parent, xn, choice);
      ghost var t0, g, length := tree, granule, bytes.Length;
      var table: nat := if Shr(va, 63) == 0 then 0 else granule;
      StandingStarts(tree, bytes[..], g, q);
      RepresentsGranule(bytes[..], g, tree);
      RepresentsShaped(bytes[..], g, tree);
      RunGrows(g, length, requests, q);
      requests := requests + [q];
      for level := StartLevel(granule) to 4
        invariant Consistent() && level <= 3
        invariant requests == old(requests) + [q]
        invariant Standing(t0, tree, g, length, q, level, table)
      {
        var at := table + Index(granule, va, level) * 8;
        StandingInBuffer(t0, tree, bytes[..], g, q, level, table);
        if at + 8 > bytes.Length {
          return Err(BadBufferSize);
        }
        if level == 3 {
          StandingEnds(t0, tree, bytes[..], g, q, table);
          RepresentsGranule(bytes[..], g, tree);
          Write(at, leaf);
          tree := SetLeaf(tree, Key(g, va), leaf);
          WalkIsSpelled(bytes[..], g, tree, va);
          return Ok(TABLE_PA + at);
        }
        var next := NextTable(t0, q, level, table, at);
        if next.Err? {
          return Err(next.error);
        }
        table := next.value;
      }
      r := Err(CompromisedData);
    }
  }
}
