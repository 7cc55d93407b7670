/** What attribute bits mean for access permissions: what later calls can take away from an
    address, when they can give something back, and when a call leaves permissions alone. */
module HierarchyPermissions {
  import opened Accesses
  import opened Uefi
  import opened Bits
  import opened Bytes
  import opened Granules
  import opened TableTrees
  import opened TableWalk
  import opened HierarchyTables
  import opened HierarchyRuns
  import opened HierarchyAttributes

  // ----- permissions

  // Row ap (leaf AP[2:1]), column parent (collected APTable): bit 0 EL1 write, bit 1 EL0
  // read, bit 2 EL0 write, bit 3 EL1 execute.
  const MATRIX: seq<seq<nat>> := [[9, 9, 8, 8], [7, 9, 10, 8], [8, 8, 8, 8], [10, 8, 10, 8]]

  predicate Allowed(op: Access, el: nat, ap: nat, parent: nat, xn: nat)
    requires ap < 4 && parent < 4
  {
    var row := MATRIX[ap][parent];
    match op
    case Load => el == 1 || And(row, 2) != 0
    case Store => if el == 1 then And(row, 1) != 0 else And(row, 4) != 0
    case Fetch => if el == 1 then And(row, 8) != 0 && And(xn, 1) == 0 else And(xn, 2) == 0
  }

  // The attribute field as collected by a walk: APTable in bits 3:2, execute-never in 1:0.
  predicate Permits(op: Access, el: nat, ap: nat, attrs: nat)
    requires ap < 4
  {
    Allowed(op, el, ap, attrs / 4 % 4, attrs % 4)
  }

  // The table says: a write needs AP[2] and APTable[1] clear, EL0 access needs AP[1] set and
  // APTable[0] clear, and EL1 may execute just what EL0 may not write.
  lemma MatrixMeaning(ap: nat, parent: nat)
    requires ap < 4 && parent < 4
    ensures var row := MATRIX[ap][parent];
      && (And(row, 1) != 0 <==> ap / 2 == 0 && parent / 2 == 0)
      && (And(row, 2) != 0 <==> ap % 2 == 1 && parent % 2 == 0)
      && (And(row, 4) != 0 <==> ap == 1 && parent == 0)
      && (And(row, 8) != 0 <==> And(row, 4) == 0)
  {
    hide Bits.And;
    RowBits(MATRIX[ap][parent]);
  }

  // A row's four bits, as digits.
  lemma RowBits(row: nat)
    requires row < 16
    ensures And(row, 1) == row % 2 && And(row, 2) == 2 * (row / 2 % 2)
    ensures And(row, 4) == 4 * (row / 2 / 2 % 2) && And(row, 8) == 8 * (row / 2 / 2 / 2 % 2)
  {
    hide Bits.And;
    AndOne(row);
    AndOne(row / 2);
    AndOne(row / 2 / 2);
    AndOne(row / 2 / 2 / 2);
    AndEven(row, 1);
    AndEven(row, 2);
    AndEven(row / 2, 1);
    AndEven(row, 4);
    AndEven(row / 2, 2);
    AndEven(row / 2 / 2, 1);
  }

  lemma AndOne(a: nat)
    ensures And(a, 1) == a % 2
  {
    AndStep(a, 1);
  }

  lemma AndEven(a: nat, p: nat)
    ensures And(a, 2 * p) == 2 * And(a / 2, p)
  {
    hide Bits.And;
    RemainderOf(2 * p, 2, p, 0);
    AndStep(a, 2 * p);
  }

  // Gaining attribute bits can only clear the write and EL0-access conditions.
  lemma FieldsGrow(a: nat, a': nat)
    requires Subset(a, a')
    ensures a / 4 % 4 / 2 <= a' / 4 % 4 / 2 && a / 4 % 4 % 2 <= a' / 4 % 4 % 2
    ensures And(a % 4, 1) <= And(a' % 4, 1) && And(a % 4, 2) <= And(a' % 4, 2)
  {
    if Bit(a, 0) { SubsetBit(a, a', 0); }
    if Bit(a, 1) { SubsetBit(a, a', 1); }
    if Bit(a, 2) { SubsetBit(a, a', 2); }
    if Bit(a, 3) { SubsetBit(a, a', 3); }
    LowFields(a);
    LowFields(a');
  }

  lemma ShrFew(a: nat)
    ensures Shr(a, 0) == a && Shr(a, 1) == a / 2 && Shr(a, 2) == a / 4 && Shr(a, 3) == a / 8
  {
    hide Bits.Shr;
    ShrStep(a, 0);
    ShrStep(a, 1);
    ShrStep(a / 2, 0);
    ShrStep(a, 2);
    ShrStep(a / 2, 1);
    ShrStep(a / 2 / 2, 0);
    ShrZero(a);
    ShrZero(a / 2);
    ShrZero(a / 2 / 2);
    ShrZero(a / 2 / 2 / 2);
  }

  lemma ShrStep(a: nat, k: nat)
    ensures Shr(a, k + 1) == Shr(a / 2, k)
  {
  }

  lemma ShrZero(a: nat)
    ensures Shr(a, 0) == a
  {
  }

  lemma LowFields(a: nat)
    ensures Bit(a, 0) <==> a % 2 == 1
    ensures Bit(a, 1) <==> a / 2 % 2 == 1
    ensures Bit(a, 2) <==> a / 4 % 4 % 2 == 1
    ensures Bit(a, 3) <==> a / 4 % 4 / 2 == 1
    ensures And(a % 4, 1) == a % 2 && And(a % 4, 2) == 2 * (a / 2 % 2)
  {
    hide Bits.Shr, Bits.And;
    ShrFew(a);
    LowTwo(a);
    LowTwo(a / 4);
    RemainderOf(a, 8, a / 4 / 2, a % 4 + 4 * (a / 4 % 2));
    AndOne(a % 4);
    AndEven(a % 4, 1);
    AndOne(a % 4 / 2);
  }

  lemma LowTwo(a: nat)
    ensures a % 4 % 2 == a % 2 && a % 4 / 2 == a / 2 % 2
  {
    var q, m := a / 4, a % 4;
    RemainderOf(a, 2, 2 * q + m / 2, m % 2);
    RemainderOf(2 * q + m / 2, 2, q, m / 2);
  }

  // More attribute bits never grant a data access, never grant EL0 execution, and grant EL1
  // execution only by taking EL0's write permission away.
  lemma PermissionsShrink(el: nat, ap: nat, a: nat, a': nat)
    requires ap < 4 && Subset(a, a')
    ensures Permits(Load, el, ap, a') ==> Permits(Load, el, ap, a)
    ensures Permits(Store, el, ap, a') ==> Permits(Store, el, ap, a)
    ensures el != 1 ==> Permits(Fetch, el, ap, a') ==> Permits(Fetch, el, ap, a)
    ensures el == 1 && Permits(Fetch, el, ap, a') && !Permits(Fetch, el, ap, a) ==>
      Permits(Store, 0, ap, a) && !Permits(Store, 0, ap, a')
  {
    hide Bits.And, Bits.Subset;
    FieldsGrow(a, a');
    MatrixMeaning(ap, a / 4 % 4);
    MatrixMeaning(ap, a' / 4 % 4);
  }

  // ----- permissions of a walk

  // The permission fields of a leaf descriptor: whether it is a page that has been accessed
  // before, AP[2:1] in bits 7:6, and its own execute-never bits 54 for EL0 and 53 for EL1.
  predicate Usable(leaf: u64) {
    leaf % 4 == 3 && leaf / 1024 % 2 == 1
  }

  function Ap(leaf: u64): (ap: nat)
    ensures ap < 4
  {
    leaf / 64 % 4
  }

  predicate BarsExecution(leaf: u64, el: nat) {
    if el == 1 then leaf / 0x20_0000_0000_0000 % 2 == 1 else leaf / 0x40_0000_0000_0000 % 2 == 1
  }

  // Adding bits 53 and 54 to such a leaf bars EL1, EL0, or both from executing.
  lemma ExecuteNeverFields(pa: nat, ap: nat, x: nat)
    requires pa % 4096 == 0 && pa < 0x1_0000_0000_0000 && ap < 4 && x < 4
    ensures var leaf := pa + 0x403 + ap * 64 + x * 0x20_0000_0000_0000;
      && leaf <= U64_MAX
      && (BarsExecution(leaf, 1) <==> x % 2 == 1)
      && (BarsExecution(leaf, 0) <==> x / 2 == 1)
  {
    var low := pa + 0x403 + ap * 64;
    var leaf := low + x * 0x20_0000_0000_0000;
    RemainderOf(leaf, 0x20_0000_0000_0000, x, low);
    RemainderOf(leaf, 0x40_0000_0000_0000, x / 2, low + x % 2 * 0x20_0000_0000_0000);
  }

  // The leaves the probe maps, with their two flag bits, type and AP field ORed in, have just
  // these fields.
  lemma ProbeLeafFields(pa: nat, ap: nat)
    requires pa % 4096 == 0 && pa < 0x1_0000_0000_0000 && ap < 4
    ensures Or(Or(pa, 0x403), ap * 64) == pa + 0x403 + ap * 64 <= U64_MAX
    ensures var leaf: u64 := pa + 0x403 + ap * 64;
      Usable(leaf) && Ap(leaf) == ap && forall el :: !BarsExecution(leaf, el)
  {
    hide Bits.Or, Bits.Join, Bits.Pow2;
    var q := pa / 4096;
    assert pa == 4096 * q;
    ProbeLeafSum(q, ap);
    var leaf: u64 := pa + 0x403 + ap * 64;
    RemainderOf(leaf, 4, 1024 * q + 256 + ap * 16, 3);
    RemainderOf(leaf, 1024, 4 * q + 1, 3 + ap * 64);
    RemainderOf(4 * q + 1, 2, 2 * q, 1);
    RemainderOf(leaf, 64, 64 * q + 16 + ap, 3);
    RemainderOf(64 * q + 16 + ap, 4, 16 * q + 4, ap);
    RemainderOf(leaf, 0x20_0000_0000_0000, 0, leaf);
    RemainderOf(leaf, 0x40_0000_0000_0000, 0, leaf);
  }

  lemma ProbeLeafSum(q: nat, ap: nat)
    requires ap < 4
    ensures Or(Or(4096 * q, 0x403), ap * 64) == 4096 * q + 0x403 + ap * 64
  {
    hide Bits.Or, Bits.Join, Bits.Pow2;
    Pow2Values();
    SmallPowers();
    // the page address above, the flags below bit 12
    JoinIsSum(q, 0, 12);
    JoinZero(0x403, 12);
    OrJoin(q, 0, 0, 0x403, 12);
    OrZero(q);
    OrZero(0x403);
    JoinIsSum(q, 0x403, 12);
    // everything from bit 8 up, and bits 7:6 in the low byte
    JoinIsSum(16 * q + 4, 3, 8);
    JoinZero(ap * 64, 8);
    OrJoin(16 * q + 4, 3, 0, ap * 64, 8);
    OrZero(16 * q + 4);
    JoinZero(3, 6);
    JoinIsSum(ap, 0, 6);
    OrJoin(0, 3, ap, 0, 6);
    OrZero(3);
    OrZero(ap);
    JoinIsSum(ap, 3, 6);
    JoinIsSum(16 * q + 4, ap * 64 + 3, 8);
  }

  lemma SmallPowers()
    ensures Pow2(2) == 4 && Pow2(6) == 64 && Pow2(8) == 256
  {
    Pow2Four(2);
    Pow2Four(4);
  }

  // An access is permitted by the leaf the walk finds and the attributes it collects.
  predicate WalkPermits(op: Access, el: nat, w: Walk) {
    && w.Leaf? && Usable(w.descriptor)
    && (op == Fetch ==> !BarsExecution(w.descriptor, el))
    && Permits(op, el, Ap(w.descriptor), w.attrs)
  }

  predicate Gains(op: Access, el: nat, w: Walk, w': Walk) {
    WalkPermits(op, el, w') && !WalkPermits(op, el, w)
  }

  // Data accesses and EL0 execution are only lost, and EL1 execution is gained only where
  // EL0 loses its write.
  ghost predicate Shrinks(w: Walk, w': Walk) {
    && (forall op, el: nat | Gains(op, el, w, w') :: op == Fetch && el == 1)
    && (Gains(Fetch, 1, w, w') ==> Gains(Store, 0, w', w))
  }

  ghost predicate AllowSame(w: Walk, w': Walk) {
    forall op, el: nat :: WalkPermits(op, el, w) <==> WalkPermits(op, el, w')
  }

  // The matrix as one rule, on the fields p (APTable) and x (execute-never) of the attributes.
  predicate Rule(op: Access, el: nat, ap: nat, p: nat, x: nat) {
    match op
    case Load => el == 1 || (ap % 2 == 1 && p % 2 == 0)
    case Store => if el == 1 then ap / 2 == 0 && p / 2 == 0 else ap == 1 && p == 0
    case Fetch => if el == 1 then !(ap == 1 && p == 0) && x % 2 == 0 else x / 2 == 0
  }

  lemma PermitsRule(op: Access, el: nat, ap: nat, a: nat)
    requires ap < 4
    ensures Permits(op, el, ap, a) <==> Rule(op, el, ap, a / 4 % 4, a % 4)
  {
    hide Bits.And;
    MatrixMeaning(ap, a / 4 % 4);
    LowFields(a);
    LowTwo(a);
  }

  lemma RulesGrow(a: nat, a': nat)
    requires Subset(a, a')
    ensures a / 4 % 4 / 2 <= a' / 4 % 4 / 2 && a / 4 % 4 % 2 <= a' / 4 % 4 % 2
    ensures a % 4 / 2 <= a' % 4 / 2 && a % 4 % 2 <= a' % 4 % 2
  {
    hide Bits.And, Bits.Subset;
    FieldsGrow(a, a');
    LowFields(a);
    LowFields(a');
    LowTwo(a);
    LowTwo(a');
  }

  // ----- what is gained when a leaf is replaced

  // The new AP field gives a data access that the old one denied, and the APTable bits by now
  // collected do not take it: EL1's writes, or EL0's reads.
  predicate DataOpened(ap: nat, ap': nat, attrs': nat) {
    || (ap / 2 == 1 && ap' / 2 == 0 && attrs' / 4 % 4 / 2 == 0)
    || (ap % 2 == 0 && ap' % 2 == 1 && attrs' / 4 % 4 % 2 == 0)
  }

  // Which accesses a walk gains when the leaf is replaced. Data accesses: exactly when the new
  // leaf is usable and the old one was not or had an AP field that denied one of them. EL0
  // execution: exactly when it is permitted now and the old leaf itself denied it. EL1
  // execution: likewise, or EL0's write kept EL1 from it before.
  ghost predicate GainsExactly(w: Walk, w': Walk, leaf: u64, leaf': u64) {
    && w.Leaf? && w'.Leaf?
    && ((exists op, el: nat :: op != Fetch && Gains(op, el, w, w'))
          <==> Usable(leaf') && (!Usable(leaf) || DataOpened(Ap(leaf), Ap(leaf'), w'.attrs)))
    && (forall el: nat | el != 1 ::
          Gains(Fetch, el, w, w') <==> WalkPermits(Fetch, el, w') && (!Usable(leaf) || BarsExecution(leaf, el)))
    && (Gains(Fetch, 1, w, w') <==>
          WalkPermits(Fetch, 1, w') && (!Usable(leaf) || BarsExecution(leaf, 1) || WalkPermits(Store, 0, w)))
  }

  lemma WalkGains(w: Walk, w': Walk)
    requires w.Leaf? && w'.Leaf? && Subset(w.attrs, w'.attrs)
    ensures GainsExactly(w, w', w.descriptor, w'.descriptor)
  {
    hide Permits, Bits.Subset, Ap, Usable, BarsExecution;
    var ap, ap' := Ap(w.descriptor), Ap(w'.descriptor);
    forall op: Access, el: nat
      ensures Permits(op, el, ap, w.attrs) <==> Rule(op, el, ap, w.attrs / 4 % 4, w.attrs % 4)
      ensures Permits(op, el, ap', w'.attrs) <==> Rule(op, el, ap', w'.attrs / 4 % 4, w'.attrs % 4)
    {
      PermitsRule(op, el, ap, w.attrs);
      PermitsRule(op, el, ap', w'.attrs);
    }
    RulesGrow(w.attrs, w'.attrs);
    assert Gains(Load, 1, w, w') <==> Usable(w'.descriptor) && !Usable(w.descriptor);
    if Usable(w.descriptor) && Usable(w'.descriptor) && DataOpened(ap, ap', w'.attrs) {
      assert Gains(Store, 1, w, w') || Gains(Load, 0, w, w');
    }
  }

  // Leaves with the same permission fields.
  predicate SameFields(leaf: u64, leaf': u64) {
    && (Usable(leaf) <==> Usable(leaf')) && Ap(leaf) == Ap(leaf')
    && (BarsExecution(leaf, 0) <==> BarsExecution(leaf', 0))
    && (BarsExecution(leaf, 1) <==> BarsExecution(leaf', 1))
  }

  lemma SameFieldsShrink(w: Walk, w': Walk)
    requires w.Leaf? && w'.Leaf? && SameFields(w.descriptor, w'.descriptor) && Subset(w.attrs, w'.attrs)
    ensures Shrinks(w, w')
  {
    hide Permits, Bits.Subset, Ap, Usable;
    forall op, el: nat | Gains(op, el, w, w') ensures op == Fetch && el == 1 {
      PermissionsShrink(el, Ap(w.descriptor), w.attrs, w'.attrs);
    }
    PermissionsShrink(1, Ap(w.descriptor), w.attrs, w'.attrs);
  }

  // ----- when nothing changes

  // None of the bits gained matters to the leaf: APTable[1] does if it is writable, APTable[0]
  // if EL0 may access it, and each execute-never bit unless the leaf has its own; nor does
  // EL1's where EL0's write keeps EL1 from executing anyway.
  predicate Unaffected(leaf: u64, a: nat, a': nat) {
    var ap, p, p' := Ap(leaf), a / 4 % 4, a' / 4 % 4;
    Usable(leaf) ==>
      && (ap / 2 == 0 ==> p / 2 == p' / 2)
      && (ap % 2 == 1 ==> p % 2 == p' % 2)
      && (BarsExecution(leaf, 0) || a % 4 / 2 == a' % 4 / 2)
      && (BarsExecution(leaf, 1) || (ap == 1 && p == 0) || a % 4 % 2 == a' % 4 % 2)
  }

  lemma PermissionsUnchanged(w: Walk, w': Walk)
    requires w.Leaf? && w'.Leaf? && w.descriptor == w'.descriptor && Subset(w.attrs, w'.attrs)
    ensures AllowSame(w, w') <==> Unaffected(w.descriptor, w.attrs, w'.attrs)
  {
    hide Permits, Bits.Subset, Ap, Usable, BarsExecution;
    var leaf := w.descriptor;
    forall op: Access, el: nat
      ensures Permits(op, el, Ap(leaf), w.attrs) <==> Rule(op, el, Ap(leaf), w.attrs / 4 % 4, w.attrs % 4)
      ensures Permits(op, el, Ap(leaf), w'.attrs) <==> Rule(op, el, Ap(leaf), w'.attrs / 4 % 4, w'.attrs % 4)
    {
      PermitsRule(op, el, Ap(leaf), w.attrs);
      PermitsRule(op, el, Ap(leaf), w'.attrs);
    }
    RulesGrow(w.attrs, w'.attrs);
    ExecutionBars(leaf);
    if AllowSame(w, w') {
      assert WalkPermits(Store, 1, w) <==> WalkPermits(Store, 1, w');
      assert WalkPermits(Load, 0, w) <==> WalkPermits(Load, 0, w');
      assert WalkPermits(Fetch, 0, w) <==> WalkPermits(Fetch, 0, w');
      assert WalkPermits(Fetch, 1, w) <==> WalkPermits(Fetch, 1, w');
    }
  }

  lemma ExecutionBars(leaf: u64)
    ensures forall el: nat | el != 1 :: BarsExecution(leaf, el) <==> BarsExecution(leaf, 0)
  {
  }

  // ----- whole runs and single calls

  // What a mapped address's walk finds after a run.
  lemma WalkHasLastLeaf(b: seq<byte>, g: nat, requests: seq<Request>, va: u64)
    requires IsGranule(g) && Represents(b, g, Run(g, |b|, requests)) && WalkVa(b, g, va).Leaf?
    ensures WalkVa(b, g, va).descriptor == LastLeaf(g, |b|, requests, Key(g, va))
  {
    hide TableWalk.Represents, WalkVa, LastLeaf, Run, Granules.Key;
    EveryWalkIsLastLeaf(b, g, requests, va);
  }

  // Exactly which accesses a mapped address gains along any run: it depends on the leaves
  // last mapped under its key.
  lemma MappedPermissionsGained(b: seq<byte>, b': seq<byte>, g: nat, requests: seq<Request>, n: nat, va: u64)
    requires IsGranule(g) && n <= |requests| && |b| == |b'|
    requires Represents(b, g, Run(g, |b|, requests[..n])) && Represents(b', g, Run(g, |b|, requests))
    requires WalkVa(b, g, va).Leaf?
    ensures GainsExactly(WalkVa(b, g, va), WalkVa(b', g, va),
                         LastLeaf(g, |b|, requests[..n], Key(g, va)), LastLeaf(g, |b|, requests, Key(g, va)))
  {
    hide TableWalk.Represents, WalkVa, Run, GainsExactly, Bits.Subset, LastLeaf;
    MappedWalkStays(b, b', g, requests, n, va);
    WalkHasLastLeaf(b, g, requests[..n], va);
    WalkHasLastLeaf(b', g, requests, va);
    WalkGains(WalkVa(b, g, va), WalkVa(b', g, va));
  }

  // So permissions only shrink while the leaf's permission fields stay the same, in
  // particular while no later call maps the address's key.
  lemma MappedPermissionsShrink(b: seq<byte>, b': seq<byte>, g: nat, requests: seq<Request>, n: nat, va: u64)
    requires IsGranule(g) && n <= |requests| && |b| == |b'|
    requires Represents(b, g, Run(g, |b|, requests[..n])) && Represents(b', g, Run(g, |b|, requests))
    requires WalkVa(b, g, va).Leaf?
    ensures NotRemapped(g, |b|, requests, n, Key(g, va)) ==>
      WalkVa(b', g, va).Leaf? && WalkVa(b', g, va).descriptor == WalkVa(b, g, va).descriptor
    ensures SameFields(LastLeaf(g, |b|, requests[..n], Key(g, va)), LastLeaf(g, |b|, requests, Key(g, va))) ==>
      Shrinks(WalkVa(b, g, va), WalkVa(b', g, va))
    ensures NotRemapped(g, |b|, requests, n, Key(g, va)) ==> Shrinks(WalkVa(b, g, va), WalkVa(b', g, va))
  {
    hide TableWalk.Represents, WalkVa, Run, Bits.Subset, LastLeaf, SameFields, Shrinks, NotRemapped, Granules.Key;
    var w, w' := WalkVa(b, g, va), WalkVa(b', g, va);
    MappedWalkStays(b, b', g, requests, n, va);
    WalkHasLastLeaf(b, g, requests[..n], va);
    WalkHasLastLeaf(b', g, requests, va);
    if NotRemapped(g, |b|, requests, n, Key(g, va)) {
      LeafStays(g, |b|, requests, n, Key(g, va));
    }
    FieldsOfOne(w.descriptor);
    if SameFields(w.descriptor, w'.descriptor) {
      SameFieldsShrink(w, w');
    }
  }

  lemma FieldsOfOne(leaf: u64)
    ensures SameFields(leaf, leaf)
  {
  }

  // Exactly when a call leaves the permissions of another address alone, in particular when
  // a failed call does: if and only if none of the marks it adds to what the address has
  // collected matters to the leaf. Otherwise permissions shrink.
  lemma CallLeavesPermissions(b: seq<byte>, b': seq<byte>, g: nat, requests: seq<Request>, q: Request, va: u64)
    requires IsGranule(g) && |b| == |b'|
    requires Represents(b, g, Run(g, |b|, requests)) && Represents(b', g, Run(g, |b|, requests + [q]))
    requires Elsewhere(g, |b|, requests, q, Key(g, va)) && WalkVa(b, g, va).Leaf?
    ensures AllowSame(WalkVa(b, g, va), WalkVa(b', g, va)) <==>
      Unaffected(WalkVa(b, g, va).descriptor, WalkVa(b, g, va).attrs,
                 Or(WalkVa(b, g, va).attrs, MarksLeft(g, |b|, q, va)))
    ensures Shrinks(WalkVa(b, g, va), WalkVa(b', g, va))
  {
    hide TableWalk.Represents, WalkVa, Run, AllowSame, Elsewhere, Unaffected, MarksLeft, Shrinks, SameFields, Bits.Or;
    var w, w' := WalkVa(b, g, va), WalkVa(b', g, va);
    CallLeavesWalk(b, b', g, requests, q, va);
    OrGrows(w.attrs, MarksLeft(g, |b|, q, va));
    FieldsOfOne(w.descriptor);
    SameFieldsShrink(w, w');
    PermissionsUnchanged(w, w');
  }

  // ----- two runs that show the conditions matter

  // Marks of failed calls do occur: with the pool used up by a mapping of address 0, a call
  // for an address that shares only the first table fails, having marked that table. Unless
  // its leaf was read-only and barred to EL0 already, address 0 loses permissions, a
  // writable one EL1's writes.
  lemma FailedCallMarks(leaf: u64, at: nat)
    ensures var first, second := Request(0, leaf, 0, 0, 0), Request(0x4000_0000, leaf, 3, 0, 0);
      && Outcome(4096, 20480, [first], 0).Ok?
      && Outcome(4096, 20480, [first] + [second], 1) == Err(OutOfResources)
      && Collected(4096, 20480, [first], 0) == 0
      && Collected(4096, 20480, [first] + [second], 0) == 12
    ensures Usable(leaf) ==>
      && (AllowSame(Leaf(leaf, at, 0), Leaf(leaf, at, 12)) <==> Ap(leaf) == 2)
      && (Ap(leaf) < 2 ==> Gains(Store, 1, Leaf(leaf, at, 12), Leaf(leaf, at, 0)))
  {
    hide Run, Outcome, MapTree, Descend, Inherited, Filled, AttrsShaped, AllowSame, Gains, Usable, Ap;
    var first, second := Request(0, leaf, 0, 0, 0), Request(0x4000_0000, leaf, 3, 0, 0);
    FirstCall(leaf);
    SecondCall(leaf);
    NoCalls();
    assert [] + [first] == [first];
    RunGrows(4096, 20480, [], first);
    RunGrows(4096, 20480, [first], second);
    MarksMatter(leaf, at);
  }

  lemma MarksMatter(leaf: u64, at: nat)
    ensures Usable(leaf) ==>
      && (AllowSame(Leaf(leaf, at, 0), Leaf(leaf, at, 12)) <==> Ap(leaf) == 2)
      && (Ap(leaf) < 2 ==> Gains(Store, 1, Leaf(leaf, at, 12), Leaf(leaf, at, 0)))
  {
    hide Permits, AllowSame, Bits.Subset, Usable, Ap, BarsExecution;
    OrZero(12);
    OrCommutes(0, 12);
    OrGrows(0, 12);
    PermissionsUnchanged(Leaf(leaf, at, 0), Leaf(leaf, at, 12));
    PermitsRule(Store, 1, Ap(leaf), 0);
    PermitsRule(Store, 1, Ap(leaf), 12);
  }

  // Mapping address 0 once more, with any other leaf, succeeds and collects nothing. A leaf
  // that was read-only for EL1 only and is now writable for both gives EL1 its writes and
  // EL0 its reads: without the condition on the leaf's fields permissions may grow.
  lemma RemapGrants(leaf: u64, leaf': u64, at: nat)
    ensures var first, second := Request(0, leaf, 0, 0, 0), Request(0, leaf', 0, 0, 0);
      && Outcome(4096, 20480, [first], 0).Ok?
      && Outcome(4096, 20480, [first] + [second], 1).Ok?
      && LastLeaf(4096, 20480, [first], Key(4096, 0)) == leaf
      && LastLeaf(4096, 20480, [first] + [second], Key(4096, 0)) == leaf'
      && Collected(4096, 20480, [first], 0) == 0
      && Collected(4096, 20480, [first] + [second], 0) == 0
    ensures Usable(leaf') && Ap(leaf) == 2 && Ap(leaf') == 1 ==>
      && Gains(Store, 1, Leaf(leaf, at, 0), Leaf(leaf', at, 0))
      && Gains(Load, 0, Leaf(leaf, at, 0), Leaf(leaf', at, 0))
  {
    hide Run, MapTree, Descend, Inherited, Filled, AttrsShaped, Gains, Ap, Usable, Granules.Key;
    var first, second := Request(0, leaf, 0, 0, 0), Request(0, leaf', 0, 0, 0);
    FirstCall(leaf);
    RepeatedCall(leaf, leaf');
    InheritedOfFilled(leaf', 0);
    NoCalls();
    assert [] + [first] == [first];
    RunGrows(4096, 20480, [], first);
    RunGrows(4096, 20480, [first], second);
    if Usable(leaf') && Ap(leaf) == 2 && Ap(leaf') == 1 {
      OpenedByRemap(leaf, leaf', at);
    }
  }

  lemma OpenedByRemap(leaf: u64, leaf': u64, at: nat)
    requires Usable(leaf') && Ap(leaf) == 2 && Ap(leaf') == 1
    ensures Gains(Store, 1, Leaf(leaf, at, 0), Leaf(leaf', at, 0))
    ensures Gains(Load, 0, Leaf(leaf, at, 0), Leaf(leaf', at, 0))
  {
    hide Permits, Ap, Usable;
    PermitsRule(Store, 1, 1, 0);
    PermitsRule(Store, 1, 2, 0);
    PermitsRule(Load, 0, 1, 0);
    PermitsRule(Load, 0, 2, 0);
  }

  lemma NoCalls()
    ensures Run(4096, 20480, []) == EMPTY_TREE
  {
  }

  // The tree once address 0 is mapped: one table at each level, five pages in all.
  function Filled(leaf: u64, mark: nat): Tree {
    var p1, p2, p3 := Child(Top(0), 0), Child(Child(Top(0), 0), 0), Child(Child(Child(Top(0), 0), 0), 0);
    Tree(map[Top(0) := 0, Top(1) := 1, p1 := 2, p2 := 3, p3 := 4],
         map[Top(0) := 0, Top(1) := 0, p1 := mark, p2 := 0, p3 := 0],
         map[Child(p3, 0) := leaf])
  }

  lemma PathsOfLow(va: u64)
    requires va == 0 || va == 0x4000_0000
    ensures PathTo(4096, va, 1) == Top(0)
    ensures PathTo(4096, va, 2) == Child(Top(0), 0)
    ensures PathTo(4096, va, 3) == Child(Child(Top(0), 0), if va == 0 then 0 else 1)
    ensures va == 0 ==> PathTo(4096, va, 4) == Child(Child(Child(Top(0), 0), 0), 0)
    ensures va == 0 ==> Key(4096, va) == Child(Child(Child(Child(Top(0), 0), 0), 0), 0)
    ensures RootEntryEnd(4096, va) == 8
  {
    hide Granules.Index, Bits.Shr, Bits.Pow2;
    IndexFields4K(va);
    KeyElements(4096, va);
    Pow2Values();
    ShrIsDivision(va, 63, 0x8000_0000_0000_0000);
    assert PathTo(4096, va, 2) == Child(PathTo(4096, va, 1), Index(4096, va, 0));
    assert PathTo(4096, va, 3) == Child(PathTo(4096, va, 2), Index(4096, va, 1));
    assert PathTo(4096, va, 4) == Child(PathTo(4096, va, 3), Index(4096, va, 2));
  }

  // A buffer of 20480 bytes holds five pages.
  lemma FivePages()
    ensures Capacity(4096, 20480) == 5 && Depth(4096) == 4 && StartLevel(4096) == 0
  {
  }

  lemma Allocates(t: Tree, q: Request, n: nat)
    requires AttrsShaped(t) && 1 <= n < 4 && PathTo(4096, q.va, n) in t.pages
    requires PathTo(4096, q.va, n + 1) !in t.pages && |t.pages| < 5 && Mark(4096, q, n - 1) == 0
    ensures var t' := AddTable(t, PathTo(4096, q.va, n + 1), 0);
      && AttrsShaped(t') && |t'.pages| == |t.pages| + 1
      && Descend(t, 4096, 20480, q, n) == Descend(t', 4096, 20480, q, n + 1)
  {
    hide Granules.PathTo, Mark, Capacity, Descend, AttrsShaped;
    FivePages();
    DescendAllocates(t, 4096, 20480, q, n);
    MapGrows(t.pages, PathTo(4096, q.va, n + 1), |t.pages|);
  }

  lemma FirstCall(leaf: u64)
    ensures var q := Request(0, leaf, 0, 0, 0);
      && AttrsShaped(EMPTY_TREE)
      && MapTree(EMPTY_TREE, 4096, 20480, q).0.Ok?
      && MapTree(EMPTY_TREE, 4096, 20480, q).1 == Filled(leaf, 0)
      && Inherited(Filled(leaf, 0), 4096, 0, 1, 0) == 0
  {
    hide Granules.Index, Granules.PathTo, Granules.Key, Bits.Or, Descend, Mark, Capacity;
    var q := Request(0, leaf, 0, 0, 0);
    PathsOfLow(0);
    NoMarks(q);
    var p1, p2, p3 := Child(Top(0), 0), Child(Child(Top(0), 0), 0), Child(Child(Child(Top(0), 0), 0), 0);
    assert |EMPTY_TREE.pages| == 2 && AttrsShaped(EMPTY_TREE);
    Allocates(EMPTY_TREE, q, 1);
    var t1 := AddTable(EMPTY_TREE, p1, 0);
    Allocates(t1, q, 2);
    var t2 := AddTable(t1, p2, 0);
    Allocates(t2, q, 3);
    var t3 := AddTable(t2, p3, 0);
    DescendEnds(t3, 4096, 20480, q);
    assert SetLeaf(t3, Child(p3, 0), leaf) == Filled(leaf, 0);
    InheritedOfFilled(leaf, 0);
  }

  lemma NoMarks(q: Request)
    requires q.parent == 0 && q.xn == 0
    ensures forall level: nat :: Mark(4096, q, level) == 0
  {
  }

  lemma InheritedOfFilled(leaf: u64, mark: nat)
    ensures Inherited(Filled(leaf, mark), 4096, 0, 1, 0) == mark
  {
    hide Granules.Index, Granules.PathTo, Granules.Key, Bits.Or;
    PathsOfLow(0);
    OrZero(mark);
    OrZero(0);
    var t := Filled(leaf, mark);
    assert Inherited(t, 4096, 0, 3, mark) == mark;
  }

  lemma SecondCall(leaf: u64)
    ensures var q := Request(0x4000_0000, leaf, 3, 0, 0);
      && AttrsShaped(Filled(leaf, 0))
      && MapTree(Filled(leaf, 0), 4096, 20480, q) == (Err(OutOfResources), Filled(leaf, 12))
      && Inherited(Filled(leaf, 12), 4096, 0, 1, 0) == 12
  {
    hide Granules.Index, Granules.PathTo, Granules.Key, Bits.Or, Descend, Mark, Filled, AttrsShaped, Inherited;
    hide Capacity;
    var q := Request(0x4000_0000, leaf, 3, 0, 0);
    PathsOfLow(0x4000_0000);
    InheritedOfFilled(leaf, 12);
    MarkOfSecond(q);
    OrZero(12);
    FilledPages(leaf, 0);
    FilledPages(leaf, 12);
    FivePages();
    DescendFollows(Filled(leaf, 0), 4096, 20480, q, 1, 12);
    DescendFails(Filled(leaf, 12), 4096, 20480, q, 2);
  }

  lemma FilledPages(leaf: u64, mark: nat)
    requires mark < 32
    ensures var t, p1 := Filled(leaf, mark), Child(Top(0), 0);
      && AttrsShaped(t) && |t.pages| == 5
      && Top(0) in t.pages && Top(1) in t.pages && p1 in t.pages && Child(p1, 1) !in t.pages
      && t.attrs[p1] == mark
      && SetAttributes(t, p1, 12) == Filled(leaf, 12)
  {
  }

  lemma MarkOfSecond(q: Request)
    requires q.parent == 3 && q.xn == 0 && q.choice == 0
    ensures Mark(4096, q, 0) == 12
  {
    OrZero(12);
  }

  lemma RepeatedCall(leaf: u64, leaf': u64)
    ensures var q := Request(0, leaf', 0, 0, 0);
      && AttrsShaped(Filled(leaf, 0))
      && MapTree(Filled(leaf, 0), 4096, 20480, q).0.Ok?
      && MapTree(Filled(leaf, 0), 4096, 20480, q).1 == Filled(leaf', 0)
  {
    hide Granules.Index, Granules.PathTo, Granules.Key, Bits.Or, Descend, Mark, Capacity, Filled, AttrsShaped;
    hide SetAttributes, SetLeaf;
    var q, t := Request(0, leaf', 0, 0, 0), Filled(leaf, 0);
    PathsOfLow(0);
    NoMarks(q);
    OrZero(0);
    FivePages();
    FilledStays(leaf, leaf');
    DescendFollows(t, 4096, 20480, q, 1, 0);
    DescendFollows(t, 4096, 20480, q, 2, 0);
    DescendFollows(t, 4096, 20480, q, 3, 0);
    DescendEnds(t, 4096, 20480, q);
  }

  lemma FilledStays(leaf: u64, leaf': u64)
    ensures var t, p1 := Filled(leaf, 0), Child(Top(0), 0);
      var p2, p3 := Child(p1, 0), Child(Child(p1, 0), 0);
      && AttrsShaped(t) && Rooted(t) && t.pages.Keys == {Top(0), Top(1), p1, p2, p3}
      && (forall p | p in t.pages :: t.attrs[p] == 0 && SetAttributes(t, p, 0) == t)
      && SetLeaf(t, Child(p3, 0), leaf') == Filled(leaf', 0)
  {
  }
}
