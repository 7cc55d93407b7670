/** When does an unordered list of memory descriptors (UEFI 2.10, section 7.2.3) tile an
    address range, every byte in exactly one descriptor? The firmware-map checks decide
    this by adding up intersection lengths and walking a cursor over the range; the lemmas
    here show by double counting that the two together are sound and complete. */
module MemoryMaps {
  import opened Bits
  import opened Counting

  const PAGE: nat := 4096

  datatype Descriptor = Descriptor(kind: nat, start: u64, pages: u64)

  function Limit(d: Descriptor): nat {
    d.start + d.pages * PAGE
  }

  predicate Holds(d: Descriptor, a: nat) {
    d.start <= a < Limit(d)
  }

  function Overlap(d: Descriptor, lo: nat, hi: nat): nat {
    var from, until := Max(lo, d.start), Min(hi, Limit(d));
    if from < until then until - from else 0
  }

  predicate Intersects(d: Descriptor, lo: nat, hi: nat) {
    Overlap(d, lo, hi) > 0
  }

  // ----- sums and counts over a list

  function TotalOverlap(ds: seq<Descriptor>, lo: nat, hi: nat): nat {
    if |ds| == 0 then 0 else TotalOverlap(ds[..|ds| - 1], lo, hi) + Overlap(ds[|ds| - 1], lo, hi)
  }

  function Intersecting(ds: seq<Descriptor>, lo: nat, hi: nat): nat {
    if |ds| == 0 then 0
    else Intersecting(ds[..|ds| - 1], lo, hi) + if Intersects(ds[|ds| - 1], lo, hi) then 1 else 0
  }

  // How many descriptors contain address a.
  function Holders(ds: seq<Descriptor>, a: nat): nat {
    if |ds| == 0 then 0 else Holders(ds[..|ds| - 1], a) + if Holds(ds[|ds| - 1], a) then 1 else 0
  }

  // A descriptor meets a range when it holds one of its addresses.
  lemma IntersectsMeans(d: Descriptor, lo: nat, hi: nat)
    ensures Intersects(d, lo, hi) <==> exists a: nat :: lo <= a < hi && Holds(d, a)
  {
    if Intersects(d, lo, hi) {
      assert Holds(d, Max(lo, d.start));
    }
  }

  // The indices of the descriptors that meet the range.
  function Meets(ds: seq<Descriptor>, lo: nat, hi: nat): nat -> bool {
    (i: nat) => i < |ds| && Intersects(ds[i], lo, hi)
  }

  lemma {:induction false} IntersectingCount(ds: seq<Descriptor>, lo: nat, hi: nat)
    ensures Intersecting(ds, lo, hi) == CountBelow(|ds|, Meets(ds, lo, hi))
  {
    hide CountBelow, Intersects;
    if |ds| == 0 {
      CountNone(Meets(ds, lo, hi));
    } else {
      var n := |ds| - 1;
      IntersectingCount(ds[..n], lo, hi);
      CountSame(n, Meets(ds[..n], lo, hi), Meets(ds, lo, hi));
      CountNext(n, Meets(ds, lo, hi));
    }
  }

  // Every address of [lo, hi) is in exactly one descriptor.
  ghost predicate Tiles(ds: seq<Descriptor>, lo: nat, hi: nat) {
    forall a: nat | lo <= a < hi :: Holders(ds, a) == 1
  }

  ghost predicate Covered(ds: seq<Descriptor>, lo: nat, hi: nat) {
    forall a: nat | lo <= a < hi :: Holders(ds, a) >= 1
  }

  lemma {:induction false} HoldersPositive(ds: seq<Descriptor>, a: nat)
    ensures Holders(ds, a) >= 1 <==> exists i :: 0 <= i < |ds| && Holds(ds[i], a)
  {
    if |ds| > 0 {
      var n := |ds| - 1;
      HoldersPositive(ds[..n], a);
      if Holders(ds[..n], a) >= 1 {
        var i :| 0 <= i < n && Holds(ds[..n][i], a);
        assert Holds(ds[i], a);
      } else {
        assert forall i :: 0 <= i < n ==> ds[i] == ds[..n][i];
      }
    }
  }

  // One holder means one index, and conversely.
  lemma {:induction false} HoldersUnique(ds: seq<Descriptor>, a: nat, i: nat)
    requires i < |ds| && Holds(ds[i], a)
    ensures Holders(ds, a) == 1 <==> forall j :: 0 <= j < |ds| && Holds(ds[j], a) ==> j == i
  {
    var n := |ds| - 1;
    assert forall j :: 0 <= j < n ==> ds[j] == ds[..n][j];
    HoldersPositive(ds[..n], a);
    if i < n {
      HoldersUnique(ds[..n], a, i);
    }
  }

  // ----- double counting

  lemma OverlapStep(d: Descriptor, lo: nat, e: nat)
    requires lo <= e
    ensures Overlap(d, lo, e + 1) == Overlap(d, lo, e) + if Holds(d, e) then 1 else 0
  {
  }

  // Extending the range by one address adds the number of descriptors that contain it.
  lemma {:induction false} TotalStep(ds: seq<Descriptor>, lo: nat, e: nat)
    requires lo <= e
    ensures TotalOverlap(ds, lo, e + 1) == TotalOverlap(ds, lo, e) + Holders(ds, e)
  {
    if |ds| > 0 {
      TotalStep(ds[..|ds| - 1], lo, e);
      OverlapStep(ds[|ds| - 1], lo, e);
    }
  }

  lemma {:induction false} TotalEmpty(ds: seq<Descriptor>, lo: nat)
    ensures TotalOverlap(ds, lo, lo) == 0
  {
    if |ds| > 0 {
      TotalEmpty(ds[..|ds| - 1], lo);
    }
  }

  // Over a gap-free range the intersection lengths add up to at least the range, and to
  // exactly the range if and only if no address is held twice.
  lemma {:induction false} TotalOfCovered(ds: seq<Descriptor>, lo: nat, hi: nat)
    requires lo <= hi && Covered(ds, lo, hi)
    ensures TotalOverlap(ds, lo, hi) >= hi - lo
    ensures TotalOverlap(ds, lo, hi) == hi - lo <==> Tiles(ds, lo, hi)
    decreases hi
  {
    if lo == hi {
      TotalEmpty(ds, lo);
    } else {
      TotalOfCovered(ds, lo, hi - 1);
      TotalStep(ds, lo, hi - 1);
      assert Tiles(ds, lo, hi) <==> Tiles(ds, lo, hi - 1) && Holders(ds, hi - 1) == 1;
    }
  }

  lemma {:induction false} TotalOfPrefix(ds: seq<Descriptor>, lo: nat, hi: nat, n: nat)
    requires n <= |ds|
    ensures TotalOverlap(ds[..n], lo, hi) <= TotalOverlap(ds, lo, hi)
    decreases |ds|
  {
    if n < |ds| {
      assert ds[..|ds| - 1][..n] == ds[..n];
      TotalOfPrefix(ds[..|ds| - 1], lo, hi, n);
    } else {
      assert ds[..n] == ds;
    }
  }

  // ----- the cursor walk

  // The descriptor meets the range, and only below c.
  predicate Done(d: Descriptor, lo: nat, hi: nat, c: nat) {
    Intersects(d, lo, hi) && Min(Limit(d), hi) <= c
  }

  function DoneCount(ds: seq<Descriptor>, lo: nat, hi: nat, c: nat): nat {
    if |ds| == 0 then 0
    else DoneCount(ds[..|ds| - 1], lo, hi, c) + if Done(ds[|ds| - 1], lo, hi, c) then 1 else 0
  }

  lemma {:induction false} DoneAtStart(ds: seq<Descriptor>, lo: nat, hi: nat)
    ensures DoneCount(ds, lo, hi, lo) == 0
  {
    if |ds| > 0 {
      DoneAtStart(ds[..|ds| - 1], lo, hi);
    }
  }

  lemma {:induction false} DoneAtEnd(ds: seq<Descriptor>, lo: nat, hi: nat)
    ensures DoneCount(ds, lo, hi, hi) == Intersecting(ds, lo, hi)
  {
    if |ds| > 0 {
      DoneAtEnd(ds[..|ds| - 1], lo, hi);
    }
  }

  lemma {:induction false} DoneBound(ds: seq<Descriptor>, lo: nat, hi: nat, c: nat)
    ensures DoneCount(ds, lo, hi, c) <= Intersecting(ds, lo, hi)
    ensures (exists j :: 0 <= j < |ds| && Intersects(ds[j], lo, hi) && !Done(ds[j], lo, hi, c)) ==>
      DoneCount(ds, lo, hi, c) < Intersecting(ds, lo, hi)
  {
    if |ds| > 0 {
      var n := |ds| - 1;
      DoneBound(ds[..n], lo, hi, c);
      if j :| 0 <= j < |ds| && Intersects(ds[j], lo, hi) && !Done(ds[j], lo, hi, c) {
        if j < n {
          assert ds[..n][j] == ds[j];
        }
      }
    }
  }

  // If exactly descriptor j finishes between c and c', the count goes up by one.
  lemma {:induction false} DoneStep(ds: seq<Descriptor>, lo: nat, hi: nat, c: nat, c': nat, j: nat)
    requires forall i :: 0 <= i < |ds| ==> (Done(ds[i], lo, hi, c') <==> Done(ds[i], lo, hi, c) || i == j)
    requires j < |ds| ==> !Done(ds[j], lo, hi, c)
    ensures DoneCount(ds, lo, hi, c') == DoneCount(ds, lo, hi, c) + if j < |ds| then 1 else 0
  {
    if |ds| > 0 {
      var n := |ds| - 1;
      assert forall i :: 0 <= i < n ==> ds[..n][i] == ds[i];
      DoneStep(ds[..n], lo, hi, c, c', j);
    }
  }

  // The furthest the cursor can move from c within descriptors that hold it.
  ghost predicate Furthest(ds: seq<Descriptor>, hi: nat, c: nat, next: nat) {
    && c <= next
    && (forall i :: 0 <= i < |ds| && Holds(ds[i], c) ==> Min(Limit(ds[i]), hi) <= next)
    && (next == c || exists i :: 0 <= i < |ds| && Holds(ds[i], c) && next == Min(Limit(ds[i]), hi))
  }

  // A move leaves no gap behind; a failed move means the cursor's address is in no descriptor.
  lemma MoveCovers(ds: seq<Descriptor>, lo: nat, hi: nat, c: nat, next: nat)
    requires lo <= c < hi && Covered(ds, lo, c) && Furthest(ds, hi, c, next)
    ensures next <= hi && Covered(ds, lo, next)
    ensures next == c ==> Holders(ds, c) == 0
  {
    HoldersPositive(ds, c);
    if next > c {
      var i :| 0 <= i < |ds| && Holds(ds[i], c) && next == Min(Limit(ds[i]), hi);
      forall a: nat | c <= a < next ensures Holders(ds, a) >= 1 {
        assert Holds(ds[i], a);
        HoldersPositive(ds, a);
      }
    }
  }

  // On a tiled range each move finishes exactly one descriptor.
  lemma MoveFinishesOne(ds: seq<Descriptor>, lo: nat, hi: nat, c: nat, next: nat)
    requires lo <= c < hi && Tiles(ds, lo, hi) && Furthest(ds, hi, c, next)
    ensures next > c && DoneCount(ds, lo, hi, next) == DoneCount(ds, lo, hi, c) + 1
  {
    HoldersPositive(ds, c);
    var j :| 0 <= j < |ds| && Holds(ds[j], c);
    HoldersUnique(ds, c, j);
    assert next == Min(Limit(ds[j]), hi);
    forall i | 0 <= i < |ds| && i != j
      ensures Done(ds[i], lo, hi, next) <==> Done(ds[i], lo, hi, c)
    {
      if Done(ds[i], lo, hi, next) && !Done(ds[i], lo, hi, c) {
        var a := ds[i].start;
        assert Holds(ds[i], a) && Holds(ds[j], a);
        HoldersUnique(ds, a, j);
        assert false;
      }
    }
    DoneStep(ds, lo, hi, c, next, j);
  }

  // While the cursor is short of the end of a tiled range some descriptor is unfinished.
  lemma MoreToDo(ds: seq<Descriptor>, lo: nat, hi: nat, c: nat)
    requires lo <= c < hi && Tiles(ds, lo, hi)
    ensures DoneCount(ds, lo, hi, c) < Intersecting(ds, lo, hi)
  {
    HoldersPositive(ds, c);
    var j :| 0 <= j < |ds| && Holds(ds[j], c);
    assert Intersects(ds[j], lo, hi) && !Done(ds[j], lo, hi, c);
    DoneBound(ds, lo, hi, c);
  }
}
