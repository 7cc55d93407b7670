/** Geometry of the two supported translation granules (VMSAv8-64, Arm DDI 0487 chapter
    D8): 4 KiB pages with four levels of nine index bits, and 16 KiB pages with three
    levels of eleven. A table fills exactly one page, eight bytes an entry. */
module Granules {
  import opened Bits

  // The entries passed on the way to a table, or to the entry of a last-level table: a root
  // (bit 63 of the address), then an index at each level.
  datatype Path = Top(root: nat) | Child(parent: Path, index: nat)

  function Length(p: Path): (n: nat)
    ensures n > 0
  {
    match p
    case Top(_) => 1
    case Child(q, _) => Length(q) + 1
  }

  predicate IsGranule(g: nat) {
    g == 4096 || g == 16384
  }

  function IndexBits(g: nat): nat {
    if g == 16384 then 11 else 9
  }

  // page + bits * (3 - level)
  function IndexShift(g: nat, level: nat): nat
    requires level <= 3
  {
    if g == 16384 then 14 + 11 * (3 - level) else 12 + 9 * (3 - level)
  }

  function StartLevel(g: nat): nat {
    if g == 16384 then 1 else 0
  }

  // How many table pages one translation passes through.
  function Depth(g: nat): nat {
    4 - StartLevel(g)
  }

  function Entries(g: nat): nat {
    g / 8
  }

  // page * g, written so that it is linear for either granule.
  function PageOffset(g: nat, page: nat): nat {
    if g == 16384 then 16384 * page else 4096 * page
  }

  function Index(g: nat, va: u64, level: nat): nat
    requires level <= 3
  {
    And(Shr(va, IndexShift(g, level)), Pow2(IndexBits(g)) - 1)
  }

  function Root(va: u64): nat {
    if Shr(va, 63) == 0 then 0 else 1
  }

  // The first n elements of the path a translation of va takes.
  function PathTo(g: nat, va: u64, n: nat): (p: Path)
    requires 1 <= n <= Depth(g) + 1
    ensures Length(p) == n
  {
    if n == 1 then Top(Root(va))
    else Child(PathTo(g, va, n - 1), Index(g, va, StartLevel(g) + n - 2))
  }

  lemma PathLength(g: nat, va: u64, n: nat)
    requires 1 <= n <= Depth(g) + 1
    ensures Length(PathTo(g, va, n)) == n
  {
  }

  // What a translation of va looks at: everything but the page offset and the bits
  // between the top index and bit 63.
  function Key(g: nat, va: u64): (k: Path)
    ensures Length(k) == Depth(g) + 1
  {
    PathTo(g, va, Depth(g) + 1)
  }

  lemma IndexIsRemainder(g: nat, va: u64, level: nat)
    requires IsGranule(g) && level <= 3
    ensures Index(g, va, level) == Shr(va, IndexShift(g, level)) % Entries(g)
    ensures Index(g, va, level) < Entries(g)
  {
    hide Bits.And, Bits.Shr, Bits.Join, Bits.Pow2, IndexShift;
    var x := Shr(va, IndexShift(g, level));
    Pow2Values();
    AndOnes(x / Entries(g), x % Entries(g), IndexBits(g));
    JoinIsSum(x / Entries(g), x % Entries(g), IndexBits(g));
  }

  // ----- what a key stands for

  // The page number of va within its half of the address space, as far as the index bits reach.
  function Frame(g: nat, va: u64): nat {
    if g == 16384 then va / 16384 % 0x2_0000_0000 else va / 4096 % 0x10_0000_0000
  }

  lemma ShrIsDivision(a: nat, k: nat, m: nat)
    requires m == Pow2(k)
    ensures Shr(a, k) == a / m
  {
    hide Bits.Shr, Bits.Join, Bits.Pow2;
    var q, r := a / m, a % m;
    assert a == q * m + r;
    JoinIsSum(q, r, k);
    ShrJoin(q, r, k);
  }

  lemma {:induction false} ShrSum(a: nat, j: nat, k: nat)
    ensures Shr(a, j + k) == Shr(Shr(a, j), k)
  {
    if j > 0 {
      ShrSum(a / 2, j - 1, k);
    }
  }

  // Successive index fields: each is the remainder, and the next is read above it.
  lemma IndexFields4K(va: u64)
    ensures var x := va / 4096;
      && Index(4096, va, 3) == x % 512
      && Index(4096, va, 2) == x / 512 % 512
      && Index(4096, va, 1) == x / 512 / 512 % 512
      && Index(4096, va, 0) == x / 512 / 512 / 512 % 512
  {
    hide Index;
    Pow2Values();
    ShrIsDivision(va, 12, 4096);
    ShrSum(va, 12, 9);
    ShrIsDivision(va / 4096, 9, 512);
    ShrSum(va, 21, 9);
    ShrIsDivision(va / 4096 / 512, 9, 512);
    ShrSum(va, 30, 9);
    ShrIsDivision(va / 4096 / 512 / 512, 9, 512);
    IndexIsRemainder(4096, va, 3);
    IndexIsRemainder(4096, va, 2);
    IndexIsRemainder(4096, va, 1);
    IndexIsRemainder(4096, va, 0);
  }

  lemma IndexFields16K(va: u64)
    ensures var x := va / 16384;
      && Index(16384, va, 3) == x % 2048
      && Index(16384, va, 2) == x / 2048 % 2048
      && Index(16384, va, 1) == x / 2048 / 2048 % 2048
  {
    hide Index;
    Pow2Values();
    ShrIsDivision(va, 14, 16384);
    ShrSum(va, 14, 11);
    ShrIsDivision(va / 16384, 11, 2048);
    ShrSum(va, 25, 11);
    ShrIsDivision(va / 16384 / 2048, 11, 2048);
    IndexIsRemainder(16384, va, 3);
    IndexIsRemainder(16384, va, 2);
    IndexIsRemainder(16384, va, 1);
  }

  lemma DigitSum4(x: nat)
    ensures x % 0x10_0000_0000 == x % 512 + 512 * (x / 512 % 512) + 0x4_0000 * (x / 512 / 512 % 512)
                                  + 0x800_0000 * (x / 512 / 512 / 512 % 512)
  {
    var x1, x2, x3 := x / 512, x / 512 / 512, x / 512 / 512 / 512;
    RemainderOf(x, 0x10_0000_0000, x3 / 512,
                x % 512 + 512 * (x1 % 512) + 0x4_0000 * (x2 % 512) + 0x800_0000 * (x3 % 512));
  }

  lemma DigitSum3(x: nat)
    ensures x % 0x2_0000_0000 == x % 2048 + 2048 * (x / 2048 % 2048) + 0x40_0000 * (x / 2048 / 2048 % 2048)
  {
    var x1, x2 := x / 2048, x / 2048 / 2048;
    RemainderOf(x, 0x2_0000_0000, x2 / 2048, x % 2048 + 2048 * (x1 % 2048) + 0x40_0000 * (x2 % 2048));
  }

  lemma DigitsAreUnique(a: nat, b: nat, a': nat, b': nat, base: nat)
    requires a < base && a' < base
    ensures a + base * b == a' + base * b' <==> a == a' && b == b'
  {
    MultiplesOrdered(base, b, b');
    MultiplesOrdered(base, b', b);
  }

  lemma Digits4(x: nat, y: nat)
    ensures x % 0x10_0000_0000 == y % 0x10_0000_0000
      <==> && x % 512 == y % 512
           && x / 512 % 512 == y / 512 % 512
           && x / 512 / 512 % 512 == y / 512 / 512 % 512
           && x / 512 / 512 / 512 % 512 == y / 512 / 512 / 512 % 512
  {
    DigitSum4(x);
    DigitSum4(y);
    var x0, x1, x2, x3 := x % 512, x / 512 % 512, x / 512 / 512 % 512, x / 512 / 512 / 512 % 512;
    var y0, y1, y2, y3 := y % 512, y / 512 % 512, y / 512 / 512 % 512, y / 512 / 512 / 512 % 512;
    DigitsAreUnique(x0, x1 + 512 * (x2 + 512 * x3), y0, y1 + 512 * (y2 + 512 * y3), 512);
    DigitsAreUnique(x1, x2 + 512 * x3, y1, y2 + 512 * y3, 512);
    DigitsAreUnique(x2, x3, y2, y3, 512);
  }

  lemma Digits3(x: nat, y: nat)
    ensures x % 0x2_0000_0000 == y % 0x2_0000_0000
      <==> && x % 2048 == y % 2048
           && x / 2048 % 2048 == y / 2048 % 2048
           && x / 2048 / 2048 % 2048 == y / 2048 / 2048 % 2048
  {
    DigitSum3(x);
    DigitSum3(y);
    var x0, x1, x2 := x % 2048, x / 2048 % 2048, x / 2048 / 2048 % 2048;
    var y0, y1, y2 := y % 2048, y / 2048 % 2048, y / 2048 / 2048 % 2048;
    DigitsAreUnique(x0, x1 + 2048 * x2, y0, y1 + 2048 * y2, 2048);
    DigitsAreUnique(x1, x2, y1, y2, 2048);
  }

  lemma KeyElements(g: nat, va: u64)
    requires IsGranule(g)
    ensures Key(g, va) ==
      if g == 16384
      then Child(Child(Child(Top(Root(va)), Index(g, va, 1)), Index(g, va, 2)), Index(g, va, 3))
      else Child(Child(Child(Child(Top(Root(va)), Index(g, va, 0)), Index(g, va, 1)), Index(g, va, 2)), Index(g, va, 3))
  {
    hide Index;
    assert PathTo(g, va, 2) == Child(PathTo(g, va, 1), Index(g, va, StartLevel(g)));
    assert PathTo(g, va, 3) == Child(PathTo(g, va, 2), Index(g, va, StartLevel(g) + 1));
    assert PathTo(g, va, 4) == Child(PathTo(g, va, 3), Index(g, va, StartLevel(g) + 2));
  }

  // Two addresses share a translation exactly when they agree on bit 63 and on the page
  // number that the indices spell out.
  lemma SameKey(g: nat, va: u64, va': u64)
    requires IsGranule(g)
    ensures Key(g, va) == Key(g, va') <==> Root(va) == Root(va') && Frame(g, va) == Frame(g, va')
  {
    hide Index, Key;
    KeyElements(g, va);
    KeyElements(g, va');
    if g == 16384 {
      IndexFields16K(va);
      IndexFields16K(va');
      Digits3(va / 16384, va' / 16384);
    } else {
      IndexFields4K(va);
      IndexFields4K(va');
      Digits4(va / 4096, va' / 4096);
    }
  }
}
