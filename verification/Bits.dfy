/** Unsigned machine words as natural numbers. `|` and `&` are defined bit by bit;
    `<<` and `>>` are multiplication and division by a power of two. The lemmas let a
    word be split at any bit position, which is all the page-table code relies on. */
module Bits {
  const U64_MAX: nat := 0xffff_ffff_ffff_ffff
  const ISIZE_MAX: nat := 0x7fff_ffff_ffff_ffff

  type u64 = x: nat | x <= 0xffff_ffff_ffff_ffff

  function Min(a: nat, b: nat): nat {
    if a < b then a else b
  }

  function Max(a: nat, b: nat): nat {
    if a < b then b else a
  }

  // saturating_add(1)
  function SaturatingNext(x: nat): nat {
    if x >= U64_MAX then U64_MAX else x + 1
  }

  function Pow2(n: nat): (r: nat)
    ensures r > 0
  {
    if n == 0 then 1 else 2 * Pow2(n - 1)
  }

  function Or(a: nat, b: nat): nat
    decreases a + b
  {
    if a == 0 then b
    else if b == 0 then a
    else 2 * Or(a / 2, b / 2) + (if a % 2 == 1 || b % 2 == 1 then 1 else 0)
  }

  function And(a: nat, b: nat): nat
    decreases a + b
  {
    if a == 0 || b == 0 then 0
    else 2 * And(a / 2, b / 2) + (if a % 2 == 1 && b % 2 == 1 then 1 else 0)
  }

  function Shr(a: nat, k: nat): nat {
    if k == 0 then a else Shr(a / 2, k - 1)
  }

  // A 64-bit left shift drops the bits that leave the word.
  function Shl(a: nat, k: nat): nat {
    a * Pow2(k) % Pow2(64)
  }

  lemma OrStep(a: nat, b: nat)
    ensures Or(a, b) == 2 * Or(a / 2, b / 2) + (if a % 2 == 1 || b % 2 == 1 then 1 else 0)
  {
  }

  lemma AndStep(a: nat, b: nat)
    ensures And(a, b) == 2 * And(a / 2, b / 2) + (if a % 2 == 1 && b % 2 == 1 then 1 else 0)
  {
  }

  // The word whose low k bits are l and whose higher bits are h.
  function Join(h: nat, l: nat, k: nat): nat
    requires l < Pow2(k)
  {
    if k == 0 then h else 2 * Join(h, l / 2, k - 1) + l % 2
  }

  lemma {:induction false} JoinIsSum(h: nat, l: nat, k: nat)
    requires l < Pow2(k)
    ensures Join(h, l, k) == h * Pow2(k) + l
  {
    if k > 0 {
      JoinIsSum(h, l / 2, k - 1);
      Doubled(h, Pow2(k - 1), Pow2(k));
    }
  }

  lemma Doubled(h: nat, p: nat, q: nat)
    requires q == 2 * p
    ensures h * q == 2 * (h * p)
  {
  }

  lemma JoinHalves(h: nat, l: nat, k: nat)
    requires k > 0 && l < Pow2(k)
    ensures l / 2 < Pow2(k - 1)
    ensures Join(h, l, k) / 2 == Join(h, l / 2, k - 1)
    ensures Join(h, l, k) % 2 == l % 2
  {
  }

  lemma JoinFromHalves(x: nat, h: nat, l: nat, k: nat)
    requires k > 0 && l < Pow2(k)
    requires l / 2 < Pow2(k - 1) && x / 2 == Join(h, l / 2, k - 1) && x % 2 == l % 2
    ensures x == Join(h, l, k)
  {
    JoinHalves(h, l, k);
  }

  lemma Pow2Double(k: nat, x: nat)
    requires k > 0 && x / 2 < Pow2(k - 1)
    ensures x < Pow2(k)
  {
  }

  lemma OrHalves(a: nat, b: nat)
    ensures Or(a, b) / 2 == Or(a / 2, b / 2)
    ensures Or(a, b) % 2 == if a % 2 == 1 || b % 2 == 1 then 1 else 0
  {
    OrStep(a, b);
  }

  lemma AndHalves(a: nat, b: nat)
    ensures And(a, b) / 2 == And(a / 2, b / 2)
    ensures And(a, b) % 2 == if a % 2 == 1 && b % 2 == 1 then 1 else 0
  {
    AndStep(a, b);
  }

  // `|` works separately on the bits above and below position k.
  lemma {:induction false} OrJoin(h1: nat, l1: nat, h2: nat, l2: nat, k: nat)
    requires l1 < Pow2(k) && l2 < Pow2(k)
    ensures Or(l1, l2) < Pow2(k)
    ensures Or(Join(h1, l1, k), Join(h2, l2, k)) == Join(Or(h1, h2), Or(l1, l2), k)
  {
    if k == 0 {
      OrStep(l1, l2);
    } else {
      hide Or, Join, Pow2;
      JoinHalves(h1, l1, k);
      JoinHalves(h2, l2, k);
      OrHalves(l1, l2);
      OrHalves(Join(h1, l1, k), Join(h2, l2, k));
      OrJoin(h1, l1 / 2, h2, l2 / 2, k - 1);
      Pow2Double(k, Or(l1, l2));
      JoinFromHalves(Or(Join(h1, l1, k), Join(h2, l2, k)), Or(h1, h2), Or(l1, l2), k);
    }
  }

  // `&` works separately on the bits above and below position k.
  lemma {:induction false} AndJoin(h1: nat, l1: nat, h2: nat, l2: nat, k: nat)
    requires l1 < Pow2(k) && l2 < Pow2(k)
    ensures And(l1, l2) < Pow2(k)
    ensures And(Join(h1, l1, k), Join(h2, l2, k)) == Join(And(h1, h2), And(l1, l2), k)
  {
    if k == 0 {
      AndStep(l1, l2);
    } else {
      hide And, Join, Pow2;
      JoinHalves(h1, l1, k);
      JoinHalves(h2, l2, k);
      AndHalves(l1, l2);
      AndHalves(Join(h1, l1, k), Join(h2, l2, k));
      AndJoin(h1, l1 / 2, h2, l2 / 2, k - 1);
      Pow2Double(k, And(l1, l2));
      JoinFromHalves(And(Join(h1, l1, k), Join(h2, l2, k)), And(h1, h2), And(l1, l2), k);
    }
  }

  lemma {:induction false} ShrJoin(h: nat, l: nat, k: nat)
    requires l < Pow2(k)
    ensures Shr(Join(h, l, k), k) == h
  {
    if k > 0 {
      ShrJoin(h, l / 2, k - 1);
    }
  }

  lemma {:induction false} AndLow(l: nat, k: nat)
    requires l < Pow2(k)
    ensures And(l, Pow2(k) - 1) == l
  {
    if k > 0 {
      AndLow(l / 2, k - 1);
      AndStep(l, Pow2(k) - 1);
      assert (Pow2(k) - 1) / 2 == Pow2(k - 1) - 1;
    }
  }

  lemma {:induction false} OrBound(a: nat, b: nat, k: nat)
    requires a < Pow2(k) && b < Pow2(k)
    ensures Or(a, b) < Pow2(k)
  {
    OrStep(a, b);
    if k > 0 {
      OrBound(a / 2, b / 2, k - 1);
    }
  }

  // The attribute field is five bits wide.
  lemma OrFits(a: nat, b: nat)
    requires a < 32 && b < 32
    ensures Or(a, b) < 32
  {
    OrBound(a, b, 5);
  }

  lemma {:induction false} JoinZero(l: nat, k: nat)
    requires l < Pow2(k)
    ensures Join(0, l, k) == l
  {
    if k > 0 {
      JoinZero(l / 2, k - 1);
    }
  }

  // Masking with 2^k - 1 keeps exactly the low k bits.
  lemma AndOnes(h: nat, l: nat, k: nat)
    requires l < Pow2(k)
    ensures And(Join(h, l, k), Pow2(k) - 1) == l
  {
    JoinZero(Pow2(k) - 1, k);
    AndJoin(h, l, 0, Pow2(k) - 1, k);
    AndLow(l, k);
    JoinZero(l, k);
  }

  lemma {:induction false} MultiplesOrdered(m: nat, a: nat, b: nat)
    ensures a < b ==> m * a + m <= m * b
    decreases b
  {
    if a < b {
      assert m * b == m * (b - 1) + m;
      MultiplesOrdered(m, a, b - 1);
    }
  }

  lemma RemainderOf(x: nat, m: nat, q: nat, s: nat)
    requires m > 0 && x == m * q + s && s < m
    ensures x % m == s && x / m == q
  {
    MultiplesOrdered(m, x / m, q);
    MultiplesOrdered(m, q, x / m);
  }

  lemma Pow2Four(n: nat)
    ensures Pow2(n + 4) == 16 * Pow2(n)
  {
    assert Pow2(n + 2) == 2 * Pow2(n + 1);
    assert Pow2(n + 4) == 2 * Pow2(n + 3);
  }

  lemma Pow2Sixteen(n: nat)
    ensures Pow2(n + 16) == 0x1_0000 * Pow2(n)
  {
    Pow2Four(n);
    Pow2Four(n + 4);
    Pow2Four(n + 8);
    Pow2Four(n + 12);
  }

  // The powers the page-table formats use.
  lemma Pow2Values()
    ensures Pow2(9) == 512 && Pow2(11) == 2048 && Pow2(12) == 4096 && Pow2(14) == 16384
    ensures Pow2(34) == 0x4_0000_0000 && Pow2(36) == 0x10_0000_0000 && Pow2(48) == 0x1_0000_0000_0000
    ensures Pow2(59) == 0x800_0000_0000_0000 && Pow2(61) == 0x2000_0000_0000_0000
    ensures Pow2(63) == 0x8000_0000_0000_0000 && Pow2(64) == 0x1_0000_0000_0000_0000
  {
    Pow2Sixteen(0);
    Pow2Sixteen(2);
    Pow2Sixteen(4);
    Pow2Sixteen(11);
    Pow2Sixteen(16);
    Pow2Sixteen(18);
    Pow2Sixteen(20);
    Pow2Sixteen(27);
    Pow2Sixteen(13);
    Pow2Sixteen(29);
    Pow2Sixteen(32);
    Pow2Sixteen(43);
    Pow2Sixteen(45);
    Pow2Sixteen(48);
    assert Pow2(64) == 2 * Pow2(63);
  }

  lemma OrZero(a: nat)
    ensures Or(a, 0) == a && Or(0, a) == a
  {
  }

  lemma {:induction false} OrCommutes(a: nat, b: nat)
    ensures Or(a, b) == Or(b, a)
    decreases a + b
  {
    if a > 0 && b > 0 {
      OrCommutes(a / 2, b / 2);
    }
  }

  lemma {:induction false} OrAssociates(a: nat, b: nat, c: nat)
    ensures Or(Or(a, b), c) == Or(a, Or(b, c))
    decreases a + b + c
  {
    hide Or;
    if a + b + c == 0 {
      OrZero(0);
    } else {
      OrAssociates(a / 2, b / 2, c / 2);
      OrHalves(Or(a, b), c);
      OrHalves(a, Or(b, c));
      OrHalves(a, b);
      OrHalves(b, c);
    }
  }

  lemma {:induction false} OrIdempotent(a: nat)
    ensures Or(a, a) == a
  {
    if a > 0 {
      OrIdempotent(a / 2);
    }
  }

  // Every bit of a is also set in b.
  predicate Subset(a: nat, b: nat) {
    Or(a, b) == b
  }

  lemma OrGrows(a: nat, b: nat)
    ensures Subset(a, Or(a, b)) && Subset(b, Or(a, b))
  {
    OrAssociates(a, a, b);
    OrIdempotent(a);
    OrCommutes(a, b);
    OrAssociates(b, b, a);
    OrIdempotent(b);
  }

  lemma SubsetTransitive(a: nat, b: nat, c: nat)
    requires Subset(a, b) && Subset(b, c)
    ensures Subset(a, c)
  {
    OrAssociates(a, b, c);
  }

  lemma OrMonotone(a: nat, b: nat, c: nat, d: nat)
    requires Subset(a, c) && Subset(b, d)
    ensures Subset(Or(a, b), Or(c, d))
  {
    calc {
      Or(Or(a, b), Or(c, d));
      { OrAssociates(a, b, Or(c, d)); OrAssociates(b, c, d); OrCommutes(b, c); OrAssociates(c, b, d); }
      Or(a, Or(c, Or(b, d)));
      { OrAssociates(a, c, d); }
      Or(c, d);
    }
  }

  predicate Bit(a: nat, k: nat) {
    Shr(a, k) % 2 == 1
  }

  lemma {:induction false} SubsetBit(a: nat, b: nat, k: nat)
    requires Subset(a, b) && Bit(a, k)
    ensures Bit(b, k)
  {
    hide Or;
    OrHalves(a, b);
    if k > 0 {
      SubsetBit(a / 2, b / 2, k - 1);
    }
  }
}
