/** Byte strings and the little-endian numbers stored in them. */
module Bytes {
  import opened Bits

  type byte = x: nat | x < 256

  function Pow256(n: nat): (r: nat)
    ensures r > 0
  {
    if n == 0 then 1 else 256 * Pow256(n - 1)
  }

  // from_le_bytes
  function Le(b: seq<byte>): (r: nat)
    ensures r < Pow256(|b|)
  {
    if |b| == 0 then 0 else b[0] + 256 * Le(b[1..])
  }

  // to_le_bytes, truncating to n bytes
  function ToLe(v: nat, n: nat): (b: seq<byte>)
    ensures |b| == n
  {
    if n == 0 then [] else [v % 256] + ToLe(v / 256, n - 1)
  }

  lemma {:induction false} LeOfToLe(v: nat, n: nat)
    requires v < Pow256(n)
    ensures Le(ToLe(v, n)) == v
  {
    if n > 0 {
      assert v / 256 < Pow256(n - 1);
      LeOfToLe(v / 256, n - 1);
      assert ToLe(v, n)[1..] == ToLe(v / 256, n - 1);
    }
  }

  lemma {:induction false} ToLeOfLe(b: seq<byte>)
    ensures ToLe(Le(b), |b|) == b
  {
    if |b| > 0 {
      ToLeOfLe(b[1..]);
      assert Le(b) % 256 == b[0] && Le(b) / 256 == Le(b[1..]);
      assert b == [b[0]] + b[1..];
    }
  }

  // Numbers read from equally long byte strings agree exactly when the bytes do.
  lemma LeInjective(a: seq<byte>, b: seq<byte>)
    requires |a| == |b|
    ensures Le(a) == Le(b) <==> a == b
  {
    ToLeOfLe(a);
    ToLeOfLe(b);
  }

  // Overwriting |v| bytes at offset.
  function Put(b: seq<byte>, offset: nat, v: seq<byte>): (r: seq<byte>)
    requires offset + |v| <= |b|
    ensures |r| == |b|
  {
    b[..offset] + v + b[offset + |v|..]
  }

  lemma PutElsewhere(b: seq<byte>, offset: nat, v: seq<byte>, lo: nat, hi: nat)
    requires offset + |v| <= |b| && lo <= hi <= |b|
    requires hi <= offset || offset + |v| <= lo
    ensures Put(b, offset, v)[lo..hi] == b[lo..hi]
  {
    assert forall i :: lo <= i < hi ==> Put(b, offset, v)[i] == b[i];
  }

  lemma PutNothing(b: seq<byte>, offset: nat)
    requires offset <= |b|
    ensures Put(b, offset, []) == b
  {
  }

  lemma Adjacent(b: seq<byte>, lo: nat, mid: nat, hi: nat)
    requires lo <= mid <= hi <= |b|
    ensures b[lo..mid] + b[mid..hi] == b[lo..hi]
  {
  }

  // Two writes, the second where the first ends, are one.
  lemma PutTwice(b: seq<byte>, offset: nat, v: seq<byte>, w: seq<byte>)
    requires offset + |v| + |w| <= |b|
    ensures Put(Put(b, offset, v), offset + |v|, w) == Put(b, offset, v + w)
  {
  }

  function Zeros(n: nat): (z: seq<byte>)
    ensures |z| == n
    ensures forall k :: 0 <= k < n ==> z[k] == 0
  {
    seq(n, _ => 0)
  }

  lemma {:induction false} LeZeros(n: nat)
    ensures Le(Zeros(n)) == 0
  {
    if n > 0 {
      LeZeros(n - 1);
      assert Zeros(n)[1..] == Zeros(n - 1);
    }
  }

  lemma Pow256Values()
    ensures Pow256(2) == 0x1_0000 && Pow256(4) == 0x1_0000_0000 && Pow256(8) == 0x1_0000_0000_0000_0000
  {
    assert Pow256(4) == 256 * 256 * Pow256(2);
    assert Pow256(8) == 256 * 256 * 256 * 256 * Pow256(4);
  }

  function ReadU64(b: seq<byte>, at: nat): (v: u64)
    requires at + 8 <= |b|
  {
    Pow256Values();
    Le(b[at..at + 8])
  }

  function WriteU64(b: seq<byte>, at: nat, v: u64): (r: seq<byte>)
    requires at + 8 <= |b|
    ensures |r| == |b|
  {
    Put(b, at, ToLe(v, 8))
  }

  // A write is read back, and disturbs no number stored clear of it.
  lemma ReadAfterWrite(b: seq<byte>, at: nat, v: u64, at': nat)
    requires at + 8 <= |b| && at' + 8 <= |b|
    requires at == at' || at + 8 <= at' || at' + 8 <= at
    ensures ReadU64(WriteU64(b, at, v), at') == if at == at' then v else ReadU64(b, at')
  {
    var b' := WriteU64(b, at, v);
    if at == at' {
      assert b'[at..at + 8] == ToLe(v, 8);
      Pow256Values();
      LeOfToLe(v, 8);
    } else {
      assert b'[at'..at' + 8] == b[at'..at' + 8];
    }
  }

  // ----- the bytes of a number

  // Byte k of a number written to n bytes is its k-th digit to the base 256.
  lemma {:induction false} ToLeDigit(v: nat, n: nat, k: nat)
    requires k < n
    ensures ToLe(v, n)[k] == v / Pow256(k) % 256
  {
    hide Pow256;
    if k == 0 {
      FirstPower();
    } else {
      ToLeDigit(v / 256, n - 1, k - 1);
      NextPower(v, k - 1);
    }
  }

  lemma FirstPower()
    ensures Pow256(0) == 1
  {
  }

  lemma NextPower(v: nat, k: nat)
    ensures v / Pow256(k + 1) == v / 256 / Pow256(k)
  {
    var p, q := Pow256(k), v / 256;
    Regroup(p, q / p, q % p);
    RemainderOf(v, 256 * p, q / p, 256 * (q % p) + v % 256);
  }

  lemma Regroup(p: nat, a: nat, b: nat)
    ensures 256 * (p * a + b) == (256 * p) * a + 256 * b
  {
  }

  function FromFour(b0: nat, b1: nat, b2: nat, b3: nat): nat {
    b0 + 0x100 * b1 + 0x1_0000 * b2 + 0x100_0000 * b3
  }

  // The four bytes at `at` are v, lowest byte first.
  predicate SpellsFour(b: seq<byte>, at: nat, v: nat) {
    at + 4 <= |b| && v == FromFour(b[at], b[at + 1], b[at + 2], b[at + 3])
  }

  // The eight bytes at `at` are v, lowest byte first.
  predicate Spells(b: seq<byte>, at: nat, v: nat) {
    && at + 8 <= |b|
    && v == FromFour(b[at], b[at + 1], b[at + 2], b[at + 3])
            + 0x1_0000_0000 * FromFour(b[at + 4], b[at + 5], b[at + 6], b[at + 7])
  }

  lemma LeOfFour(b: seq<byte>)
    requires |b| >= 4
    ensures Le(b) == FromFour(b[0], b[1], b[2], b[3]) + 0x1_0000_0000 * Le(b[4..])
  {
    assert Le(b[3..]) == b[3] + 256 * Le(b[4..]);
    assert Le(b[2..]) == b[2] + 256 * Le(b[3..]);
    assert Le(b[1..]) == b[1] + 256 * Le(b[2..]);
  }

  lemma ReadFourSpells(b: seq<byte>, at: nat, v: nat)
    requires at + 4 <= |b|
    ensures v == Le(b[at..at + 4]) <==> SpellsFour(b, at, v)
  {
    LeOfFour(b[at..at + 4]);
  }

  // Reading finds exactly the number that the bytes spell.
  lemma ReadSpells(b: seq<byte>, at: nat, v: nat)
    requires at + 8 <= |b|
    ensures v == ReadU64(b, at) <==> Spells(b, at, v)
  {
    hide Le;
    var w := b[at..at + 8];
    LeOfFour(w);
    LeOfFour(w[4..]);
    assert w[4..][4..] == [];
    LeOfNone();
  }

  lemma LeOfNone()
    ensures Le([]) == 0
  {
  }

  lemma WriteSpells(b: seq<byte>, at: nat, v: u64)
    requires at + 8 <= |b|
    ensures Spells(WriteU64(b, at, v), at, v)
    ensures forall k :: 0 <= k < 8 ==> WriteU64(b, at, v)[at + k] == v / Pow256(k) % 256
    ensures forall i :: 0 <= i < |b| && !(at <= i < at + 8) ==> WriteU64(b, at, v)[i] == b[i]
  {
    hide Le, Spells, ToLe;
    ReadAfterWrite(b, at, v, at);
    ReadSpells(WriteU64(b, at, v), at, v);
    forall k | 0 <= k < 8 ensures WriteU64(b, at, v)[at + k] == v / Pow256(k) % 256 {
      ToLeDigit(v, 8, k);
    }
  }
}
