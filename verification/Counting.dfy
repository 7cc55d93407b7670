/** How many numbers below a bound have a property. */
module Counting {
  function CountBelow(n: nat, p: nat -> bool): nat {
    |set k: nat | k < n && p(k)|
  }

  lemma CountNone(p: nat -> bool)
    ensures CountBelow(0, p) == 0
  {
    assert (set k: nat | k < 0 && p(k)) == {};
  }

  lemma CountNext(n: nat, p: nat -> bool)
    ensures CountBelow(n + 1, p) == CountBelow(n, p) + if p(n) then 1 else 0
  {
    var before := set k: nat | k < n && p(k);
    assert (set k: nat | k < n + 1 && p(k)) == before + if p(n) then {n} else {};
  }

  lemma CountSame(n: nat, p: nat -> bool, q: nat -> bool)
    requires forall k: nat :: k < n ==> p(k) == q(k)
    ensures CountBelow(n, p) == CountBelow(n, q)
  {
    assert (set k: nat | k < n && p(k)) == (set k: nat | k < n && q(k));
  }
}
