// Finite sets of naturals and their sizes.
module Cardinality {

  ghost function Below(n: nat): (r: set<nat>)
    ensures |r| == n && forall p: nat :: p in r <==> p < n
  {
    if n == 0 then {} else Below(n - 1) + {n - 1}
  }

  lemma SubsetFills(a: set<nat>, b: set<nat>)
    requires a <= b && |a| == |b|
    ensures a == b
  {
    var rest := b - a;
    assert b == a + rest;
    assert |rest| == 0;
  }

  // How many elements of a set lie below n.
  ghost function CountBelow(s: set<nat>, n: nat): nat { |set x | x in s && x < n| }

  lemma CountBelowStep(s: set<nat>, n: nat)
    ensures CountBelow(s, n + 1) == CountBelow(s, n) + if n in s then 1 else 0
  {
    var before := set x | x in s && x < n;
    assert (set x | x in s && x < n + 1) == if n in s then before + {n} else before;
  }

  lemma CountBelowEnds(s: set<nat>, n: nat)
    requires forall x | x in s :: x < n
    ensures CountBelow(s, 0) == 0 && CountBelow(s, n) == |s|
  {
    assert (set x | x in s && x < 0) == {};
    assert (set x | x in s && x < n) == s;
  }

  lemma {:induction false} CountBelowGrows(s: set<nat>, m: nat, n: nat)
    requires m <= n
    ensures CountBelow(s, m) <= CountBelow(s, n)
    decreases n
  {
    if m < n {
      CountBelowGrows(s, m, n - 1);
      CountBelowStep(s, n - 1);
    }
  }

  lemma StrictlySmaller<T>(a: set<T>, b: set<T>, x: T)
    requires a <= b && x in b && x !in a
    ensures |a| < |b|
  {
    assert b == a + (b - a);
    assert x in b - a;
  }
}
