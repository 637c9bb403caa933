// Sums of sequences of natural numbers, and how they react to point updates.
module Sums {

  function Sum(s: seq<nat>): nat {
    if s == [] then 0 else Sum(s[..|s| - 1]) + s[|s| - 1]
  }

  lemma {:induction false} SumUpdate(s: seq<nat>, i: nat, v: nat)
    requires i < |s|
    ensures Sum(s[i := v]) == Sum(s) - s[i] + v
  {
    var n := |s| - 1;
    if i == n {
      assert s[i := v][..n] == s[..n];
    } else {
      assert s[i := v][..n] == s[..n][i := v];
      SumUpdate(s[..n], i, v);
    }
  }

  lemma {:induction false} SumAppend(s: seq<nat>, t: seq<nat>)
    ensures Sum(s + t) == Sum(s) + Sum(t)
  {
    if t == [] {
      assert s + t == s;
    } else {
      var n := |t| - 1;
      assert (s + t)[..|s + t| - 1] == s + t[..n];
      SumAppend(s, t[..n]);
    }
  }

  // A prefix grows by its next element, and never beyond the whole.
  lemma SumPrefix(xs: seq<nat>, i: nat)
    requires i < |xs|
    ensures Sum(xs[..i + 1]) == Sum(xs[..i]) + xs[i] <= Sum(xs)
  {
    assert xs[..i + 1][..i] == xs[..i];
    assert xs == xs[..i + 1] + xs[i + 1..];
    SumAppend(xs[..i + 1], xs[i + 1..]);
  }

  lemma {:induction false} SumMonotone(s: seq<nat>, t: seq<nat>)
    requires |s| == |t|
    requires forall i | 0 <= i < |s| :: s[i] <= t[i]
    ensures Sum(s) <= Sum(t)
  {
    if s != [] {
      SumMonotone(s[..|s| - 1], t[..|s| - 1]);
    }
  }

  lemma {:induction false} SumOfZeros(s: seq<nat>)
    requires forall i | 0 <= i < |s| :: s[i] == 0
    ensures Sum(s) == 0
  {
    if s != [] {
      SumOfZeros(s[..|s| - 1]);
    }
  }

  // No element exceeds the sum.
  lemma SumBoundsElement(s: seq<nat>, i: nat)
    requires i < |s|
    ensures s[i] <= Sum(s)
  {
    SumUpdate(s, i, 0);
  }

  // A sum above one of its elements has another positive element.
  lemma SumHasOther(s: seq<nat>, i: nat) returns (j: nat)
    requires i < |s| && s[i] < Sum(s)
    ensures j < |s| && j != i && s[j] > 0
  {
    SumUpdate(s, i, 0);
    if forall j | 0 <= j < |s| && j != i :: s[j] == 0 {
      SumOfZeros(s[i := 0]);
    }
    j :| 0 <= j < |s| && j != i && s[j] > 0;
  }

  lemma SumHasPositive(s: seq<nat>) returns (j: nat)
    requires 0 < Sum(s)
    ensures j < |s| && s[j] > 0
  {
    if forall j | 0 <= j < |s| :: s[j] == 0 {
      SumOfZeros(s);
    }
    j :| 0 <= j < |s| && s[j] > 0;
  }

  // Pointwise smaller with the same sum is pointwise equal.
  lemma SumPinches(s: seq<nat>, t: seq<nat>, i: nat)
    requires |s| == |t| && i < |s|
    requires forall j | 0 <= j < |s| :: s[j] <= t[j]
    requires Sum(s) == Sum(t)
    ensures s[i] == t[i]
  {
    SumUpdate(s, i, t[i]);
    SumMonotone(s[i := t[i]], t);
  }

  // ---------- keeping the marked elements of a sequence ----------

  function Keep<T>(s: seq<T>, mask: seq<bool>): (r: seq<T>)
    requires |s| == |mask|
    ensures |r| == Marked(mask)
  {
    if s == [] then []
    else
      var n := |s| - 1;
      Keep(s[..n], mask[..n]) + if mask[n] then [s[n]] else []
  }

  lemma KeepSnoc<T>(s: seq<T>, mask: seq<bool>, x: T, b: bool)
    requires |s| == |mask|
    ensures Keep(s + [x], mask + [b]) == Keep(s, mask) + if b then [x] else []
  {
    assert (s + [x])[..|s|] == s && (mask + [b])[..|mask|] == mask;
  }

  function Marked(mask: seq<bool>): nat {
    if mask == [] then 0 else Marked(mask[..|mask| - 1]) + if mask[|mask| - 1] then 1 else 0
  }

  // Where the j-th kept element comes from.
  ghost function Origin(mask: seq<bool>, j: nat): (i: nat)
    requires j < Marked(mask)
    ensures i < |mask| && mask[i]
  {
    var n := |mask| - 1;
    if mask[n] && j == Marked(mask[..n]) then n else Origin(mask[..n], j)
  }

  lemma {:induction false} KeepAt<T>(s: seq<T>, mask: seq<bool>, j: nat)
    requires |s| == |mask| && j < Marked(mask)
    ensures Keep(s, mask)[j] == s[Origin(mask, j)]
  {
    var n := |mask| - 1;
    if !(mask[n] && j == Marked(mask[..n])) {
      KeepAt(s[..n], mask[..n], j);
    }
  }

  // The order of the origins is the order of the kept elements.
  lemma {:induction false} OriginIncreasing(mask: seq<bool>, i: nat, j: nat)
    requires i < j < Marked(mask)
    ensures Origin(mask, i) < Origin(mask, j)
  {
    var n := |mask| - 1;
    if j < Marked(mask[..n]) {
      OriginIncreasing(mask[..n], i, j);
    }
  }

  // Every marked index is an origin.
  lemma {:induction false} OriginOfRank(mask: seq<bool>, i: nat)
    requires i < |mask| && mask[i]
    ensures Marked(mask[..i]) < Marked(mask) && Origin(mask, Marked(mask[..i])) == i
  {
    var n := |mask| - 1;
    if i < n {
      assert mask[..n][..i] == mask[..i];
      OriginOfRank(mask[..n], i);
    }
  }

  lemma {:induction false} KeepSum(s: seq<nat>, mask: seq<bool>)
    requires |s| == |mask|
    requires forall i | 0 <= i < |s| && !mask[i] :: s[i] == 0
    ensures Sum(Keep(s, mask)) == Sum(s)
  {
    if s != [] {
      var n := |s| - 1;
      KeepSum(s[..n], mask[..n]);
      SumAppend(Keep(s[..n], mask[..n]), if mask[n] then [s[n]] else []);
    }
  }

  // ---------- matrices ----------

  function Column(m: seq<seq<nat>>, k: nat): seq<nat>
    requires forall s | 0 <= s < |m| :: k < |m[s]|
  {
    seq(|m|, s requires 0 <= s < |m| => m[s][k])
  }

  function RowSums(m: seq<seq<nat>>): seq<nat> {
    seq(|m|, s requires 0 <= s < |m| => Sum(m[s]))
  }

  function ColumnSums(m: seq<seq<nat>>, n: nat): seq<nat>
    requires forall s | 0 <= s < |m| :: |m[s]| == n
  {
    seq(n, k requires 0 <= k < n => Sum(Column(m, k)))
  }

  lemma {:induction false} SumAddsPointwise(a: seq<nat>, b: seq<nat>, c: seq<nat>)
    requires |a| == |b| == |c| && forall i | 0 <= i < |a| :: c[i] == a[i] + b[i]
    ensures Sum(c) == Sum(a) + Sum(b)
  {
    if a != [] {
      var n := |a| - 1;
      SumAddsPointwise(a[..n], b[..n], c[..n]);
    }
  }

  // Summing by rows and by columns gives the same total.
  lemma {:induction false} RowsAndColumnsAgree(m: seq<seq<nat>>, n: nat)
    requires forall s | 0 <= s < |m| :: |m[s]| == n
    ensures Sum(RowSums(m)) == Sum(ColumnSums(m, n))
  {
    if m == [] {
      forall k | 0 <= k < n ensures ColumnSums(m, n)[k] == 0 { assert Column(m, k) == []; }
      SumOfZeros(ColumnSums(m, n));
    } else {
      var r := |m| - 1;
      RowsAndColumnsAgree(m[..r], n);
      assert RowSums(m)[..r] == RowSums(m[..r]);
      forall k | 0 <= k < n ensures ColumnSums(m, n)[k] == ColumnSums(m[..r], n)[k] + m[r][k] {
        assert Column(m, k)[..r] == Column(m[..r], k);
      }
      SumAddsPointwise(ColumnSums(m[..r], n), m[r], ColumnSums(m, n));
    }
  }
}
