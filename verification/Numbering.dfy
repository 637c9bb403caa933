// Numbering by first appearance: each value is replaced by the number of distinct values seen
// before it first appears.
module Numbering {
  import opened Cardinality

  ghost function Distinct<T>(s: seq<T>): set<T> { set x | x in s }

  ghost function FirstIndex<T>(s: seq<T>, x: T): (r: nat)
    requires x in s
    ensures r < |s| && s[r] == x && x !in s[..r]
  {
    if s[0] == x then 0
    else
      assert s == [s[0]] + s[1..];
      var r := 1 + FirstIndex(s[1..], x);
      assert s[..r] == [s[0]] + s[1..][..r - 1];
      r
  }

  ghost function Rank<T>(s: seq<T>, i: nat): nat
    requires i < |s|
  {
    |Distinct(s[..FirstIndex(s, s[i])])|
  }

  ghost function Numbered<T>(s: seq<T>): (r: seq<nat>)
    ensures |r| == |s|
  {
    seq(|s|, i requires 0 <= i < |s| => Rank(s, i))
  }

  ghost predicate NoEqualNeighbours<T>(s: seq<T>) {
    forall i, j | 0 <= i < |s| && j == i + 1 < |s| :: s[i] != s[j]
  }

  ghost predicate SamePattern<A, B>(a: seq<A>, b: seq<B>) {
    |a| == |b| && forall i, j | 0 <= i < |a| && 0 <= j < |a| :: a[i] == a[j] <==> b[i] == b[j]
  }

  // The numbers are those the sequence gives itself.
  ghost predicate Normalized(s: seq<nat>) { Numbered(s) == s }

  // ---------- first indices ----------

  lemma AbsentBefore<T>(s: seq<T>, x: T, r: nat)
    requires r <= |s| && x !in s[..r]
    ensures forall k | 0 <= k < r :: s[k] != x
  {
    forall k | 0 <= k < r ensures s[k] != x {
      assert s[..r][k] in s[..r];
    }
  }

  lemma FirstIndexUnique<T>(s: seq<T>, x: T, r: nat)
    requires r < |s| && s[r] == x && x !in s[..r]
    ensures x in s && FirstIndex(s, x) == r
  {
    AbsentBefore(s, x, r);
    AbsentBefore(s, x, FirstIndex(s, x));
  }

  lemma FirstIndexInPrefix<T>(s: seq<T>, k: nat, i: nat)
    requires i < k <= |s|
    ensures s[i] in s[..k] && FirstIndex(s[..k], s[i]) == FirstIndex(s, s[i]) <= i
  {
    var f := FirstIndex(s, s[i]);
    AbsentBefore(s, s[i], f);
    assert s[..k][..f] == s[..f] && s[..k][f] == s[i];
    FirstIndexUnique(s[..k], s[i], f);
  }

  lemma RankInPrefix<T>(s: seq<T>, k: nat, i: nat)
    requires i < k <= |s|
    ensures Rank(s[..k], i) == Rank(s, i)
  {
    FirstIndexInPrefix(s, k, i);
    var f := FirstIndex(s, s[i]);
    assert s[..k][..f] == s[..f];
  }

  // ---------- pattern and numbering determine each other ----------

  lemma FirstIndexOfPattern<A, B>(a: seq<A>, b: seq<B>, i: nat)
    requires SamePattern(a, b) && i < |a|
    ensures FirstIndex(a, a[i]) == FirstIndex(b, b[i])
  {
    var f := FirstIndex(a, a[i]);
    forall k | 0 <= k < f ensures b[k] != b[i] {
      assert a[..f][k] == a[k];
    }
    FirstIndexUnique(b, b[i], f);
  }

  lemma DistinctSnoc<T>(s: seq<T>, n: nat)
    requires n < |s|
    ensures |Distinct(s[..n + 1])| == |Distinct(s[..n])| + if s[n] in s[..n] then 0 else 1
  {
    assert s[..n + 1] == s[..n] + [s[n]];
    assert Distinct(s[..n + 1]) == Distinct(s[..n]) + {s[n]};
  }

  lemma {:induction false} DistinctOfPattern<A, B>(a: seq<A>, b: seq<B>, n: nat)
    requires SamePattern(a, b) && n <= |a|
    ensures |Distinct(a[..n])| == |Distinct(b[..n])|
  {
    if n > 0 {
      var m := n - 1;
      DistinctOfPattern(a, b, m);
      DistinctSnoc(a, m);
      DistinctSnoc(b, m);
      assert a[m] in a[..m] <==> exists k :: 0 <= k < m && a[k] == a[m];
      assert b[m] in b[..m] <==> exists k :: 0 <= k < m && b[k] == b[m];
    }
  }

  lemma PatternDeterminesNumbers<A, B>(a: seq<A>, b: seq<B>)
    requires SamePattern(a, b)
    ensures Numbered(a) == Numbered(b)
  {
    forall i: nat | i < |a| ensures Rank(a, i) == Rank(b, i) {
      FirstIndexOfPattern(a, b, i);
      DistinctOfPattern(a, b, FirstIndex(a, a[i]));
    }
  }

  lemma LaterRankIsLarger<T>(s: seq<T>, i: nat, j: nat)
    requires i < |s| && j < |s| && FirstIndex(s, s[i]) < FirstIndex(s, s[j])
    ensures Rank(s, i) < Rank(s, j)
  {
    var p, q := FirstIndex(s, s[i]), FirstIndex(s, s[j]);
    assert s[..q][..p] == s[..p] && s[..q][p] == s[i];
    StrictlySmaller(Distinct(s[..p]), Distinct(s[..q]), s[i]);
  }

  lemma NumbersKeepPattern<T>(s: seq<T>)
    ensures SamePattern(s, Numbered(s))
  {
    forall i: nat, j: nat | i < |s| && j < |s| ensures s[i] == s[j] <==> Rank(s, i) == Rank(s, j) {
      if FirstIndex(s, s[i]) < FirstIndex(s, s[j]) { LaterRankIsLarger(s, i, j); }
      if FirstIndex(s, s[j]) < FirstIndex(s, s[i]) { LaterRankIsLarger(s, j, i); }
    }
  }

  // The numbering of any sequence is normalized, and has equal neighbours where the sequence has.
  lemma NumberedIsNormalized<T>(s: seq<T>)
    ensures Normalized(Numbered(s))
    ensures NoEqualNeighbours(s) <==> NoEqualNeighbours(Numbered(s))
  {
    NumbersKeepPattern(s);
    PatternDeterminesNumbers(s, Numbered(s));
  }

  // Two normalized sequences with the same pattern are the same sequence.
  lemma NormalizedIsCanonical(a: seq<nat>, b: seq<nat>)
    requires Normalized(a) && Normalized(b) && SamePattern(a, b)
    ensures a == b
  {
    PatternDeterminesNumbers(a, b);
  }

  // ---------- recognising a normalized sequence from left to right ----------

  // So far every number is in place, and exactly the numbers below next have been used.
  ghost predicate NormalSoFar(s: seq<nat>, n: nat, next: nat)
    requires n <= |s|
  {
    Normalized(s[..n]) && Distinct(s[..n]) == Below(next)
  }

  lemma PrefixRanks(s: seq<nat>, n: nat)
    requires n < |s| && Normalized(s[..n])
    ensures forall i: nat | i < n :: Rank(s[..n + 1], i) == s[i]
  {
    var t := s[..n + 1];
    assert t[..n] == s[..n];
    forall i: nat | i < n ensures Rank(t, i) == s[i] {
      RankInPrefix(t, n, i);
      assert Numbered(s[..n])[i] == s[..n][i];
    }
  }

  lemma SeenNumber(s: seq<nat>, n: nat, next: nat)
    requires n < |s| && NormalSoFar(s, n, next) && s[n] < next
    ensures NormalSoFar(s, n + 1, next)
  {
    hide Rank;
    var t := s[..n + 1];
    PrefixRanks(s, n);
    assert s[n] in Distinct(s[..n]);
    var k :| 0 <= k < n && s[..n][k] == s[n];
    SameRank(t, k, n);
    assert t == s[..n] + [s[n]];
    assert Numbered(t) == t;
    assert Distinct(t) == Distinct(s[..n]);
  }

  lemma SameRank(t: seq<nat>, i: nat, j: nat)
    requires i < |t| && j < |t| && t[i] == t[j]
    ensures Rank(t, i) == Rank(t, j)
  {
  }

  // A value not seen before ranks next.
  lemma FreshRank(s: seq<nat>, n: nat, next: nat)
    requires n < |s| && NormalSoFar(s, n, next) && s[n] >= next
    ensures Rank(s[..n + 1], n) == next
  {
    var t := s[..n + 1];
    assert t[..n] == s[..n];
    assert s[n] !in Below(next);
    assert s[n] !in Distinct(s[..n]);
    FirstIndexUnique(t, t[n], n);
  }

  lemma NextNumber(s: seq<nat>, n: nat, next: nat)
    requires n < |s| && NormalSoFar(s, n, next) && s[n] == next
    ensures NormalSoFar(s, n + 1, next + 1)
  {
    hide Rank;
    var t := s[..n + 1];
    PrefixRanks(s, n);
    FreshRank(s, n, next);
    assert t == s[..n] + [s[n]];
    assert Numbered(t) == t;
    assert Distinct(t) == Distinct(s[..n]) + {next};
    assert Below(next + 1) == Below(next) + {next};
  }

  lemma SkippedNumber(s: seq<nat>, n: nat, next: nat)
    requires n < |s| && NormalSoFar(s, n, next) && s[n] > next
    ensures !Normalized(s)
  {
    FreshRank(s, n, next);
    RankInPrefix(s, n + 1, n);
    assert Numbered(s)[n] != s[n];
  }
}
