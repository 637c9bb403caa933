// What accepted rows of a front-end trace are on their own fields: no ranks, no running frames and
// no dictionaries.
module TraceExact {
  import opened Cardinality
  import opened Numbering
  import opened SiteEvents
  import opened Sums
  import opened TransitionTrace

  // ---------- numbering ----------

  // Before a number is used its predecessor is.
  ghost predicate PredecessorsFirst(s: seq<nat>, n: nat)
    requires n <= |s|
  {
    forall i | 0 <= i < n && s[i] > 0 :: exists j :: 0 <= j < i && s[j] == s[i] - 1
  }

  // The numbers used so far are those below next.
  lemma UsedSoFar(s: seq<nat>, n: nat, next: nat, x: nat)
    requires n <= |s| && NormalSoFar(s, n, next)
    ensures x < next <==> exists j :: 0 <= j < n && s[j] == x
  {
    hide Normalized;
    assert x in Below(next) <==> x < next;
    assert x in Distinct(s[..n]) <==> x in s[..n];
    if x in s[..n] {
      var j :| 0 <= j < n && s[..n][j] == x;
      assert s[j] == x;
    }
    if j :| 0 <= j < n && s[j] == x {
      assert s[..n][j] == x;
    }
  }

  lemma {:induction false} Climb(s: seq<nat>, n: nat) returns (next: nat)
    requires n <= |s| && PredecessorsFirst(s, n)
    ensures NormalSoFar(s, n, next)
  {
    hide Normalized, NormalSoFar;
    if n == 0 {
      next := 0;
      NothingYet(s);
    } else {
      var k: nat := n - 1;
      var before := Climb(s, k);
      if s[k] > 0 { UsedSoFar(s, k, before, s[k] - 1); }
      if s[k] == before {
        NextNumber(s, k, before);
        next := before + 1;
      } else {
        SeenNumber(s, k, before);
        next := before;
      }
    }
  }

  lemma {:induction false} Descend(s: seq<nat>, n: nat)
    requires n <= |s| && Normalized(s)
    ensures PredecessorsFirst(s, n)
  {
    hide Normalized, NormalSoFar;
    if n > 0 {
      var k: nat := n - 1;
      Descend(s, k);
      var next := Climb(s, k);
      if s[k] > next {
        SkippedNumber(s, k, next);
      }
      if s[k] > 0 { UsedSoFar(s, k, next, s[k] - 1); }
    }
  }

  // Numbers are given by first appearance exactly when none is used before its predecessor.
  lemma NormalizedExactly(s: seq<nat>)
    ensures Normalized(s) <==> PredecessorsFirst(s, |s|)
  {
    hide Normalized, PredecessorsFirst;
    if Normalized(s) { Descend(s, |s|); }
    if PredecessorsFirst(s, |s|) {
      var next := Climb(s, |s|);
      assert s[..|s|] == s;
    }
  }

  // ---------- transition rows ----------

  function Deltas(rows: seq<Transition>): seq<nat> {
    seq(|rows|, i requires 0 <= i < |rows| => rows[i].frameDelta)
  }

  lemma {:induction false} AbsoluteIsSum(rows: seq<Transition>, n: nat)
    requires n <= |rows|
    ensures Absolute(rows, n) == Sum(Deltas(rows)[..n])
  {
    if n > 0 {
      AbsoluteIsSum(rows, n - 1);
      SumPrefix(Deltas(rows), n - 1);
    }
  }

  // As deltas are not negative, only their total counts.
  lemma FramesAreTotal(rows: seq<Transition>, frameCount: nat)
    requires rows != []
    ensures InFrames(rows, |rows|, frameCount) <==> Sum(Deltas(rows)) < frameCount
  {
    hide Deltas;
    AbsoluteIsSum(rows, |rows|);
    assert |Deltas(rows)| == |rows| by { DeltaCount(rows); }
    assert Deltas(rows)[..|rows|] == Deltas(rows);
    forall k: nat | 0 < k <= |rows| ensures Absolute(rows, k) <= Absolute(rows, |rows|) {
      AbsoluteGrows(rows, k, |rows|);
    }
  }

  lemma DeltaCount(rows: seq<Transition>)
    ensures |Deltas(rows)| == |rows|
  {
  }

  // Rows of a transition trace: a row for each counted event, small fields, frames that exist, no
  // state twice in a row, and no state numbered before the one below it.
  ghost predicate RowsStand(rows: seq<Transition>, frameCount: nat, expectedCount: nat) {
    && 1 <= |rows| <= 1024 && |rows| == expectedCount
    && (forall i | 0 <= i < |rows| :: rows[i].frameDelta < 600 && rows[i].ordinal < 1024)
    && Sum(Deltas(rows)) < frameCount
    && (forall i, j | 0 <= i < |rows| && j == i + 1 < |rows| :: rows[i].ordinal != rows[j].ordinal)
    && forall i | 0 <= i < |rows| && rows[i].ordinal > 0 ::
         exists j :: 0 <= j < i && rows[j].ordinal == rows[i].ordinal - 1
  }

  lemma TransitionsExactly(rows: seq<Transition>, frameCount: nat, expectedCount: nat)
    ensures TransitionsAccepted(rows, frameCount, expectedCount) <==> RowsStand(rows, frameCount, expectedCount)
  {
    hide Normalized, Deltas, InFrames;
    var s := Ordinals(rows);
    NormalizedExactly(s);
    assert forall i | 0 <= i < |rows| :: s[i] == rows[i].ordinal;
    PredecessorRows(rows);
    if rows != [] { FramesAreTotal(rows, frameCount); }
  }

  lemma PredecessorRows(rows: seq<Transition>)
    ensures PredecessorsFirst(Ordinals(rows), |rows|) <==>
      forall i | 0 <= i < |rows| && rows[i].ordinal > 0 ::
        exists j :: 0 <= j < i && rows[j].ordinal == rows[i].ordinal - 1
  {
    var s := Ordinals(rows);
    assert forall i | 0 <= i < |rows| :: s[i] == rows[i].ordinal;
    if PredecessorsFirst(s, |s|) {
      forall i | 0 <= i < |rows| && rows[i].ordinal > 0
        ensures exists j :: 0 <= j < i && rows[j].ordinal == rows[i].ordinal - 1
      {
        var j :| 0 <= j < i && s[j] == s[i] - 1;
        assert rows[j].ordinal == rows[i].ordinal - 1;
      }
    }
    if forall i | 0 <= i < |rows| && rows[i].ordinal > 0 ::
         exists j :: 0 <= j < i && rows[j].ordinal == rows[i].ordinal - 1
    {
      forall i | 0 <= i < |s| && s[i] > 0 ensures exists j :: 0 <= j < i && s[j] == s[i] - 1 {
        var j :| 0 <= j < i && rows[j].ordinal == rows[i].ordinal - 1;
        assert s[j] == s[i] - 1;
      }
    }
  }

  // Ten reports: five scenarios with their repeats, idle first.
  lemma BundleExactly<R>(reports: seq<Report<R>>)
    ensures BundleAccepted(reports) <==>
      && |reports| == 10 && reports[0] == reports[1] && reports[2] == reports[3] && reports[4] == reports[5]
      && reports[6] == reports[7] && reports[8] == reports[9]
      && (var idle := reports[0].transitions;
          || reports[2].transitions != idle || reports[4].transitions != idle || reports[6].transitions != idle
          || reports[8].transitions != idle)
  {
    if |reports| == 10 {
      assert 2 * 0 == 0 && 2 * 1 == 2 && 2 * 2 == 4 && 2 * 3 == 6 && 2 * 4 == 8;
      FiveScenarios((s: nat) => s < 5 && reports[2 * s] == reports[2 * s + 1]);
      FiveScenarios((s: nat) => s < 5 && (s > 0 ==> reports[2 * s].transitions == reports[0].transitions));
    }
  }

  lemma FiveScenarios(p: nat -> bool)
    ensures (forall s: nat | s < 5 :: p(s)) <==> p(0) && p(1) && p(2) && p(3) && p(4)
  {
  }

  // ---------- site events ----------

  function EventDeltas(rows: seq<SiteEvent>): seq<nat> {
    seq(|rows|, i requires 0 <= i < |rows| => rows[i].frameDelta)
  }

  // The counts of one class, zero for the rows of other classes.
  function CountsOf(rows: seq<SiteEvent>, c: nat): seq<nat> {
    seq(|rows|, i requires 0 <= i < |rows| => if rows[i].eventClass == c then rows[i].count else 0)
  }

  ghost predicate EventsStand(rows: seq<SiteEvent>, frameCount: nat, expected: seq<nat>)
    requires |expected| == 5
  {
    && 1 <= |rows| <= 32_768
    && (forall i | 0 <= i < |rows| ::
          rows[i].frameDelta < 600 && rows[i].site < 4_096 && rows[i].eventClass < 5 && 1 <= rows[i].count <= 1_000_000)
    && Sum(EventDeltas(rows)) < frameCount
    && (forall i, j | 0 <= i < |rows| && j == i + 1 < |rows| && rows[j].frameDelta == 0 ::
          rows[i].site < rows[j].site || (rows[i].site == rows[j].site && rows[i].eventClass < rows[j].eventClass))
    && (forall i, j | 0 <= i < |rows| && 0 <= j < |rows| && rows[i].site == rows[j].site ::
          rows[i].eventClass == rows[j].eventClass)
    && (forall i | 0 <= i < |rows| && rows[i].site > 0 :: exists j :: 0 <= j < i && rows[j].site == rows[i].site - 1)
    && (forall c | 0 <= c < 5 :: Sum(CountsOf(rows, c)) == expected[c])
  }

  lemma {:induction false} TotalIsSum(rows: seq<SiteEvent>, n: nat, c: nat)
    requires n <= |rows|
    ensures ClassTotal(rows, n, c) == Sum(CountsOf(rows, c)[..n])
  {
    if n > 0 {
      TotalIsSum(rows, n - 1, c);
      SumPrefix(CountsOf(rows, c), n - 1);
    }
  }

  lemma TrackedRows(rows: seq<SiteEvent>)
    ensures Deltas(Track(rows)) == EventDeltas(rows)
    ensures forall i | 0 <= i < |rows| :: Ordinals(Track(rows))[i] == rows[i].site
  {
  }

  lemma PredecessorSites(rows: seq<SiteEvent>)
    ensures Normalized(Ordinals(Track(rows))) <==>
      forall i | 0 <= i < |rows| && rows[i].site > 0 :: exists j :: 0 <= j < i && rows[j].site == rows[i].site - 1
  {
    hide Normalized;
    var t := Track(rows);
    NormalizedExactly(Ordinals(t));
    PredecessorRows(t);
    assert forall i | 0 <= i < |rows| :: t[i].ordinal == rows[i].site;
    if Normalized(Ordinals(t)) {
      forall i | 0 <= i < |rows| && rows[i].site > 0
        ensures exists j :: 0 <= j < i && rows[j].site == rows[i].site - 1
      {
        var j :| 0 <= j < i && t[j].ordinal == t[i].ordinal - 1;
        assert rows[j].site == rows[i].site - 1;
      }
    }
    if forall i | 0 <= i < |rows| && rows[i].site > 0 :: exists j :: 0 <= j < i && rows[j].site == rows[i].site - 1 {
      forall i | 0 <= i < |t| && t[i].ordinal > 0 ensures exists j :: 0 <= j < i && t[j].ordinal == t[i].ordinal - 1 {
        var j :| 0 <= j < i && rows[j].site == rows[i].site - 1;
        assert t[j].ordinal == t[i].ordinal - 1;
      }
    }
  }

  lemma SiteEventsExactly(rows: seq<SiteEvent>, frameCount: nat, expected: seq<nat>)
    requires |expected| == 5
    ensures SiteEventsAccepted(rows, frameCount, expected) <==> EventsStand(rows, frameCount, expected)
  {
    hide Normalized, InFrames, Sum, Track, Ordinals, EventDeltas, Deltas, CountsOf, ClassTotal;
    PredecessorSites(rows);
    TrackedRows(rows);
    if rows != [] { FramesAreTotal(Track(rows), frameCount); }
    forall c: nat | c < 5 ensures ClassTotal(rows, |rows|, c) == Sum(CountsOf(rows, c)) {
      TotalIsSum(rows, |rows|, c);
      WholeCounts(rows, c);
    }
    OrderAndClass(rows);
  }

  lemma WholeCounts(rows: seq<SiteEvent>, c: nat)
    ensures |CountsOf(rows, c)| == |rows| && CountsOf(rows, c)[..|rows|] == CountsOf(rows, c)
  {
  }

  lemma OrderAndClass(rows: seq<SiteEvent>)
    ensures NeighboursOrdered(rows, |rows|) <==>
      forall i, j | 0 <= i < |rows| && j == i + 1 < |rows| && rows[j].frameDelta == 0 ::
        rows[i].site < rows[j].site || (rows[i].site == rows[j].site && rows[i].eventClass < rows[j].eventClass)
    ensures OneClassPerSite(rows, |rows|) <==>
      forall i, j | 0 <= i < |rows| && 0 <= j < |rows| && rows[i].site == rows[j].site ::
        rows[i].eventClass == rows[j].eventClass
  {
    if OneClassPerSite(rows, |rows|) {
      forall i, j | 0 <= i < |rows| && 0 <= j < |rows| && rows[i].site == rows[j].site
        ensures rows[i].eventClass == rows[j].eventClass
      {
        if i < j {
          assert rows[i].eventClass == rows[j].eventClass;
        } else if j < i {
          assert rows[j].eventClass == rows[i].eventClass;
        }
      }
    }
  }
}
