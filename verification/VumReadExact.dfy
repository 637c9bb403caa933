// What acceptance of a read-trace report means on its own fields: some matrix of executions
// inside the sites' ranges, site rows that summarise some counts, and demands that are the least
// such counts.
module VumReadExact {
  import opened Sums
  import opened IntervalTransport
  import opened VumReadTrace

  // ---------- putting the transports of all widths together ----------

  // The transport of one width for each width.
  ghost predicate Transports(ts: map<int, seq<seq<nat>>>, rows: seq<SiteRow>, ee: seq<EeRow>) {
    forall w | w in EE_WIDTHS :: w in ts && TransportOf(ts[w], rows, ee, w)
  }

  ghost predicate TransportOf(t: seq<seq<nat>>, rows: seq<SiteRow>, ee: seq<EeRow>, width: int) {
    var intervals := IntervalsOf(rows, width);
    IsTransport(t, OffsetsOf(ee, width), CountsOf(ee, width), intervals, Demands(intervals))
  }

  // The place of a marked index among the marked ones.
  ghost function Rank(mask: seq<bool>, i: nat): (j: nat)
    requires i < |mask| && mask[i]
    ensures j < Marked(mask) && Origin(mask, j) == i
  {
    OriginOfRank(mask, i);
    Marked(mask[..i])
  }

  // Spread a row over the marked places, zero elsewhere.
  ghost function Spread(row: seq<nat>, mask: seq<bool>): (r: seq<nat>)
    requires |row| == Marked(mask)
    ensures |r| == |mask|
  {
    seq(|mask|, i requires 0 <= i < |mask| => if mask[i] then row[Rank(mask, i)] else 0)
  }

  lemma SpreadAgain(row: seq<nat>, mask: seq<bool>)
    requires |row| == Marked(mask)
    ensures Keep(Spread(row, mask), mask) == row && Sum(Spread(row, mask)) == Sum(row)
  {
    var r := Spread(row, mask);
    forall j: nat | j < Marked(mask) ensures Keep(r, mask)[j] == row[j] {
      KeepAt(r, mask, j);
      OriginOnce(mask, Rank(mask, Origin(mask, j)), j);
    }
    assert Keep(r, mask) == row;
    KeepSum(r, mask);
  }

  lemma OriginOnce(mask: seq<bool>, i: nat, j: nat)
    requires i < Marked(mask) && j < Marked(mask) && Origin(mask, i) == Origin(mask, j)
    ensures i == j
  {
    if i < j { OriginIncreasing(mask, i, j); }
    if j < i { OriginIncreasing(mask, j, i); }
  }

  // The executions of site s, taken from the transport of its width.
  ghost function RowFrom(ts: map<int, seq<seq<nat>>>, rows: seq<SiteRow>, ee: seq<EeRow>, s: nat): (r: seq<nat>)
    requires s < |rows| && rows[s].width in EE_WIDTHS && Transports(ts, rows, ee)
    ensures |r| == |ee|
  {
    var w := rows[s].width;
    assert TransportOf(ts[w], rows, ee, w);
    Spread(ts[w][Rank(SiteMask(rows, w), s)], EeMask(ee, w))
  }

  ghost function MatrixFrom(ts: map<int, seq<seq<nat>>>, rows: seq<SiteRow>, ee: seq<EeRow>): (m: seq<seq<nat>>)
    requires Transports(ts, rows, ee) && forall s | 0 <= s < |rows| :: rows[s].width in EE_WIDTHS
    ensures |m| == |rows| && forall s | 0 <= s < |m| :: |m[s]| == |ee|
  {
    hide Transports, Spread;
    seq(|rows|, s requires 0 <= s < |rows| => RowFrom(ts, rows, ee, s))
  }

  lemma RowFromSum(ts: map<int, seq<seq<nat>>>, rows: seq<SiteRow>, ee: seq<EeRow>, s: nat)
    requires s < |rows| && rows[s].width in EE_WIDTHS && Transports(ts, rows, ee)
    ensures Sum(RowFrom(ts, rows, ee, s)) == Nat(rows[s].executions)
  {
    hide Sum, Keep, Spread;
    var w := rows[s].width;
    var t, j := ts[w], Rank(SiteMask(rows, w), s);
    assert TransportOf(t, rows, ee, w);
    SpreadAgain(t[j], EeMask(ee, w));
    KeepAt(Intervals(rows), SiteMask(rows, w), j);
    assert Sum(t[j]) == Demands(IntervalsOf(rows, w))[j];
  }

  // Where site s executes key k, the transport of its width executes the corresponding cell.
  lemma RowFromCell(ts: map<int, seq<seq<nat>>>, rows: seq<SiteRow>, ee: seq<EeRow>, s: nat, k: nat)
    requires s < |rows| && k < |ee| && rows[s].width in EE_WIDTHS && Transports(ts, rows, ee)
    ensures RowFrom(ts, rows, ee, s)[k] > 0 ==>
      ee[k].width == rows[s].width && rows[s].minimum <= ee[k].offset <= rows[s].maximum
  {
    hide Sum, Keep;
    var w := rows[s].width;
    assert TransportOf(ts[w], rows, ee, w);
    if RowFrom(ts, rows, ee, s)[k] > 0 {
      var i, j := Rank(SiteMask(rows, w), s), Rank(EeMask(ee, w), k);
      KeepAt(Intervals(rows), SiteMask(rows, w), i);
      KeepAt(Offsets(ee), EeMask(ee, w), j);
      assert ts[w][i][j] > 0;
      assert Covers(IntervalsOf(rows, w)[i], OffsetsOf(ee, w)[j]);
    }
  }

  lemma MatrixColumn(ts: map<int, seq<seq<nat>>>, rows: seq<SiteRow>, ee: seq<EeRow>, k: nat)
    requires Transports(ts, rows, ee) && (forall s | 0 <= s < |rows| :: rows[s].width in EE_WIDTHS)
    requires k < |ee| && ee[k].width in EE_WIDTHS
    ensures Sum(Column(MatrixFrom(ts, rows, ee), k)) == Nat(ee[k].count)
  {
    hide Sum, Keep, Transports;
    var w := ee[k].width;
    assert w in ts && TransportOf(ts[w], rows, ee, w) by { TransportIn(ts, rows, ee, w); }
    var t, j, mask := ts[w], Rank(EeMask(ee, w), k), SiteMask(rows, w);
    var c := Column(MatrixFrom(ts, rows, ee), k);
    forall i: nat | i < Marked(mask) ensures Keep(c, mask)[i] == Column(t, j)[i] {
      KeepAt(c, mask, i);
      OriginOnce(mask, Rank(mask, Origin(mask, i)), i);
    }
    assert Keep(c, mask) == Column(t, j);
    forall s | 0 <= s < |c| && !mask[s] ensures c[s] == 0 {
    }
    KeepSum(c, mask);
    KeepAt(Counts(ee), EeMask(ee, w), j);
  }

  lemma TransportIn(ts: map<int, seq<seq<nat>>>, rows: seq<SiteRow>, ee: seq<EeRow>, w: int)
    requires Transports(ts, rows, ee) && w in EE_WIDTHS
    ensures w in ts && TransportOf(ts[w], rows, ee, w)
  {
  }

  lemma PickTransports(rows: seq<SiteRow>, ee: seq<EeRow>) returns (ts: map<int, seq<seq<nat>>>)
    requires forall w | w in EE_WIDTHS :: WidthFeasible(rows, ee, w)
    ensures Transports(ts, rows, ee)
  {
    hide WidthFeasible, TransportOf;
    var t1 := FeasibleTransport(rows, ee, 1);
    var t2 := FeasibleTransport(rows, ee, 2);
    var t4 := FeasibleTransport(rows, ee, 4);
    var t8 := FeasibleTransport(rows, ee, 8);
    var t16 := FeasibleTransport(rows, ee, 16);
    ts := map[1 := t1, 2 := t2, 4 := t4, 8 := t8, 16 := t16];
  }

  lemma FeasibleTransport(rows: seq<SiteRow>, ee: seq<EeRow>, w: int) returns (t: seq<seq<nat>>)
    requires WidthFeasible(rows, ee, w)
    ensures TransportOf(t, rows, ee, w)
  {
    hide IsTransport;
    t :| IsTransport(t, OffsetsOf(ee, w), CountsOf(ee, w), IntervalsOf(rows, w), Demands(IntervalsOf(rows, w)));
  }

  // Transports for every width are executions inside every site's own range.
  lemma FeasibleExecutes(rows: seq<SiteRow>, ee: seq<EeRow>) returns (m: seq<seq<nat>>)
    requires forall w | w in EE_WIDTHS :: WidthFeasible(rows, ee, w)
    requires forall s | 0 <= s < |rows| :: rows[s].width in EE_WIDTHS && rows[s].executions >= 0
    requires forall k | 0 <= k < |ee| :: ee[k].width in EE_WIDTHS && ee[k].count >= 0
    ensures Executes(m, rows, ee)
  {
    hide Sum, Transports, WidthFeasible, Spread;
    var ts := PickTransports(rows, ee);
    m := MatrixFrom(ts, rows, ee);
    forall s: nat | s < |rows| ensures |m[s]| == |ee| && Sum(m[s]) == rows[s].executions {
      RowFromSum(ts, rows, ee, s);
    }
    forall k: nat | k < |ee| ensures Sum(Column(m, k)) == ee[k].count {
      MatrixColumn(ts, rows, ee, k);
    }
    forall s: nat, k: nat | s < |rows| && k < |ee| && m[s][k] > 0
      ensures ee[k].width == rows[s].width && rows[s].minimum <= ee[k].offset <= rows[s].maximum
    {
      RowFromCell(ts, rows, ee, s, k);
    }
  }

  // ---------- what one accepted row means ----------

  lemma {:induction false} SubsetOfSize(base: set<nat>, pool: set<nat>, n: nat) returns (t: set<nat>)
    requires base <= pool && |base| <= n <= |pool|
    ensures base <= t <= pool && |t| == n
    decreases n - |base|
  {
    if |base| == n {
      t := base;
    } else {
      assert base != pool;
      var x :| x in pool && x !in base;
      t := SubsetOfSize(base + {x}, pool, n);
    }
  }

  // One at the places of a set, zero elsewhere.
  function Indicator(t: set<nat>, n: nat): (r: seq<nat>)
    ensures |r| == n
  {
    seq(n, i requires 0 <= i < n => if i in t then 1 else 0)
  }

  lemma {:induction false} IndicatorSum(t: set<nat>, n: nat)
    requires forall x | x in t :: x < n
    ensures Sum(Indicator(t, n)) == |t|
  {
    if n == 0 {
      assert t == {};
    } else {
      var k: nat := n - 1;
      IndicatorSum(t - {k}, k);
      assert Indicator(t, n)[..k] == Indicator(t - {k}, k);
      if k !in t { assert t - {k} == t; }
    }
  }

  // The keys inside a row's range.
  ghost function KeysInside(row: SiteRow, ee: seq<EeRow>): set<nat> {
    set k: nat | k < |ee| && ee[k].width == row.width && row.minimum <= ee[k].offset <= row.maximum
  }

  lemma KeysInsideCount(row: SiteRow, ee: seq<EeRow>)
    ensures |KeysInside(row, ee)| == OffsetsInRange(ee, row.width, row.minimum, row.maximum)
  {
    IndicatorSum(KeysInside(row, ee), |ee|);
    assert Indicator(KeysInside(row, ee), |ee|) == OffsetMarks(ee, row.width, row.minimum, row.maximum);
  }

  // All but the first execution of the chosen keys happen at key x.
  function Heaped(t: set<nat>, n: nat, x: nat, executions: nat): (r: seq<nat>)
    requires x < n && |t| <= executions
    ensures |r| == n
  {
    Indicator(t, n)[x := 1 + executions - |t|]
  }

  lemma HeapedSummarises(row: SiteRow, s: nat, ee: seq<EeRow>, t: set<nat>, x: nat, a: nat, b: nat)
    requires t <= KeysInside(row, ee) && x in t && a in t && b in t
    requires ee[a].offset == row.minimum && ee[b].offset == row.maximum
    requires row.site == s && row.distinct == |t| <= row.executions
    requires row.loop == (row.executions > 1 && row.distinct > 1)
    ensures Summarises(row, s, Heaped(t, |ee|, x, row.executions), ee)
  {
    var n := |ee|;
    var counts := Heaped(t, n, x, row.executions);
    IndicatorSum(t, n);
    SumUpdate(Indicator(t, n), x, 1 + row.executions - |t|);
    assert Positives(counts) == Indicator(t, n);
    assert counts[a] > 0 && counts[b] > 0;
  }

  lemma KeyOf(ee: seq<EeRow>, row: SiteRow, offset: int) returns (a: nat)
    requires HasKey(ee, offset, row.width) && row.minimum <= offset <= row.maximum
    ensures a in KeysInside(row, ee) && ee[a].offset == offset
  {
    a :| 0 <= a < |ee| && ee[a].offset == offset && ee[a].width == row.width;
  }

  // Counts that an accepted row may summarise, with no more at key k than the row needs there.
  lemma LeastCounts(row: SiteRow, s: nat, ee: seq<EeRow>, size: int, k: nat) returns (counts: seq<nat>)
    requires SortedKeys(ee) && SiteRowShape(row, s, size) && SiteRowFits(row, ee) && k < |ee|
    ensures Summarises(row, s, counts, ee) && counts[k] == Need(row, ee, k)
  {
    hide Summarises, SortedKeys, OffsetsInRange;
    var pool := KeysInside(row, ee);
    KeysInsideCount(row, ee);
    var a := KeyOf(ee, row, row.minimum);
    var b := KeyOf(ee, row, row.maximum);
    var base := {a, b};
    SameOffset(row, ee, a, b, k);
    var x := if k == a then b else a;
    var without := if k in base then pool else pool - {k};
    var t := SubsetOfSize(base, if row.distinct == |pool| then pool else without, row.distinct);
    if row.distinct == |pool| { SubsetIsWhole(t, pool); }
    HeapedSummarises(row, s, ee, t, x, a, b);
    counts := Heaped(t, |ee|, x, row.executions);
  }

  lemma SubsetIsWhole(t: set<nat>, pool: set<nat>)
    requires t <= pool && |t| == |pool|
    ensures t == pool
  {
    assert pool == t + (pool - t);
    assert pool - t == {};
  }

  lemma SameOffset(row: SiteRow, ee: seq<EeRow>, a: nat, b: nat, k: nat)
    requires SortedKeys(ee) && a in KeysInside(row, ee) && b in KeysInside(row, ee) && k < |ee|
    requires ee[a].offset == row.minimum && ee[b].offset == row.maximum
    ensures row.minimum == row.maximum <==> a == b
    ensures row.minimum == row.maximum ==> KeysInside(row, ee) == {a}
    ensures ee[k].width == row.width ==> (ee[k].offset == row.minimum <==> k == a)
    ensures ee[k].width == row.width ==> (ee[k].offset == row.maximum <==> k == b)
  {
    if k != a { KeysDiffer(ee, k, a); }
    if k != b { KeysDiffer(ee, k, b); }
    if a != b { KeysDiffer(ee, a, b); }
    if row.minimum == row.maximum {
      forall j | j in KeysInside(row, ee) ensures j == a {
        if j != a { KeysDiffer(ee, j, a); }
      }
    }
  }

  // What the extrema rule demands of a row at a key is the least any counts can give it there.
  lemma NeedIsLeast(row: SiteRow, s: nat, ee: seq<EeRow>, size: int, k: nat)
    requires SortedKeys(ee) && SiteRowShape(row, s, size) && SiteRowFits(row, ee) && k < |ee|
    ensures exists counts :: Summarises(row, s, counts, ee) && counts[k] == Need(row, ee, k)
    ensures forall counts | Summarises(row, s, counts, ee) :: Need(row, ee, k) <= counts[k]
  {
    hide Summarises, SortedKeys, SiteRowShape, SiteRowFits, Need;
    var counts := LeastCounts(row, s, ee, size, k);
    forall c | Summarises(row, s, c, ee) ensures k < |c| && Need(row, ee, k) <= c[k] {
      SummaryLength(row, s, c, ee);
      NeedIsMet(row, s, c, ee, k);
    }
  }

  lemma SummaryLength(row: SiteRow, s: nat, counts: seq<nat>, ee: seq<EeRow>)
    requires Summarises(row, s, counts, ee)
    ensures |counts| == |ee|
  {
  }

  // What summarising some counts says of a row's own fields.
  lemma SummaryShape(row: SiteRow, s: nat, counts: seq<nat>, ee: seq<EeRow>, size: int)
    requires EeAccepted(ee, size) && Summarises(row, s, counts, ee)
    ensures row.executions <= UINT64_MAX ==> SiteRowShape(row, s, size)
    ensures row.executions <= ExecutionsInRange(ee, row.width, row.minimum, row.maximum) ==> SiteRowFits(row, ee)
  {
    hide Sum, SortedKeys;
    SummaryBounds(row, s, counts, ee);
    SumMonotone(Positives(counts), OffsetMarks(ee, row.width, row.minimum, row.maximum));
    SummaryKeys(row, s, counts, ee, size);
    SummaryReach(row, ee);
  }

  lemma SummaryKeys(row: SiteRow, s: nat, counts: seq<nat>, ee: seq<EeRow>, size: int)
    requires EeAccepted(ee, size) && Summarises(row, s, counts, ee)
    ensures HasKey(ee, row.minimum, row.width) && HasKey(ee, row.maximum, row.width)
    ensures row.width in EE_WIDTHS && 0 <= row.minimum <= row.maximum && row.maximum + row.width <= size
    ensures row.minimum % row.width == 0 && row.maximum % row.width == 0
  {
    hide Sum;
    var a :| 0 <= a < |ee| && counts[a] > 0 && ee[a].offset == row.minimum;
    var b :| 0 <= b < |ee| && counts[b] > 0 && ee[b].offset == row.maximum;
    assert EeRowAccepted(ee[a], size) && EeRowAccepted(ee[b], size);
  }

  // The row summarises some executions of its site.
  ghost predicate Summarised(row: SiteRow, s: nat, ee: seq<EeRow>) {
    exists counts :: Summarises(row, s, counts, ee)
  }

  // A row is accepted by itself exactly when it summarises some executions of its site and its
  // range holds enough of them.
  lemma RowIsSummary(row: SiteRow, s: nat, ee: seq<EeRow>, size: int)
    requires EeAccepted(ee, size)
    ensures SiteRowShape(row, s, size) && SiteRowFits(row, ee) <==>
      && Summarised(row, s, ee)
      && row.executions <= UINT64_MAX
      && row.executions <= ExecutionsInRange(ee, row.width, row.minimum, row.maximum)
  {
    hide Summarises, EeAccepted;
    if SiteRowShape(row, s, size) && SiteRowFits(row, ee) {
      KeysExist(row, ee);
      SortedOfAccepted(ee, size);
      var counts := LeastCounts(row, s, ee, size, 0);
    }
    if counts :| Summarises(row, s, counts, ee) {
      SummaryShape(row, s, counts, ee, size);
    }
  }

  lemma KeysExist(row: SiteRow, ee: seq<EeRow>)
    requires SiteRowFits(row, ee)
    ensures ee != []
  {
    hide Sum;
  }

  lemma SortedOfAccepted(ee: seq<EeRow>, size: int)
    requires EeAccepted(ee, size)
    ensures SortedKeys(ee) && Sum(Counts(ee)) <= UINT64_MAX
    ensures forall k | 0 <= k < |ee| :: ee[k].width in EE_WIDTHS && ee[k].count > 0
  {
  }

  // ---------- what an accepted report means ----------

  // On the report's own fields: few enough sites and memberships, in order; every row summarises
  // executions of its site; some matrix executes all of them inside the sites' ranges; and the
  // executions the sites cannot do without fit every key.
  ghost predicate ReportHolds(rows: seq<SiteRow>, ee: seq<EeRow>) {
    && |rows| <= 65_536 && Sum(Distincts(rows)) <= 1_048_576
    && InTracerOrder(rows)
    && (forall s: nat | s < |rows| :: Summarised(rows[s], s, ee))
    && (exists m :: Executes(m, rows, ee))
    && (forall k | 0 <= k < |ee| :: Sum(Needs(rows, ee, k)) <= ee[k].count)
  }

  // The validator accepts exactly such reports; NeedIsLeast says what the last condition counts.
  lemma AcceptedHolds(rows: seq<SiteRow>, ee: seq<EeRow>, size: int)
    requires EeAccepted(ee, size)
    ensures SitesAccepted(rows, ee, size) <==> ReportHolds(rows, ee)
  {
    if SitesAccepted(rows, ee, size) {
      AcceptedIsReport(rows, ee, size);
    }
    if ReportHolds(rows, ee) {
      ReportIsAccepted(rows, ee, size);
    }
  }

  lemma AcceptedIsReport(rows: seq<SiteRow>, ee: seq<EeRow>, size: int)
    requires EeAccepted(ee, size) && SitesAccepted(rows, ee, size)
    ensures ReportHolds(rows, ee)
  {
    hide EeAccepted, SiteRowShape, SiteRowFits, Summarised, WidthFeasible, Sum, Executes, Needs, InTracerOrder;
    SortedOfAccepted(ee, size);
    forall s: nat | s < |rows|
      ensures rows[s].width in EE_WIDTHS && rows[s].executions >= 0
      ensures Summarised(rows[s], s, ee)
    {
      ShapeBounds(rows[s], s, size);
      RowIsSummary(rows[s], s, ee, size);
    }
    var m := FeasibleExecutes(rows, ee);
  }

  lemma ShapeBounds(row: SiteRow, s: nat, size: int)
    requires SiteRowShape(row, s, size)
    ensures row.width in EE_WIDTHS && row.executions >= 0
  {
  }

  lemma ReportIsAccepted(rows: seq<SiteRow>, ee: seq<EeRow>, size: int)
    requires EeAccepted(ee, size) && ReportHolds(rows, ee)
    ensures SitesAccepted(rows, ee, size)
  {
    hide EeAccepted, SiteRowShape, SiteRowFits, Summarised, WidthFeasible, Sum, Executes, Needs, InTracerOrder,
         WidthExecutions, WidthCounts, ExecutionsInRange, Counts;
    SortedOfAccepted(ee, size);
    var m :| Executes(m, rows, ee);
    forall s: nat | s < |rows| ensures SiteRowShape(rows[s], s, size) && SiteRowFits(rows[s], ee) {
      RowWithinRange(m, rows, ee, s);
      RowIsSummary(rows[s], s, ee, size);
    }
    TotalsAgree(m, rows, ee);
    forall width | width in EE_WIDTHS
      ensures Sum(WidthExecutions(rows, width)) == Sum(WidthCounts(ee, width)) && WidthFeasible(rows, ee, width)
    {
      WidthTotalsAgree(m, rows, ee, width);
      WidthIsFeasible(m, rows, ee, width);
    }
    NothingAlone(m, rows, ee);
  }

  lemma RowWithinRange(m: seq<seq<nat>>, rows: seq<SiteRow>, ee: seq<EeRow>, s: nat)
    requires Executes(m, rows, ee) && s < |rows| && Sum(Counts(ee)) <= UINT64_MAX
    ensures rows[s].executions <= ExecutionsInRange(ee, rows[s].width, rows[s].minimum, rows[s].maximum)
    ensures rows[s].executions <= UINT64_MAX
  {
    hide Sum;
    var row := rows[s];
    forall k | 0 <= k < |ee| ensures m[s][k] <= ee[k].count {
      SumBoundsElement(Column(m, k), s);
    }
    SumMonotone(m[s], ExecutionMarks(ee, row.width, row.minimum, row.maximum));
    SumMonotone(m[s], Counts(ee));
  }

  lemma NothingAlone(m: seq<seq<nat>>, rows: seq<SiteRow>, ee: seq<EeRow>)
    requires Executes(m, rows, ee) && forall k | 0 <= k < |ee| :: ee[k].count > 0
    requires forall s: nat | s < |rows| :: Summarised(rows[s], s, ee)
    ensures rows == [] <==> ee == []
  {
    hide Sum;
    if ee != [] && rows == [] {
      assert Column(m, 0) == [];
      SumOfZeros(Column(m, 0));
    }
    if rows != [] {
      assert Summarised(rows[0], 0, ee);
      var counts :| Summarises(rows[0], 0, counts, ee);
    }
  }

  // ---------- the order of the rows, and where reads lie ----------

  function OrderKey(row: SiteRow): seq<int> {
    [row.minimum, row.maximum, row.width, row.executions, row.distinct]
  }

  // Tracer order is the lexicographic order of five fields.
  lemma TracerOrderIsLexicographic(a: SiteRow, b: SiteRow)
    ensures TracerOrder(a, b) <==>
      || OrderKey(a) == OrderKey(b)
      || exists i :: 0 <= i < 5 && OrderKey(a)[..i] == OrderKey(b)[..i] && OrderKey(a)[i] < OrderKey(b)[i]
  {
    var x, y := OrderKey(a), OrderKey(b);
    var i := if x[0] != y[0] then 0 else if x[1] != y[1] then 1 else if x[2] != y[2] then 2
             else if x[3] != y[3] then 3 else if x[4] != y[4] then 4 else 5;
    assert x[..i] == y[..i] && (i < 5 ==> x[i] != y[i]);
    assert i == 5 <==> x == y;
    forall j | 0 <= j < 5 && x[..j] == y[..j] && x[j] < y[j] ensures j == i {
    }
    assert i < 5 ==> (TracerOrder(a, b) <==> x[i] < y[i]);
  }

  function IntervalKey(a: Interval): seq<int> { [a.minimum, a.maximum, a.ordinal, a.demand] }

  // Intervals are sorted by the lexicographic order of their four fields, and served by that of
  // the second and the third.
  lemma IntervalOrderIsLexicographic(a: Interval, b: Interval)
    ensures DueBefore(a, b) && DueBefore(b, a) <==> a.maximum == b.maximum && a.ordinal == b.ordinal
    ensures a.maximum < b.maximum || (a.maximum == b.maximum && a.ordinal < b.ordinal) ==> DueBefore(a, b)
    ensures IntervalLe(a, b) <==>
      || IntervalKey(a) == IntervalKey(b)
      || exists i :: 0 <= i < 4 && IntervalKey(a)[..i] == IntervalKey(b)[..i] && IntervalKey(a)[i] < IntervalKey(b)[i]
  {
    var x, y := IntervalKey(a), IntervalKey(b);
    var i := if x[0] != y[0] then 0 else if x[1] != y[1] then 1 else if x[2] != y[2] then 2
             else if x[3] != y[3] then 3 else 4;
    assert x[..i] == y[..i] && (i < 4 ==> x[i] != y[i]);
    assert i == 4 <==> x == y;
    forall j | 0 <= j < 4 && x[..j] == y[..j] && x[j] < y[j] ensures j == i {
    }
    assert i < 4 ==> (IntervalLe(a, b) <==> x[i] < y[i]);
  }

  // Accepted reads lie inside the span, and two reads of one width share no byte.
  lemma ReadsApart(ee: seq<EeRow>, size: int, i: nat, j: nat)
    requires EeAccepted(ee, size) && i < |ee| && j < |ee|
    ensures ee[i].width in {1, 2, 4, 8, 16} && 1 <= ee[i].count <= 0xFFFF_FFFF_FFFF_FFFF
    ensures 0 <= ee[i].offset && ee[i].offset + ee[i].width <= size
    ensures i < j && ee[i].width == ee[j].width ==> ee[i].offset + ee[i].width <= ee[j].offset
    ensures i < j ==> ee[i].offset < ee[j].offset || (ee[i].offset == ee[j].offset && ee[i].width < ee[j].width)
  {
    hide Sum;
    assert EeRowAccepted(ee[i], size) && EeRowAccepted(ee[j], size);
    if i < j {
      assert KeyLess(ee[i], ee[j]);
      if ee[i].width == ee[j].width {
        MultiplesApart(ee[i].offset, ee[j].offset, ee[i].width);
      }
    }
  }

  // ---------- the EE reads ----------

  function ReadCounts(ee: seq<EeRow>): seq<nat> {
    seq(|ee|, k requires 0 <= k < |ee| => if ee[k].count > 0 then ee[k].count else 0)
  }

  // Aligned reads of known widths inside the span, in strict order, no more than 64 bits can count.
  ghost predicate ReadsStand(ee: seq<EeRow>, size: int) {
    && (forall k | 0 <= k < |ee| ::
          && (ee[k].width == 1 || ee[k].width == 2 || ee[k].width == 4 || ee[k].width == 8 || ee[k].width == 16)
          && 0 <= ee[k].offset <= size - ee[k].width && ee[k].offset % ee[k].width == 0
          && 0 < ee[k].count < 0x1_0000_0000_0000_0000)
    && (forall i, j | 0 <= i < j < |ee| ::
          ee[i].offset < ee[j].offset || (ee[i].offset == ee[j].offset && ee[i].width < ee[j].width))
    && Sum(ReadCounts(ee)) < 0x1_0000_0000_0000_0000
  }

  lemma ReadsExactly(ee: seq<EeRow>, size: int)
    ensures EeAccepted(ee, size) <==> ReadsStand(ee, size)
  {
    hide Sum;
    assert Counts(ee) == ReadCounts(ee);
  }
}
