// The aggregate report of tools/validate_vum_read_trace.py: what its two row validators
// accept, stated over the whole report, and why no report of a real trace is rejected.
module VumReadTrace {
  import opened Sums
  import opened IntervalTransport

  const MAX_ANONYMOUS_SITE_COUNT := 65_536
  const MAX_AGGREGATE_KEY_COUNT := 1_048_576
  const UINT64_MAX := 0xFFFF_FFFF_FFFF_FFFF
  const EE_WIDTHS := {1, 2, 4, 8, 16}

  datatype EeRow = EeRow(offset: int, width: int, count: int)

  datatype SiteRow = SiteRow(site: int, width: int, executions: int, distinct: int,
                             minimum: int, maximum: int, loop: bool)

  function Nat(x: int): nat { if x < 0 then 0 else x }

  // ---------- accepted EE rows ----------

  predicate EeRowAccepted(row: EeRow, size: int) {
    && row.width in EE_WIDTHS
    && 0 <= row.offset && row.offset % row.width == 0 && row.offset + row.width <= size
    && 1 <= row.count <= UINT64_MAX
  }

  predicate KeyLess(a: EeRow, b: EeRow) {
    a.offset < b.offset || (a.offset == b.offset && a.width < b.width)
  }

  predicate SortedKeys(ee: seq<EeRow>) {
    forall i, j | 0 <= i < j < |ee| :: KeyLess(ee[i], ee[j])
  }

  lemma KeysDiffer(ee: seq<EeRow>, i: nat, j: nat)
    requires SortedKeys(ee) && i < |ee| && j < |ee| && i != j
    ensures ee[i].offset != ee[j].offset || ee[i].width != ee[j].width
  {
    assert if i < j then KeyLess(ee[i], ee[j]) else KeyLess(ee[j], ee[i]);
  }

  function Counts(ee: seq<EeRow>): seq<nat> {
    seq(|ee|, k requires 0 <= k < |ee| => Nat(ee[k].count))
  }

  ghost predicate EeAccepted(ee: seq<EeRow>, size: int) {
    && (forall k | 0 <= k < |ee| :: EeRowAccepted(ee[k], size))
    && SortedKeys(ee)
    && Sum(Counts(ee)) <= UINT64_MAX
  }

  // ---------- accepted anonymous sites ----------

  predicate InRange(row: EeRow, width: int, minimum: int, maximum: int) {
    row.width == width && minimum <= row.offset <= maximum
  }

  // How many observed offsets, and how many executions, a range of one width holds.
  function OffsetMarks(ee: seq<EeRow>, width: int, minimum: int, maximum: int): seq<nat> {
    seq(|ee|, k requires 0 <= k < |ee| => if InRange(ee[k], width, minimum, maximum) then 1 else 0)
  }

  function ExecutionMarks(ee: seq<EeRow>, width: int, minimum: int, maximum: int): seq<nat> {
    seq(|ee|, k requires 0 <= k < |ee| => if InRange(ee[k], width, minimum, maximum) then Nat(ee[k].count) else 0)
  }

  function OffsetsInRange(ee: seq<EeRow>, width: int, minimum: int, maximum: int): nat {
    Sum(OffsetMarks(ee, width, minimum, maximum))
  }

  function ExecutionsInRange(ee: seq<EeRow>, width: int, minimum: int, maximum: int): nat {
    Sum(ExecutionMarks(ee, width, minimum, maximum))
  }

  predicate HasKey(ee: seq<EeRow>, offset: int, width: int) {
    exists k :: 0 <= k < |ee| && ee[k].offset == offset && ee[k].width == width
  }

  predicate SiteRowShape(row: SiteRow, ordinal: int, size: int) {
    && row.site == ordinal
    && row.width in EE_WIDTHS
    && 1 <= row.executions <= UINT64_MAX
    && 1 <= row.distinct <= UINT64_MAX
    && 0 <= row.minimum <= row.maximum
    && row.minimum % row.width == 0 && row.maximum % row.width == 0
    && row.maximum + row.width <= size
    && row.distinct <= row.executions
    && row.distinct <= (row.maximum - row.minimum) / row.width + 1
    && (row.minimum != row.maximum ==> row.distinct >= 2)
    && row.loop == (row.executions > 1 && row.distinct > 1)
  }

  predicate SiteRowFits(row: SiteRow, ee: seq<EeRow>) {
    && row.distinct <= OffsetsInRange(ee, row.width, row.minimum, row.maximum)
    && row.executions <= ExecutionsInRange(ee, row.width, row.minimum, row.maximum)
    && HasKey(ee, row.minimum, row.width)
    && HasKey(ee, row.maximum, row.width)
  }

  // Tracer order: (minimum, maximum, width, executions, distinct), lexicographically.
  predicate TracerOrder(a: SiteRow, b: SiteRow) {
    || a.minimum < b.minimum
    || (a.minimum == b.minimum &&
        (|| a.maximum < b.maximum
         || (a.maximum == b.maximum &&
             (|| a.width < b.width
              || (a.width == b.width &&
                  (a.executions < b.executions ||
                   (a.executions == b.executions && a.distinct <= b.distinct)))))))
  }

  predicate InTracerOrder(rows: seq<SiteRow>) {
    forall s, t | 0 <= s < |rows| && t == s + 1 < |rows| :: TracerOrder(rows[s], rows[t])
  }

  // The executions one site must have at the k-th EE key, whatever else it does.
  function Need(row: SiteRow, ee: seq<EeRow>, k: nat): nat
    requires k < |ee|
  {
    if row.width != ee[k].width then 0
    else if row.maximum == row.minimum then (if ee[k].offset == row.minimum then Nat(row.executions) else 0)
    else if row.distinct == OffsetsInRange(ee, row.width, row.minimum, row.maximum) then
      (if row.minimum <= ee[k].offset <= row.maximum then 1 else 0)
    else (if ee[k].offset == row.minimum || ee[k].offset == row.maximum then 1 else 0)
  }

  function Needs(rows: seq<SiteRow>, ee: seq<EeRow>, k: nat): seq<nat>
    requires k < |ee|
  {
    seq(|rows|, s requires 0 <= s < |rows| => Need(rows[s], ee, k))
  }

  function Distincts(rows: seq<SiteRow>): seq<nat> {
    seq(|rows|, s requires 0 <= s < |rows| => Nat(rows[s].distinct))
  }

  // Executions of one width, by EE key and by site.
  function WidthCounts(ee: seq<EeRow>, width: int): seq<nat> {
    seq(|ee|, k requires 0 <= k < |ee| => if ee[k].width == width then Nat(ee[k].count) else 0)
  }

  function WidthExecutions(rows: seq<SiteRow>, width: int): seq<nat> {
    seq(|rows|, s requires 0 <= s < |rows| => if rows[s].width == width then Nat(rows[s].executions) else 0)
  }

  function Executions(rows: seq<SiteRow>): seq<nat> {
    seq(|rows|, s requires 0 <= s < |rows| => Nat(rows[s].executions))
  }

  // The inputs of the interval test for one width.
  function EeMask(ee: seq<EeRow>, width: int): seq<bool> {
    seq(|ee|, k requires 0 <= k < |ee| => ee[k].width == width)
  }

  function SiteMask(rows: seq<SiteRow>, width: int): seq<bool> {
    seq(|rows|, s requires 0 <= s < |rows| => rows[s].width == width)
  }

  function Offsets(ee: seq<EeRow>): seq<int> {
    seq(|ee|, k requires 0 <= k < |ee| => ee[k].offset)
  }

  function IntervalOf(row: SiteRow, ordinal: int): Interval {
    Interval(row.minimum, row.maximum, ordinal, Nat(row.executions))
  }

  function Intervals(rows: seq<SiteRow>): seq<Interval> {
    seq(|rows|, s requires 0 <= s < |rows| => IntervalOf(rows[s], s))
  }

  function OffsetsOf(ee: seq<EeRow>, width: int): seq<int> { Keep(Offsets(ee), EeMask(ee, width)) }

  function CountsOf(ee: seq<EeRow>, width: int): seq<nat> { Keep(Counts(ee), EeMask(ee, width)) }

  function IntervalsOf(rows: seq<SiteRow>, width: int): seq<Interval> {
    Keep(Intervals(rows), SiteMask(rows, width))
  }

  ghost predicate WidthFeasible(rows: seq<SiteRow>, ee: seq<EeRow>, width: int) {
    Feasible(OffsetsOf(ee, width), CountsOf(ee, width), IntervalsOf(rows, width), Demands(IntervalsOf(rows, width)))
  }

  ghost predicate RowsAccepted(rows: seq<SiteRow>, ee: seq<EeRow>, size: int) {
    && (forall s | 0 <= s < |rows| :: SiteRowShape(rows[s], s, size) && SiteRowFits(rows[s], ee))
    && Sum(Distincts(rows)) <= MAX_AGGREGATE_KEY_COUNT
    && InTracerOrder(rows)
  }

  ghost predicate AggregatesMatch(rows: seq<SiteRow>, ee: seq<EeRow>) {
    && (forall k | 0 <= k < |ee| :: Sum(Needs(rows, ee, k)) <= ee[k].count)
    && (forall width | width in EE_WIDTHS :: Sum(WidthExecutions(rows, width)) == Sum(WidthCounts(ee, width)))
    && Sum(Executions(rows)) == Sum(Counts(ee))
    && (forall width | width in EE_WIDTHS :: WidthFeasible(rows, ee, width))
  }

  ghost predicate SitesAccepted(rows: seq<SiteRow>, ee: seq<EeRow>, size: int) {
    && (rows == [] <==> ee == [])
    && |rows| <= MAX_ANONYMOUS_SITE_COUNT
    && RowsAccepted(rows, ee, size)
    && AggregatesMatch(rows, ee)
  }

  // ---------- reports of real traces ----------

  function Positives(xs: seq<nat>): seq<nat> {
    seq(|xs|, i requires 0 <= i < |xs| => if xs[i] > 0 then 1 else 0)
  }

  // m[s][k] counts the executions of site s at EE key k; the row summarises them.
  ghost predicate Summarises(row: SiteRow, s: nat, counts: seq<nat>, ee: seq<EeRow>) {
    && |counts| == |ee|
    && row.site == s
    && (forall k | 0 <= k < |ee| && counts[k] > 0 ::
          ee[k].width == row.width && row.minimum <= ee[k].offset <= row.maximum)
    && (exists k :: 0 <= k < |ee| && counts[k] > 0 && ee[k].offset == row.minimum)
    && (exists k :: 0 <= k < |ee| && counts[k] > 0 && ee[k].offset == row.maximum)
    && row.executions == Sum(counts)
    && row.distinct == Sum(Positives(counts))
    && row.loop == (row.executions > 1 && row.distinct > 1)
  }

  ghost predicate Tabulates(m: seq<seq<nat>>, rows: seq<SiteRow>, ee: seq<EeRow>) {
    && |m| == |rows|
    && (forall s | 0 <= s < |rows| :: |m[s]| == |ee| && Summarises(rows[s], s, m[s], ee))
    && (forall k | 0 <= k < |ee| :: ee[k].count == Sum(Column(m, k)) > 0)
  }

  // m[s][k] executions of site s read key k: each site runs as often as it says, each key is read
  // as often as it says, and a site reads only its own width between its own extrema.
  ghost predicate Executes(m: seq<seq<nat>>, rows: seq<SiteRow>, ee: seq<EeRow>) {
    && |m| == |rows|
    && (forall s | 0 <= s < |rows| :: |m[s]| == |ee| && Sum(m[s]) == rows[s].executions)
    && (forall k | 0 <= k < |ee| :: Sum(Column(m, k)) == ee[k].count)
    && (forall s, k | 0 <= s < |rows| && 0 <= k < |ee| && m[s][k] > 0 ::
          ee[k].width == rows[s].width && rows[s].minimum <= ee[k].offset <= rows[s].maximum)
  }

  lemma TabulatedExecutes(m: seq<seq<nat>>, rows: seq<SiteRow>, ee: seq<EeRow>)
    requires Tabulates(m, rows, ee)
    ensures Executes(m, rows, ee)
  {
    hide Sum;
    forall s, k | 0 <= s < |rows| && 0 <= k < |ee| && m[s][k] > 0
      ensures ee[k].width == rows[s].width && rows[s].minimum <= ee[k].offset <= rows[s].maximum
    {
      assert Summarises(rows[s], s, m[s], ee);
    }
  }

  ghost predicate Describes(m: seq<seq<nat>>, rows: seq<SiteRow>, ee: seq<EeRow>) {
    Tabulates(m, rows, ee) && SortedKeys(ee) && InTracerOrder(rows)
  }

  // The tracer reads aligned values inside the span and stops at its capacities.
  ghost predicate WithinCaps(rows: seq<SiteRow>, ee: seq<EeRow>, size: int) {
    && |rows| <= MAX_ANONYMOUS_SITE_COUNT
    && Sum(Distincts(rows)) <= MAX_AGGREGATE_KEY_COUNT
    && Sum(Counts(ee)) <= UINT64_MAX
    && forall k | 0 <= k < |ee| ::
         ee[k].width in EE_WIDTHS && 0 <= ee[k].offset && ee[k].offset % ee[k].width == 0
         && ee[k].offset + ee[k].width <= size
  }

  // ---------- one site of a real trace ----------

  lemma SummaryBounds(row: SiteRow, s: nat, counts: seq<nat>, ee: seq<EeRow>)
    requires Summarises(row, s, counts, ee)
    ensures 1 <= row.distinct <= row.executions
    ensures row.minimum != row.maximum ==> row.distinct >= 2
  {
    SumMonotone(Positives(counts), counts);
    var a :| 0 <= a < |ee| && counts[a] > 0 && ee[a].offset == row.minimum;
    var b :| 0 <= b < |ee| && counts[b] > 0 && ee[b].offset == row.maximum;
    SumBoundsElement(Positives(counts), a);
    if row.minimum != row.maximum {
      SumUpdate(Positives(counts), a, 0);
      SumBoundsElement(Positives(counts)[a := 0], b);
    }
  }

  lemma SummaryFits(row: SiteRow, s: nat, counts: seq<nat>, ee: seq<EeRow>)
    requires Summarises(row, s, counts, ee)
    requires forall k | 0 <= k < |ee| :: counts[k] <= ee[k].count
    ensures SiteRowFits(row, ee)
  {
    SumMonotone(Positives(counts), OffsetMarks(ee, row.width, row.minimum, row.maximum));
    SumMonotone(counts, ExecutionMarks(ee, row.width, row.minimum, row.maximum));
  }

  // Offsets of one width are distinct multiples of it, so a range holds at most
  // (maximum - minimum) / width + 1 of them.
  lemma {:induction false} RangeCapacity(ee: seq<EeRow>, width: int, minimum: int, maximum: int)
    requires width > 0
    requires SortedKeys(ee)
    requires forall k | 0 <= k < |ee| && ee[k].width == width :: ee[k].offset % width == 0
    requires minimum % width == 0
    ensures width * OffsetsInRange(ee, width, minimum, maximum) <= Nat(maximum - minimum + width)
  {
    if ee != [] {
      var n := |ee| - 1;
      assert OffsetMarks(ee, width, minimum, maximum)[..n] == OffsetMarks(ee[..n], width, minimum, maximum);
      if InRange(ee[n], width, minimum, maximum) {
        var top := ee[n].offset;
        RangeCapacity(ee[..n], width, minimum, top - width);
        forall k | 0 <= k < n
          ensures InRange(ee[..n][k], width, minimum, maximum) <==> InRange(ee[..n][k], width, minimum, top - width)
        {
          if ee[k].width == width {
            assert KeyLess(ee[k], ee[n]);
            MultiplesApart(ee[k].offset, top, width);
          }
        }
        assert OffsetMarks(ee[..n], width, minimum, maximum) == OffsetMarks(ee[..n], width, minimum, top - width);
      } else {
        RangeCapacity(ee[..n], width, minimum, maximum);
      }
    }
  }

  lemma MulMonotone(width: int, x: int, y: int)
    requires width > 0 && x <= y
    ensures width * x <= width * y
  {
  }

  lemma MultiplesApart(a: int, b: int, width: int)
    requires width > 0 && a % width == 0 && b % width == 0 && a < b
    ensures a + width <= b
  {
    var x, y := a / width, b / width;
    assert a == width * x && b == width * y;
    if y <= x { MulMonotone(width, y, x); }
    assert width * (x + 1) <= width * y;
  }

  lemma SummaryReach(row: SiteRow, ee: seq<EeRow>)
    requires row.distinct <= OffsetsInRange(ee, row.width, row.minimum, row.maximum)
    requires row.width > 0 && row.minimum <= row.maximum
    requires row.minimum % row.width == 0 && SortedKeys(ee)
    requires forall k | 0 <= k < |ee| && ee[k].width == row.width :: ee[k].offset % row.width == 0
    ensures row.distinct <= (row.maximum - row.minimum) / row.width + 1
  {
    RangeCapacity(ee, row.width, row.minimum, row.maximum);
    var span := row.maximum - row.minimum;
    MulMonotone(row.width, row.distinct, OffsetsInRange(ee, row.width, row.minimum, row.maximum));
    assert row.width * (row.distinct - 1) == row.width * row.distinct - row.width;
    QuotientAtLeast(span, row.width, row.distinct - 1);
  }

  // The extrema of a summary are aligned EE keys inside the span.
  lemma SummaryExtrema(row: SiteRow, s: nat, counts: seq<nat>, ee: seq<EeRow>, rows: seq<SiteRow>, size: int)
    requires Summarises(row, s, counts, ee) && WithinCaps(rows, ee, size)
    ensures row.width in EE_WIDTHS && 0 <= row.minimum <= row.maximum && row.maximum + row.width <= size
    ensures row.minimum % row.width == 0 && row.maximum % row.width == 0
  {
    var a :| 0 <= a < |ee| && counts[a] > 0 && ee[a].offset == row.minimum;
    var b :| 0 <= b < |ee| && counts[b] > 0 && ee[b].offset == row.maximum;
  }

  lemma QuotientAtLeast(span: int, width: int, q: int)
    requires width > 0 && width * q <= span
    ensures q <= span / width
  {
    var d := span / width;
    assert span < width * (d + 1);
    if d + 1 <= q { MulMonotone(width, d + 1, q); }
  }

  // A site really has the executions the extrema rule demands of it.
  lemma NeedIsMet(row: SiteRow, s: nat, counts: seq<nat>, ee: seq<EeRow>, k: nat)
    requires Summarises(row, s, counts, ee) && k < |ee|
    requires SortedKeys(ee)
    ensures Need(row, ee, k) <= counts[k]
  {
    if row.width == ee[k].width {
      if row.maximum == row.minimum {
        if ee[k].offset == row.minimum && counts[k] < Sum(counts) {
          var j := SumHasOther(counts, k);
          KeysDiffer(ee, j, k);
        }
      } else if row.distinct == OffsetsInRange(ee, row.width, row.minimum, row.maximum) {
        SumPinches(Positives(counts), OffsetMarks(ee, row.width, row.minimum, row.maximum), k);
      } else {
        SameKeySameRow(ee, counts, row.width, row.minimum, k);
        SameKeySameRow(ee, counts, row.width, row.maximum, k);
      }
    }
  }

  // A key occurs once, so an execution at the offset of key k is an execution at k.
  lemma SameKeySameRow(ee: seq<EeRow>, counts: seq<nat>, width: int, offset: int, k: nat)
    requires |counts| == |ee| && k < |ee| && ee[k].width == width
    requires SortedKeys(ee)
    requires forall j | 0 <= j < |ee| && counts[j] > 0 :: ee[j].width == width
    requires exists j :: 0 <= j < |ee| && counts[j] > 0 && ee[j].offset == offset
    ensures ee[k].offset == offset ==> counts[k] > 0
  {
    var j :| 0 <= j < |ee| && counts[j] > 0 && ee[j].offset == offset;
    if ee[k].offset == offset && j != k {
      KeysDiffer(ee, j, k);
    }
  }

  // ---------- the whole matrix ----------

  lemma CellWithinColumn(m: seq<seq<nat>>, rows: seq<SiteRow>, ee: seq<EeRow>, s: nat)
    requires Tabulates(m, rows, ee) && s < |rows|
    ensures forall k | 0 <= k < |ee| :: m[s][k] <= ee[k].count
  {
    forall k | 0 <= k < |ee| ensures m[s][k] <= ee[k].count {
      SumBoundsElement(Column(m, k), s);
    }
  }

  lemma SiteRowIsAccepted(m: seq<seq<nat>>, rows: seq<SiteRow>, ee: seq<EeRow>, size: int, s: nat)
    requires Tabulates(m, rows, ee) && SortedKeys(ee) && WithinCaps(rows, ee, size) && s < |rows|
    ensures SiteRowShape(rows[s], s, size) && SiteRowFits(rows[s], ee)
  {
    CellWithinColumn(m, rows, ee, s);
    SummaryFits(rows[s], s, m[s], ee);
    SummaryIsAccepted(rows[s], s, m[s], ee, rows, size);
  }

  lemma SummaryIsAccepted(row: SiteRow, s: nat, counts: seq<nat>, ee: seq<EeRow>, rows: seq<SiteRow>, size: int)
    requires Summarises(row, s, counts, ee) && SiteRowFits(row, ee) && SortedKeys(ee) && WithinCaps(rows, ee, size)
    requires forall k | 0 <= k < |ee| :: counts[k] <= ee[k].count
    ensures SiteRowShape(row, s, size)
  {
    SummaryBounds(row, s, counts, ee);
    SummaryExtrema(row, s, counts, ee, rows, size);
    SummaryReach(row, ee);
    SumMonotone(counts, Counts(ee));
  }

  lemma NeedsAreMet(m: seq<seq<nat>>, rows: seq<SiteRow>, ee: seq<EeRow>, k: nat)
    requires Tabulates(m, rows, ee) && SortedKeys(ee) && k < |ee|
    ensures Sum(Needs(rows, ee, k)) <= ee[k].count
  {
    forall s | 0 <= s < |rows| ensures Needs(rows, ee, k)[s] <= Column(m, k)[s] {
      NeedIsMet(rows[s], s, m[s], ee, k);
    }
    SumMonotone(Needs(rows, ee, k), Column(m, k));
  }

  lemma RowSumsAreExecutions(m: seq<seq<nat>>, rows: seq<SiteRow>, ee: seq<EeRow>)
    requires Executes(m, rows, ee)
    ensures RowSums(m) == Executions(rows)
  {
    forall s: nat | s < |rows| ensures RowSums(m)[s] == Executions(rows)[s] {
    }
  }

  lemma ColumnSumsAreCounts(m: seq<seq<nat>>, rows: seq<SiteRow>, ee: seq<EeRow>)
    requires Executes(m, rows, ee)
    ensures ColumnSums(m, |ee|) == Counts(ee)
  {
    hide Sum;
  }

  lemma TotalsAgree(m: seq<seq<nat>>, rows: seq<SiteRow>, ee: seq<EeRow>)
    requires Executes(m, rows, ee)
    ensures Sum(Executions(rows)) == Sum(Counts(ee))
  {
    hide Sum, RowSums, ColumnSums, Executions, Counts;
    RowSumsAreExecutions(m, rows, ee);
    ColumnSumsAreCounts(m, rows, ee);
    RowsAndColumnsAgree(m, |ee|);
  }

  // The rows and columns of one width form a transport by themselves.
  function WidthRow(row: SiteRow, counts: seq<nat>, width: int): seq<nat> {
    if row.width == width then counts else seq(|counts|, _ => 0)
  }

  function WidthMatrix(m: seq<seq<nat>>, rows: seq<SiteRow>, width: int): seq<seq<nat>>
    requires |m| == |rows|
  {
    seq(|m|, s requires 0 <= s < |m| => WidthRow(rows[s], m[s], width))
  }

  lemma WidthColumn(m: seq<seq<nat>>, rows: seq<SiteRow>, ee: seq<EeRow>, width: int, k: nat)
    requires Executes(m, rows, ee) && k < |ee|
    ensures Sum(Column(WidthMatrix(m, rows, width), k)) == WidthCounts(ee, width)[k]
  {
    var c := Column(WidthMatrix(m, rows, width), k);
    if ee[k].width == width {
      forall s | 0 <= s < |c| ensures c[s] == m[s][k] {
        assert m[s][k] > 0 ==> rows[s].width == width;
      }
      assert c == Column(m, k);
    } else {
      forall s | 0 <= s < |c| ensures c[s] == 0 {
        assert m[s][k] > 0 ==> rows[s].width == ee[k].width;
      }
      SumOfZeros(c);
    }
  }

  lemma WidthTotalsAgree(m: seq<seq<nat>>, rows: seq<SiteRow>, ee: seq<EeRow>, width: int)
    requires Executes(m, rows, ee)
    ensures Sum(WidthExecutions(rows, width)) == Sum(WidthCounts(ee, width))
  {
    var w := WidthMatrix(m, rows, width);
    RowsAndColumnsAgree(w, |ee|);
    forall s: nat | s < |rows| ensures RowSums(w)[s] == WidthExecutions(rows, width)[s] {
      WidthRowSum(rows[s], m[s], width);
    }
    assert RowSums(w) == WidthExecutions(rows, width);
    forall k: nat | k < |ee| ensures ColumnSums(w, |ee|)[k] == WidthCounts(ee, width)[k] {
      WidthColumn(m, rows, ee, width, k);
    }
    assert ColumnSums(w, |ee|) == WidthCounts(ee, width);
  }

  lemma WidthRowSum(row: SiteRow, counts: seq<nat>, width: int)
    requires row.executions == Sum(counts)
    ensures Sum(WidthRow(row, counts, width)) == if row.width == width then Nat(row.executions) else 0
  {
    if row.width != width { SumOfZeros(WidthRow(row, counts, width)); }
  }

  ghost function Submatrix(m: seq<seq<nat>>, rows: seq<SiteRow>, ee: seq<EeRow>, width: int): (r: seq<seq<nat>>)
    requires |m| == |rows| && forall s | 0 <= s < |m| :: |m[s]| == |ee|
    ensures |r| == Marked(SiteMask(rows, width))
  {
    Keep(seq(|m|, s requires 0 <= s < |m| => Keep(m[s], EeMask(ee, width))), SiteMask(rows, width))
  }

  lemma SubmatrixCell(m: seq<seq<nat>>, rows: seq<SiteRow>, ee: seq<EeRow>, width: int, i: nat)
    requires |m| == |rows| && (forall s | 0 <= s < |m| :: |m[s]| == |ee|)
    requires i < Marked(SiteMask(rows, width))
    ensures var s := Origin(SiteMask(rows, width), i);
      Submatrix(m, rows, ee, width)[i] == Keep(m[s], EeMask(ee, width)) && rows[s].width == width
  {
    KeepAt(seq(|m|, s requires 0 <= s < |m| => Keep(m[s], EeMask(ee, width))), SiteMask(rows, width), i);
  }

  lemma SubmatrixRowSum(m: seq<seq<nat>>, rows: seq<SiteRow>, ee: seq<EeRow>, width: int, i: nat)
    requires Executes(m, rows, ee) && i < Marked(SiteMask(rows, width))
    ensures Sum(Submatrix(m, rows, ee, width)[i]) == Demands(IntervalsOf(rows, width))[i]
  {
    var s := Origin(SiteMask(rows, width), i);
    SubmatrixCell(m, rows, ee, width, i);
    KeepAt(Intervals(rows), SiteMask(rows, width), i);
    KeepSum(m[s], EeMask(ee, width));
  }

  lemma SubmatrixSupport(m: seq<seq<nat>>, rows: seq<SiteRow>, ee: seq<EeRow>, width: int, i: nat, j: nat)
    requires Executes(m, rows, ee)
    requires i < Marked(SiteMask(rows, width)) && j < Marked(EeMask(ee, width))
    requires j < |Submatrix(m, rows, ee, width)[i]| && Submatrix(m, rows, ee, width)[i][j] > 0
    ensures Covers(IntervalsOf(rows, width)[i], OffsetsOf(ee, width)[j])
  {
    var s := Origin(SiteMask(rows, width), i);
    SubmatrixCell(m, rows, ee, width, i);
    KeepAt(Intervals(rows), SiteMask(rows, width), i);
    KeepAt(m[s], EeMask(ee, width), j);
    KeepAt(Offsets(ee), EeMask(ee, width), j);
  }

  lemma SubmatrixColumn(m: seq<seq<nat>>, rows: seq<SiteRow>, ee: seq<EeRow>, width: int, j: nat)
    requires Executes(m, rows, ee) && j < Marked(EeMask(ee, width))
    requires forall i | 0 <= i < |Submatrix(m, rows, ee, width)| :: j < |Submatrix(m, rows, ee, width)[i]|
    ensures Sum(Column(Submatrix(m, rows, ee, width), j)) == CountsOf(ee, width)[j]
  {
    var k := Origin(EeMask(ee, width), j);
    KeepAt(Counts(ee), EeMask(ee, width), j);
    var mask := SiteMask(rows, width);
    var c := Column(Submatrix(m, rows, ee, width), j);
    forall i: nat | i < |c| ensures c[i] == Keep(Column(m, k), mask)[i] {
      SubmatrixCell(m, rows, ee, width, i);
      KeepAt(m[Origin(mask, i)], EeMask(ee, width), j);
      KeepAt(Column(m, k), mask, i);
    }
    assert c == Keep(Column(m, k), mask);
    KeepSum(Column(m, k), mask);
  }

  lemma WidthIsFeasible(m: seq<seq<nat>>, rows: seq<SiteRow>, ee: seq<EeRow>, width: int)
    requires Executes(m, rows, ee)
    ensures WidthFeasible(rows, ee, width)
  {
    var sub := Submatrix(m, rows, ee, width);
    forall i: nat | i < |sub|
      ensures |sub[i]| == |OffsetsOf(ee, width)| && Sum(sub[i]) == Demands(IntervalsOf(rows, width))[i]
    {
      SubmatrixCell(m, rows, ee, width, i);
      SubmatrixRowSum(m, rows, ee, width, i);
    }
    forall i: nat, j: nat | i < |sub| && j < |sub[i]| && sub[i][j] > 0
      ensures Covers(IntervalsOf(rows, width)[i], OffsetsOf(ee, width)[j])
    {
      SubmatrixSupport(m, rows, ee, width, i, j);
    }
    forall j: nat | j < |OffsetsOf(ee, width)| ensures Sum(Column(sub, j)) == CountsOf(ee, width)[j] {
      SubmatrixColumn(m, rows, ee, width, j);
    }
    assert IsTransport(sub, OffsetsOf(ee, width), CountsOf(ee, width), IntervalsOf(rows, width),
                       Demands(IntervalsOf(rows, width)));
  }

  lemma EmptyTogether(m: seq<seq<nat>>, rows: seq<SiteRow>, ee: seq<EeRow>)
    requires Tabulates(m, rows, ee)
    ensures rows == [] <==> ee == []
  {
    if ee != [] {
      var t := SumHasPositive(Column(m, 0));
      assert t < |rows|;
    }
    if rows != [] {
      var k :| 0 <= k < |ee| && m[0][k] > 0 && ee[k].offset == rows[0].minimum;
      assert k < |ee|;
    }
  }

  // No report of a trace within the tracer's caps is rejected.
  lemma EeRowIsAccepted(m: seq<seq<nat>>, rows: seq<SiteRow>, ee: seq<EeRow>, size: int, k: nat)
    requires Describes(m, rows, ee) && WithinCaps(rows, ee, size) && k < |ee|
    ensures EeRowAccepted(ee[k], size)
  {
    SumBoundsElement(Counts(ee), k);
  }

  lemma NoFalseRejection(m: seq<seq<nat>>, rows: seq<SiteRow>, ee: seq<EeRow>, size: int)
    requires Describes(m, rows, ee) && WithinCaps(rows, ee, size)
    ensures EeAccepted(ee, size)
    ensures SitesAccepted(rows, ee, size)
  {
    hide Tabulates, EeRowAccepted, SiteRowShape, SiteRowFits, WidthFeasible, Sum, Needs, WidthExecutions, WidthCounts;
    forall k: nat | k < |ee| ensures EeRowAccepted(ee[k], size) && Sum(Needs(rows, ee, k)) <= ee[k].count {
      EeRowIsAccepted(m, rows, ee, size, k);
      NeedsAreMet(m, rows, ee, k);
    }
    EmptyTogether(m, rows, ee);
    forall s: nat | s < |rows| ensures SiteRowShape(rows[s], s, size) && SiteRowFits(rows[s], ee) {
      SiteRowIsAccepted(m, rows, ee, size, s);
    }
    TabulatedExecutes(m, rows, ee);
    TotalsAgree(m, rows, ee);
    forall width | width in EE_WIDTHS
      ensures Sum(WidthExecutions(rows, width)) == Sum(WidthCounts(ee, width)) && WidthFeasible(rows, ee, width)
    {
      WidthTotalsAgree(m, rows, ee, width);
      WidthIsFeasible(m, rows, ee, width);
    }
  }
}
