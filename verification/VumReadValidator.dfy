// The loops of tools/validate_vum_read_trace.py that decide a report, proved to accept
// exactly the reports that meet the conditions of VumReadTrace.
module VumReadValidator {
  import opened Sums
  import opened IntervalTransport
  import opened VumReadTrace

  // ---------- dictionaries of running totals ----------

  // A per-width dictionary holds the nonzero totals and nothing else.
  ghost predicate HoldsCounts(perWidth: map<int, nat>, ee: seq<EeRow>) {
    forall w :: if w in perWidth then perWidth[w] == Sum(WidthCounts(ee, w)) > 0 else Sum(WidthCounts(ee, w)) == 0
  }

  ghost predicate HoldsExecutions(perWidth: map<int, nat>, rows: seq<SiteRow>) {
    forall w :: if w in perWidth then perWidth[w] == Sum(WidthExecutions(rows, w)) > 0
                else Sum(WidthExecutions(rows, w)) == 0
  }

  function Get<K>(m: map<K, nat>, key: K): nat { if key in m then m[key] else 0 }

  lemma CountsGrow(ee: seq<EeRow>, i: nat)
    requires i < |ee|
    ensures Sum(Counts(ee[..i + 1])) == Sum(Counts(ee[..i])) + Nat(ee[i].count)
    ensures Sum(Counts(ee[..i + 1])) <= Sum(Counts(ee))
    ensures forall w :: Sum(WidthCounts(ee[..i + 1], w)) ==
                        Sum(WidthCounts(ee[..i], w)) + if ee[i].width == w then Nat(ee[i].count) else 0
  {
    assert Counts(ee)[..i + 1] == Counts(ee[..i + 1]) && Counts(ee)[..i] == Counts(ee[..i]);
    SumPrefix(Counts(ee), i);
    forall w ensures Sum(WidthCounts(ee[..i + 1], w)) ==
                     Sum(WidthCounts(ee[..i], w)) + if ee[i].width == w then Nat(ee[i].count) else 0
    {
      assert WidthCounts(ee, w)[..i + 1] == WidthCounts(ee[..i + 1], w);
      assert WidthCounts(ee, w)[..i] == WidthCounts(ee[..i], w);
      SumPrefix(WidthCounts(ee, w), i);
    }
  }

  lemma WidthWithinTotal(ee: seq<EeRow>, w: int)
    ensures Sum(WidthCounts(ee, w)) <= Sum(Counts(ee))
  {
    SumMonotone(WidthCounts(ee, w), Counts(ee));
  }

  lemma HoldsCountsStep(perWidth: map<int, nat>, ee: seq<EeRow>, i: nat)
    requires i < |ee| && HoldsCounts(perWidth, ee[..i]) && ee[i].count > 0
    ensures var w := ee[i].width;
            var n := Get(perWidth, w) + ee[i].count;
            HoldsCounts(perWidth[w := n], ee[..i + 1]) && n <= Sum(Counts(ee[..i + 1]))
    ensures Sum(Counts(ee[..i + 1])) == Sum(Counts(ee[..i])) + ee[i].count
    ensures Sum(Counts(ee[..i + 1])) <= Sum(Counts(ee))
  {
    CountsGrow(ee, i);
    WidthWithinTotal(ee[..i + 1], ee[i].width);
  }

  lemma SortedKeysStep(ee: seq<EeRow>, i: nat)
    requires i < |ee| && SortedKeys(ee[..i]) && (i > 0 ==> KeyLess(ee[i - 1], ee[i]))
    ensures SortedKeys(ee[..i + 1])
  {
    var p, q := ee[..i], ee[..i + 1];
    forall a, b | 0 <= a < b < |q| ensures KeyLess(q[a], q[b]) {
      if b < i { assert KeyLess(p[a], p[b]); }
      else if a < i - 1 { assert KeyLess(p[a], p[i - 1]); }
    }
  }

  // What the validator knows after i rows.
  ghost predicate EePrefixAccepted(ee: seq<EeRow>, i: nat, size: int, perWidth: map<int, nat>, total: nat)
    requires i <= |ee|
  {
    && (forall k | 0 <= k < i :: EeRowAccepted(ee[k], size))
    && SortedKeys(ee[..i])
    && HoldsCounts(perWidth, ee[..i]) && total == Sum(Counts(ee[..i])) <= UINT64_MAX
  }

  lemma EeStart(ee: seq<EeRow>, size: int)
    ensures EePrefixAccepted(ee, 0, size, map[], 0)
  {
    assert forall w :: WidthCounts(ee[..0], w) == [];
  }

  // The next row is accepted exactly when no check of the loop body fires; otherwise no
  // continuation is accepted.
  lemma EeStep(ee: seq<EeRow>, i: nat, size: int, perWidth: map<int, nat>, total: nat)
    requires i < |ee| && EePrefixAccepted(ee, i, size, perWidth, total)
    requires EeRowAccepted(ee[i], size) && (i > 0 ==> KeyLess(ee[i - 1], ee[i]))
    ensures ee[i].count > 0
    ensures var n := Get(perWidth, ee[i].width) + ee[i].count;
      if n > UINT64_MAX || total + ee[i].count > UINT64_MAX then !EeAccepted(ee, size)
      else EePrefixAccepted(ee, i + 1, size, perWidth[ee[i].width := n], total + ee[i].count)
  {
    SortedKeysStep(ee, i);
    HoldsCountsStep(perWidth, ee, i);
  }

  lemma EeReject(ee: seq<EeRow>, i: nat, size: int)
    requires i < |ee| && !(EeRowAccepted(ee[i], size) && (i > 0 ==> KeyLess(ee[i - 1], ee[i])))
    ensures !EeAccepted(ee, size)
  {
  }

  lemma EeEnd(ee: seq<EeRow>, size: int, perWidth: map<int, nat>, total: nat)
    requires EePrefixAccepted(ee, |ee|, size, perWidth, total)
    ensures EeAccepted(ee, size) && HoldsCounts(perWidth, ee) && total == Sum(Counts(ee))
  {
    assert ee[..|ee|] == ee;
  }

  method ValidateEeReads(ee: seq<EeRow>, size: int) returns (ok: bool, perWidth: map<int, nat>, total: nat)
    ensures ok <==> EeAccepted(ee, size)
    ensures ok ==> HoldsCounts(perWidth, ee) && total == Sum(Counts(ee))
  {
    hide EePrefixAccepted, EeAccepted, EeRowAccepted, KeyLess, HoldsCounts, Sum, Counts;
    perWidth, total := map[], 0;
    EeStart(ee, size);
    for i := 0 to |ee|
      invariant EePrefixAccepted(ee, i, size, perWidth, total)
    {
      var row := ee[i];
      if !EeRowAccepted(row, size) || (i > 0 && !KeyLess(ee[i - 1], row)) {
        EeReject(ee, i, size);
        return false, perWidth, total;
      }
      EeStep(ee, i, size, perWidth, total);
      perWidth := perWidth[row.width := Get(perWidth, row.width) + row.count];
      total := total + row.count;
      if perWidth[row.width] > UINT64_MAX || total > UINT64_MAX { return false, perWidth, total; }
    }
    EeEnd(ee, size, perWidth, total);
    ok := true;
  }

  // ---------- bisection and prefix sums against whole-report counts ----------

  function BisectLeft(xs: seq<int>, v: int): (p: nat)
    ensures p <= |xs|
    ensures StrictlyIncreasing(xs) ==> (forall i | 0 <= i < p :: xs[i] < v) && (forall i | p <= i < |xs| :: v <= xs[i])
  {
    if xs == [] || xs[|xs| - 1] < v then |xs| else BisectLeft(xs[..|xs| - 1], v)
  }

  function BisectRight(xs: seq<int>, v: int): (p: nat)
    ensures p <= |xs|
    ensures StrictlyIncreasing(xs) ==> (forall i | 0 <= i < p :: xs[i] <= v) && (forall i | p <= i < |xs| :: v < xs[i])
  {
    if xs == [] || xs[|xs| - 1] <= v then |xs| else BisectRight(xs[..|xs| - 1], v)
  }

  lemma {:induction false} BisectOrdered(xs: seq<int>, minimum: int, maximum: int)
    requires minimum <= maximum
    ensures BisectLeft(xs, minimum) <= BisectRight(xs, maximum)
  {
    if xs != [] { BisectOrdered(xs[..|xs| - 1], minimum, maximum); }
  }

  function PrefixSums(xs: seq<nat>): (r: seq<nat>)
    ensures |r| == |xs| + 1
  {
    if xs == [] then [0] else PrefixSums(xs[..|xs| - 1]) + [Sum(xs)]
  }

  lemma {:induction false} PrefixSumAt(xs: seq<nat>, i: nat)
    requires i <= |xs|
    ensures PrefixSums(xs)[i] == Sum(xs[..i])
  {
    if i == |xs| {
      assert xs[..i] == xs;
    } else {
      assert xs[..|xs| - 1][..i] == xs[..i];
      PrefixSumAt(xs[..|xs| - 1], i);
    }
  }

  // A sum whose support lies in a window is the sum over the window.
  lemma WindowSum(xs: seq<nat>, b: nat, e: nat)
    requires b <= e <= |xs|
    requires forall j | 0 <= j < |xs| && !(b <= j < e) :: xs[j] == 0
    ensures Sum(xs) == Sum(xs[b..e])
  {
    assert xs == (xs[..b] + xs[b..e]) + xs[e..];
    SumAppend(xs[..b] + xs[b..e], xs[e..]);
    SumAppend(xs[..b], xs[b..e]);
    SumOfZeros(xs[..b]);
    SumOfZeros(xs[e..]);
  }

  lemma {:induction false} SumOfOnes(xs: seq<nat>)
    requires forall j | 0 <= j < |xs| :: xs[j] == 1
    ensures Sum(xs) == |xs|
  {
    if xs != [] { SumOfOnes(xs[..|xs| - 1]); }
  }

  lemma SumBetween(xs: seq<nat>, b: nat, e: nat)
    requires b <= e <= |xs|
    ensures Sum(xs[b..e]) == Sum(xs[..e]) - Sum(xs[..b])
  {
    assert xs[..e] == xs[..b] + xs[b..e];
    SumAppend(xs[..b], xs[b..e]);
  }

  lemma OffsetsOfIncreasing(ee: seq<EeRow>, width: int)
    requires SortedKeys(ee)
    ensures StrictlyIncreasing(OffsetsOf(ee, width))
  {
    var mask := EeMask(ee, width);
    forall i: nat, j: nat | i < j < Marked(mask) ensures OffsetsOf(ee, width)[i] < OffsetsOf(ee, width)[j] {
      KeepAt(Offsets(ee), mask, i);
      KeepAt(Offsets(ee), mask, j);
      OriginIncreasing(mask, i, j);
      assert KeyLess(ee[Origin(mask, i)], ee[Origin(mask, j)]);
    }
  }

  // The j-th observed offset lies in the range exactly when j lies in the bisected window.
  lemma WindowIsRange(ee: seq<EeRow>, width: int, minimum: int, maximum: int, j: nat)
    requires SortedKeys(ee) && minimum <= maximum && j < Marked(EeMask(ee, width))
    ensures var xs, k := OffsetsOf(ee, width), Origin(EeMask(ee, width), j);
            && xs[j] == ee[k].offset && ee[k].width == width
            && (BisectLeft(xs, minimum) <= j < BisectRight(xs, maximum) <==> InRange(ee[k], width, minimum, maximum))
  {
    OffsetsOfIncreasing(ee, width);
    KeepAt(Offsets(ee), EeMask(ee, width), j);
  }

  lemma OffsetsByBisection(ee: seq<EeRow>, width: int, minimum: int, maximum: int)
    requires SortedKeys(ee) && minimum <= maximum
    ensures var xs := OffsetsOf(ee, width);
            BisectRight(xs, maximum) == BisectLeft(xs, minimum) + OffsetsInRange(ee, width, minimum, maximum)
  {
    var mask, xs := EeMask(ee, width), OffsetsOf(ee, width);
    var b, e := BisectLeft(xs, minimum), BisectRight(xs, maximum);
    BisectOrdered(xs, minimum, maximum);
    var marks := OffsetMarks(ee, width, minimum, maximum);
    var kept := Keep(marks, mask);
    forall j: nat | j < |xs| ensures kept[j] == if b <= j < e then 1 else 0 {
      KeepAt(marks, mask, j);
      WindowIsRange(ee, width, minimum, maximum, j);
    }
    KeepSum(marks, mask);
    WindowSum(kept, b, e);
    SumOfOnes(kept[b..e]);
  }

  lemma ExecutionsByBisection(ee: seq<EeRow>, width: int, minimum: int, maximum: int)
    requires SortedKeys(ee) && minimum <= maximum
    ensures var xs, sums := OffsetsOf(ee, width), PrefixSums(CountsOf(ee, width));
            sums[BisectRight(xs, maximum)]
              == sums[BisectLeft(xs, minimum)] + ExecutionsInRange(ee, width, minimum, maximum)
  {
    var mask, xs := EeMask(ee, width), OffsetsOf(ee, width);
    var b, e := BisectLeft(xs, minimum), BisectRight(xs, maximum);
    BisectOrdered(xs, minimum, maximum);
    hide BisectLeft, BisectRight, Sum, PrefixSums, Keep, Origin;
    var runs := ExecutionMarks(ee, width, minimum, maximum);
    var kept, counts := Keep(runs, mask), CountsOf(ee, width);
    forall j: nat | j < |xs| ensures kept[j] == if b <= j < e then counts[j] else 0 {
      KeepAt(runs, mask, j);
      KeepAt(Counts(ee), mask, j);
      WindowIsRange(ee, width, minimum, maximum, j);
    }
    KeepSum(runs, mask);
    WindowSum(kept, b, e);
    forall j | 0 <= j < e - b ensures kept[b..e][j] == counts[b..e][j] {
      assert kept[b + j] == counts[b + j];
    }
    assert kept[b..e] == counts[b..e];
    SumBetween(counts, b, e);
    PrefixSumAt(counts, b);
    PrefixSumAt(counts, e);
  }

  // ---------- grouping the EE reads by width ----------

  // The observed offsets of one width, their executions, and the prefix sums of those.
  // The three dictionaries of the source share their keys and are kept as one.
  datatype Group = Group(offsets: seq<int>, counts: seq<nat>, prefixes: seq<nat>)

  function GroupOf(ee: seq<EeRow>, w: int): Group {
    Group(OffsetsOf(ee, w), CountsOf(ee, w), PrefixSums(CountsOf(ee, w)))
  }

  function GroupAt(groups: map<int, Group>, w: int): Group {
    if w in groups then groups[w] else Group([], [], [0])
  }

  function Extend(g: Group, offset: int, count: nat): Group
    requires g.prefixes != []
  {
    Group(g.offsets + [offset], g.counts + [count], g.prefixes + [g.prefixes[|g.prefixes| - 1] + count])
  }

  ghost predicate Grouped(ee: seq<EeRow>, groups: map<int, Group>) {
    forall w :: GroupAt(groups, w) == GroupOf(ee, w)
  }

  lemma {:induction false} PrefixSumsGrow(xs: seq<nat>)
    requires xs != []
    ensures var init := PrefixSums(xs[..|xs| - 1]);
            PrefixSums(xs) == init + [init[|init| - 1] + xs[|xs| - 1]]
  {
    var n := |xs| - 1;
    PrefixSumAt(xs[..n], n);
    assert xs[..n][..n] == xs[..n];
  }

  lemma GroupGrows(ee: seq<EeRow>, i: nat, w: int)
    requires i < |ee|
    ensures GroupOf(ee[..i + 1], w) ==
            if ee[i].width == w then Extend(GroupOf(ee[..i], w), ee[i].offset, Nat(ee[i].count))
            else GroupOf(ee[..i], w)
  {
    hide Keep, Marked, PrefixSums;
    var p, q := ee[..i], ee[..i + 1];
    MaskGrows(ee, i, w);
    KeepSnoc(Offsets(p), EeMask(p, w), ee[i].offset, ee[i].width == w);
    KeepSnoc(Counts(p), EeMask(p, w), Nat(ee[i].count), ee[i].width == w);
    assert OffsetsOf(q, w) == if ee[i].width == w then OffsetsOf(p, w) + [ee[i].offset] else OffsetsOf(p, w);
    if ee[i].width == w {
      assert CountsOf(q, w) == CountsOf(p, w) + [Nat(ee[i].count)];
      assert CountsOf(q, w)[..|CountsOf(q, w)| - 1] == CountsOf(p, w);
      PrefixSumsGrow(CountsOf(q, w));
    } else {
      assert CountsOf(q, w) == CountsOf(p, w);
    }
  }

  lemma MaskGrows(ee: seq<EeRow>, i: nat, w: int)
    requires i < |ee|
    ensures Offsets(ee[..i + 1]) == Offsets(ee[..i]) + [ee[i].offset]
    ensures Counts(ee[..i + 1]) == Counts(ee[..i]) + [Nat(ee[i].count)]
    ensures EeMask(ee[..i + 1], w) == EeMask(ee[..i], w) + [ee[i].width == w]
  {
  }

  lemma NoGroups(ee: seq<EeRow>)
    ensures Grouped(ee[..0], map[])
  {
    forall w ensures GroupAt(map[], w) == GroupOf(ee[..0], w) {
      assert Offsets(ee[..0]) == [] && Counts(ee[..0]) == [] && EeMask(ee[..0], w) == [];
      assert OffsetsOf(ee[..0], w) == [] && CountsOf(ee[..0], w) == [];
    }
  }

  lemma GroupedStep(ee: seq<EeRow>, i: nat, groups: map<int, Group>)
    requires i < |ee| && Grouped(ee[..i], groups)
    ensures GroupAt(groups, ee[i].width).prefixes != []
    ensures Grouped(ee[..i + 1],
                    groups[ee[i].width := Extend(GroupAt(groups, ee[i].width), ee[i].offset, Nat(ee[i].count))])
  {
    assert GroupAt(groups, ee[i].width) == GroupOf(ee[..i], ee[i].width);
    var next := groups[ee[i].width := Extend(GroupAt(groups, ee[i].width), ee[i].offset, Nat(ee[i].count))];
    forall w ensures GroupAt(next, w) == GroupOf(ee[..i + 1], w) {
      GroupGrows(ee, i, w);
      assert GroupAt(groups, w) == GroupOf(ee[..i], w);
    }
  }

  method GroupByWidth(ee: seq<EeRow>) returns (groups: map<int, Group>)
    ensures Grouped(ee, groups)
  {
    groups := map[];
    NoGroups(ee);
    for i := 0 to |ee|
      invariant Grouped(ee[..i], groups)
    {
      GroupedStep(ee, i, groups);
      groups := groups[ee[i].width := Extend(GroupAt(groups, ee[i].width), ee[i].offset, Nat(ee[i].count))];
    }
    assert ee[..|ee|] == ee;
  }

  // ---------- anonymous sites, one row at a time ----------

  method CheckSiteRow(row: SiteRow, ordinal: int, size: int, ee: seq<EeRow>, groups: map<int, Group>)
      returns (ok: bool, begin: nat, end: nat)
    requires SortedKeys(ee) && Grouped(ee, groups)
    ensures ok <==> SiteRowShape(row, ordinal, size) && SiteRowFits(row, ee)
    ensures ok ==> begin == BisectLeft(OffsetsOf(ee, row.width), row.minimum)
    ensures ok ==> end == BisectRight(OffsetsOf(ee, row.width), row.maximum)
  {
    begin, end := 0, 0;
    if !SiteRowShape(row, ordinal, size) { return false, begin, end; }
    var group := GroupAt(groups, row.width);
    assert group == GroupOf(ee, row.width);
    begin, end := BisectLeft(group.offsets, row.minimum), BisectRight(group.offsets, row.maximum);
    OffsetsByBisection(ee, row.width, row.minimum, row.maximum);
    ExecutionsByBisection(ee, row.width, row.minimum, row.maximum);
    if row.distinct > end - begin { return false, begin, end; }
    if row.executions > group.prefixes[end] - group.prefixes[begin] { return false, begin, end; }
    ok := HasKey(ee, row.minimum, row.width) && HasKey(ee, row.maximum, row.width);
  }

  function Key(row: EeRow): (int, int) { (row.offset, row.width) }

  lemma InWindow(ee: seq<EeRow>, width: int, minimum: int, maximum: int, k: nat)
    requires SortedKeys(ee) && minimum <= maximum && k < |ee| && ee[k].width == width
    ensures var xs := OffsetsOf(ee, width);
            var b, e := BisectLeft(xs, minimum), BisectRight(xs, maximum);
            b <= e && (ee[k].offset in xs[b..e] <==> minimum <= ee[k].offset <= maximum)
  {
    var mask, xs := EeMask(ee, width), OffsetsOf(ee, width);
    var b, e := BisectLeft(xs, minimum), BisectRight(xs, maximum);
    hide BisectLeft, BisectRight, Keep, Origin, Marked;
    BisectOrdered(xs, minimum, maximum);
    OriginOfRank(mask, k);
    var j := Marked(mask[..k]);
    WindowIsRange(ee, width, minimum, maximum, j);
    if minimum <= ee[k].offset <= maximum {
      assert xs[b..e][j - b] == ee[k].offset;
    }
    if ee[k].offset in xs[b..e] {
      var i :| 0 <= i < |xs[b..e]| && xs[b..e][i] == ee[k].offset;
      WindowIsRange(ee, width, minimum, maximum, b + i);
    }
  }

  function Hit(key: (int, int), width: int, offsets: seq<int>): nat {
    if key.1 == width && key.0 in offsets then 1 else 0
  }

  method AddEveryOffset(needed: map<(int, int), nat>, observed: seq<int>, width: int, begin: nat, end: nat)
      returns (r: map<(int, int), nat>)
    requires begin <= end <= |observed| && StrictlyIncreasing(observed)
    ensures forall key :: Get(r, key) == Get(needed, key) + Hit(key, width, observed[begin..end])
  {
    r := needed;
    for j := begin to end
      invariant forall key :: Get(r, key) == Get(needed, key) + Hit(key, width, observed[begin..j])
    {
      var key := (observed[j], width);
      assert observed[begin..j + 1] == observed[begin..j] + [observed[j]];
      assert observed[j] !in observed[begin..j];
      r := r[key := Get(r, key) + 1];
    }
  }

  // The extrema bookkeeping of one row adds exactly what the row needs at every key.
  method AddNeeds(needed: map<(int, int), nat>, row: SiteRow, ee: seq<EeRow>, groups: map<int, Group>,
                  begin: nat, end: nat)
      returns (r: map<(int, int), nat>)
    requires SortedKeys(ee) && Grouped(ee, groups) && row.minimum <= row.maximum
    requires begin == BisectLeft(OffsetsOf(ee, row.width), row.minimum)
    requires end == BisectRight(OffsetsOf(ee, row.width), row.maximum)
    ensures forall k | 0 <= k < |ee| :: Get(r, Key(ee[k])) == Get(needed, Key(ee[k])) + Need(row, ee, k)
  {
    var observed := GroupAt(groups, row.width).offsets;
    assert GroupAt(groups, row.width) == GroupOf(ee, row.width);
    OffsetsByBisection(ee, row.width, row.minimum, row.maximum);
    OffsetsOfIncreasing(ee, row.width);
    var low, high := (row.minimum, row.width), (row.maximum, row.width);
    if row.maximum == row.minimum {
      r := needed[low := Get(needed, low) + Nat(row.executions)];
    } else if row.distinct == end - begin {
      r := AddEveryOffset(needed, observed, row.width, begin, end);
      forall k: nat | k < |ee| && ee[k].width == row.width
        ensures ee[k].offset in observed[begin..end] <==> row.minimum <= ee[k].offset <= row.maximum
      {
        InWindow(ee, row.width, row.minimum, row.maximum, k);
      }
    } else {
      r := needed[low := Get(needed, low) + 1];
      r := r[high := Get(r, high) + 1];
    }
  }

  // ---------- what the site loop knows after i rows ----------

  ghost predicate NeedsAre(needed: map<(int, int), nat>, rows: seq<SiteRow>, ee: seq<EeRow>) {
    forall k | 0 <= k < |ee| :: Get(needed, Key(ee[k])) == Sum(Needs(rows, ee, k))
  }

  lemma NeedsGrow(rows: seq<SiteRow>, ee: seq<EeRow>, i: nat, k: nat)
    requires i < |rows| && k < |ee|
    ensures Sum(Needs(rows[..i + 1], ee, k)) == Sum(Needs(rows[..i], ee, k)) + Need(rows[i], ee, k)
  {
    assert Needs(rows[..i + 1], ee, k)[..i] == Needs(rows[..i], ee, k);
  }

  lemma ExecutionsGrow(rows: seq<SiteRow>, i: nat)
    requires i < |rows|
    ensures Sum(Executions(rows[..i + 1])) == Sum(Executions(rows[..i])) + Nat(rows[i].executions)
    ensures Sum(Executions(rows[..i + 1])) <= Sum(Executions(rows))
    ensures Sum(Distincts(rows[..i + 1])) == Sum(Distincts(rows[..i])) + Nat(rows[i].distinct)
    ensures Sum(Distincts(rows[..i + 1])) <= Sum(Distincts(rows))
  {
    assert Executions(rows)[..i + 1] == Executions(rows[..i + 1]) && Executions(rows)[..i] == Executions(rows[..i]);
    assert Distincts(rows)[..i + 1] == Distincts(rows[..i + 1]) && Distincts(rows)[..i] == Distincts(rows[..i]);
    SumPrefix(Executions(rows), i);
    SumPrefix(Distincts(rows), i);
  }

  lemma HoldsExecutionsStep(perWidth: map<int, nat>, rows: seq<SiteRow>, i: nat)
    requires i < |rows| && HoldsExecutions(perWidth, rows[..i]) && rows[i].executions > 0
    ensures var w := rows[i].width;
            var n := Get(perWidth, w) + rows[i].executions;
            HoldsExecutions(perWidth[w := n], rows[..i + 1]) && n <= Sum(Executions(rows[..i + 1]))
  {
    var p, q := rows[..i], rows[..i + 1];
    forall w ensures Sum(WidthExecutions(q, w)) ==
                     Sum(WidthExecutions(p, w)) + if rows[i].width == w then Nat(rows[i].executions) else 0
    {
      assert WidthExecutions(q, w)[..i] == WidthExecutions(p, w);
    }
    SumMonotone(WidthExecutions(q, rows[i].width), Executions(q));
  }

  ghost predicate HoldsIntervals(intervals: map<int, seq<Interval>>, rows: seq<SiteRow>) {
    forall w :: At(intervals, w) == IntervalsOf(rows, w)
  }

  function At<T>(m: map<int, seq<T>>, w: int): seq<T> { if w in m then m[w] else [] }

  lemma IntervalsGrow(rows: seq<SiteRow>, i: nat, w: int)
    requires i < |rows|
    ensures IntervalsOf(rows[..i + 1], w) ==
            IntervalsOf(rows[..i], w) + if rows[i].width == w then [IntervalOf(rows[i], i)] else []
  {
    var p, q := rows[..i], rows[..i + 1];
    assert Intervals(q) == Intervals(p) + [IntervalOf(rows[i], i)];
    assert SiteMask(q, w) == SiteMask(p, w) + [rows[i].width == w];
    KeepSnoc(Intervals(p), SiteMask(p, w), IntervalOf(rows[i], i), rows[i].width == w);
  }

  lemma HoldsIntervalsStep(intervals: map<int, seq<Interval>>, rows: seq<SiteRow>, i: nat)
    requires i < |rows| && HoldsIntervals(intervals, rows[..i])
    ensures var w := rows[i].width;
            HoldsIntervals(intervals[w := At(intervals, w) + [IntervalOf(rows[i], i)]], rows[..i + 1])
  {
    var next := intervals[rows[i].width := At(intervals, rows[i].width) + [IntervalOf(rows[i], i)]];
    forall w ensures At(next, w) == IntervalsOf(rows[..i + 1], w) {
      IntervalsGrow(rows, i, w);
      assert At(intervals, w) == IntervalsOf(rows[..i], w);
    }
  }

  ghost predicate RowsPrefixAccepted(rows: seq<SiteRow>, i: nat, ee: seq<EeRow>, size: int, members: nat, total: nat)
    requires i <= |rows|
  {
    && (forall s | 0 <= s < i :: SiteRowShape(rows[s], s, size) && SiteRowFits(rows[s], ee))
    && InTracerOrder(rows[..i])
    && members == Sum(Distincts(rows[..i])) <= MAX_AGGREGATE_KEY_COUNT
    && total == Sum(Executions(rows[..i])) <= UINT64_MAX
  }

  lemma RowOfAccepted(rows: seq<SiteRow>, i: nat, ee: seq<EeRow>, size: int)
    requires i < |rows| && RowsAccepted(rows, ee, size)
    ensures SiteRowShape(rows[i], i, size) && SiteRowFits(rows[i], ee)
    ensures i > 0 ==> TracerOrder(rows[i - 1], rows[i])
    ensures Sum(Distincts(rows)) <= MAX_AGGREGATE_KEY_COUNT
  {
  }

  lemma TracerOrderStep(rows: seq<SiteRow>, i: nat)
    requires i < |rows| && InTracerOrder(rows[..i]) && (i > 0 ==> TracerOrder(rows[i - 1], rows[i]))
    ensures InTracerOrder(rows[..i + 1])
  {
    var p, q := rows[..i], rows[..i + 1];
    forall s, t | 0 <= s < |q| && t == s + 1 < |q| ensures TracerOrder(q[s], q[t]) {
      if t < i { assert TracerOrder(p[s], p[t]); }
    }
  }

  ghost predicate Scanned(rows: seq<SiteRow>, i: nat, ee: seq<EeRow>, size: int, members: nat, total: nat,
                          needed: map<(int, int), nat>, perWidth: map<int, nat>, intervals: map<int, seq<Interval>>)
    requires i <= |rows|
  {
    && RowsPrefixAccepted(rows, i, ee, size, members, total)
    && NeedsAre(needed, rows[..i], ee)
    && HoldsExecutions(perWidth, rows[..i])
    && HoldsIntervals(intervals, rows[..i])
  }

  lemma NothingScanned(rows: seq<SiteRow>, ee: seq<EeRow>, size: int)
    ensures Scanned(rows, 0, ee, size, 0, 0, map[], map[], map[])
  {
    assert forall k | 0 <= k < |ee| :: Needs(rows[..0], ee, k) == [];
    assert forall w :: WidthExecutions(rows[..0], w) == [];
    assert forall w :: IntervalsOf(rows[..0], w) == [];
  }

  lemma ScanRejects(rows: seq<SiteRow>, i: nat, ee: seq<EeRow>, size: int, members: nat, total: nat,
                    needed: map<(int, int), nat>, perWidth: map<int, nat>, intervals: map<int, seq<Interval>>)
    requires i < |rows| && Scanned(rows, i, ee, size, members, total, needed, perWidth, intervals)
    requires Sum(Counts(ee)) <= UINT64_MAX
    requires || !(SiteRowShape(rows[i], i, size) && SiteRowFits(rows[i], ee))
             || members + rows[i].distinct > MAX_AGGREGATE_KEY_COUNT
             || (i > 0 && !TracerOrder(rows[i - 1], rows[i]))
             || total + rows[i].executions > UINT64_MAX
             || Get(perWidth, rows[i].width) + rows[i].executions > UINT64_MAX
    ensures !SitesAccepted(rows, ee, size)
  {
    if SitesAccepted(rows, ee, size) {
      RowOfAccepted(rows, i, ee, size);
      ExecutionsGrow(rows, i);
      HoldsExecutionsStep(perWidth, rows, i);
    }
  }

  lemma RowsPrefixStep(rows: seq<SiteRow>, i: nat, ee: seq<EeRow>, size: int, members: nat, total: nat)
    requires i < |rows| && RowsPrefixAccepted(rows, i, ee, size, members, total)
    requires SiteRowShape(rows[i], i, size) && SiteRowFits(rows[i], ee)
    requires members + rows[i].distinct <= MAX_AGGREGATE_KEY_COUNT
    requires i > 0 ==> TracerOrder(rows[i - 1], rows[i])
    requires total + rows[i].executions <= UINT64_MAX
    ensures RowsPrefixAccepted(rows, i + 1, ee, size, members + rows[i].distinct, total + rows[i].executions)
  {
    ExecutionsGrow(rows, i);
    TracerOrderStep(rows, i);
  }

  lemma ScanStep(rows: seq<SiteRow>, i: nat, ee: seq<EeRow>, size: int, members: nat, total: nat,
                 needed: map<(int, int), nat>, perWidth: map<int, nat>, intervals: map<int, seq<Interval>>,
                 more: map<(int, int), nat>)
    requires i < |rows| && Scanned(rows, i, ee, size, members, total, needed, perWidth, intervals)
    requires SiteRowShape(rows[i], i, size) && SiteRowFits(rows[i], ee)
    requires members + rows[i].distinct <= MAX_AGGREGATE_KEY_COUNT
    requires i > 0 ==> TracerOrder(rows[i - 1], rows[i])
    requires total + rows[i].executions <= UINT64_MAX
    requires forall k | 0 <= k < |ee| :: Get(more, Key(ee[k])) == Get(needed, Key(ee[k])) + Need(rows[i], ee, k)
    ensures Scanned(rows, i + 1, ee, size, members + rows[i].distinct, total + rows[i].executions, more,
                    perWidth[rows[i].width := Get(perWidth, rows[i].width) + rows[i].executions],
                    intervals[rows[i].width := At(intervals, rows[i].width) + [IntervalOf(rows[i], i)]])
  {
    RowsPrefixStep(rows, i, ee, size, members, total);
    NeedsStep(rows, ee, i, needed, more);
    HoldsExecutionsStep(perWidth, rows, i);
    HoldsIntervalsStep(intervals, rows, i);
  }

  lemma NeedsStep(rows: seq<SiteRow>, ee: seq<EeRow>, i: nat, was: map<(int, int), nat>, now: map<(int, int), nat>)
    requires i < |rows| && NeedsAre(was, rows[..i], ee)
    requires forall k | 0 <= k < |ee| :: Get(now, Key(ee[k])) == Get(was, Key(ee[k])) + Need(rows[i], ee, k)
    ensures NeedsAre(now, rows[..i + 1], ee)
  {
    forall k: nat | k < |ee| ensures Get(now, Key(ee[k])) == Sum(Needs(rows[..i + 1], ee, k)) {
      NeedsGrow(rows, ee, i, k);
    }
  }

  // All checks of the loop body on row i.
  method AcceptRow(rows: seq<SiteRow>, i: nat, size: int, ee: seq<EeRow>, groups: map<int, Group>,
                   members: nat, total: nat, perWidth: map<int, nat>,
                   ghost needed: map<(int, int), nat>, ghost intervals: map<int, seq<Interval>>)
      returns (ok: bool, begin: nat, end: nat)
    requires SortedKeys(ee) && Grouped(ee, groups) && Sum(Counts(ee)) <= UINT64_MAX
    requires i < |rows| && Scanned(rows, i, ee, size, members, total, needed, perWidth, intervals)
    ensures !ok ==> !SitesAccepted(rows, ee, size)
    ensures ok ==>
      && SiteRowShape(rows[i], i, size) && SiteRowFits(rows[i], ee)
      && rows[i].minimum <= rows[i].maximum && rows[i].distinct > 0 && rows[i].executions > 0
      && members + rows[i].distinct <= MAX_AGGREGATE_KEY_COUNT
      && (i > 0 ==> TracerOrder(rows[i - 1], rows[i]))
      && total + rows[i].executions <= UINT64_MAX
      && begin == BisectLeft(OffsetsOf(ee, rows[i].width), rows[i].minimum)
      && end == BisectRight(OffsetsOf(ee, rows[i].width), rows[i].maximum)
  {
    var row := rows[i];
    ok, begin, end := CheckSiteRow(row, i, size, ee, groups);
    if !ok || members + row.distinct > MAX_AGGREGATE_KEY_COUNT
       || (i > 0 && !TracerOrder(rows[i - 1], row))
       || total + row.executions > UINT64_MAX || Get(perWidth, row.width) + row.executions > UINT64_MAX
    {
      ScanRejects(rows, i, ee, size, members, total, needed, perWidth, intervals);
      ok := false;
    }
  }

  method ScanSites(rows: seq<SiteRow>, size: int, ee: seq<EeRow>, groups: map<int, Group>)
      returns (ok: bool, needed: map<(int, int), nat>, perWidth: map<int, nat>, total: nat,
               intervals: map<int, seq<Interval>>, ghost members: nat)
    requires SortedKeys(ee) && Grouped(ee, groups) && Sum(Counts(ee)) <= UINT64_MAX
    ensures !ok ==> !SitesAccepted(rows, ee, size)
    ensures ok ==> Scanned(rows, |rows|, ee, size, members, total, needed, perWidth, intervals)
  {
    hide Scanned, SitesAccepted, SiteRowShape, SiteRowFits, TracerOrder, SortedKeys, Grouped, BisectLeft, BisectRight,
         OffsetsOf, Need, Sum, Counts, IntervalOf;
    var memberships: nat := 0;
    needed, perWidth, total, intervals, members := map[], map[], 0, map[], 0;
    NothingScanned(rows, ee, size);
    for i := 0 to |rows|
      invariant Scanned(rows, i, ee, size, memberships, total, needed, perWidth, intervals)
    {
      var row := rows[i];
      var accepted, begin, end :=
        AcceptRow(rows, i, size, ee, groups, memberships, total, perWidth, needed, intervals);
      if !accepted { return false, needed, perWidth, total, intervals, 0; }
      var more := AddNeeds(needed, row, ee, groups, begin, end);
      ScanStep(rows, i, ee, size, memberships, total, needed, perWidth, intervals, more);
      needed, memberships, total := more, memberships + row.distinct, total + row.executions;
      perWidth := perWidth[row.width := Get(perWidth, row.width) + row.executions];
      intervals := intervals[row.width := At(intervals, row.width) + [IntervalOf(row, i)]];
    }
    ok, members := true, memberships;
  }

  // ---------- the checks after the loop ----------

  lemma DictionariesEqual(rows: seq<SiteRow>, ee: seq<EeRow>, a: map<int, nat>, b: map<int, nat>)
    requires HoldsExecutions(a, rows) && HoldsCounts(b, ee)
    ensures a == b <==> forall w :: Sum(WidthExecutions(rows, w)) == Sum(WidthCounts(ee, w))
  {
    if a == b {
      forall w ensures Sum(WidthExecutions(rows, w)) == Sum(WidthCounts(ee, w)) {
        assert w in a <==> w in b;
      }
    }
    if forall w :: Sum(WidthExecutions(rows, w)) == Sum(WidthCounts(ee, w)) {
      forall w ensures w in a <==> w in b {
        assert Sum(WidthExecutions(rows, w)) == Sum(WidthCounts(ee, w));
      }
      forall w | w in a ensures a[w] == b[w] {
        assert Sum(WidthExecutions(rows, w)) == Sum(WidthCounts(ee, w));
      }
    }
  }

  lemma OtherWidthsEmpty(rows: seq<SiteRow>, ee: seq<EeRow>, w: int)
    requires forall s | 0 <= s < |rows| :: rows[s].width in EE_WIDTHS
    requires forall k | 0 <= k < |ee| :: ee[k].width in EE_WIDTHS
    requires w !in EE_WIDTHS
    ensures Sum(WidthExecutions(rows, w)) == Sum(WidthCounts(ee, w)) == 0
  {
    SumOfZeros(WidthExecutions(rows, w));
    SumOfZeros(WidthCounts(ee, w));
  }

  // A width nobody read has no sites either, and nothing to fill.
  lemma UnreadWidthFeasible(rows: seq<SiteRow>, ee: seq<EeRow>, w: int)
    requires forall s | 0 <= s < |rows| :: rows[s].executions > 0
    requires OffsetsOf(ee, w) == [] && Sum(WidthExecutions(rows, w)) == Sum(WidthCounts(ee, w))
    ensures WidthFeasible(rows, ee, w)
  {
    var mask := EeMask(ee, w);
    forall k: nat | k < |ee| ensures ee[k].width != w {
      if mask[k] { OriginOfRank(mask, k); }
    }
    SumOfZeros(WidthCounts(ee, w));
    forall s: nat | s < |rows| ensures !SiteMask(rows, w)[s] {
      SumBoundsElement(WidthExecutions(rows, w), s);
    }
    NothingMarked(SiteMask(rows, w));
    assert CountsOf(ee, w) == [] && IntervalsOf(rows, w) == [] && Demands(IntervalsOf(rows, w)) == [];
    NothingLeft([], [], [], []);
  }

  lemma {:induction false} NothingMarked(mask: seq<bool>)
    requires forall i | 0 <= i < |mask| :: !mask[i]
    ensures Marked(mask) == 0
  {
    if mask != [] { NothingMarked(mask[..|mask| - 1]); }
  }

  lemma IntervalsOfPositive(rows: seq<SiteRow>, w: int)
    requires forall s | 0 <= s < |rows| :: rows[s].executions > 0
    ensures forall i | 0 <= i < |IntervalsOf(rows, w)| :: IntervalsOf(rows, w)[i].demand > 0
  {
    forall i: nat | i < |IntervalsOf(rows, w)| ensures IntervalsOf(rows, w)[i].demand > 0 {
      KeepAt(Intervals(rows), SiteMask(rows, w), i);
    }
  }

  // The interval test of one width; a width nobody read passes by itself.
  method CheckWidth(rows: seq<SiteRow>, ee: seq<EeRow>, groups: map<int, Group>,
                    intervals: map<int, seq<Interval>>, w: int)
      returns (ok: bool)
    requires SortedKeys(ee) && Grouped(ee, groups) && HoldsIntervals(intervals, rows)
    requires forall s | 0 <= s < |rows| :: rows[s].executions > 0
    requires Sum(WidthExecutions(rows, w)) == Sum(WidthCounts(ee, w))
    ensures ok <==> WidthFeasible(rows, ee, w)
  {
    assert GroupAt(groups, w) == GroupOf(ee, w) && At(intervals, w) == IntervalsOf(rows, w);
    if w !in groups {
      UnreadWidthFeasible(rows, ee, w);
      return true;
    }
    OffsetsOfIncreasing(ee, w);
    IntervalsOfPositive(rows, w);
    ok := ValidateIntervalExecutionFeasibility(groups[w].offsets, groups[w].counts, At(intervals, w));
  }

  method CheckIntervals(rows: seq<SiteRow>, ee: seq<EeRow>, groups: map<int, Group>, intervals: map<int, seq<Interval>>)
      returns (ok: bool)
    requires SortedKeys(ee) && Grouped(ee, groups) && HoldsIntervals(intervals, rows)
    requires forall s | 0 <= s < |rows| :: rows[s].executions > 0
    requires forall w | w in EE_WIDTHS :: Sum(WidthExecutions(rows, w)) == Sum(WidthCounts(ee, w))
    ensures ok <==> forall w | w in EE_WIDTHS :: WidthFeasible(rows, ee, w)
  {
    hide WidthFeasible, SortedKeys, Grouped, HoldsIntervals, WidthExecutions, WidthCounts, Sum;
    var one := CheckWidth(rows, ee, groups, intervals, 1);
    var two := CheckWidth(rows, ee, groups, intervals, 2);
    var four := CheckWidth(rows, ee, groups, intervals, 4);
    var eight := CheckWidth(rows, ee, groups, intervals, 8);
    var sixteen := CheckWidth(rows, ee, groups, intervals, 16);
    ok := one && two && four && eight && sixteen;
  }

  method CheckNeeds(rows: seq<SiteRow>, ee: seq<EeRow>, needed: map<(int, int), nat>) returns (ok: bool)
    requires NeedsAre(needed, rows, ee)
    ensures ok <==> forall k | 0 <= k < |ee| :: Sum(Needs(rows, ee, k)) <= ee[k].count
  {
    for k := 0 to |ee|
      invariant forall j | 0 <= j < k :: Sum(Needs(rows, ee, j)) <= ee[j].count
    {
      if Get(needed, Key(ee[k])) > ee[k].count { return false; }
    }
    ok := true;
  }

  // What a finished scan hands to the final checks.
  lemma ScanDone(rows: seq<SiteRow>, ee: seq<EeRow>, size: int, members: nat, total: nat,
                                    needed: map<(int, int), nat>, perWidth: map<int, nat>,
                                    intervals: map<int, seq<Interval>>)
    requires EeAccepted(ee, size)
    requires Scanned(rows, |rows|, ee, size, members, total, needed, perWidth, intervals)
    ensures RowsAccepted(rows, ee, size) && total == Sum(Executions(rows))
    ensures NeedsAre(needed, rows, ee) && HoldsExecutions(perWidth, rows) && HoldsIntervals(intervals, rows)
    ensures forall s | 0 <= s < |rows| :: rows[s].width in EE_WIDTHS && rows[s].executions > 0
    ensures forall k | 0 <= k < |ee| :: ee[k].width in EE_WIDTHS
  {
    assert rows[..|rows|] == rows;
  }

  lemma TotalsMatch(rows: seq<SiteRow>, ee: seq<EeRow>, a: map<int, nat>, b: map<int, nat>)
    requires HoldsExecutions(a, rows) && HoldsCounts(b, ee)
    requires forall s | 0 <= s < |rows| :: rows[s].width in EE_WIDTHS
    requires forall k | 0 <= k < |ee| :: ee[k].width in EE_WIDTHS
    ensures a == b <==> forall w | w in EE_WIDTHS :: Sum(WidthExecutions(rows, w)) == Sum(WidthCounts(ee, w))
  {
    DictionariesEqual(rows, ee, a, b);
    forall w | w !in EE_WIDTHS ensures Sum(WidthExecutions(rows, w)) == Sum(WidthCounts(ee, w)) {
      OtherWidthsEmpty(rows, ee, w);
    }
  }

  method CheckAggregates(rows: seq<SiteRow>, ee: seq<EeRow>, groups: map<int, Group>, needed: map<(int, int), nat>,
                         perWidth: map<int, nat>, eePerWidth: map<int, nat>, total: nat, eeTotal: nat,
                         intervals: map<int, seq<Interval>>) returns (ok: bool)
    requires SortedKeys(ee) && Grouped(ee, groups) && HoldsCounts(eePerWidth, ee) && eeTotal == Sum(Counts(ee))
    requires NeedsAre(needed, rows, ee) && HoldsExecutions(perWidth, rows) && HoldsIntervals(intervals, rows)
    requires total == Sum(Executions(rows))
    requires forall s | 0 <= s < |rows| :: rows[s].width in EE_WIDTHS && rows[s].executions > 0
    requires forall k | 0 <= k < |ee| :: ee[k].width in EE_WIDTHS
    ensures ok <==> AggregatesMatch(rows, ee)
  {
    ok := CheckNeeds(rows, ee, needed);
    TotalsMatch(rows, ee, perWidth, eePerWidth);
    if !ok || perWidth != eePerWidth || total != eeTotal { return false; }
    ok := CheckIntervals(rows, ee, groups, intervals);
  }

  // The validator accepts exactly the reports that meet the conditions.
  method ValidateAnonymousSites(rows: seq<SiteRow>, size: int, ee: seq<EeRow>, eePerWidth: map<int, nat>, eeTotal: nat)
      returns (ok: bool)
    requires EeAccepted(ee, size) && HoldsCounts(eePerWidth, ee) && eeTotal == Sum(Counts(ee))
    ensures ok <==> SitesAccepted(rows, ee, size)
  {
    if (rows == []) != (ee == []) { return false; }
    if |rows| > MAX_ANONYMOUS_SITE_COUNT { return false; }
    var groups := GroupByWidth(ee);
    var needed, perWidth, total, intervals;
    ghost var members;
    ok, needed, perWidth, total, intervals, members := ScanSites(rows, size, ee, groups);
    if !ok { return false; }
    ScanDone(rows, ee, size, members, total, needed, perWidth, intervals);
    ok := CheckAggregates(rows, ee, groups, needed, perWidth, eePerWidth, total, eeTotal, intervals);
  }
}
