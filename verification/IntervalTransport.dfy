// The earliest-deadline-first test of tools/validate_vum_read_trace.py:
// site demands, each confined to an interval of offsets, must exactly fill
// the executions observed at every offset.
module IntervalTransport {
  import opened Sums

  // (minimum, maximum, ordinal, execution_count)
  datatype Interval = Interval(minimum: int, maximum: int, ordinal: int, demand: nat)

  predicate StrictlyIncreasing(s: seq<int>) {
    forall i, j | 0 <= i < j < |s| :: s[i] < s[j]
  }

  predicate Covers(site: Interval, offset: int) {
    site.minimum <= offset <= site.maximum
  }

  function Demands(sites: seq<Interval>): seq<nat> {
    seq(|sites|, s requires 0 <= s < |sites| => sites[s].demand)
  }

  // m[s][k] executions of site s happen at offset k: every site meets its
  // demand, every offset is exactly filled, and no site leaves its interval.
  ghost predicate IsTransport(m: seq<seq<nat>>, offsets: seq<int>, capacities: seq<nat>,
                              sites: seq<Interval>, demands: seq<nat>)
  {
    && |capacities| == |offsets|
    && |m| == |sites| == |demands|
    && (forall s | 0 <= s < |m| :: |m[s]| == |offsets|)
    && (forall s | 0 <= s < |m| :: Sum(m[s]) == demands[s])
    && (forall k | 0 <= k < |offsets| :: Sum(Column(m, k)) == capacities[k])
    && (forall s, k | 0 <= s < |m| && 0 <= k < |offsets| && m[s][k] > 0 :: Covers(sites[s], offsets[k]))
  }

  ghost predicate Feasible(offsets: seq<int>, capacities: seq<nat>, sites: seq<Interval>, demands: seq<nat>) {
    exists m :: IsTransport(m, offsets, capacities, sites, demands)
  }

  // ---------- moving executions between cells of the matrix ----------

  // m with d more executions of site s at offset k.
  function Shift(m: seq<seq<nat>>, s: nat, k: nat, d: int): seq<seq<nat>>
    requires s < |m| && k < |m[s]| && m[s][k] + d >= 0
  {
    var row: seq<nat> := m[s][k := m[s][k] + d];
    m[s := row]
  }

  // Adding d to one cell adds d to the demand of its row and to the capacity of its column.
  lemma AddToCell(m: seq<seq<nat>>, offsets: seq<int>, capacities: seq<nat>, sites: seq<Interval>,
                  demands: seq<nat>, s: nat, k: nat, d: int)
    requires IsTransport(m, offsets, capacities, sites, demands)
    requires s < |sites| && k < |offsets|
    requires m[s][k] + d >= 0
    requires d > 0 ==> Covers(sites[s], offsets[k])
    ensures demands[s] + d >= 0 && capacities[k] + d >= 0
    ensures IsTransport(Shift(m, s, k, d), offsets, capacities[k := capacities[k] + d],
                        sites, demands[s := demands[s] + d])
  {
    SumBoundsElement(m[s], k);
    SumBoundsElement(Column(m, k), s);
    var n := Shift(m, s, k, d);
    var row := n[s];
    SumUpdate(m[s], k, m[s][k] + d);
    forall j | 0 <= j < |offsets|
      ensures Sum(Column(n, j)) == capacities[k := capacities[k] + d][j]
    {
      assert Column(n, j) == Column(m, j)[s := row[j]];
      SumUpdate(Column(m, j), s, row[j]);
    }
  }

  // Site s runs one execution at offset k instead of at offset j.
  lemma Relocate(m: seq<seq<nat>>, offsets: seq<int>, capacities: seq<nat>, sites: seq<Interval>,
                 demands: seq<nat>, s: nat, j: nat, k: nat) returns (r: seq<seq<nat>>)
    requires IsTransport(m, offsets, capacities, sites, demands)
    requires s < |sites| && j < |offsets| && k < |offsets| && j != k
    requires m[s][j] > 0 && Covers(sites[s], offsets[k])
    ensures capacities[j] > 0
    ensures IsTransport(r, offsets, capacities[j := capacities[j] - 1][k := capacities[k] + 1], sites, demands)
    ensures r[s][k] == m[s][k] + 1 && forall t | 0 <= t < |sites| && t != s :: r[t] == m[t]
  {
    AddToCell(m, offsets, capacities, sites, demands, s, j, -1);
    var m1, c1, d1 := Shift(m, s, j, -1), capacities[j := capacities[j] - 1], demands[s := demands[s] - 1];
    r := Shift(m1, s, k, 1);
    AddToCell(m1, offsets, c1, sites, d1, s, k, 1);
    assert d1[s := d1[s] + 1] == demands;
  }

  // Sites s and t trade one execution: s gains column k for column j, t the reverse.
  lemma Trade(m: seq<seq<nat>>, offsets: seq<int>, capacities: seq<nat>, sites: seq<Interval>,
              demands: seq<nat>, s: nat, t: nat, k: nat, j: nat) returns (r: seq<seq<nat>>)
    requires IsTransport(m, offsets, capacities, sites, demands)
    requires s < |sites| && t < |sites| && s != t && k < |offsets| && j < |offsets| && k != j
    requires m[s][j] > 0 && m[t][k] > 0
    requires Covers(sites[s], offsets[k]) && Covers(sites[t], offsets[j])
    ensures IsTransport(r, offsets, capacities, sites, demands) && r[s][k] == m[s][k] + 1
  {
    var m1 := Relocate(m, offsets, capacities, sites, demands, s, j, k);
    var c1 := capacities[j := capacities[j] - 1][k := capacities[k] + 1];
    r := Relocate(m1, offsets, c1, sites, demands, t, k, j);
    assert c1[k := c1[k] - 1][j := c1[j] + 1] == capacities;
  }

  // Column k of a transport that gives s less than a there is used by another site,
  // which a later column of s can compensate.
  lemma TradePartners(m: seq<seq<nat>>, offsets: seq<int>, capacities: seq<nat>, sites: seq<Interval>,
                      demands: seq<nat>, s: nat, k: nat) returns (t: nat, j: nat)
    requires IsTransport(m, offsets, capacities, sites, demands)
    requires s < |sites| && k < |offsets|
    requires forall i | 0 <= i < k :: capacities[i] == 0
    requires m[s][k] < capacities[k] && m[s][k] < demands[s]
    ensures t < |sites| && t != s && m[t][k] > 0 && demands[t] > 0 && Covers(sites[t], offsets[k])
    ensures k < j < |offsets| && m[s][j] > 0 && Covers(sites[s], offsets[j])
  {
    t := SumHasOther(Column(m, k), s);
    j := SumHasOther(m[s], k);
    SumBoundsElement(Column(m, j), s);
    SumBoundsElement(m[t], k);
  }

  // The exchange argument: when site s has the earliest deadline of all sites that
  // can use column k, some transport gives it at least a executions there.
  lemma Exchange(m: seq<seq<nat>>, offsets: seq<int>, capacities: seq<nat>, sites: seq<Interval>,
                 demands: seq<nat>, s: nat, k: nat, a: nat) returns (r: seq<seq<nat>>)
    requires IsTransport(m, offsets, capacities, sites, demands)
    requires StrictlyIncreasing(offsets)
    requires s < |sites| && k < |offsets|
    requires Covers(sites[s], offsets[k])
    requires forall j | 0 <= j < k :: capacities[j] == 0
    requires a <= capacities[k] && a <= demands[s]
    requires forall t | 0 <= t < |sites| && demands[t] > 0 && sites[t].minimum <= offsets[k] ::
      sites[s].maximum <= sites[t].maximum
    ensures IsTransport(r, offsets, capacities, sites, demands) && r[s][k] >= a
    decreases a - m[s][k]
  {
    if m[s][k] >= a { return m; }
    var t, j := TradePartners(m, offsets, capacities, sites, demands, s, k);
    assert Covers(sites[t], offsets[j]);
    var traded := Trade(m, offsets, capacities, sites, demands, s, t, k, j);
    r := Exchange(traded, offsets, capacities, sites, demands, s, k, a);
  }

  // ---------- one step of the greedy never changes feasibility ----------

  lemma AssignLosesNothing(offsets: seq<int>, capacities: seq<nat>, sites: seq<Interval>,
                           demands: seq<nat>, s: nat, k: nat, a: nat)
    requires StrictlyIncreasing(offsets)
    requires Feasible(offsets, capacities, sites, demands)
    requires s < |sites| == |demands| && k < |offsets| == |capacities|
    requires Covers(sites[s], offsets[k])
    requires forall j | 0 <= j < k :: capacities[j] == 0
    requires a <= capacities[k] && a <= demands[s]
    requires forall t | 0 <= t < |sites| && demands[t] > 0 && sites[t].minimum <= offsets[k] ::
      sites[s].maximum <= sites[t].maximum
    ensures Feasible(offsets, capacities[k := capacities[k] - a], sites, demands[s := demands[s] - a])
  {
    var m :| IsTransport(m, offsets, capacities, sites, demands);
    var r := Exchange(m, offsets, capacities, sites, demands, s, k, a);
    var less: int := -(a as int);
    AddToCell(r, offsets, capacities, sites, demands, s, k, less);
    assert IsTransport(Shift(r, s, k, less), offsets, capacities[k := capacities[k] - a], sites,
                       demands[s := demands[s] - a]);
  }

  lemma UnassignKeepsFeasibility(offsets: seq<int>, capacities: seq<nat>, sites: seq<Interval>,
                                 demands: seq<nat>, s: nat, k: nat, a: nat)
    requires Feasible(offsets, capacities, sites, demands)
    requires s < |sites| == |demands| && k < |offsets| == |capacities| && Covers(sites[s], offsets[k])
    ensures Feasible(offsets, capacities[k := capacities[k] + a], sites, demands[s := demands[s] + a])
  {
    var m :| IsTransport(m, offsets, capacities, sites, demands);
    AddToCell(m, offsets, capacities, sites, demands, s, k, a);
    assert IsTransport(Shift(m, s, k, a), offsets, capacities[k := capacities[k] + a], sites,
                       demands[s := demands[s] + a]);
  }

  lemma AssignKeepsFeasibility(offsets: seq<int>, capacities: seq<nat>, sites: seq<Interval>,
                               demands: seq<nat>, s: nat, k: nat, a: nat)
    requires StrictlyIncreasing(offsets)
    requires s < |sites| == |demands| && k < |offsets| == |capacities|
    requires Covers(sites[s], offsets[k])
    requires forall j | 0 <= j < k :: capacities[j] == 0
    requires a <= capacities[k] && a <= demands[s]
    requires forall t | 0 <= t < |sites| && demands[t] > 0 && sites[t].minimum <= offsets[k] ::
      sites[s].maximum <= sites[t].maximum
    ensures Feasible(offsets, capacities, sites, demands)
       <==> Feasible(offsets, capacities[k := capacities[k] - a], sites, demands[s := demands[s] - a])
  {
    var c, d := capacities[k := capacities[k] - a], demands[s := demands[s] - a];
    assert c[k := c[k] + a] == capacities && d[s := d[s] + a] == demands;
    if Feasible(offsets, capacities, sites, demands) {
      AssignLosesNothing(offsets, capacities, sites, demands, s, k, a);
    }
    if Feasible(offsets, c, sites, d) {
      UnassignKeepsFeasibility(offsets, c, sites, d, s, k, a);
    }
  }

  lemma UnfillableColumn(offsets: seq<int>, capacities: seq<nat>, sites: seq<Interval>,
                         demands: seq<nat>, k: nat)
    requires |capacities| == |offsets| && |demands| == |sites|
    requires k < |offsets| && capacities[k] > 0
    requires forall t | 0 <= t < |sites| && demands[t] > 0 :: offsets[k] < sites[t].minimum
    ensures !Feasible(offsets, capacities, sites, demands)
  {
    if m :| IsTransport(m, offsets, capacities, sites, demands) {
      var t := SumHasPositive(Column(m, k));
      SumBoundsElement(m[t], k);
    }
  }

  lemma StrandedSite(offsets: seq<int>, capacities: seq<nat>, sites: seq<Interval>,
                     demands: seq<nat>, s: nat)
    requires |capacities| == |offsets| && |demands| == |sites|
    requires s < |sites| && demands[s] > 0
    requires forall k | 0 <= k < |offsets| && Covers(sites[s], offsets[k]) :: capacities[k] == 0
    ensures !Feasible(offsets, capacities, sites, demands)
  {
    if m :| IsTransport(m, offsets, capacities, sites, demands) {
      var k := SumHasPositive(m[s]);
      SumBoundsElement(Column(m, k), s);
    }
  }

  lemma NothingLeft(offsets: seq<int>, capacities: seq<nat>, sites: seq<Interval>, demands: seq<nat>)
    requires |capacities| == |offsets| && |demands| == |sites|
    requires forall k | 0 <= k < |offsets| :: capacities[k] == 0
    requires forall s | 0 <= s < |sites| :: demands[s] == 0
    ensures Feasible(offsets, capacities, sites, demands)
  {
    var row: seq<nat> := seq(|offsets|, _ => 0);
    var m := seq(|sites|, _ => row);
    SumOfZeros(row);
    forall k | 0 <= k < |offsets| ensures Sum(Column(m, k)) == 0 {
      SumOfZeros(Column(m, k));
    }
    assert IsTransport(m, offsets, capacities, sites, demands);
  }

  // ---------- the sorted work list and the heap ----------

  // Python compares the tuples lexicographically.
  predicate IntervalLe(a: Interval, b: Interval) {
    || a.minimum < b.minimum
    || (a.minimum == b.minimum &&
        (|| a.maximum < b.maximum
         || (a.maximum == b.maximum &&
             (a.ordinal < b.ordinal || (a.ordinal == b.ordinal && a.demand <= b.demand)))))
  }

  predicate Ascending(sites: seq<Interval>, order: seq<nat>) {
    && (forall i | 0 <= i < |order| :: order[i] < |sites|)
    && (forall i, j | 0 <= i < |order| && j == i + 1 < |order| :: IntervalLe(sites[order[i]], sites[order[j]]))
  }

  lemma {:induction false} AscendingMinimum(sites: seq<Interval>, order: seq<nat>, i: nat, j: nat)
    requires Ascending(sites, order) && i <= j < |order|
    ensures sites[order[i]].minimum <= sites[order[j]].minimum
  {
    if i < j { AscendingMinimum(sites, order, i, j - 1); }
  }

  function InsertionPoint(sites: seq<Interval>, order: seq<nat>, s: nat): (p: nat)
    requires s < |sites| && forall i | 0 <= i < |order| :: order[i] < |sites|
    ensures p <= |order|
    ensures p > 0 ==> IntervalLe(sites[order[p - 1]], sites[s])
    ensures p < |order| ==> IntervalLe(sites[s], sites[order[p]])
  {
    if order == [] || IntervalLe(sites[order[|order| - 1]], sites[s]) then |order|
    else InsertionPoint(sites, order[..|order| - 1], s)
  }

  lemma InsertKeepsOrder(sites: seq<Interval>, order: seq<nat>, s: nat, p: nat)
    requires s < |sites| && Ascending(sites, order) && p <= |order|
    requires p > 0 ==> IntervalLe(sites[order[p - 1]], sites[s])
    requires p < |order| ==> IntervalLe(sites[s], sites[order[p]])
    ensures Ascending(sites, order[..p] + [s] + order[p..])
  {
    var o := order[..p] + [s] + order[p..];
    forall i | 0 < i < |o| ensures IntervalLe(sites[o[i - 1]], sites[o[i]]) {
      if i < p {
        assert o[i - 1] == order[i - 1] && o[i] == order[i];
      } else if i > p + 1 {
        assert o[i - 1] == order[i - 2] && o[i] == order[i - 1];
      }
    }
  }

  // The indices below n, each once.
  ghost function Indices(n: nat): multiset<nat> {
    if n == 0 then multiset{} else Indices(n - 1) + multiset{n - 1}
  }

  lemma {:induction false} IndicesCount(n: nat)
    ensures forall s: nat :: Indices(n)[s] == if s < n then 1 else 0
  {
    if n > 0 { IndicesCount(n - 1); }
  }

  // The order in which sorted() lists the sites, as site indices.
  ghost predicate IsSortedOrder(sites: seq<Interval>, order: seq<nat>) {
    Ascending(sites, order) && multiset(order) == Indices(|sites|)
  }

  method InsertSite(sites: seq<Interval>, order: seq<nat>, s: nat) returns (r: seq<nat>)
    requires Ascending(sites, order) && s < |sites|
    ensures Ascending(sites, r) && multiset(r) == multiset(order) + multiset{s}
  {
    var p := InsertionPoint(sites, order, s);
    InsertKeepsOrder(sites, order, s, p);
    InsertAddsOne(order, s, p);
    r := order[..p] + [s] + order[p..];
  }

  method SortSites(sites: seq<Interval>) returns (order: seq<nat>)
    ensures IsSortedOrder(sites, order)
  {
    order := [];
    for n := 0 to |sites|
      invariant Ascending(sites, order) && multiset(order) == Indices(n)
    {
      order := InsertSite(sites, order, n);
    }
  }

  lemma InsertAddsOne(xs: seq<nat>, x: nat, p: nat)
    requires p <= |xs|
    ensures multiset(xs[..p] + [x] + xs[p..]) == multiset(xs) + multiset{x}
  {
    assert xs == xs[..p] + xs[p..];
  }

  // A heap entry (maximum, ordinal, remaining demand) is kept as the index of its site,
  // the remaining demands in a list beside it. Only the least entry, pushes and pops are
  // observed, so the heap is a sequence kept in order.
  predicate DueBefore(a: Interval, b: Interval) {
    a.maximum < b.maximum || (a.maximum == b.maximum && a.ordinal <= b.ordinal)
  }

  predicate IsHeap(sites: seq<Interval>, heap: seq<nat>) {
    && (forall i | 0 <= i < |heap| :: heap[i] < |sites|)
    && (forall i, j | 0 <= i < |heap| && j == i + 1 < |heap| :: DueBefore(sites[heap[i]], sites[heap[j]]))
  }

  lemma {:induction false} TopIsLeast(sites: seq<Interval>, heap: seq<nat>, i: nat)
    requires IsHeap(sites, heap) && i < |heap|
    ensures sites[heap[0]].maximum <= sites[heap[i]].maximum
  {
    if i > 0 { TopIsLeast(sites, heap, i - 1); }
  }

  function HeapSlot(sites: seq<Interval>, heap: seq<nat>, s: nat): (p: nat)
    requires IsHeap(sites, heap) && s < |sites|
    ensures p <= |heap|
    ensures p > 0 ==> DueBefore(sites[heap[p - 1]], sites[s])
    ensures p < |heap| ==> DueBefore(sites[s], sites[heap[p]])
  {
    if heap == [] || DueBefore(sites[heap[|heap| - 1]], sites[s]) then |heap|
    else HeapSlot(sites, heap[..|heap| - 1], s)
  }

  lemma PushKeepsHeap(sites: seq<Interval>, heap: seq<nat>, s: nat, p: nat)
    requires IsHeap(sites, heap) && s < |sites| && p <= |heap|
    requires p > 0 ==> DueBefore(sites[heap[p - 1]], sites[s])
    requires p < |heap| ==> DueBefore(sites[s], sites[heap[p]])
    ensures IsHeap(sites, heap[..p] + [s] + heap[p..])
  {
    var r := heap[..p] + [s] + heap[p..];
    forall i | 0 < i < |r| ensures DueBefore(sites[r[i - 1]], sites[r[i]]) {
      if i < p {
        assert r[i - 1] == heap[i - 1] && r[i] == heap[i];
      } else if i > p + 1 {
        assert r[i - 1] == heap[i - 2] && r[i] == heap[i - 1];
      }
    }
  }

  method HeapPush(sites: seq<Interval>, heap: seq<nat>, s: nat) returns (r: seq<nat>)
    requires IsHeap(sites, heap) && s < |sites|
    ensures IsHeap(sites, r) && multiset(r) == multiset(heap) + multiset{s}
  {
    var p := HeapSlot(sites, heap, s);
    PushKeepsHeap(sites, heap, s, p);
    InsertAddsOne(heap, s, p);
    r := heap[..p] + [s] + heap[p..];
  }

  method HeapPop(sites: seq<Interval>, heap: seq<nat>) returns (top: nat, r: seq<nat>)
    requires IsHeap(sites, heap) && heap != []
    ensures top == heap[0] && IsHeap(sites, r) && multiset(heap) == multiset(r) + multiset{top}
  {
    assert heap == [heap[0]] + heap[1..];
    top, r := heap[0], heap[1..];
  }

  // The heap holds each released site with demand left exactly once; the others still owe all.
  ghost predicate Tracks(heap: seq<nat>, released: multiset<nat>, demands: seq<nat>) {
    && (forall t: nat :: multiset(heap)[t] == if t < |demands| && demands[t] > 0 then released[t] else 0)
    && (forall t | 0 <= t < |demands| && released[t] == 0 :: demands[t] > 0)
  }

  // Released are exactly the sites whose minimum is at most the offset.
  ghost predicate ReleasedUpTo(sites: seq<Interval>, released: multiset<nat>, offset: int) {
    forall t: nat :: released[t] == if t < |sites| && sites[t].minimum <= offset then 1 else 0
  }

  lemma PrefixIsReleased(sites: seq<Interval>, order: seq<nat>, next: nat, offset: int)
    requires IsSortedOrder(sites, order) && next <= |order|
    requires forall i | 0 <= i < next :: sites[order[i]].minimum <= offset
    requires next < |order| ==> offset < sites[order[next]].minimum
    ensures ReleasedUpTo(sites, multiset(order[..next]), offset)
  {
    forall t: nat
      ensures multiset(order[..next])[t] == if t < |sites| && sites[t].minimum <= offset then 1 else 0
    {
      assert order == order[..next] + order[next..];
      var early, late := multiset(order[..next]), multiset(order[next..]);
      IndicesCount(|sites|);
      assert early[t] + late[t] == multiset(order)[t] == if t < |sites| then 1 else 0;
      EarlyIsReleased(sites, order, next, offset, t);
      LateIsNot(sites, order, next, offset, t);
    }
  }

  lemma EarlyIsReleased(sites: seq<Interval>, order: seq<nat>, next: nat, offset: int, t: nat)
    requires Ascending(sites, order) && next <= |order|
    requires forall i | 0 <= i < next :: sites[order[i]].minimum <= offset
    ensures t in multiset(order[..next]) ==> t < |sites| && sites[t].minimum <= offset
  {
    if t in multiset(order[..next]) {
      var i :| 0 <= i < |order[..next]| && order[..next][i] == t;
    }
  }

  lemma LateIsNot(sites: seq<Interval>, order: seq<nat>, next: nat, offset: int, t: nat)
    requires Ascending(sites, order) && next <= |order|
    requires next < |order| ==> offset < sites[order[next]].minimum
    ensures t in multiset(order[next..]) ==> t < |sites| && offset < sites[t].minimum
  {
    if t in multiset(order[next..]) {
      var i :| 0 <= i < |order[next..]| && order[next..][i] == t;
      AscendingMinimum(sites, order, next, next + i);
    }
  }

  lemma NextIsUnreleased(sites: seq<Interval>, order: seq<nat>, next: nat)
    requires IsSortedOrder(sites, order) && next < |order|
    ensures multiset(order[..next])[order[next]] == 0
    ensures multiset(order[..next + 1]) == multiset(order[..next]) + multiset{order[next]}
  {
    IndicesCount(|sites|);
    assert order == order[..next] + [order[next]] + order[next + 1..];
    assert order[..next + 1] == order[..next] + [order[next]];
    var rest := multiset(order[next + 1..]);
    assert multiset(order) == multiset(order[..next]) + multiset{order[next]} + rest;
    assert multiset(order)[order[next]] == 1;
  }

  lemma PushKeepsTrack(heap: seq<nat>, released: multiset<nat>, demands: seq<nat>, s: nat)
    requires Tracks(heap, released, demands) && s < |demands| && released[s] == 0
    ensures forall r: seq<nat> | multiset(r) == multiset(heap) + multiset{s} ::
      Tracks(r, released + multiset{s}, demands)
  {
    forall r: seq<nat> | multiset(r) == multiset(heap) + multiset{s}
      ensures Tracks(r, released + multiset{s}, demands)
    {
      forall t: nat
        ensures multiset(r)[t] == if t < |demands| && demands[t] > 0 then (released + multiset{s})[t] else 0
      {
        assert multiset(heap)[t] == if t < |demands| && demands[t] > 0 then released[t] else 0;
      }
    }
  }

  // The release loop: every site whose minimum has been reached enters the heap.
  method ReleaseSites(sites: seq<Interval>, order: seq<nat>, offset: int, next0: nat, heap0: seq<nat>,
                      ghost demands: seq<nat>)
      returns (next: nat, heap: seq<nat>)
    requires IsSortedOrder(sites, order) && |demands| == |sites|
    requires next0 <= |order| && forall i | 0 <= i < next0 :: sites[order[i]].minimum <= offset
    requires IsHeap(sites, heap0) && Tracks(heap0, multiset(order[..next0]), demands)
    ensures next0 <= next <= |order| && forall i | 0 <= i < next :: sites[order[i]].minimum <= offset
    ensures IsHeap(sites, heap) && Tracks(heap, multiset(order[..next]), demands)
    ensures ReleasedUpTo(sites, multiset(order[..next]), offset)
  {
    next, heap := next0, heap0;
    while next < |order| && sites[order[next]].minimum <= offset
      invariant next0 <= next <= |order| && forall i | 0 <= i < next :: sites[order[i]].minimum <= offset
      invariant IsHeap(sites, heap) && Tracks(heap, multiset(order[..next]), demands)
    {
      NextIsUnreleased(sites, order, next);
      PushKeepsTrack(heap, multiset(order[..next]), demands, order[next]);
      heap := HeapPush(sites, heap, order[next]);
      next := next + 1;
    }
    PrefixIsReleased(sites, order, next, offset);
  }

  // The state while column k is served, started with capacities0 and demands0: earlier columns
  // owe nothing, and what is left is feasible exactly when the start was.
  ghost predicate Serving(offsets: seq<int>, sites: seq<Interval>, k: nat, capacities0: seq<nat>, demands0: seq<nat>,
                          capacities: seq<nat>, demands: seq<nat>)
  {
    && |capacities0| == |capacities| == |offsets| && k <= |offsets|
    && |demands0| == |demands| == |sites|
    && (forall j | 0 <= j < k :: capacities[j] == 0)
    && (forall j | k < j < |offsets| :: capacities[j] == capacities0[j])
    && (Feasible(offsets, capacities0, sites, demands0) <==> Feasible(offsets, capacities, sites, demands))
  }

  lemma ColumnServed(offsets: seq<int>, sites: seq<Interval>, k: nat, capacities0: seq<nat>, demands0: seq<nat>,
                     capacities: seq<nat>, demands: seq<nat>)
    requires Serving(offsets, sites, k, capacities0, demands0, capacities, demands)
    requires k < |offsets| && capacities[k] == 0
    ensures Serving(offsets, sites, k + 1, capacities0, demands0, capacities, demands)
    ensures k + 1 < |offsets| ==> capacities[k + 1] == capacities0[k + 1]
  {
  }

  // A site with demand left and no capacity in its remaining columns dooms the assignment.
  lemma DeadlineMissed(offsets: seq<int>, sites: seq<Interval>, k: nat, capacities0: seq<nat>, demands0: seq<nat>,
                       capacities: seq<nat>, demands: seq<nat>, s: nat)
    requires Serving(offsets, sites, k, capacities0, demands0, capacities, demands) && StrictlyIncreasing(offsets)
    requires s < |sites| && demands[s] > 0
    requires k < |offsets| ==> sites[s].maximum < offsets[k]
    ensures !Feasible(offsets, capacities0, sites, demands0)
  {
    StrandedSite(offsets, capacities, sites, demands, s);
  }

  lemma TopOwes(sites: seq<Interval>, heap: seq<nat>, released: multiset<nat>, demands: seq<nat>, offset: int)
    requires heap != [] && Tracks(heap, released, demands) && |demands| == |sites|
    requires ReleasedUpTo(sites, released, offset)
    ensures heap[0] < |sites| && demands[heap[0]] > 0 && multiset(heap)[heap[0]] == 1 == released[heap[0]]
  {
    assert heap[0] in multiset(heap);
  }

  lemma NobodyToServe(offsets: seq<int>, sites: seq<Interval>, k: nat, capacities0: seq<nat>, demands0: seq<nat>,
                      capacities: seq<nat>, demands: seq<nat>, heap: seq<nat>, released: multiset<nat>)
    requires Serving(offsets, sites, k, capacities0, demands0, capacities, demands) && StrictlyIncreasing(offsets)
    requires k < |offsets| && Tracks(heap, released, demands) && ReleasedUpTo(sites, released, offsets[k])
    requires capacities[k] > 0
    requires heap == [] || (heap[0] < |sites| && sites[heap[0]].maximum < offsets[k])
    ensures !Feasible(offsets, capacities0, sites, demands0)
  {
    if heap == [] {
      forall t: nat | t < |sites| && demands[t] > 0 ensures offsets[k] < sites[t].minimum {
        assert multiset(heap)[t] == released[t];
      }
      UnfillableColumn(offsets, capacities, sites, demands, k);
    } else {
      TopOwes(sites, heap, released, demands, offsets[k]);
      DeadlineMissed(offsets, sites, k, capacities0, demands0, capacities, demands, heap[0]);
    }
  }

  // Every site that can still run at this offset is in the heap, so its top has the earliest deadline.
  lemma TopIsEarliest(sites: seq<Interval>, heap: seq<nat>, released: multiset<nat>, demands: seq<nat>, offset: int,
                      t: nat)
    requires IsHeap(sites, heap) && Tracks(heap, released, demands) && ReleasedUpTo(sites, released, offset)
    requires t < |sites| == |demands| && demands[t] > 0 && sites[t].minimum <= offset
    ensures heap != [] && sites[heap[0]].maximum <= sites[t].maximum
  {
    assert multiset(heap)[t] == 1;
    assert t in heap;
    var i :| 0 <= i < |heap| && heap[i] == t;
    TopIsLeast(sites, heap, i);
  }

  // Handing `share` executions at offset k to the site on top of the heap loses nothing.
  lemma ServeTop(offsets: seq<int>, sites: seq<Interval>, k: nat, capacities0: seq<nat>, demands0: seq<nat>,
                 capacities: seq<nat>, demands: seq<nat>, heap: seq<nat>, released: multiset<nat>, share: nat)
    requires Serving(offsets, sites, k, capacities0, demands0, capacities, demands) && StrictlyIncreasing(offsets)
    requires heap != [] && IsHeap(sites, heap) && Tracks(heap, released, demands) && k < |offsets|
    requires ReleasedUpTo(sites, released, offsets[k]) && offsets[k] <= sites[heap[0]].maximum
    requires share <= capacities[k] && share <= demands[heap[0]]
    ensures Serving(offsets, sites, k, capacities0, demands0, capacities[k := capacities[k] - share],
                    demands[heap[0] := demands[heap[0]] - share])
  {
    TopOwes(sites, heap, released, demands, offsets[k]);
    forall t: nat | t < |sites| && demands[t] > 0 && sites[t].minimum <= offsets[k]
      ensures sites[heap[0]].maximum <= sites[t].maximum
    {
      TopIsEarliest(sites, heap, released, demands, offsets[k], t);
    }
    AssignKeepsFeasibility(offsets, capacities, sites, demands, heap[0], k, share);
  }

  // The served site leaves the heap, or returns to it with the rest of its demand.
  lemma ServeKeepsTrack(heap: seq<nat>, released: multiset<nat>, demands: seq<nat>, s: nat, left: nat, r: seq<nat>)
    requires s < |demands| && demands[s] > 0 && multiset(heap)[s] == 1 == released[s]
    requires Tracks(heap, released, demands)
    requires multiset(r) == if left > 0 then multiset(heap) else multiset(heap) - multiset{s}
    ensures Tracks(r, released, demands[s := left])
  {
    forall t: nat
      ensures multiset(r)[t] == if t < |demands| && demands[s := left][t] > 0 then released[t] else 0
    {
      assert multiset(heap)[t] == if t < |demands| && demands[t] > 0 then released[t] else 0;
    }
  }

  // The capacity loop at offset k, over the remaining demands.
  method FillOffset(offsets: seq<int>, sites: seq<Interval>, k: nat, capacities0: seq<nat>, heap0: seq<nat>,
                    demands1: seq<nat>, ghost demands0: seq<nat>, ghost released: multiset<nat>,
                    ghost capacities1: seq<nat>)
      returns (ok: bool, heap: seq<nat>, demands: seq<nat>, ghost capacities: seq<nat>)
    requires Serving(offsets, sites, k, capacities0, demands0, capacities1, demands1) && StrictlyIncreasing(offsets)
    requires k < |offsets| && capacities1[k] == capacities0[k]
    requires IsHeap(sites, heap0) && Tracks(heap0, released, demands1) && ReleasedUpTo(sites, released, offsets[k])
    ensures !ok ==> !Feasible(offsets, capacities0, sites, demands0)
    ensures ok ==> Serving(offsets, sites, k, capacities0, demands0, capacities, demands) && capacities[k] == 0
    ensures ok ==> IsHeap(sites, heap) && Tracks(heap, released, demands)
  {
    hide Feasible, Tracks, ReleasedUpTo, StrictlyIncreasing;
    var remainingCapacity := capacities0[k];
    heap, capacities, demands := heap0, capacities1, demands1;
    while remainingCapacity > 0
      invariant Serving(offsets, sites, k, capacities0, demands0, capacities, demands)
      invariant capacities[k] == remainingCapacity
      invariant IsHeap(sites, heap) && Tracks(heap, released, demands)
    {
      if heap == [] || sites[heap[0]].maximum < offsets[k] {
        NobodyToServe(offsets, sites, k, capacities0, demands0, capacities, demands, heap, released);
        return false, heap, demands, capacities;
      }
      TopOwes(sites, heap, released, demands, offsets[k]);
      ghost var was := heap;
      var s, rest := HeapPop(sites, heap);
      var share := if remainingCapacity <= demands[s] then remainingCapacity else demands[s];
      ServeTop(offsets, sites, k, capacities0, demands0, capacities, demands, heap, released, share);
      remainingCapacity := remainingCapacity - share;
      var left := demands[s] - share;
      if left > 0 {
        heap := HeapPush(sites, rest, s);
      } else {
        heap := rest;
      }
      ServeKeepsTrack(was, released, demands, s, left, heap);
      capacities, demands := capacities[k := capacities[k] - share], demands[s := left];
    }
    ok := true;
  }

  // Acceptance of the greedy is exactly the existence of a transport.
  method ValidateIntervalExecutionFeasibility(offsets: seq<int>, capacities: seq<nat>, sites: seq<Interval>)
      returns (ok: bool)
    requires StrictlyIncreasing(offsets)
    requires forall s | 0 <= s < |sites| :: sites[s].demand > 0
    ensures ok <==> Feasible(offsets, capacities, sites, Demands(sites))
  {
    if |offsets| != |capacities| { return false; }
    var order := SortSites(sites);
    var heap: seq<nat>, next: nat := [], 0;
    ghost var demands0 := Demands(sites);
    var demands: seq<nat> := Demands(sites);
    ghost var cap: seq<nat> := capacities;

    for k := 0 to |offsets|
      invariant 0 <= next <= |order| && IsHeap(sites, heap)
      invariant k < |offsets| ==> forall i | 0 <= i < next :: sites[order[i]].minimum <= offsets[k]
      invariant Serving(offsets, sites, k, capacities, demands0, cap, demands)
      invariant k < |offsets| ==> cap[k] == capacities[k]
      invariant Tracks(heap, multiset(order[..next]), demands)
    {
      next, heap := ReleaseSites(sites, order, offsets[k], next, heap, demands);
      ghost var released := multiset(order[..next]);
      if heap != [] && sites[heap[0]].maximum < offsets[k] {
        TopOwes(sites, heap, released, demands, offsets[k]);
        DeadlineMissed(offsets, sites, k, capacities, demands0, cap, demands, heap[0]);
        return false;
      }
      var filled;
      filled, heap, demands, cap :=
        FillOffset(offsets, sites, k, capacities, heap, demands, demands0, released, cap);
      if !filled { return false; }
      ColumnServed(offsets, sites, k, capacities, demands0, cap, demands);
      if heap != [] && sites[heap[0]].maximum <= offsets[k] {
        TopOwes(sites, heap, released, demands, offsets[k]);
        DeadlineMissed(offsets, sites, k + 1, capacities, demands0, cap, demands, heap[0]);
        return false;
      }
    }
    if next != |order| || heap != [] {
      SomeSiteOwes(sites, order, next, heap, demands);
      ghost var s :| 0 <= s < |sites| && demands[s] > 0;
      DeadlineMissed(offsets, sites, |offsets|, capacities, demands0, cap, demands, s);
      return false;
    }
    EverySiteServed(sites, order, demands);
    NothingLeft(offsets, cap, sites, demands);
    return true;
  }

  lemma SomeSiteOwes(sites: seq<Interval>, order: seq<nat>, next: nat, heap: seq<nat>, demands: seq<nat>)
    requires IsSortedOrder(sites, order) && next <= |order| && |demands| == |sites|
    requires Tracks(heap, multiset(order[..next]), demands) && (next != |order| || heap != [])
    ensures exists s :: 0 <= s < |sites| && demands[s] > 0
  {
    if heap != [] {
      assert heap[0] in multiset(heap);
      assert demands[heap[0]] > 0;
    } else {
      NextIsUnreleased(sites, order, next);
      assert demands[order[next]] > 0;
    }
  }

  lemma EverySiteServed(sites: seq<Interval>, order: seq<nat>, demands: seq<nat>)
    requires IsSortedOrder(sites, order) && |demands| == |sites|
    requires Tracks([], multiset(order[..|order|]), demands)
    ensures forall s | 0 <= s < |sites| :: demands[s] == 0
  {
    IndicesCount(|sites|);
    assert order[..|order|] == order;
    forall s: nat | s < |sites| ensures demands[s] == 0 {
      var none: seq<nat> := [];
      assert multiset(none)[s] == 0;
    }
  }
}
