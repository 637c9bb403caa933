// The counters of the recursive HOG scan (tools/measure_frontend_hog_topology.py) and the sums
// that always agree.
module HogAggregate {
  import opened Cardinality
  import opened Options
  import opened Sums

  // Extensions and categories are numbered in the order of the vocabulary; the extra category
  // is "other". Several extensions share a category.
  const EXTENSIONS := 15
  const CATEGORIES := 14
  const HOG_EXTENSION := 2
  const BUCKETS := 7
  const DEPTHS := 17

  // .col .gui .hog .ie .pop .ska .skas .skl .skm .so .tbl .tdx .txt .vag .vum
  const CATEGORY_OF: seq<nat> := [0, 1, 2, 3, 4, 5, 5, 6, 7, 8, 9, 10, 11, 12, 13]
  const OTHER := 14

  // What the scan keeps of a member: its approved extension, if any, and its size.
  datatype Member = Member(extension: Option<nat>, size: nat)

  datatype Totals = Totals(archives: nat, nested: nat, members: nat, approved: nat, other: nat,
                           groups: nat, pairs: nat, extensionCounts: seq<nat>, categoryCounts: seq<nat>,
                           depthCounts: seq<nat>, extentFamilies: seq<nat>, extentBuckets: seq<nat>,
                           categoryBuckets: seq<seq<nat>>, pairTotals: seq<nat>)

  predicate KnownMember(m: Member) { m.extension.Some? ==> m.extension.value < EXTENSIONS }

  function BucketOf(size: nat): (b: nat)
    ensures b < BUCKETS
  {
    if size == 0 then 0
    else if size < 256 then 1
    else if size < 4096 then 2
    else if size < 65_536 then 3
    else if size < 1_048_576 then 4
    else if size < 16_777_216 then 5
    else 6
  }

  function CategoryOf(m: Member): (c: nat)
    requires KnownMember(m)
    ensures c <= CATEGORIES && (c == OTHER <==> m.extension.None?)
  {
    if m.extension.Some? then CATEGORY_OF[m.extension.value] else OTHER
  }

  ghost predicate Shape(t: Totals) {
    && |t.extensionCounts| == EXTENSIONS && |t.categoryCounts| == CATEGORIES + 1
    && |t.depthCounts| == DEPTHS && |t.extentFamilies| == 3 && |t.extentBuckets| == BUCKETS
    && |t.categoryBuckets| == CATEGORIES + 1
    && (forall c | 0 <= c < |t.categoryBuckets| :: |t.categoryBuckets[c]| == BUCKETS)
    && |t.pairTotals| == EXTENSIONS * EXTENSIONS
  }

  lemma Lengths(t: Totals, c: nat)
    requires Shape(t) && c <= CATEGORIES
    ensures |t.extensionCounts| == EXTENSIONS && |t.categoryCounts| == |t.categoryBuckets| == CATEGORIES + 1
    ensures |t.extentBuckets| == |t.categoryBuckets[c]| == BUCKETS
  {
  }

  function Bump(s: seq<nat>, i: nat): (r: seq<nat>)
    requires i < |s|
    ensures |r| == |s|
  {
    s[i := s[i] + 1]
  }

  lemma {:induction false} BumpSum(s: seq<nat>, i: nat)
    requires i < |s|
    ensures Sum(Bump(s, i)) == Sum(s) + 1
  {
    SumUpdate(s, i, s[i] + 1);
  }

  // ---------- one event at a time ----------

  function CountArchive(t: Totals, depth: nat, padded: bool): (r: Totals)
    requires Shape(t) && depth < DEPTHS
    ensures Shape(r)
  {
    var family := if depth == 0 then 0 else if padded then 2 else 1;
    t.(archives := t.archives + 1, nested := t.nested + if depth == 0 then 0 else 1,
       depthCounts := Bump(t.depthCounts, depth), extentFamilies := Bump(t.extentFamilies, family))
  }

  function CountMember(t: Totals, m: Member): (r: Totals)
    requires Shape(t) && KnownMember(m)
    ensures Shape(r)
  {
    var c, b := CategoryOf(m), BucketOf(m.size);
    t.(members := t.members + 1,
       approved := t.approved + if m.extension.Some? then 1 else 0,
       other := t.other + if m.extension.Some? then 0 else 1,
       extensionCounts := if m.extension.Some? then Bump(t.extensionCounts, m.extension.value) else t.extensionCounts,
       categoryCounts := Bump(t.categoryCounts, c),
       extentBuckets := Bump(t.extentBuckets, b),
       categoryBuckets := t.categoryBuckets[c := Bump(t.categoryBuckets[c], b)])
  }

  // The cell of a pair of extensions.
  function PairIndex(left: nat, right: nat): nat { left * EXTENSIONS + right }

  function CountPair(t: Totals, left: nat, right: nat): (r: Totals)
    requires Shape(t) && left < right < EXTENSIONS
    ensures Shape(r)
  {
    t.(pairs := t.pairs + 1, pairTotals := Bump(t.pairTotals, PairIndex(left, right)))
  }

  // ---------- the sums that agree ----------

  ghost predicate MemberSums(t: Totals)
    requires Shape(t)
  {
    && t.members == t.approved + t.other
    && t.approved == Sum(t.extensionCounts)
    && t.members == Sum(t.categoryCounts) == Sum(t.extentBuckets)
    && t.other == t.categoryCounts[OTHER]
    && (forall c | 0 <= c <= CATEGORIES :: Sum(t.categoryBuckets[c]) == t.categoryCounts[c])
    && (forall b | 0 <= b < BUCKETS :: Sum(BucketColumn(t, b)) == t.extentBuckets[b])
  }

  // The counts of one bucket over all categories.
  ghost function BucketColumn(t: Totals, b: nat): seq<nat>
    requires Shape(t) && b < BUCKETS
  {
    seq(|t.categoryBuckets|, c requires 0 <= c < |t.categoryBuckets| => t.categoryBuckets[c][b])
  }

  ghost predicate ArchiveSums(t: Totals)
    requires Shape(t)
  {
    && t.archives == Sum(t.depthCounts) == Sum(t.extentFamilies)
    && t.archives == t.depthCounts[0] + t.nested
    && t.depthCounts[0] == t.extentFamilies[0]
  }

  ghost predicate Conserved(t: Totals) {
    Shape(t) && MemberSums(t) && ArchiveSums(t) && t.pairs == Sum(t.pairTotals)
  }

  lemma ArchiveConserves(t: Totals, depth: nat, padded: bool)
    requires Conserved(t) && depth < DEPTHS
    ensures Conserved(CountArchive(t, depth, padded))
  {
    BumpSum(t.depthCounts, depth);
    BumpSum(t.extentFamilies, if depth == 0 then 0 else if padded then 2 else 1);
    var r := CountArchive(t, depth, padded);
    assert forall b: nat | b < BUCKETS :: BucketColumn(r, b) == BucketColumn(t, b);
  }

  lemma PairConserves(t: Totals, left: nat, right: nat)
    requires Conserved(t) && left < right < EXTENSIONS
    ensures Conserved(CountPair(t, left, right))
  {
    BumpSum(t.pairTotals, PairIndex(left, right));
    var r := CountPair(t, left, right);
    assert forall b: nat | b < BUCKETS :: BucketColumn(r, b) == BucketColumn(t, b);
  }

  lemma ColumnGrows(t: Totals, m: Member, b: nat)
    requires Shape(t) && KnownMember(m) && b < BUCKETS
    ensures Sum(BucketColumn(CountMember(t, m), b)) == Sum(BucketColumn(t, b)) + if b == BucketOf(m.size) then 1 else 0
  {
    var c, column := CategoryOf(m), BucketColumn(t, b);
    if b == BucketOf(m.size) {
      assert BucketColumn(CountMember(t, m), b) == Bump(column, c);
      BumpSum(column, c);
    } else {
      assert BucketColumn(CountMember(t, m), b) == column;
    }
  }

  lemma MemberConserves(t: Totals, m: Member)
    requires Conserved(t) && KnownMember(m)
    ensures Conserved(CountMember(t, m))
  {
    var r, c, b := CountMember(t, m), CategoryOf(m), BucketOf(m.size);
    if m.extension.Some? { BumpSum(t.extensionCounts, m.extension.value); }
    BumpSum(t.categoryCounts, c);
    BumpSum(t.extentBuckets, b);
    BumpSum(t.categoryBuckets[c], b);
    forall x: nat | x < BUCKETS ensures Sum(BucketColumn(r, x)) == r.extentBuckets[x] {
      ColumnGrows(t, m, x);
    }
    hide Sum, BucketColumn;
  }

  // ---------- a directory ----------

  function CountMembers(t: Totals, ms: seq<Member>, n: nat): (r: Totals)
    requires Shape(t) && n <= |ms| && forall i | 0 <= i < |ms| :: KnownMember(ms[i])
    ensures Shape(r)
  {
    if n == 0 then t else CountMember(CountMembers(t, ms, n - 1), ms[n - 1])
  }

  // The extension pairs of one stem, smaller extension first: those below (left, right).
  function CountPairs(t: Totals, extensions: set<nat>, left: nat, right: nat): (r: Totals)
    requires Shape(t) && left <= EXTENSIONS && right <= EXTENSIONS
    ensures Shape(r)
    decreases left, right
  {
    if left == 0 then t
    else if right == 0 then CountPairs(t, extensions, left - 1, EXTENSIONS)
    else
      var before := CountPairs(t, extensions, left, right - 1);
      if left - 1 < right - 1 && left - 1 in extensions && right - 1 in extensions
      then CountPair(before, left - 1, right - 1) else before
  }

  function CountGroup(t: Totals, extensions: set<nat>): (r: Totals)
    requires Shape(t)
    ensures Shape(r)
  {
    if |extensions| < 2 then t
    else CountPairs(t.(groups := t.groups + 1), extensions, EXTENSIONS, EXTENSIONS)
  }

  function CountGroups(t: Totals, groups: seq<set<nat>>, n: nat): (r: Totals)
    requires Shape(t) && n <= |groups|
    ensures Shape(r)
  {
    if n == 0 then t else CountGroup(CountGroups(t, groups, n - 1), groups[n - 1])
  }

  lemma {:induction false} MembersConserve(t: Totals, ms: seq<Member>, n: nat)
    requires Conserved(t) && n <= |ms| && forall i | 0 <= i < |ms| :: KnownMember(ms[i])
    ensures var r := CountMembers(t, ms, n);
      && Conserved(r) && r.members == t.members + n && r.archives == t.archives && r.nested == t.nested
      && r.extensionCounts[HOG_EXTENSION] == t.extensionCounts[HOG_EXTENSION] + HogMembers(ms, n)
  {
    hide MemberSums, ArchiveSums;
    if n > 0 {
      MembersConserve(t, ms, n - 1);
      MemberConserves(CountMembers(t, ms, n - 1), ms[n - 1]);
    }
  }

  // How many of the first n members are nested archives.
  function HogMembers(ms: seq<Member>, n: nat): nat
    requires n <= |ms|
  {
    if n == 0 then 0 else HogMembers(ms, n - 1) + if ms[n - 1].extension == Some(HOG_EXTENSION) then 1 else 0
  }

  // Counting pairs and groups touches nothing else.
  ghost predicate OnlyPairs(t: Totals, r: Totals) {
    r == t.(groups := r.groups, pairs := r.pairs, pairTotals := r.pairTotals)
  }

  lemma {:induction false} PairsConserve(t: Totals, extensions: set<nat>, left: nat, right: nat)
    requires Conserved(t) && left <= EXTENSIONS && right <= EXTENSIONS
    ensures Conserved(CountPairs(t, extensions, left, right)) && OnlyPairs(t, CountPairs(t, extensions, left, right))
    decreases left, right
  {
    hide MemberSums, ArchiveSums;
    if left > 0 && right == 0 {
      PairsConserve(t, extensions, left - 1, EXTENSIONS);
    } else if left > 0 {
      PairsConserve(t, extensions, left, right - 1);
      if left - 1 < right - 1 {
        PairConserves(CountPairs(t, extensions, left, right - 1), left - 1, right - 1);
      }
    }
  }

  // ---------- what a group counts ----------

  // Whether the loops below (left, right) have passed the pair (l, r).
  predicate Passed(left: nat, right: nat, l: nat, r: nat) { left > 0 && (l < left - 1 || (l == left - 1 && r < right)) }

  ghost predicate KnownExtensions(extensions: set<nat>) { forall x | x in extensions :: x < EXTENSIONS }

  lemma PairCounted(t: Totals, left: nat, right: nat, l: nat, r: nat)
    requires Shape(t) && left < right < EXTENSIONS && l < EXTENSIONS && r < EXTENSIONS
    ensures CountPair(t, left, right).pairTotals[PairIndex(l, r)] ==
            t.pairTotals[PairIndex(l, r)] + if l == left && r == right then 1 else 0
  {
  }

  // Each ordered pair of extensions of the set is counted once, in its own cell; no other cell changes.
  lemma {:induction false} PairsCounted(t: Totals, extensions: set<nat>, left: nat, right: nat, l: nat, r: nat)
    requires Shape(t) && left <= EXTENSIONS && right <= EXTENSIONS && l < EXTENSIONS && r < EXTENSIONS
    ensures CountPairs(t, extensions, left, right).pairTotals[PairIndex(l, r)] ==
            t.pairTotals[PairIndex(l, r)]
            + if l < r && l in extensions && r in extensions && Passed(left, right, l, r) then 1 else 0
    decreases left, right
  {
    hide Shape, CountPair, PairIndex;
    if left > 0 && right == 0 {
      PairsCounted(t, extensions, left - 1, EXTENSIONS, l, r);
    } else if left > 0 {
      PairsCounted(t, extensions, left, right - 1, l, r);
      if left < right {
        PairCounted(CountPairs(t, extensions, left, right - 1), left - 1, right - 1, l, r);
      }
    }
  }

  // A stem's group adds one to the cell of every pair of its extensions, smaller first, and
  // leaves every other cell as it was.
  lemma GroupCountsPairs(t: Totals, extensions: set<nat>, l: nat, r: nat)
    requires Shape(t) && l < EXTENSIONS && r < EXTENSIONS
    ensures CountGroup(t, extensions).pairTotals[PairIndex(l, r)] ==
            t.pairTotals[PairIndex(l, r)] + if l < r && l in extensions && r in extensions then 1 else 0
  {
    hide CountPairs;
    if |extensions| < 2 {
      if l < r && l in extensions && r in extensions {
        SetOfTwo(extensions, l, r);
      }
    } else {
      PairsCounted(t.(groups := t.groups + 1), extensions, EXTENSIONS, EXTENSIONS, l, r);
    }
  }

  lemma SetOfTwo(s: set<nat>, l: nat, r: nat)
    requires l in s && r in s && l != r
    ensures |s| >= 2
  {
    assert {l, r} <= s;
    assert s == {l, r} + (s - {l, r});
  }

  // The pairs with one of the k smallest of n elements as the smaller one.
  function PairsOfSmallest(k: nat, n: nat): nat
    requires k <= n
  {
    if k == 0 then 0 else PairsOfSmallest(k - 1, n) + (n - k)
  }

  lemma NextSmallest(k: nat, n: nat)
    ensures PairsOfSmallest(0, n) == 0
    ensures k < n ==> PairsOfSmallest(k + 1, n) == PairsOfSmallest(k, n) + (n - k - 1)
  {
  }

  lemma Distribute(a: int, b: int, c: int)
    ensures (a + b) * c == a * c + b * c
  {
  }

  lemma {:induction false} PairsOfSmallestClosed(k: nat, n: nat)
    requires k <= n
    ensures 2 * PairsOfSmallest(k, n) == 2 * (k * n) - k * k - k
  {
    if k > 0 {
      PairsOfSmallestClosed(k - 1, n);
      Distribute(k - 1, 1, n);
      Distribute(k - 1, 1, k);
    }
  }

  // The pair total below (left, right): all pairs of the finished rows, and those of the row at hand.
  lemma {:induction false} PairsSoFar(t: Totals, extensions: set<nat>, left: nat, right: nat)
    requires Shape(t) && KnownExtensions(extensions) && 0 < left <= EXTENSIONS && right <= EXTENSIONS
    ensures CountBelow(extensions, left - 1) <= |extensions|
    ensures CountPairs(t, extensions, left, right).pairs ==
            t.pairs + PairsOfSmallest(CountBelow(extensions, left - 1), |extensions|)
            + if left - 1 in extensions && left < right
              then CountBelow(extensions, right) - CountBelow(extensions, left) else 0
    decreases left, right
  {
    hide CountBelow, Shape, Bump, PairIndex, PairsOfSmallest;
    var n := |extensions|;
    CountBelowEnds(extensions, EXTENSIONS);
    CountBelowGrows(extensions, left - 1, EXTENSIONS);
    if right > 0 {
      PairsSoFar(t, extensions, left, right - 1);
      CountBelowStep(extensions, right - 1);
    } else if left > 1 {
      PairsSoFar(t, extensions, left - 1, EXTENSIONS);
      CountBelowStep(extensions, left - 2);
      CountBelowGrows(extensions, left - 1, EXTENSIONS);
      NextSmallest(CountBelow(extensions, left - 2), n);
    } else {
      assert CountPairs(t, extensions, 0, EXTENSIONS) == t;
      NextSmallest(0, n);
    }
  }

  // A group of n extensions adds n * (n - 1) / 2 to the pair total.
  lemma GroupCountsAllPairs(t: Totals, extensions: set<nat>)
    requires Shape(t) && KnownExtensions(extensions)
    ensures CountGroup(t, extensions).pairs == t.pairs + |extensions| * (|extensions| - 1) / 2
    ensures CountGroup(t, extensions).groups == t.groups + if |extensions| < 2 then 0 else 1
  {
    hide CountPairs;
    var n := |extensions|;
    if n >= 2 {
      var u := t.(groups := t.groups + 1);
      hide Shape;
      PairsKeepGroups(u, extensions, EXTENSIONS, EXTENSIONS);
      AllRows(u, extensions);
    }
  }

  lemma AllRows(t: Totals, extensions: set<nat>)
    requires Shape(t) && KnownExtensions(extensions)
    ensures 2 * CountPairs(t, extensions, EXTENSIONS, EXTENSIONS).pairs ==
            2 * t.pairs + |extensions| * (|extensions| - 1)
  {
    hide CountBelow, CountPairs, Shape, PairsOfSmallest;
    var n, k := |extensions|, CountBelow(extensions, EXTENSIONS - 1);
    PairsSoFar(t, extensions, EXTENSIONS, EXTENSIONS);
    CountBelowEnds(extensions, EXTENSIONS);
    CountBelowStep(extensions, EXTENSIONS - 1);
    AllOrAllButOne(k, n);
  }

  lemma AllOrAllButOne(k: nat, n: nat)
    requires k == n || k + 1 == n
    ensures 2 * PairsOfSmallest(k, n) == n * (n - 1)
  {
    PairsOfSmallestClosed(k, n);
    if k == n {
      Distribute(n, -1, n);
    } else {
      Distribute(k, 1, k);
    }
  }

  lemma {:induction false} PairsKeepGroups(t: Totals, extensions: set<nat>, left: nat, right: nat)
    requires Shape(t) && left <= EXTENSIONS && right <= EXTENSIONS
    ensures CountPairs(t, extensions, left, right).groups == t.groups
    decreases left, right
  {
    hide Shape;
    if left > 0 && right == 0 {
      PairsKeepGroups(t, extensions, left - 1, EXTENSIONS);
    } else if left > 0 {
      PairsKeepGroups(t, extensions, left, right - 1);
    }
  }

  lemma GroupConserves(t: Totals)
    requires Conserved(t)
    ensures Conserved(t.(groups := t.groups + 1))
  {
    assert forall b: nat | b < BUCKETS :: BucketColumn(t.(groups := t.groups + 1), b) == BucketColumn(t, b);
  }

  lemma {:induction false} GroupsConserve(t: Totals, groups: seq<set<nat>>, n: nat)
    requires Conserved(t) && n <= |groups|
    ensures Conserved(CountGroups(t, groups, n)) && OnlyPairs(t, CountGroups(t, groups, n))
  {
    hide MemberSums, ArchiveSums, CountPairs;
    if n > 0 {
      GroupsConserve(t, groups, n - 1);
      var before := CountGroups(t, groups, n - 1);
      GroupConserves(before);
      PairsConserve(before.(groups := before.groups + 1), groups[n - 1], EXTENSIONS, EXTENSIONS);
    }
  }

  lemma {:induction false} MembersPrefix(t: Totals, ms: seq<Member>, more: seq<Member>, n: nat)
    requires Shape(t) && n <= |ms|
    requires forall i | 0 <= i < |ms + more| :: KnownMember((ms + more)[i])
    ensures forall i | 0 <= i < |ms| :: KnownMember(ms[i])
    ensures CountMembers(t, ms + more, n) == CountMembers(t, ms, n)
  {
    forall i | 0 <= i < |ms| ensures KnownMember(ms[i]) {
      assert (ms + more)[i] == ms[i];
    }
    if n > 0 {
      MembersPrefix(t, ms, more, n - 1);
    }
  }

  // ---------- the counters as they are kept ----------

  lemma Regrouped(t: Totals)
    requires Shape(t)
    ensures Shape(t.(groups := t.groups + 1))
  {
  }

  lemma NoRows(t: Totals, extensions: set<nat>)
    requires Shape(t)
    ensures CountPairs(t, extensions, 0, EXTENSIONS) == t
  {
  }

  lemma NextRow(t: Totals, extensions: set<nat>, left: nat)
    requires Shape(t) && left < EXTENSIONS
    ensures CountPairs(t, extensions, left + 1, 0) == CountPairs(t, extensions, left, EXTENSIONS)
  {
  }

  lemma NextCell(t: Totals, extensions: set<nat>, left: nat, right: nat)
    requires Shape(t) && left < EXTENSIONS && right < EXTENSIONS
    ensures var now := CountPairs(t, extensions, left + 1, right);
      && PairIndex(left, right) < |now.pairTotals|
      && CountPairs(t, extensions, left + 1, right + 1) ==
         if left < right && left in extensions && right in extensions then CountPair(now, left, right) else now
  {
  }

  function Blank(): (t: Totals)
    ensures Shape(t)
  {
    var z: seq<nat> := seq(BUCKETS, _ => 0);
    Totals(0, 0, 0, 0, 0, 0, 0, seq(EXTENSIONS, _ => 0), seq(CATEGORIES + 1, _ => 0), seq(DEPTHS, _ => 0),
           [0, 0, 0], z, seq(CATEGORIES + 1, _ => z), seq(EXTENSIONS * EXTENSIONS, _ => 0))
  }

  lemma BlankMembers()
    ensures MemberSums(Blank())
  {
    hide Sum, BucketColumn;
    var t := Blank();
    SumOfZeros(t.extensionCounts);
    SumOfZeros(t.categoryCounts);
    SumOfZeros(t.extentBuckets);
    forall b: nat | b < BUCKETS ensures Sum(BucketColumn(t, b)) == 0 {
      BlankColumn(b);
    }
    forall c: nat | c <= CATEGORIES ensures Sum(t.categoryBuckets[c]) == 0 {
      SumOfZeros(t.categoryBuckets[c]);
    }
  }

  lemma BlankColumn(b: nat)
    requires b < BUCKETS
    ensures Sum(BucketColumn(Blank(), b)) == 0
  {
    SumOfZeros(BucketColumn(Blank(), b));
  }

  lemma BlankConserves()
    ensures Conserved(Blank())
  {
    hide Sum, MemberSums;
    var t := Blank();
    BlankMembers();
    SumOfZeros(t.depthCounts);
    SumOfZeros(t.extentFamilies);
    SumOfZeros(t.pairTotals);
  }

  class Aggregate {
    var archives: nat
    var nested: nat
    var members: nat
    var approved: nat
    var other: nat
    var groups: nat
    var pairs: nat
    var extensionCounts: seq<nat>
    var categoryCounts: seq<nat>
    var depthCounts: seq<nat>
    var extentFamilies: seq<nat>
    var extentBuckets: seq<nat>
    var categoryBuckets: seq<seq<nat>>
    var pairTotals: seq<nat>

    ghost function Value(): Totals reads this {
      Totals(archives, nested, members, approved, other, groups, pairs, extensionCounts, categoryCounts,
             depthCounts, extentFamilies, extentBuckets, categoryBuckets, pairTotals)
    }

    ghost predicate Valid() reads this { Shape(Value()) }

    constructor ()
      ensures Valid() && Value() == Blank()
    {
      var z: seq<nat> := seq(BUCKETS, _ => 0);
      archives, nested, members, approved, other, groups, pairs := 0, 0, 0, 0, 0, 0, 0;
      extensionCounts, categoryCounts := seq(EXTENSIONS, _ => 0), seq(CATEGORIES + 1, _ => 0);
      depthCounts, extentFamilies, extentBuckets := seq(DEPTHS, _ => 0), [0, 0, 0], z;
      categoryBuckets, pairTotals := seq(CATEGORIES + 1, _ => z), seq(EXTENSIONS * EXTENSIONS, _ => 0);
    }

    method AddArchive(depth: nat, padded: bool)
      requires Valid() && depth < DEPTHS
      modifies this
      ensures Valid() && Value() == CountArchive(old(Value()), depth, padded)
    {
      archives := archives + 1;
      depthCounts := Bump(depthCounts, depth);
      if depth == 0 {
        extentFamilies := Bump(extentFamilies, 0);
      } else {
        nested := nested + 1;
        extentFamilies := Bump(extentFamilies, if padded then 2 else 1);
      }
    }

    method AddMember(m: Member)
      requires Valid() && KnownMember(m)
      modifies this
      ensures Valid() && Value() == CountMember(old(Value()), m)
    {
      hide CategoryOf, BucketOf, Bump, Shape;
      Lengths(Value(), CategoryOf(m));
      members := members + 1;
      var category, bucket := CategoryOf(m), BucketOf(m.size);
      if category == OTHER {
        other := other + 1;
      } else {
        approved := approved + 1;
        extensionCounts := Bump(extensionCounts, m.extension.value);
      }
      categoryCounts := Bump(categoryCounts, category);
      extentBuckets := Bump(extentBuckets, bucket);
      categoryBuckets := categoryBuckets[category := Bump(categoryBuckets[category], bucket)];
      assert Value() == CountMember(old(Value()), m);
    }

    // The pairs of the approved extensions that share a stem.
    method AddGroup(extensions: set<nat>)
      requires Valid()
      modifies this
      ensures Valid() && Value() == CountGroup(old(Value()), extensions)
    {
      hide CountPairs, Shape, PairIndex, Bump;
      if |extensions| < 2 { return; }
      Regrouped(Value());
      groups := groups + 1;
      ghost var t := Value();
      NoRows(t, extensions);
      for left := 0 to EXTENSIONS
        invariant Valid() && Value() == CountPairs(t, extensions, left, EXTENSIONS)
      {
        NextRow(t, extensions, left);
        for right := 0 to EXTENSIONS
          invariant Valid() && Value() == CountPairs(t, extensions, left + 1, right)
        {
          NextCell(t, extensions, left, right);
          if left < right && left in extensions && right in extensions {
            pairTotals := Bump(pairTotals, PairIndex(left, right));
            pairs := pairs + 1;
          }
        }
      }
    }
  }
}
