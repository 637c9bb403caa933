// The recursive scan as a walk: the archives it visits, in order, and what the finished report
// counts over all of them.
module HogWalk {
  import opened Bytes
  import opened Options
  import opened Sums
  import opened Hog
  import opened NameTable
  import opened MemberNames
  import opened HogAggregate
  import opened HogScan
  import opened HogCells

  // One archive: its span in the file, its nesting depth, what its header says, and its directory.
  datatype Visit = Visit(span: Entry, depth: nat, payloadAt: nat, directory: Option<Directory>)

  ghost function VisitAt(file: seq<Byte>, span: Entry, depth: nat): Visit {
    Visit(span, depth, DataOffsetAt(file, span.offset), ParseHogSpan(file, span.offset, span.size))
  }

  // Preorder: an archive before the archives among its members, members in order.
  ghost function Walk(file: seq<Byte>, span: Entry, depth: nat, limits: Limits): (r: seq<Visit>)
    ensures r != [] && r[0] == VisitAt(file, span, depth)
    decreases Remaining(limits, depth), 0
  {
    var v := VisitAt(file, span, depth);
    if depth > limits.nestingDepth || v.directory.None? then [v]
    else
      var entries := v.directory.value.entries;
      if !NamesOk(entries, limits.nameBytes, |entries|) then [v]
      else [v] + WalkBelow(file, entries, |entries|, depth + 1, limits)
  }

  ghost function WalkBelow(file: seq<Byte>, entries: seq<Entry>, n: nat, depth: nat, limits: Limits): seq<Visit>
    requires n <= |entries| && NamesOk(entries, limits.nameBytes, |entries|)
    decreases Remaining(limits, depth), n + 1
  {
    if n == 0 then []
    else
      WalkBelow(file, entries, n - 1, depth, limits)
      + if ExtensionOf(Normals(entries, limits.nameBytes)[n - 1]) == Some(HOG_EXTENSION)
        then Walk(file, entries[n - 1], depth, limits) else []
  }

  // An archive within every capacity that concerns it alone.
  ghost predicate VisitOk(v: Visit, limits: Limits) {
    && v.depth <= limits.nestingDepth
    && v.span.size <= (if v.depth == 0 then limits.rootArchiveBytes else limits.nestedArchiveBytes)
    && v.directory.Some?
    && var d := v.directory.value;
    && |d.entries| <= limits.entriesPerDirectory && v.payloadAt <= limits.directoryBytes
    && (forall i | 0 <= i < |d.entries| :: |d.entries[i].name| <= limits.nameBytes)
    && (v.depth == 0 ==> d.paddingSize == 0)
    && NamesOk(d.entries, limits.nameBytes, |d.entries|)
  }

  // What an archive adds to the four totals that are limited over the whole scan.
  function EntryCount(v: Visit): nat { if v.directory.Some? then |v.directory.value.entries| else 0 }

  function NameTableSize(v: Visit): nat {
    var namesAt := 0x14 + 4 * (EntryCount(v) + 1);
    if v.payloadAt < namesAt then 0 else v.payloadAt - namesAt
  }

  function Sizes(vs: seq<Visit>): seq<nat> { seq(|vs|, i requires 0 <= i < |vs| => vs[i].span.size) }

  function EntryCounts(vs: seq<Visit>): seq<nat> { seq(|vs|, i requires 0 <= i < |vs| => EntryCount(vs[i])) }

  function NameTableSizes(vs: seq<Visit>): seq<nat> { seq(|vs|, i requires 0 <= i < |vs| => NameTableSize(vs[i])) }

  function Total(b: Budget, vs: seq<Visit>): Budget {
    Budget(b.archives + |vs|, b.entries + Sum(EntryCounts(vs)), b.nameTable + Sum(NameTableSizes(vs)),
           b.traversed + Sum(Sizes(vs)))
  }

  // ---------- one archive after the other ----------

  // The totals after some archives, each counted from its own directory.
  ghost function CountVisits(t: Totals, vs: seq<Visit>, limits: Limits): (r: Totals)
    requires ValidLimits(limits) && Shape(t) && forall i | 0 <= i < |vs| :: VisitOk(vs[i], limits)
    ensures Shape(r)
  {
    if vs == [] then t
    else
      var v := vs[|vs| - 1];
      assert VisitOk(v, limits);
      CountDirectory(CountVisits(t, vs[..|vs| - 1], limits), v.directory.value, v.depth, limits.nameBytes)
  }

  // All archives within their own capacities and all totals within the shared ones.
  ghost predicate WalkOk(b: Budget, vs: seq<Visit>, limits: Limits) {
    (forall i | 0 <= i < |vs| :: VisitOk(vs[i], limits)) && Within(Total(b, vs), limits)
  }

  ghost function After(st: State, vs: seq<Visit>, limits: Limits): Option<State>
    requires ValidLimits(limits) && Shape(st.totals)
  {
    if WalkOk(st.budget, vs, limits) then Some(State(Total(st.budget, vs), CountVisits(st.totals, vs, limits)))
    else None
  }

  lemma SumsSplit(a: seq<Visit>, b: seq<Visit>)
    ensures Sum(EntryCounts(a + b)) == Sum(EntryCounts(a)) + Sum(EntryCounts(b))
    ensures Sum(NameTableSizes(a + b)) == Sum(NameTableSizes(a)) + Sum(NameTableSizes(b))
    ensures Sum(Sizes(a + b)) == Sum(Sizes(a)) + Sum(Sizes(b))
  {
    hide Sum, EntryCount, NameTableSize;
    assert EntryCounts(a + b) == EntryCounts(a) + EntryCounts(b);
    assert NameTableSizes(a + b) == NameTableSizes(a) + NameTableSizes(b);
    assert Sizes(a + b) == Sizes(a) + Sizes(b);
    SumAppend(EntryCounts(a), EntryCounts(b));
    SumAppend(NameTableSizes(a), NameTableSizes(b));
    SumAppend(Sizes(a), Sizes(b));
  }

  lemma TotalSplit(base: Budget, a: seq<Visit>, b: seq<Visit>, limits: Limits)
    ensures Total(base, a + b) == Total(Total(base, a), b)
    ensures Within(Total(base, a + b), limits) ==> Within(Total(base, a), limits)
  {
    hide Sum, EntryCounts, NameTableSizes, Sizes;
    SumsSplit(a, b);
  }

  lemma {:induction false} CountSplit(t: Totals, a: seq<Visit>, b: seq<Visit>, limits: Limits)
    requires ValidLimits(limits) && Shape(t) && (forall i | 0 <= i < |a + b| :: VisitOk((a + b)[i], limits))
    ensures (forall i | 0 <= i < |a| :: VisitOk(a[i], limits)) && (forall i | 0 <= i < |b| :: VisitOk(b[i], limits))
    ensures CountVisits(t, a + b, limits) == CountVisits(CountVisits(t, a, limits), b, limits)
    decreases |b|
  {
    hide VisitOk, Shape, CountDirectory;
    forall i | 0 <= i < |a| ensures VisitOk(a[i], limits) { assert (a + b)[i] == a[i]; }
    forall i | 0 <= i < |b| ensures VisitOk(b[i], limits) { assert (a + b)[|a| + i] == b[i]; }
    if b == [] {
      assert a + b == a;
    } else {
      var n := |b| - 1;
      assert (a + b)[..|a + b| - 1] == a + b[..n];
      CountSplit(t, a, b[..n], limits);
    }
  }

  lemma NoVisits(st: State, limits: Limits)
    requires ValidLimits(limits) && Shape(st.totals) && Within(st.budget, limits)
    ensures After(st, [], limits) == Some(st)
  {
    hide Shape, Within;
    assert EntryCounts([]) == [] && NameTableSizes([]) == [] && Sizes([]) == [];
  }

  // One part of the walk after the other.
  lemma AfterSplit(st: State, a: seq<Visit>, b: seq<Visit>, limits: Limits)
    requires ValidLimits(limits) && Shape(st.totals)
    ensures After(st, a + b, limits) ==
      match After(st, a, limits)
      case None => None
      case Some(mid) => After(mid, b, limits)
  {
    hide VisitOk, Shape, Total, CountVisits, Within;
    TotalSplit(st.budget, a, b, limits);
    if WalkOk(st.budget, a + b, limits) {
      CountSplit(st.totals, a, b, limits);
    } else if After(st, a, limits).Some? && WalkOk(Total(st.budget, a), b, limits) {
      forall i | 0 <= i < |a + b| ensures VisitOk((a + b)[i], limits) {
        assert (a + b)[i] == if i < |a| then a[i] else b[i - |a|];
      }
      assert false;
    }
  }

  // The archive's own directory.
  lemma DirectoryIsVisit(file: seq<Byte>, span: Entry, depth: nat, limits: Limits, st: State)
    requires ValidLimits(limits) && Shape(st.totals)
    ensures match AfterDirectory(file, span, depth, limits, st)
      case Some(p) =>
        && After(st, [VisitAt(file, span, depth)], limits) == Some(p.1)
        && ParseHogSpan(file, span.offset, span.size).Some?
        && p.0 == ParseHogSpan(file, span.offset, span.size).value.entries
        && depth <= limits.nestingDepth && Within(p.1.budget, limits)
      case None => After(st, [VisitAt(file, span, depth)], limits) == None
  {
    hide ParseHogSpan, NamesOk, Shape, CountDirectory, U32At, NamesFit, Total, CountVisits;
    var v := VisitAt(file, span, depth);
    OneVisit(st.budget, v);
    NamesFitAre(v, limits);
    if v.directory.Some? { ParsedHeader(file, span.offset, span.size); }
    var vs := [v];
    assert forall i | 0 <= i < |vs| :: vs[i] == v;
    assert vs[0] == v;
    if VisitOk(v, limits) { OneCounted(st.totals, v, limits); }
  }

  lemma OneCounted(t: Totals, v: Visit, limits: Limits)
    requires ValidLimits(limits) && Shape(t) && VisitOk(v, limits)
    ensures CountVisits(t, [v], limits) == CountDirectory(t, v.directory.value, v.depth, limits.nameBytes)
  {
    hide VisitOk, Shape, CountDirectory;
    var vs := [v];
    assert vs[..0] == [] && forall i | 0 <= i < |vs| :: vs[i] == v;
  }

  lemma OneVisit(b: Budget, v: Visit)
    ensures Total(b, [v]) ==
      Budget(b.archives + 1, b.entries + EntryCount(v), b.nameTable + NameTableSize(v), b.traversed + v.span.size)
  {
    hide EntryCount, NameTableSize;
    assert EntryCounts([v]) == [EntryCount(v)] && NameTableSizes([v]) == [NameTableSize(v)];
    assert Sizes([v]) == [v.span.size];
    SumOne(EntryCount(v));
    SumOne(NameTableSize(v));
    SumOne(v.span.size);
  }

  lemma SumOne(x: nat)
    ensures Sum([x]) == x
  {
    assert [x][..0] == [];
  }

  lemma NamesFitAre(v: Visit, limits: Limits)
    ensures v.directory.Some? ==>
      (NamesFit(NamesOf(v.directory.value), limits.nameBytes) <==>
       forall i | 0 <= i < |v.directory.value.entries| :: |v.directory.value.entries[i].name| <= limits.nameBytes)
  {
    if v.directory.Some? {
      var d := v.directory.value;
      assert forall i | 0 <= i < |d.entries| :: NamesOf(d)[i] == d.entries[i].name;
    }
  }

  // ---------- the scan is the walk ----------

  // A scan succeeds exactly when every archive of its walk, and their totals, are within the
  // capacities; then it charges and counts each archive of the walk once.
  lemma {:induction false} ScanIsWalk(file: seq<Byte>, span: Entry, depth: nat, limits: Limits, st: State)
    requires ValidLimits(limits) && Shape(st.totals)
    ensures Scanned(file, span, depth, limits, st) == After(st, Walk(file, span, depth, limits), limits)
    decreases Remaining(limits, depth), 0
  {
    hide AfterDirectory, NamesOk, Shape, After, Within, ParseHogSpan, WalkBelow, ScannedChildren;
    var v := VisitAt(file, span, depth);
    DirectoryIsVisit(file, span, depth, limits, st);
    match AfterDirectory(file, span, depth, limits, st) {
      case None =>
        assert Walk(file, span, depth, limits) == [v] + Walk(file, span, depth, limits)[1..];
        AfterSplit(st, [v], Walk(file, span, depth, limits)[1..], limits);
      case Some(p) =>
        var below := WalkBelow(file, p.0, |p.0|, depth + 1, limits);
        AfterSplit(st, [v], below, limits);
        BelowIsWalk(file, p.0, |p.0|, depth + 1, limits, p.1);
    }
  }

  lemma {:induction false} BelowIsWalk(file: seq<Byte>, entries: seq<Entry>, n: nat, depth: nat, limits: Limits,
      st: State)
    requires ValidLimits(limits) && Shape(st.totals) && Within(st.budget, limits)
    requires n <= |entries| && NamesOk(entries, limits.nameBytes, |entries|)
    ensures ScannedChildren(file, entries, n, depth, limits, st) ==
            After(st, WalkBelow(file, entries, n, depth, limits), limits)
    decreases Remaining(limits, depth), n + 1
  {
    hide Scanned, NamesOk, Shape, After, Within, Walk, MembersIn, Normals;
    if n == 0 {
      NoVisits(st, limits);
    } else {
      var k: nat := n - 1;
      BelowIsWalk(file, entries, k, depth, limits, st);
      ExtensionInList(entries, limits.nameBytes, k);
      var before := WalkBelow(file, entries, k, depth, limits);
      if ExtensionOf(Normals(entries, limits.nameBytes)[k]) == Some(HOG_EXTENSION) {
        AfterSplit(st, before, Walk(file, entries[k], depth, limits), limits);
        if mid: State :| After(st, before, limits) == Some(mid) {
          AfterShape(st, before, limits);
          ScanIsWalk(file, entries[k], depth, limits, mid);
        }
      } else {
        assert before + [] == before;
      }
    }
  }

  lemma AfterShape(st: State, vs: seq<Visit>, limits: Limits)
    requires ValidLimits(limits) && Shape(st.totals)
    ensures After(st, vs, limits).Some? ==> Shape(After(st, vs, limits).value.totals)
  {
    hide Shape, CountDirectory, Total, Within;
  }

  // The walks of the first n roots.
  ghost function WalkRoots(roots: seq<seq<Byte>>, n: nat, limits: Limits): seq<Visit>
    requires n <= |roots|
  {
    if n == 0 then []
    else
      var root := roots[n - 1];
      WalkRoots(roots, n - 1, limits) + Walk(root, Entry([], 0, |root|), 0, limits)
  }

  lemma {:induction false} RootsAreWalks(roots: seq<seq<Byte>>, n: nat, limits: Limits)
    requires ValidLimits(limits) && n <= |roots|
    ensures ScannedRoots(roots, n, limits) ==
            After(State(Budget(0, 0, 0, 0), Blank()), WalkRoots(roots, n, limits), limits)
  {
    hide Scanned, Shape, After, Walk, Blank;
    var start := State(Budget(0, 0, 0, 0), Blank());
    if n == 0 {
      NoVisits(start, limits);
    } else {
      var k: nat := n - 1;
      RootsAreWalks(roots, k, limits);
      var before := WalkRoots(roots, k, limits);
      AfterSplit(start, before, Walk(roots[k], RootSpan(roots[k]), 0, limits), limits);
      AfterShape(start, before, limits);
      if After(start, before, limits).Some? {
        ScanIsWalk(roots[k], RootSpan(roots[k]), 0, limits, After(start, before, limits).value);
      }
    }
  }

  // ---------- what the finished report counts ----------

  // The members of an archive, by approved extension and size.
  ghost function MembersOf(v: Visit, limits: Limits): seq<Member>
    requires VisitOk(v, limits)
  {
    MembersIn(v.directory.value.entries, limits.nameBytes)
  }

  // How often a condition holds of the members of all archives.
  ghost function Tally(vs: seq<Visit>, limits: Limits, f: Member -> bool): nat
    requires forall i | 0 <= i < |vs| :: VisitOk(vs[i], limits)
  {
    if vs == [] then 0
    else
      var v := vs[|vs| - 1];
      assert VisitOk(v, limits);
      Tally(vs[..|vs| - 1], limits, f) + |Those(MembersOf(v, limits), |MembersOf(v, limits)|, f)|
  }

  ghost function ArchivesWhere(vs: seq<Visit>, f: Visit -> bool): set<nat> { set i: nat | i < |vs| && f(vs[i]) }

  lemma ArchivesStep(vs: seq<Visit>, f: Visit -> bool)
    requires vs != []
    ensures |ArchivesWhere(vs, f)| == |ArchivesWhere(vs[..|vs| - 1], f)| + if f(vs[|vs| - 1]) then 1 else 0
  {
    var n: nat := |vs| - 1;
    assert ArchivesWhere(vs, f) == ArchivesWhere(vs[..n], f) + if f(vs[n]) then {n} else {};
  }

  // What one directory adds.
  lemma DirectoryCells(t: Totals, d: Directory, depth: nat, maximum: nat, x: nat, c: nat, b: nat, k: nat)
    requires Shape(t) && depth < DEPTHS && NamesOk(d.entries, maximum, |d.entries|)
    requires x < EXTENSIONS && c <= CATEGORIES && b < BUCKETS && k < DEPTHS
    ensures var (r, ms) := (CountDirectory(t, d, depth, maximum), MembersIn(d.entries, maximum));
      && r.extensionCounts[x] == t.extensionCounts[x] + |Those(ms, |ms|, (m: Member) => m.extension == Some(x))|
      && r.categoryCounts[c] == t.categoryCounts[c] + |Those(ms, |ms|, (m: Member) => InCategory(m, c))|
      && r.extentBuckets[b] == t.extentBuckets[b] + |Those(ms, |ms|, (m: Member) => SizeIn(m.size, b))|
      && r.categoryBuckets[c][b] ==
         t.categoryBuckets[c][b] + |Those(ms, |ms|, (m: Member) => InCategory(m, c) && SizeIn(m.size, b))|
      && r.depthCounts[k] == t.depthCounts[k] + (if depth == k then 1 else 0)
      && r.extentFamilies[0] == t.extentFamilies[0] + (if depth == 0 then 1 else 0)
      && r.extentFamilies[1] == t.extentFamilies[1] + (if depth > 0 && d.paddingSize == 0 then 1 else 0)
      && r.extentFamilies[2] == t.extentFamilies[2] + (if depth > 0 && d.paddingSize > 0 then 1 else 0)
  {
    hide CountMembers, CountGroups, Those, NamesOk, MembersIn;
    var start := CountArchive(t, depth, d.paddingSize > 0);
    var ms := MembersIn(d.entries, maximum);
    MembersCells(start, ms, |ms|, x, c, b);
    MembersKeepArchives(start, ms, |ms|);
    var counted := CountMembers(start, ms, |ms|);
    var sets := ExtensionSets(GroupsOf(TagsIn(d.entries, maximum), |d.entries|));
    GroupsOnlyPairs(counted, sets, |sets|);
  }

  lemma {:induction false} MembersKeepArchives(t: Totals, ms: seq<Member>, n: nat)
    requires Shape(t) && n <= |ms| && forall i | 0 <= i < |ms| :: KnownMember(ms[i])
    ensures CountMembers(t, ms, n).depthCounts == t.depthCounts
    ensures CountMembers(t, ms, n).extentFamilies == t.extentFamilies
  {
    hide Shape;
    if n > 0 { MembersKeepArchives(t, ms, n - 1); }
  }

  lemma {:induction false} PairsOnly(t: Totals, extensions: set<nat>, left: nat, right: nat)
    requires Shape(t) && left <= EXTENSIONS && right <= EXTENSIONS
    ensures OnlyPairs(t, CountPairs(t, extensions, left, right))
    decreases left, right
  {
    hide Shape, Bump, PairIndex;
    if left > 0 && right == 0 {
      PairsOnly(t, extensions, left - 1, EXTENSIONS);
    } else if left > 0 {
      PairsOnly(t, extensions, left, right - 1);
    }
  }

  lemma {:induction false} GroupsOnlyPairs(t: Totals, groups: seq<set<nat>>, n: nat)
    requires Shape(t) && n <= |groups|
    ensures OnlyPairs(t, CountGroups(t, groups, n))
  {
    hide Shape, CountPairs;
    if n > 0 {
      GroupsOnlyPairs(t, groups, n - 1);
      var u := CountGroups(t, groups, n - 1);
      Regrouped(u);
      PairsOnly(u.(groups := u.groups + 1), groups[n - 1], EXTENSIONS, EXTENSIONS);
    }
  }

  // The members by extension, category and size, over all archives of the walk.
  lemma {:induction false} MembersTallied(t: Totals, vs: seq<Visit>, limits: Limits, x: nat, c: nat, b: nat)
    requires ValidLimits(limits) && Shape(t) && (forall i | 0 <= i < |vs| :: VisitOk(vs[i], limits))
    requires x < EXTENSIONS && c <= CATEGORIES && b < BUCKETS
    ensures var r := CountVisits(t, vs, limits);
      && r.extensionCounts[x] == t.extensionCounts[x] + Tally(vs, limits, (m: Member) => m.extension == Some(x))
      && r.categoryCounts[c] == t.categoryCounts[c] + Tally(vs, limits, (m: Member) => InCategory(m, c))
      && r.extentBuckets[b] == t.extentBuckets[b] + Tally(vs, limits, (m: Member) => SizeIn(m.size, b))
      && r.categoryBuckets[c][b] ==
         t.categoryBuckets[c][b] + Tally(vs, limits, (m: Member) => InCategory(m, c) && SizeIn(m.size, b))
  {
    hide CountDirectory, Those, NamesOk, InCategory, SizeIn, Shape, MembersIn;
    if vs != [] {
      var init, v := vs[..|vs| - 1], vs[|vs| - 1];
      assert VisitOk(v, limits);
      MembersTallied(t, init, limits, x, c, b);
      DirectoryCells(CountVisits(t, init, limits), v.directory.value, v.depth, limits.nameBytes, x, c, b, 0);
    }
  }

  // The archives by depth and by family.
  lemma {:induction false} ArchivesTallied(t: Totals, vs: seq<Visit>, limits: Limits, k: nat)
    requires ValidLimits(limits) && Shape(t) && (forall i | 0 <= i < |vs| :: VisitOk(vs[i], limits)) && k < DEPTHS
    ensures var r := CountVisits(t, vs, limits);
      && r.depthCounts[k] == t.depthCounts[k] + |ArchivesWhere(vs, (v: Visit) => v.depth == k)|
      && r.extentFamilies[0] == t.extentFamilies[0] + |ArchivesWhere(vs, (v: Visit) => v.depth == 0)|
      && r.extentFamilies[1] == t.extentFamilies[1] + |ArchivesWhere(vs, (v: Visit) => v.depth > 0 && !Padded(v))|
      && r.extentFamilies[2] == t.extentFamilies[2] + |ArchivesWhere(vs, (v: Visit) => v.depth > 0 && Padded(v))|
  {
    hide CountDirectory, NamesOk, Shape, ArchivesWhere;
    if vs == [] {
      NoArchives((v: Visit) => v.depth == k);
      NoArchives((v: Visit) => v.depth == 0);
      NoArchives((v: Visit) => v.depth > 0 && !Padded(v));
      NoArchives((v: Visit) => v.depth > 0 && Padded(v));
    } else {
      var init, v := vs[..|vs| - 1], vs[|vs| - 1];
      assert VisitOk(v, limits);
      ArchivesTallied(t, init, limits, k);
      DirectoryCells(CountVisits(t, init, limits), v.directory.value, v.depth, limits.nameBytes, 0, 0, 0, k);
      ArchivesStep(vs, (v: Visit) => v.depth == k);
      ArchivesStep(vs, (v: Visit) => v.depth == 0);
      ArchivesStep(vs, (v: Visit) => v.depth > 0 && !Padded(v));
      ArchivesStep(vs, (v: Visit) => v.depth > 0 && Padded(v));
    }
  }

  predicate Padded(v: Visit) { v.directory.Some? && v.directory.value.paddingSize > 0 }

  lemma NoArchives(f: Visit -> bool)
    ensures ArchivesWhere([], f) == {}
  {
  }

  // The stems an archive shows with both extensions.
  ghost function StemsOf(v: Visit, limits: Limits, l: nat, r: nat): nat
    requires VisitOk(v, limits)
  {
    var entries := v.directory.value.entries;
    |StemsSeen(TagsIn(entries, limits.nameBytes), |entries|, l, r)|
  }

  ghost function StemTally(vs: seq<Visit>, limits: Limits, l: nat, r: nat): nat
    requires forall i | 0 <= i < |vs| :: VisitOk(vs[i], limits)
  {
    if vs == [] then 0
    else
      var v := vs[|vs| - 1];
      assert VisitOk(v, limits);
      StemTally(vs[..|vs| - 1], limits, l, r) + StemsOf(v, limits, l, r)
  }

  lemma {:induction false} PairsTallied(t: Totals, vs: seq<Visit>, limits: Limits, l: nat, r: nat)
    requires ValidLimits(limits) && Shape(t) && (forall i | 0 <= i < |vs| :: VisitOk(vs[i], limits))
    requires l < r < EXTENSIONS
    ensures CountVisits(t, vs, limits).pairTotals[PairIndex(l, r)] ==
            t.pairTotals[PairIndex(l, r)] + StemTally(vs, limits, l, r)
  {
    hide CountDirectory, NamesOk, Shape, StemsSeen, TagsIn;
    if vs != [] {
      var init, v := vs[..|vs| - 1], vs[|vs| - 1];
      assert VisitOk(v, limits);
      PairsTallied(t, init, limits, l, r);
      DirectoryCountsStems(CountVisits(t, init, limits), v.directory.value, v.depth, limits.nameBytes, l, r);
    }
  }

  // Fifteen extensions and as many categories, seven sizes, seventeen depths, three families, and a
  // cell for each pair of extensions.
  ghost predicate Sized(t: Totals) {
    && |t.extensionCounts| == |t.categoryCounts| == |t.categoryBuckets| == 15 && |t.extentBuckets| == 7
    && (forall c | 0 <= c < 15 :: |t.categoryBuckets[c]| == 7)
    && |t.depthCounts| == 17 && |t.extentFamilies| == 3 && |t.pairTotals| == 225
  }

  lemma ShapeSized(t: Totals)
    ensures Shape(t) <==> Sized(t)
  {
  }


  // The report of a scan: it exists exactly when the walk of all roots is within the capacities,
  // and each of its cells counts members, archives or stems of that walk.
  lemma ReportCounts(roots: seq<seq<Byte>>, limits: Limits, x: nat, c: nat, b: nat, k: nat, l: nat, r: nat)
    requires ValidLimits(limits) && x < EXTENSIONS && c <= CATEGORIES && b < BUCKETS && k < DEPTHS
    requires l < r < EXTENSIONS
    ensures ScannedRoots(roots, |roots|, limits).Some? <==>
            WalkOk(Budget(0, 0, 0, 0), WalkRoots(roots, |roots|, limits), limits)
    ensures ScannedRoots(roots, |roots|, limits).Some? ==>
      var (s, walk) := (ScannedRoots(roots, |roots|, limits).value, WalkRoots(roots, |roots|, limits));
      && s.budget == Total(Budget(0, 0, 0, 0), walk) && Sized(s.totals)
      && s.totals.extensionCounts[x] == Tally(walk, limits, (m: Member) => m.extension == Some(x))
      && s.totals.categoryCounts[c] == Tally(walk, limits, (m: Member) => InCategory(m, c))
      && s.totals.extentBuckets[b] == Tally(walk, limits, (m: Member) => SizeIn(m.size, b))
      && s.totals.categoryBuckets[c][b] == Tally(walk, limits, (m: Member) => InCategory(m, c) && SizeIn(m.size, b))
      && s.totals.depthCounts[k] == |ArchivesWhere(walk, (v: Visit) => v.depth == k)|
      && s.totals.extentFamilies[0] == |ArchivesWhere(walk, (v: Visit) => v.depth == 0)|
      && s.totals.extentFamilies[1] == |ArchivesWhere(walk, (v: Visit) => v.depth > 0 && !Padded(v))|
      && s.totals.extentFamilies[2] == |ArchivesWhere(walk, (v: Visit) => v.depth > 0 && Padded(v))|
      && s.totals.pairTotals[15 * l + r] == StemTally(walk, limits, l, r)
  {
    hide ScannedRoots, WalkRoots, CountVisits, Tally, StemTally, ArchivesWhere, Blank, VisitOk, Total, Within, Shape;
    RootsAreWalks(roots, |roots|, limits);
    if ScannedRoots(roots, |roots|, limits).Some? { ShapeSized(ScannedRoots(roots, |roots|, limits).value.totals); }
    var walk := WalkRoots(roots, |roots|, limits);
    if WalkOk(Budget(0, 0, 0, 0), walk, limits) {
      MembersTallied(Blank(), walk, limits, x, c, b);
      ArchivesTallied(Blank(), walk, limits, k);
      PairsTallied(Blank(), walk, limits, l, r);
      BlankCells(x, c, b, k, PairIndex(l, r));
    }
  }

  lemma BlankCells(x: nat, c: nat, b: nat, k: nat, q: nat)
    requires x < EXTENSIONS && c <= CATEGORIES && b < BUCKETS && k < DEPTHS && q < EXTENSIONS * EXTENSIONS
    ensures var t := Blank();
      && t.extensionCounts[x] == 0 && t.categoryCounts[c] == 0 && t.extentBuckets[b] == 0
      && t.categoryBuckets[c][b] == 0
      && t.depthCounts[k] == 0 && t.extentFamilies[0] == t.extentFamilies[1] == t.extentFamilies[2] == 0
      && t.pairTotals[q] == 0
  {
  }
}
