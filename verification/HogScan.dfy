// The recursive, budgeted HOG scan of tools/measure_frontend_hog_topology.py.
module HogScan {
  import opened Bytes
  import opened Hog
  import opened HogAggregate
  import opened MemberNames
  import opened NameTable
  import opened Options

  const MAXIMUM_REPORTED_DEPTH := 16

  datatype Limits = Limits(rootArchiveBytes: nat, nestedArchiveBytes: nat, directoryBytes: nat,
                           entriesPerDirectory: nat, archiveOccurrences: nat, hogEntries: nat,
                           nameTableBytes: nat, nameBytes: nat, traversedSpanBytes: nat, nestingDepth: nat)

  // The ceilings every configuration is held to.
  predicate ValidLimits(limits: Limits) {
    limits.nestingDepth <= MAXIMUM_REPORTED_DEPTH && limits.entriesPerDirectory <= MAXIMUM_ENTRIES
  }

  datatype Budget = Budget(archives: nat, entries: nat, nameTable: nat, traversed: nat)

  predicate Within(b: Budget, limits: Limits) {
    && b.archives <= limits.archiveOccurrences && b.entries <= limits.hogEntries
    && b.nameTable <= limits.nameTableBytes && b.traversed <= limits.traversedSpanBytes
  }

  class ScanBudget {
    const limits: Limits
    var archiveOccurrences: nat
    var hogEntries: nat
    var nameTableBytes: nat
    var traversedSpanBytes: nat

    ghost function Value(): Budget reads this {
      Budget(archiveOccurrences, hogEntries, nameTableBytes, traversedSpanBytes)
    }

    ghost predicate Valid() reads this { Within(Value(), limits) }

    constructor (limits: Limits)
      ensures Valid() && this.limits == limits && Value() == Budget(0, 0, 0, 0)
    {
      this.limits := limits;
      archiveOccurrences, hogEntries, nameTableBytes, traversedSpanBytes := 0, 0, 0, 0;
    }

    // One field of the budget: the new value, unless it would pass the maximum.
    static method Add(current: nat, count: nat, maximum: nat) returns (ok: bool, next: nat)
      requires current <= maximum
      ensures ok <==> current + count <= maximum
      ensures next == if ok then current + count else current
    {
      ok := count <= maximum - current;
      next := if ok then current + count else current;
    }

    // The charges for one archive, in order; the first that does not fit ends the scan.
    method Charge(count: nat, nameBytes: nat, spanSize: nat) returns (ok: bool)
      requires Valid()
      modifies this
      ensures Valid()
      ensures var next := Charged(old(Value()), count, nameBytes, spanSize);
        && (ok <==> Within(next, limits)) && (ok ==> Value() == next)
    {
      ok, archiveOccurrences := Add(archiveOccurrences, 1, limits.archiveOccurrences);
      if !ok { return false; }
      ok, hogEntries := Add(hogEntries, count, limits.hogEntries);
      if !ok { return false; }
      ok, nameTableBytes := Add(nameTableBytes, nameBytes, limits.nameTableBytes);
      if !ok { return false; }
      ok, traversedSpanBytes := Add(traversedSpanBytes, spanSize, limits.traversedSpanBytes);
    }
  }

  function Charged(b: Budget, count: nat, nameBytes: nat, spanSize: nat): Budget {
    Budget(b.archives + 1, b.entries + count, b.nameTable + nameBytes, b.traversed + spanSize)
  }

  // ---------- one bounded directory ----------

  function NamesOf(d: Directory): seq<seq<Byte>> {
    seq(|d.entries|, i requires 0 <= i < |d.entries| => d.entries[i].name)
  }

  function SizeCap(limits: Limits, depth: nat): nat {
    if depth == 0 then limits.rootArchiveBytes else limits.nestedArchiveBytes
  }

  // The span parses, and everything it needs is within the caller's capacities.
  ghost function BoundedDirectory(file: seq<Byte>, span: Entry, depth: nat, limits: Limits, b: Budget):
      (r: Option<(Directory, Budget)>)
    ensures r.Some? ==> depth <= limits.nestingDepth && Within(r.value.1, limits)
  {
    match ParseHogSpan(file, span.offset, span.size)
    case None => None
    case Some(d) =>
      var n, dataOffset := |d.entries|, DataOffsetAt(file, span.offset);
      var namesOffset := OFFSETS_OFFSET + 4 * (n + 1);
      var next := Charged(b, n, dataOffset - namesOffset, span.size);
      if depth > limits.nestingDepth || span.size > SizeCap(limits, depth) then None
      else if n > limits.entriesPerDirectory || dataOffset > limits.directoryBytes then None
      else if !Within(next, limits) || !NamesFit(NamesOf(d), limits.nameBytes) then None
      else if depth == 0 && d.paddingSize > 0 then None
      else Some((d, next))
  }

  function DataOffsetAt(file: seq<Byte>, base: nat): nat {
    if base + 20 <= |file| then U32At(file, base + 16) else 0
  }

  // What acceptance by the span parser says about the header and the name table.
  lemma ParsedHeader(file: seq<Byte>, base: nat, spanSize: nat)
    requires ParseHogSpan(file, base, spanSize).Some?
    ensures var d := ParseHogSpan(file, base, spanSize).value;
      var namesOffset := OFFSETS_OFFSET + 4 * (|d.entries| + 1);
      && spanSize >= 24 && base + 20 <= |file|
      && U32At(file, base + 4) == |d.entries| && U32At(file, base + 8) == OFFSETS_OFFSET
      && U32At(file, base + 12) == namesOffset <= U32At(file, base + 16) <= spanSize
      && base + U32At(file, base + 16) <= |file|
      && NamesOf(d) == Names(file[base + namesOffset..base + U32At(file, base + 16)])
  {
    hide U32At, Words, RangeZero, MonotoneFromZero, Names, AllAscii;
  }

  method BoundedHog(file: seq<Byte>, span: Entry, depth: nat, budget: ScanBudget) returns (r: Option<Directory>)
    requires budget.Valid() && ValidLimits(budget.limits)
    modifies budget
    ensures budget.Valid()
    ensures match BoundedDirectory(file, span, depth, budget.limits, old(budget.Value()))
      case Some(p) => r == Some(p.0) && budget.Value() == p.1
      case None => r == None
  {
    hide ParseHogSpan, Names, U32At, RangeZero;
    var limits, base := budget.limits, span.offset;
    if ParseHogSpan(file, base, span.size).Some? {
      ParsedHeader(file, base, span.size);
    }
    if depth > limits.nestingDepth || span.size > SizeCap(limits, depth) || span.size < 24 { return None; }
    if base + 20 > |file| { return None; }
    var count, offsetsOffset := U32At(file, base + 4), U32At(file, base + 8);
    var namesOffset, dataOffset := U32At(file, base + 12), U32At(file, base + 16);
    if count > limits.entriesPerDirectory { return None; }
    if offsetsOffset != OFFSETS_OFFSET || namesOffset != offsetsOffset + 4 * (count + 1) { return None; }
    if !(namesOffset <= dataOffset <= span.size) || dataOffset > limits.directoryBytes { return None; }
    var nameBytes := dataOffset - namesOffset;
    var charged := budget.Charge(count, nameBytes, span.size);
    if !charged { return None; }
    var shape := PrecheckNameTableShape(file, base + namesOffset, nameBytes, count, limits.nameBytes, 0x1_0000);
    if !shape { return None; }
    var directory := ParseHogSpan(file, base, span.size);
    if directory.None? || (depth == 0 && directory.value.paddingSize > 0) { return None; }
    r := directory;
  }

  // ---------- the members of a directory ----------

  // .col .gui .hog .ie .pop .ska .skas .skl .skm .so .tbl .tdx .txt .vag .vum
  const VOCABULARY: seq<Text> :=
    [[46, 99, 111, 108], [46, 103, 117, 105], [46, 104, 111, 103], [46, 105, 101], [46, 112, 111, 112],
     [46, 115, 107, 97], [46, 115, 107, 97, 115], [46, 115, 107, 108], [46, 115, 107, 109], [46, 115, 111],
     [46, 116, 98, 108], [46, 116, 100, 120], [46, 116, 120, 116], [46, 118, 97, 103], [46, 118, 117, 109]]

  function IndexOf(list: seq<Text>, x: Text): (r: Option<nat>)
    ensures r.Some? ==> r.value < |list| && list[r.value] == x
    ensures r.None? ==> x !in list
  {
    if list == [] then None
    else
      var n := |list| - 1;
      if list[n] == x then Some(n)
      else
        assert list == list[..n] + [list[n]];
        IndexOf(list[..n], x)
  }

  // The approved extension of a normalised name.
  function ExtensionOf(normalized: Text): (r: Option<nat>)
    ensures r.Some? ==> r.value < EXTENSIONS
  {
    match ExtensionAndStem(normalized)
    case None => None
    case Some(suffix) => IndexOf(VOCABULARY, suffix.extension)
  }

  function StemOf(normalized: Text): Text {
    match ExtensionAndStem(normalized)
    case None => []
    case Some(suffix) => suffix.stem
  }

  function MemberFrom(normalized: Text, size: nat): (m: Member)
    ensures KnownMember(m)
  {
    Member(ExtensionOf(normalized), size)
  }

  // Every name normalises, and no two names collide.
  ghost predicate NamesOk(entries: seq<Entry>, maximum: nat, n: nat)
    requires n <= |entries|
  {
    && (forall i: nat | i < n :: Normalize(entries[i].name, maximum).Some?)
    && (forall i: nat, j: nat | i < j < n :: Normalize(entries[i].name, maximum) != Normalize(entries[j].name, maximum))
  }

  ghost function Normals(entries: seq<Entry>, maximum: nat): (r: seq<Text>)
    requires NamesOk(entries, maximum, |entries|)
    ensures |r| == |entries|
  {
    seq(|entries|, i requires 0 <= i < |entries| => Normalize(entries[i].name, maximum).value)
  }

  ghost function MembersIn(entries: seq<Entry>, maximum: nat): (r: seq<Member>)
    requires NamesOk(entries, maximum, |entries|)
    ensures |r| == |entries| && forall i | 0 <= i < |r| :: KnownMember(r[i])
  {
    seq(|entries|, i requires 0 <= i < |entries| => MemberFrom(Normals(entries, maximum)[i], entries[i].size))
  }

  ghost function TagsIn(entries: seq<Entry>, maximum: nat): (r: seq<Tagged>)
    requires NamesOk(entries, maximum, |entries|)
    ensures |r| == |entries|
  {
    seq(|entries|, i requires 0 <= i < |entries| =>
      Tagged(ExtensionOf(Normals(entries, maximum)[i]), StemOf(Normals(entries, maximum)[i])))
  }

  function ExtensionSets(groups: seq<Group>): (r: seq<set<nat>>)
    ensures |r| == |groups|
  {
    seq(|groups|, i requires 0 <= i < |groups| => groups[i].extensions)
  }

  // ---------- the scan as a function ----------

  datatype State = State(budget: Budget, totals: Totals)

  // One directory's archive, members and groups.
  ghost function CountDirectory(t: Totals, d: Directory, depth: nat, maximum: nat): (r: Totals)
    requires Shape(t) && depth < DEPTHS && NamesOk(d.entries, maximum, |d.entries|)
    ensures Shape(r)
  {
    var members := CountMembers(CountArchive(t, depth, d.paddingSize > 0), MembersIn(d.entries, maximum), |d.entries|);
    var sets := ExtensionSets(GroupsOf(TagsIn(d.entries, maximum), |d.entries|));
    CountGroups(members, sets, |sets|)
  }

  lemma {:induction false} MembersKeepPairs(t: Totals, ms: seq<Member>, n: nat)
    requires Shape(t) && n <= |ms| && forall i | 0 <= i < |ms| :: KnownMember(ms[i])
    ensures CountMembers(t, ms, n).pairTotals == t.pairTotals
  {
    hide Shape;
    if n > 0 {
      MembersKeepPairs(t, ms, n - 1);
    }
  }

  lemma {:induction false} GroupsCountStems(t: Totals, groups: seq<Group>, k: nat, l: nat, r: nat)
    requires Shape(t) && StemsDistinct(groups) && k <= |groups| && l < r < EXTENSIONS
    ensures CountGroups(t, ExtensionSets(groups), k).pairTotals[PairIndex(l, r)] ==
            t.pairTotals[PairIndex(l, r)] + |StemsOfGroups(groups, k, l, r)|
  {
    hide CountGroup, StemsDistinct;
    if k == 0 {
      assert StemsOfGroups(groups, 0, l, r) == {};
    } else {
      GroupsCountStems(t, groups, k - 1, l, r);
      GroupCountsPairs(CountGroups(t, ExtensionSets(groups), k - 1), groups[k - 1].extensions, l, r);
      StemsOfGroupsStep(groups, k - 1, l, r);
    }
  }

  // A directory adds to the cell of a pair of extensions the number of stems its members show
  // with both.
  lemma DirectoryCountsStems(t: Totals, d: Directory, depth: nat, maximum: nat, l: nat, r: nat)
    requires Shape(t) && depth < DEPTHS && NamesOk(d.entries, maximum, |d.entries|) && l < r < EXTENSIONS
    ensures CountDirectory(t, d, depth, maximum).pairTotals[PairIndex(l, r)] ==
            t.pairTotals[PairIndex(l, r)] + |StemsSeen(TagsIn(d.entries, maximum), |d.entries|, l, r)|
  {
    hide CountMembers, CountGroups, NamesOk, MembersIn, TagsIn, StemsSeen, StemsOfGroups, StemsDistinct;
    var tags := TagsIn(d.entries, maximum);
    var groups := GroupsOf(tags, |d.entries|);
    var start := CountArchive(t, depth, d.paddingSize > 0);
    MembersKeepPairs(start, MembersIn(d.entries, maximum), |d.entries|);
    OneGroupPerStem(tags, |d.entries|);
    GroupsCountStems(CountMembers(start, MembersIn(d.entries, maximum), |d.entries|), groups, |groups|, l, r);
    GroupsStandForStems(tags, |d.entries|, l, r);
  }

  function Remaining(limits: Limits, depth: nat): nat {
    if depth <= limits.nestingDepth then limits.nestingDepth + 1 - depth else 0
  }

  // The state after the archive's own directory: charged and counted.
  ghost function AfterDirectory(file: seq<Byte>, span: Entry, depth: nat, limits: Limits, st: State):
      (r: Option<(seq<Entry>, State)>)
    requires ValidLimits(limits) && Shape(st.totals)
    ensures r.Some? ==>
      Shape(r.value.1.totals) && depth <= limits.nestingDepth && NamesOk(r.value.0, limits.nameBytes, |r.value.0|)
  {
    hide BoundedDirectory, CountDirectory, NamesOk, Shape;
    match BoundedDirectory(file, span, depth, limits, st.budget)
    case None => None
    case Some(p) =>
      if !NamesOk(p.0.entries, limits.nameBytes, |p.0.entries|) then None
      else Some((p.0.entries, State(p.1, CountDirectory(st.totals, p.0, depth, limits.nameBytes))))
  }

  ghost function Scanned(file: seq<Byte>, span: Entry, depth: nat, limits: Limits, st: State): (r: Option<State>)
    requires ValidLimits(limits) && Shape(st.totals)
    ensures r.Some? ==> Shape(r.value.totals)
    decreases Remaining(limits, depth), 0
  {
    hide AfterDirectory, NamesOk, Shape;
    match AfterDirectory(file, span, depth, limits, st)
    case None => None
    case Some(p) => ScannedChildren(file, p.0, |p.0|, depth + 1, limits, p.1)
  }

  // The nested archives among the first n entries, in order.
  ghost function ScannedChildren(file: seq<Byte>, entries: seq<Entry>, n: nat, depth: nat, limits: Limits, st: State):
      (r: Option<State>)
    requires ValidLimits(limits) && Shape(st.totals) && n <= |entries| && NamesOk(entries, limits.nameBytes, |entries|)
    ensures r.Some? ==> Shape(r.value.totals)
    decreases Remaining(limits, depth), n + 1
  {
    if n == 0 then Some(st)
    else
      match ScannedChildren(file, entries, n - 1, depth, limits, st)
      case None => None
      case Some(before) =>
        if MembersIn(entries, limits.nameBytes)[n - 1].extension == Some(HOG_EXTENSION)
        then Scanned(file, entries[n - 1], depth, limits, before) else Some(before)
  }

  // ---------- what every scan conserves ----------

  // Between two states: the budget's counts and the report's agree, every counted .hog member
  // was scanned, and only the archive at the given depth is not a counted member.
  ghost predicate Advanced(s: State, r: State, limits: Limits, archives: nat, hogs: nat, nested: nat)
    requires Shape(s.totals)
  {
    && Conserved(r.totals) && Within(r.budget, limits)
    && r.budget.archives == s.budget.archives + archives && r.totals.archives == s.totals.archives + archives
    && r.budget.entries + s.totals.members == s.budget.entries + r.totals.members
    && r.totals.extensionCounts[HOG_EXTENSION] == s.totals.extensionCounts[HOG_EXTENSION] + hogs
    && r.totals.nested == s.totals.nested + nested
  }

  lemma DirectoryConserves(t: Totals, d: Directory, depth: nat, maximum: nat)
    requires Conserved(t) && depth < DEPTHS && NamesOk(d.entries, maximum, |d.entries|)
    ensures var r := CountDirectory(t, d, depth, maximum);
      && Conserved(r) && r.archives == t.archives + 1 && r.members == t.members + |d.entries|
      && r.nested == t.nested + (if depth == 0 then 0 else 1)
      && r.extensionCounts[HOG_EXTENSION] ==
         t.extensionCounts[HOG_EXTENSION] + HogMembers(MembersIn(d.entries, maximum), |d.entries|)
  {
    hide MemberSums, ArchiveSums, CountMembers, CountGroups, MembersIn, TagsIn;
    ArchiveConserves(t, depth, d.paddingSize > 0);
    MembersConserve(CountArchive(t, depth, d.paddingSize > 0), MembersIn(d.entries, maximum), |d.entries|);
    var sets := ExtensionSets(GroupsOf(TagsIn(d.entries, maximum), |d.entries|));
    GroupsConserve(CountMembers(CountArchive(t, depth, d.paddingSize > 0), MembersIn(d.entries, maximum), |d.entries|),
                   sets, |sets|);
  }

  // A finished scan of an archive counted one archive more than .hog members, all of it nested
  // but a root, and its members are the entries it was charged for.
  lemma {:induction false} ScanConserves(file: seq<Byte>, span: Entry, depth: nat, limits: Limits, st: State)
      returns (archives: nat)
    requires ValidLimits(limits) && Conserved(st.totals)
    ensures var r := Scanned(file, span, depth, limits, st);
      r.Some? ==>
        && archives > 0
        && Advanced(st, r.value, limits, archives, archives - 1, if depth == 0 then archives - 1 else archives)
    decreases Remaining(limits, depth), 0
  {
    hide MemberSums, ArchiveSums, BoundedDirectory, CountDirectory, ScannedChildren, NamesOk, Within, MembersIn,
         HogMembers;
    archives := 1;
    var r := Scanned(file, span, depth, limits, st);
    if r.Some? {
      var p := BoundedDirectory(file, span, depth, limits, st.budget).value;
      BoundedFacts(file, span, depth, limits, st.budget);
      var d := p.0;
      var mid := State(p.1, CountDirectory(st.totals, d, depth, limits.nameBytes));
      DirectoryConserves(st.totals, d, depth, limits.nameBytes);
      var below := ChildrenConserve(file, d.entries, |d.entries|, depth + 1, limits, mid);
      archives := 1 + below;
    }
  }

  lemma BoundedFacts(file: seq<Byte>, span: Entry, depth: nat, limits: Limits, b: Budget)
    requires BoundedDirectory(file, span, depth, limits, b).Some?
    ensures var p := BoundedDirectory(file, span, depth, limits, b).value;
      && Within(p.1, limits) && depth <= limits.nestingDepth
      && p.1.archives == b.archives + 1 && p.1.entries == b.entries + |p.0.entries|
  {
    hide ParseHogSpan;
    assert Within(BoundedDirectory(file, span, depth, limits, b).value.1, limits);
  }

  lemma {:induction false} ChildrenConserve(file: seq<Byte>, entries: seq<Entry>, n: nat, depth: nat, limits: Limits,
                                            st: State)
      returns (archives: nat)
    requires ValidLimits(limits) && Conserved(st.totals) && Within(st.budget, limits) && depth > 0
    requires n <= |entries| && NamesOk(entries, limits.nameBytes, |entries|)
    ensures var r := ScannedChildren(file, entries, n, depth, limits, st);
      r.Some? ==>
        && archives >= HogMembers(MembersIn(entries, limits.nameBytes), n)
        && Advanced(st, r.value, limits, archives,
                    archives - HogMembers(MembersIn(entries, limits.nameBytes), n), archives)
    decreases Remaining(limits, depth), n + 1
  {
    hide MemberSums, ArchiveSums, MembersIn, Scanned;
    archives := 0;
    if n > 0 && ScannedChildren(file, entries, n, depth, limits, st).Some? {
      var members := MembersIn(entries, limits.nameBytes);
      archives := ChildrenConserve(file, entries, n - 1, depth, limits, st);
      if members[n - 1].extension == Some(HOG_EXTENSION) {
        var before := ScannedChildren(file, entries, n - 1, depth, limits, st).value;
        var below := ScanConserves(file, entries[n - 1], depth, limits, before);
        archives := archives + below;
      }
    }
  }

  // ---------- the scan as it runs ----------

  // What the first n entries normalise to.
  ghost predicate NormalsSoFar(entries: seq<Entry>, maximum: nat, n: nat, normals: seq<Text>, seen: set<Text>)
    requires n <= |entries|
  {
    && |normals| == n && (forall i: nat | i < n :: Normalize(entries[i].name, maximum) == Some(normals[i]))
    && (forall x :: x in seen <==> x in normals)
    && (forall i, j | 0 <= i < j < n :: normals[i] != normals[j])
  }

  ghost predicate ListsSoFar(entries: seq<Entry>, n: nat, normals: seq<Text>, ms: seq<Member>, tags: seq<Tagged>)
    requires n <= |entries|
  {
    && |normals| == |ms| == |tags| == n
    && (forall i | 0 <= i < n :: ms[i] == MemberFrom(normals[i], entries[i].size))
    && (forall i | 0 <= i < n :: tags[i] == Tagged(ExtensionOf(normals[i]), StemOf(normals[i])))
  }

  lemma BadName(entries: seq<Entry>, maximum: nat, n: nat, normals: seq<Text>, seen: set<Text>)
    requires n < |entries| && NormalsSoFar(entries, maximum, n, normals, seen)
    requires Normalize(entries[n].name, maximum).None? || Normalize(entries[n].name, maximum).value in seen
    ensures !NamesOk(entries, maximum, |entries|)
  {
    hide Normalize;
    if Normalize(entries[n].name, maximum).Some? {
      var x := Normalize(entries[n].name, maximum).value;
      var i :| 0 <= i < n && normals[i] == x;
      assert Normalize(entries[i].name, maximum) == Normalize(entries[n].name, maximum);
    }
  }

  lemma GoodName(entries: seq<Entry>, maximum: nat, n: nat, normals: seq<Text>, seen: set<Text>, x: Text)
    requires n < |entries| && NormalsSoFar(entries, maximum, n, normals, seen)
    requires Normalize(entries[n].name, maximum) == Some(x) && x !in seen
    ensures NormalsSoFar(entries, maximum, n + 1, normals + [x], seen + {x})
  {
    hide Normalize;
  }

  lemma AllNamesGood(entries: seq<Entry>, maximum: nat, normals: seq<Text>, seen: set<Text>, ms: seq<Member>,
                     tags: seq<Tagged>)
    requires NormalsSoFar(entries, maximum, |entries|, normals, seen)
    requires ListsSoFar(entries, |entries|, normals, ms, tags)
    ensures NamesOk(entries, maximum, |entries|)
    ensures Normals(entries, maximum) == normals
    ensures MembersIn(entries, maximum) == ms && TagsIn(entries, maximum) == tags
  {
    hide Normalize, ExtensionOf, StemOf, MemberFrom;
  }

  // The loop over the entries of a directory.
  method CountEntries(entries: seq<Entry>, maximum: nat, aggregate: Aggregate)
      returns (r: Option<seq<Text>>, groups: seq<Group>)
    requires aggregate.Valid()
    modifies aggregate
    ensures aggregate.Valid()
    ensures r.Some? <==> NamesOk(entries, maximum, |entries|)
    ensures r.Some? ==>
      && r.value == Normals(entries, maximum) && groups == GroupsOf(TagsIn(entries, maximum), |entries|)
      && aggregate.Value() == CountMembers(old(aggregate.Value()), MembersIn(entries, maximum), |entries|)
  {
    hide Normalize, ExtensionOf, StemOf, NormalsSoFar, ListsSoFar, NamesOk, CountMember, AddToGroup, Shape;
    ghost var t := aggregate.Value();
    var normals: seq<Text>, seen: set<Text> := [], {};
    groups := [];
    ghost var ms: seq<Member>, tags: seq<Tagged> := [], [];
    StartEntries(entries, maximum);
    for i := 0 to |entries|
      invariant aggregate.Valid() && NormalsSoFar(entries, maximum, i, normals, seen)
      invariant ListsSoFar(entries, i, normals, ms, tags) && |ms| == i && |tags| == i
      invariant forall k | 0 <= k < |ms| :: KnownMember(ms[k])
      invariant aggregate.Value() == CountMembers(t, ms, i) && groups == GroupsOf(tags, i)
    {
      var normalized := Normalize(entries[i].name, maximum);
      if normalized.None? || normalized.value in seen {
        BadName(entries, maximum, i, normals, seen);
        return None, groups;
      }
      GoodName(entries, maximum, i, normals, seen, normalized.value);
      var member := MemberFrom(normalized.value, entries[i].size);
      ghost var tag := Tagged(ExtensionOf(normalized.value), StemOf(normalized.value));
      ListsGrow(entries, i, normals, ms, tags, normalized.value, member, tag);
      MembersPrefix(t, ms, [member], i);
      GroupsPrefix(tags, [tag], i);
      ms, tags := ms + [member], tags + [tag];
      normals, seen := normals + [normalized.value], seen + {normalized.value};
      aggregate.AddMember(member);
      if member.extension.Some? {
        groups := AddToGroup(groups, StemOf(normalized.value), member.extension.value);
      }
    }
    AllNamesGood(entries, maximum, normals, seen, ms, tags);
    r := Some(normals);
  }

  lemma StartEntries(entries: seq<Entry>, maximum: nat)
    ensures NormalsSoFar(entries, maximum, 0, [], {}) && ListsSoFar(entries, 0, [], [], [])
  {
  }

  lemma ListsGrow(entries: seq<Entry>, n: nat, normals: seq<Text>, ms: seq<Member>, tags: seq<Tagged>,
                  x: Text, m: Member, tag: Tagged)
    requires n < |entries| && ListsSoFar(entries, n, normals, ms, tags)
    requires m == MemberFrom(x, entries[n].size) && tag == Tagged(ExtensionOf(x), StemOf(x))
    ensures ListsSoFar(entries, n + 1, normals + [x], ms + [m], tags + [tag])
  {
    hide ExtensionOf, StemOf, MemberFrom;
  }

  method CountGroupsOf(groups: seq<Group>, aggregate: Aggregate)
    requires aggregate.Valid()
    modifies aggregate
    ensures aggregate.Valid()
    ensures aggregate.Value() == CountGroups(old(aggregate.Value()), ExtensionSets(groups), |groups|)
  {
    hide CountGroup, Shape;
    ghost var t := aggregate.Value();
    for i := 0 to |groups|
      invariant aggregate.Valid() && aggregate.Value() == CountGroups(t, ExtensionSets(groups), i)
    {
      aggregate.AddGroup(groups[i].extensions);
    }
  }

  // An archive's own directory: charged to the budget, and counted.
  method ScanDirectory(file: seq<Byte>, span: Entry, depth: nat, budget: ScanBudget, aggregate: Aggregate)
      returns (r: Option<(seq<Entry>, seq<Text>)>)
    requires budget.Valid() && ValidLimits(budget.limits) && aggregate.Valid()
    modifies budget, aggregate
    ensures budget.Valid() && aggregate.Valid()
    ensures match AfterDirectory(file, span, depth, budget.limits, old(State(budget.Value(), aggregate.Value())))
      case Some(p) => r == Some((p.0, Normals(p.0, budget.limits.nameBytes)))
                      && State(budget.Value(), aggregate.Value()) == p.1
      case None => r == None
  {
    hide BoundedDirectory, NamesOk, Normals, MembersIn, TagsIn, GroupsOf, CountArchive, CountMembers, CountGroups,
         ExtensionSets, Shape, Within;
    var directory := BoundedHog(file, span, depth, budget);
    if directory.None? { return None; }
    var d := directory.value;
    aggregate.AddArchive(depth, d.paddingSize > 0);
    var normals, groups := CountEntries(d.entries, budget.limits.nameBytes, aggregate);
    if normals.None? { return None; }
    CountGroupsOf(groups, aggregate);
    r := Some((d.entries, normals.value));
  }

  // The recursion stops at the depth bound, keeps every budget within its limit whether it
  // succeeds or not, and on success leaves the state the scan as a function computes.
  method ScanArchive(file: seq<Byte>, span: Entry, depth: nat, budget: ScanBudget, aggregate: Aggregate)
      returns (ok: bool)
    requires budget.Valid() && ValidLimits(budget.limits) && aggregate.Valid()
    modifies budget, aggregate
    ensures budget.Valid() && aggregate.Valid()
    ensures match Scanned(file, span, depth, budget.limits, old(State(budget.Value(), aggregate.Value())))
      case Some(s) => ok && State(budget.Value(), aggregate.Value()) == s
      case None => !ok
    decreases Remaining(budget.limits, depth)
  {
    hide AfterDirectory, NamesOk, Normals, MembersIn, Shape, Within, ScannedChildren;
    ghost var limits := budget.limits;
    var directory := ScanDirectory(file, span, depth, budget, aggregate);
    if directory.None? { return false; }
    var entries, normals := directory.value.0, directory.value.1;
    ghost var st := State(budget.Value(), aggregate.Value());
    NoChildren(file, entries, depth + 1, limits, st);
    var i := 0;
    while i < |entries|
      invariant i <= |entries| && budget.Valid() && aggregate.Valid()
      invariant ScannedChildren(file, entries, i, depth + 1, limits, st) ==
                Some(State(budget.Value(), aggregate.Value()))
    {
      NextChild(file, entries, i, depth + 1, limits, st);
      ExtensionInList(entries, limits.nameBytes, i);
      if ExtensionOf(normals[i]) == Some(HOG_EXTENSION) {
        ok := ScanArchive(file, entries[i], depth + 1, budget, aggregate);
        if !ok {
          ChildrenStop(file, entries, i + 1, |entries|, depth + 1, limits, st);
          return false;
        }
      }
      i := i + 1;
    }
    ok := true;
  }

  lemma NoChildren(file: seq<Byte>, entries: seq<Entry>, depth: nat, limits: Limits, st: State)
    requires ValidLimits(limits) && Shape(st.totals) && NamesOk(entries, limits.nameBytes, |entries|)
    ensures ScannedChildren(file, entries, 0, depth, limits, st) == Some(st)
  {
  }

  lemma NextChild(file: seq<Byte>, entries: seq<Entry>, n: nat, depth: nat, limits: Limits, st: State)
    requires ValidLimits(limits) && Shape(st.totals) && n < |entries| && NamesOk(entries, limits.nameBytes, |entries|)
    ensures ScannedChildren(file, entries, n + 1, depth, limits, st) ==
      match ScannedChildren(file, entries, n, depth, limits, st)
      case None => None
      case Some(before) =>
        if MembersIn(entries, limits.nameBytes)[n].extension == Some(HOG_EXTENSION)
        then Scanned(file, entries[n], depth, limits, before) else Some(before)
  {
    hide Scanned, NamesOk, Shape;
  }

  lemma ExtensionInList(entries: seq<Entry>, maximum: nat, i: nat)
    requires NamesOk(entries, maximum, |entries|) && i < |entries|
    ensures MembersIn(entries, maximum)[i].extension == ExtensionOf(Normals(entries, maximum)[i])
  {
  }

  lemma {:induction false} ChildrenStop(file: seq<Byte>, entries: seq<Entry>, k: nat, n: nat, depth: nat,
                                        limits: Limits, st: State)
    requires ValidLimits(limits) && Shape(st.totals)
    requires k <= n <= |entries| && NamesOk(entries, limits.nameBytes, |entries|)
    requires ScannedChildren(file, entries, k, depth, limits, st).None?
    ensures ScannedChildren(file, entries, n, depth, limits, st).None?
    decreases n
  {
    hide Scanned, NamesOk, MembersIn, Shape;
    if k < n {
      ChildrenStop(file, entries, k, n - 1, depth, limits, st);
    }
  }

  // ---------- all roots ----------

  function RootSpan(root: seq<Byte>): Entry { Entry([], 0, |root|) }

  // The scans of the first n roots, one after the other, from an empty report.
  ghost function ScannedRoots(roots: seq<seq<Byte>>, n: nat, limits: Limits): (r: Option<State>)
    requires ValidLimits(limits) && n <= |roots|
    ensures r.Some? ==> Shape(r.value.totals)
  {
    hide Scanned, Shape;
    if n == 0 then Some(State(Budget(0, 0, 0, 0), Blank()))
    else
      match ScannedRoots(roots, n - 1, limits)
      case None => None
      case Some(before) => Scanned(roots[n - 1], RootSpan(roots[n - 1]), 0, limits, before)
  }

  lemma {:induction false} RootsStop(roots: seq<seq<Byte>>, k: nat, n: nat, limits: Limits)
    requires ValidLimits(limits) && k <= n <= |roots| && ScannedRoots(roots, k, limits).None?
    ensures ScannedRoots(roots, n, limits).None?
    decreases n
  {
    hide Scanned;
    if k < n {
      RootsStop(roots, k, n - 1, limits);
    }
  }

  // The scan succeeds exactly when every root's scan does, with the state the scans add up to.
  // Then archives are the roots and the nested ones, the .hog members are exactly the nested
  // archives, and every count adds up.
  method ScanInput(roots: seq<seq<Byte>>, limits: Limits) returns (ok: bool, report: Aggregate, budget: ScanBudget)
    requires ValidLimits(limits)
    ensures fresh(report) && fresh(budget) && budget.limits == limits && budget.Valid()
    ensures match ScannedRoots(roots, |roots|, limits)
      case Some(s) => ok && State(budget.Value(), report.Value()) == s
      case None => !ok
    ensures ok ==>
      && Conserved(report.Value())
      && report.archives == |roots| + report.nested == budget.archiveOccurrences
      && report.extensionCounts[HOG_EXTENSION] == report.nested
      && report.members == budget.hogEntries
  {
    hide Scanned, Conserved;
    budget := new ScanBudget(limits);
    report := new Aggregate();
    BlankConserves();
    for i := 0 to |roots|
      invariant fresh(report) && fresh(budget) && budget.limits == limits && budget.Valid() && report.Valid()
      invariant Conserved(report.Value())
      invariant report.archives == i + report.nested == budget.archiveOccurrences
      invariant report.extensionCounts[HOG_EXTENSION] == report.nested
      invariant report.members == budget.hogEntries
      invariant ScannedRoots(roots, i, limits) == Some(State(budget.Value(), report.Value()))
    {
      ghost var before := State(budget.Value(), report.Value());
      var scanned := ScanArchive(roots[i], RootSpan(roots[i]), 0, budget, report);
      if !scanned {
        RootsStop(roots, i + 1, |roots|, limits);
        return false, report, budget;
      }
      ghost var archives := ScanConserves(roots[i], RootSpan(roots[i]), 0, limits, before);
    }
    ok := true;
  }
}
