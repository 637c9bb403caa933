// The VUM payload validator of tools/vum_material_catalog_contract.py over bytes: header,
// classification of metadata records, and the one pass over them.
module VumPayload {
  import opened Bytes
  import opened Options
  import opened VumLayout

  const NAME_REGION_OFFSET := 112
  const MATERIAL_RECORD_BYTES := 92
  const METADATA_RECORD_BYTES := 16

  datatype Header = Header(nameCount: nat, materialCount: nat, namesEnd: nat, materialsEnd: nat, primaryEnd: nat,
                           middleBegin: nat, finalBegin: nat, pairedCountWord: nat, targetCount: nat)

  function HeaderOf(data: seq<Byte>): Header
    requires |data| >= NAME_REGION_OFFSET
  {
    Header(U32At(data, 20), U32At(data, 24), U32At(data, 80), U32At(data, 84), U32At(data, 88),
           U32At(data, 92), U32At(data, 96), U32At(data, 12), U32At(data, 16))
  }

  function PairCount(h: Header): nat { if h.pairedCountWord == 0 then 0 else (h.pairedCountWord - 1) / 2 }

  function RecordCount(h: Header): nat { PairCount(h) * 2 + h.targetCount }

  function MetadataEnd(h: Header): nat { h.materialsEnd + RecordCount(h) * METADATA_RECORD_BYTES }

  function RegionOf(h: Header): Region { Region(h.middleBegin, h.finalBegin, h.primaryEnd) }

  // The sections follow one another inside the file, aligned, with counts that match.
  predicate SectionsValid(h: Header, size: nat) {
    && NAME_REGION_OFFSET <= h.namesEnd <= h.materialsEnd <= h.primaryEnd <= size
    && h.namesEnd % 4 == 0 && h.materialsEnd % 4 == 0 && h.primaryEnd % 16 == 0
    && h.nameCount != 0 && h.materialCount != 0
    && h.materialCount * MATERIAL_RECORD_BYTES == h.materialsEnd - h.namesEnd
    && h.middleBegin % 16 == 0 && h.finalBegin % 16 == 0
    && h.materialsEnd <= h.middleBegin <= h.finalBegin <= h.primaryEnd
  }

  predicate HeaderValid(data: seq<Byte>, maximumInputBytes: nat, maximumItems: nat) {
    && NAME_REGION_OFFSET <= |data| <= maximumInputBytes && |data| % 16 == 0
    && data[..4] == [0x56, 0x55, 0x4D, 0x53]
    && var h := HeaderOf(data);
    && SectionsValid(h, |data|)
    && U32At(data, 100) == 0 && U32At(data, 104) == 0 && U32At(data, 108) == 0
    && h.pairedCountWord % 2 == 1
    && RecordCount(h) <= maximumItems
    && MetadataEnd(h) <= h.middleBegin && h.middleBegin - MetadataEnd(h) <= 12
    && forall i | MetadataEnd(h) <= i < h.middleBegin :: data[i] == 0
  }

  // ---------- classified records ----------

  predicate InRangeAligned(value: nat, begin: nat, end: nat, alignment: nat)
    requires alignment > 0
  {
    begin <= value < end && value % alignment == 0
  }

  predicate IsRecordStart(value: nat, begin: nat, end: nat) {
    begin <= value < end && (value - begin) % METADATA_RECORD_BYTES == 0
  }

  function Classify(data: seq<Byte>, h: Header, offset: nat): Record
    requires offset + METADATA_RECORD_BYTES <= |data|
  {
    var w0, w1, w2, w3 :=
      U32At(data, offset), U32At(data, offset + 4), U32At(data, offset + 8), U32At(data, offset + 12);
    if IsRecordStart(w2, h.materialsEnd, MetadataEnd(h)) then T((w2 - h.materialsEnd) / METADATA_RECORD_BYTES)
    else if InRangeAligned(w1, h.middleBegin, h.finalBegin, 16)
            && StrictlyInsideAligned(w3, h.finalBegin, h.primaryEnd, 4) then Q(w1, w3)
    else if && StrictlyInsideAligned(w0, h.finalBegin, h.primaryEnd, 4)
            && StrictlyInsideAligned(w2, h.finalBegin, h.primaryEnd, 4)
            && StrictlyInsideAligned(w3, h.finalBegin, h.primaryEnd, 4) then P(w0, w2, w3)
    else Unknown
  }

  function Offset(h: Header, i: nat): nat { h.materialsEnd + i * METADATA_RECORD_BYTES }

  function Records(data: seq<Byte>, h: Header): (r: seq<Record>)
    requires MetadataEnd(h) <= |data|
    ensures |r| == RecordCount(h)
  {
    seq(RecordCount(h), i requires 0 <= i < RecordCount(h) => Classify(data, h, Offset(h, i)))
  }

  // A record's words, seen through its class.
  lemma ClassifiedWords(data: seq<Byte>, h: Header, i: nat)
    requires MetadataEnd(h) <= |data| && i < RecordCount(h)
    ensures match Records(data, h)[i]
      case T(k) => k < RecordCount(h) && U32At(data, Offset(h, i) + 8) == Offset(h, k)
      case Q(payload, reference) =>
        && payload == U32At(data, Offset(h, i) + 4) && reference == U32At(data, Offset(h, i) + 12)
        && h.middleBegin <= payload < h.finalBegin
      case P(r1, r2, r3) =>
        r1 == U32At(data, Offset(h, i)) && r2 == U32At(data, Offset(h, i) + 8) && r3 == U32At(data, Offset(h, i) + 12)
      case Unknown => true
  {
  }

  // ---------- the accepted layout ----------

  ghost predicate LayoutValid(data: seq<Byte>, maximumInputBytes: nat, maximumItems: nat) {
    && HeaderValid(data, maximumInputBytes, maximumItems)
    && var h := HeaderOf(data);
       var records := Records(data, h);
    && (exists b :: TargetBlock(records, b, h.targetCount))
    && (exists pairs :: |pairs| == PairCount(h) && Others(records, |records|) == Flatten(pairs)
                        && PairChain(data, RegionOf(h), pairs))
  }

  // ---------- the validator ----------

  method ValidateHeader(data: seq<Byte>, maximumInputBytes: nat, maximumItems: nat) returns (r: Option<Header>)
    ensures r.Some? <==> HeaderValid(data, maximumInputBytes, maximumItems)
    ensures r.Some? ==> r.value == HeaderOf(data)
  {
    if |data| > maximumInputBytes || |data| < NAME_REGION_OFFSET || |data| % 16 != 0 { return None; }
    if data[..4] != [0x56, 0x55, 0x4D, 0x53] { return None; }
    var h := HeaderOf(data);
    if !SectionsValid(h, |data|) { return None; }
    if U32At(data, 100) != 0 || U32At(data, 104) != 0 || U32At(data, 108) != 0 { return None; }
    if h.pairedCountWord == 0 || h.pairedCountWord % 2 == 0 { return None; }
    if RecordCount(h) > maximumItems || MetadataEnd(h) > h.middleBegin { return None; }
    if h.middleBegin - MetadataEnd(h) > 12 || exists i :: MetadataEnd(h) <= i < h.middleBegin && data[i] != 0 {
      return None;
    }
    r := Some(h);
  }

  // The T branch of the loop body.
  method TakeTarget(data: seq<Byte>, h: Header, i: nat, target: nat, st: BlockState) returns (r: Option<BlockState>)
    requires MetadataEnd(h) <= |data| && i < RecordCount(h) && Records(data, h)[i] == T(target)
    ensures r == BlockStep(Records(data, h), i, st)
  {
    ClassifiedWords(data, h, i);
    if st.after { return None; }
    var word := U32At(data, Offset(h, i) + 8);
    if word <= Offset(h, i) { return None; }
    assert Records(data, h)[target] == Classify(data, h, word);
    if !Classify(data, h, word).Q? { return None; }
    if st.previous.Some? && target <= st.previous.value { return None; }
    r := Some(BlockState(true, false, if st.inside then st.start else i, st.count + 1, Some(target)));
  }

  // The Q branch of the loop body.
  method TakeQBranch(data: seq<Byte>, region: Region, payload: nat, reference: nat, st: PairState)
      returns (r: Option<PairState>)
    requires RegionFits(data, region) && |st.refs| == 4 && payload < region.finalBegin
    ensures r == PairStep(data, region, Q(payload, reference), st)
  {
    if st.ordinal % 2 != 0 { return None; }
    var combined, grouped := st.combined, st.grouped;
    match st.payload {
      case None => if payload != region.middleBegin { return None; }
      case Some(before) =>
        if payload <= before { return None; }
        var span := payload - before;
        if !IsObservedMiddleSpan(span) { return None; }
        if !MiddleReferencesValid(data, region, before, span, st.refs, combined) { return None; }
        combined, grouped := Some(st.refs[3]), grouped + if span != 16 then 1 else 0;
    }
    if st.boundary.Some? && reference <= st.boundary.value { return None; }
    r := Some(PairState(st.ordinal + 1, Some(payload), Some(reference), combined, st.refs[0 := reference], grouped));
  }

  // The P branch of the loop body: three references, each above the last boundary.
  method TakePBranch(data: seq<Byte>, region: Region, r1: nat, r2: nat, r3: nat, st: PairState)
      returns (r: Option<PairState>)
    requires RegionFits(data, region) && |st.refs| == 4
    ensures r == PairStep(data, region, P(r1, r2, r3), st)
  {
    if st.ordinal % 2 == 0 { return None; }
    if st.boundary.None? || r1 <= st.boundary.value { return None; }
    if r2 <= r1 { return None; }
    if r3 <= r2 { return None; }
    r := Some(PairState(st.ordinal + 1, st.payload, Some(r3), st.combined, [st.refs[0], r1, r2, r3], st.grouped));
  }

  lemma {:induction false} BlockStuck(records: seq<Record>, n: nat, m: nat)
    requires n <= m <= |records| && BlockRun(records, n).None?
    ensures BlockRun(records, m).None?
  {
    if n < m { BlockStuck(records, n, m - 1); }
  }

  lemma {:induction false} PairStuck(data: seq<Byte>, region: Region, records: seq<Record>, n: nat, m: nat)
    requires RegionFits(data, region) && n <= m <= |records| && PairRun(data, region, Others(records, n)).None?
    ensures PairRun(data, region, Others(records, m)).None?
  {
    if n < m {
      PairStuck(data, region, records, n, m - 1);
      var before := Others(records, m - 1);
      if records[m - 1].T? {
        assert Others(records, m) == before;
      } else {
        assert Others(records, m)[..|before|] == before;
      }
    }
  }

  lemma OtherAppends(data: seq<Byte>, region: Region, records: seq<Record>, i: nat)
    requires RegionFits(data, region) && i < |records|
    ensures records[i].T? ==> Others(records, i + 1) == Others(records, i)
    ensures !records[i].T? && PairRun(data, region, Others(records, i)).Some? ==>
      PairRun(data, region, Others(records, i + 1)) ==
      PairStep(data, region, records[i], PairRun(data, region, Others(records, i)).value)
  {
    assert Others(records, i) + [] == Others(records, i);
    if !records[i].T? && PairRun(data, region, Others(records, i)).Some? {
      RunAppends(data, region, Others(records, i), records[i]);
    }
  }

  ghost predicate BothRun(data: seq<Byte>, h: Header, n: nat, block: BlockState, pair: PairState)
    requires MetadataEnd(h) <= |data| && RegionFits(data, RegionOf(h)) && n <= RecordCount(h)
  {
    && BlockRun(Records(data, h), n) == Some(block)
    && PairRun(data, RegionOf(h), Others(Records(data, h), n)) == Some(pair)
  }

  ghost predicate OneStuck(data: seq<Byte>, h: Header, n: nat)
    requires MetadataEnd(h) <= |data| && RegionFits(data, RegionOf(h)) && n <= RecordCount(h)
  {
    BlockRun(Records(data, h), n).None? || PairRun(data, RegionOf(h), Others(Records(data, h), n)).None?
  }

  lemma TargetAdvances(data: seq<Byte>, h: Header, i: nat, block: BlockState, pair: PairState)
    requires MetadataEnd(h) <= |data| && RegionFits(data, RegionOf(h)) && i < RecordCount(h)
    requires BothRun(data, h, i, block, pair) && Records(data, h)[i].T?
    ensures var next := BlockStep(Records(data, h), i, block);
      if next.Some? then BothRun(data, h, i + 1, next.value, pair) else OneStuck(data, h, i + 1)
  {
    OtherAppends(data, RegionOf(h), Records(data, h), i);
  }

  lemma OtherAdvances(data: seq<Byte>, h: Header, i: nat, block: BlockState, pair: PairState)
    requires MetadataEnd(h) <= |data| && RegionFits(data, RegionOf(h)) && i < RecordCount(h)
    requires BothRun(data, h, i, block, pair) && !Records(data, h)[i].T?
    ensures |pair.refs| == 4
    ensures var next := PairStep(data, RegionOf(h), Records(data, h)[i], pair);
      if next.Some? then BothRun(data, h, i + 1, if block.inside then block.(after := true) else block, next.value)
      else OneStuck(data, h, i + 1)
  {
    OtherAppends(data, RegionOf(h), Records(data, h), i);
  }

  // The Q and P branches.
  method TakePairRecord(data: seq<Byte>, region: Region, record: Record, pair: PairState) returns (r: Option<PairState>)
    requires RegionFits(data, region) && |pair.refs| == 4 && (record.Q? ==> record.payload < region.finalBegin)
    requires !record.T?
    ensures r == PairStep(data, region, record, pair)
  {
    match record
    case Q(payload, reference) => r := TakeQBranch(data, region, payload, reference, pair);
    case P(r1, r2, r3) => r := TakePBranch(data, region, r1, r2, r3, pair);
    case Unknown => r := None;
  }

  // The body of the loop over the metadata records.
  method ScanRecord(data: seq<Byte>, h: Header, i: nat, block: BlockState, pair: PairState)
      returns (ok: bool, nextBlock: BlockState, nextPair: PairState)
    requires MetadataEnd(h) <= |data| && RegionFits(data, RegionOf(h)) && i < RecordCount(h)
    requires BothRun(data, h, i, block, pair)
    ensures if ok then BothRun(data, h, i + 1, nextBlock, nextPair) else OneStuck(data, h, i + 1)
  {
    var record := Classify(data, h, Offset(h, i));
    assert Records(data, h)[i] == record;
    nextBlock, nextPair := block, pair;
    if record.T? {
      TargetAdvances(data, h, i, block, pair);
      var taken := TakeTarget(data, h, i, record.target, block);
      if taken.None? { return false, block, pair; }
      ok, nextBlock := true, taken.value;
    } else {
      OtherAdvances(data, h, i, block, pair);
      var next := TakePairRecord(data, RegionOf(h), record, pair);
      if next.None? { return false, block, pair; }
      if block.inside { nextBlock := block.(after := true); }
      ok, nextPair := true, next.value;
    }
  }

  // The loop over the metadata records runs both machines at once.
  method ScanRecords(data: seq<Byte>, h: Header) returns (ok: bool, block: BlockState, pair: PairState)
    requires MetadataEnd(h) <= |data| && RegionFits(data, RegionOf(h))
    ensures if ok then BothRun(data, h, RecordCount(h), block, pair) else OneStuck(data, h, RecordCount(h))
  {
    var n := RecordCount(h);
    block, pair := BlockState(false, false, n, 0, None), PAIR_START;
    for i := 0 to n
      invariant BothRun(data, h, i, block, pair)
    {
      ok, block, pair := ScanRecord(data, h, i, block, pair);
      if !ok {
        StaysStuck(data, h, i + 1);
        return;
      }
    }
    ok := true;
  }

  lemma StaysStuck(data: seq<Byte>, h: Header, n: nat)
    requires MetadataEnd(h) <= |data| && RegionFits(data, RegionOf(h)) && n <= RecordCount(h)
    requires OneStuck(data, h, n)
    ensures OneStuck(data, h, RecordCount(h))
  {
    var records := Records(data, h);
    if BlockRun(records, n).None? {
      BlockStuck(records, n, |records|);
    } else {
      PairStuck(data, RegionOf(h), records, n, |records|);
    }
  }

  datatype Layout = Layout(header: Header, metadataEnd: nat, pairCount: nat, groupedPairCount: nat,
                           targetBlockStart: nat, recordCount: nat)

  ghost predicate Reports(data: seq<Byte>, layout: Layout)
    requires |data| >= NAME_REGION_OFFSET && MetadataEnd(HeaderOf(data)) <= |data|
    requires RegionFits(data, RegionOf(HeaderOf(data)))
  {
    var h := HeaderOf(data);
    var records := Records(data, h);
    && layout.header == h && layout.metadataEnd == MetadataEnd(h)
    && layout.pairCount == PairCount(h) && layout.recordCount == RecordCount(h)
    && TargetBlock(records, layout.targetBlockStart, h.targetCount)
    && exists pairs :: |pairs| == PairCount(h) && Others(records, |records|) == Flatten(pairs)
                       && PairChain(data, RegionOf(h), pairs)
                       && layout.groupedPairCount == GroupedTo(pairs, h.finalBegin)
  }

  // The validator accepts exactly the valid layouts, and reports the block and the grouped pairs.
  method ValidateVumPayloadLayout(data: seq<Byte>, maximumInputBytes: nat, maximumItems: nat)
      returns (r: Option<Layout>)
    ensures r.Some? <==> LayoutValid(data, maximumInputBytes, maximumItems)
    ensures r.Some? ==> Reports(data, r.value)
  {
    var header := ValidateHeader(data, maximumInputBytes, maximumItems);
    if header.None? { return None; }
    var h := header.value;
    var ok, block, pair := ScanRecords(data, h);
    MachinesDecide(data, maximumInputBytes, maximumItems);
    if !ok { return None; }
    if block.count != h.targetCount || !PairEnd(data, RegionOf(h), pair, PairCount(h)) { return None; }
    var grouped := pair.grouped;
    if pair.payload.Some? && h.finalBegin - pair.payload.value != 16 { grouped := grouped + 1; }
    r := Some(Layout(h, MetadataEnd(h), PairCount(h), grouped, block.start, RecordCount(h)));
    MachinesReport(data, h, block, pair, r.value);
  }

  lemma MachinesDecide(data: seq<Byte>, maximumInputBytes: nat, maximumItems: nat)
    requires HeaderValid(data, maximumInputBytes, maximumItems)
    ensures var h := HeaderOf(data);
      var records := Records(data, h);
      LayoutValid(data, maximumInputBytes, maximumItems) <==>
        && BlockRun(records, |records|).Some? && BlockRun(records, |records|).value.count == h.targetCount
        && PairsAccepted(data, RegionOf(h), Others(records, |records|), PairCount(h))
  {
    var h := HeaderOf(data);
    var records := Records(data, h);
    BlockMachine(records, h.targetCount);
    PairMachine(data, RegionOf(h), Others(records, |records|), PairCount(h));
  }

  lemma MachinesReport(data: seq<Byte>, h: Header, block: BlockState, pair: PairState, layout: Layout)
    requires |data| >= NAME_REGION_OFFSET && h == HeaderOf(data) && MetadataEnd(h) <= |data|
    requires RegionFits(data, RegionOf(h)) && BothRun(data, h, RecordCount(h), block, pair)
    requires block.count == h.targetCount && |pair.refs| == 4 && PairEnd(data, RegionOf(h), pair, PairCount(h))
    requires layout == Layout(h, MetadataEnd(h), PairCount(h), layout.groupedPairCount, block.start, RecordCount(h))
    requires layout.groupedPairCount ==
      pair.grouped + if pair.payload.Some? && h.finalBegin - pair.payload.value != 16 then 1 else 0
    ensures Reports(data, layout)
  {
    var records := Records(data, h);
    BlockRunInv(records, |records|);
    InvIsBlock(records, block);
    GroupedOfAccepted(data, RegionOf(h), Others(records, |records|), PairCount(h));
  }

  lemma GroupedOfAccepted(data: seq<Byte>, region: Region, others: seq<Record>, count: nat)
    requires RegionFits(data, region) && PairsAccepted(data, region, others, count)
    ensures var st := PairRun(data, region, others).value;
      exists pairs :: |pairs| == count && others == Flatten(pairs) && PairChain(data, region, pairs)
        && GroupedTo(pairs, region.finalBegin) ==
           st.grouped + if st.payload.Some? && region.finalBegin - st.payload.value != 16 then 1 else 0
  {
    var pairs := AcceptedIsChain(data, region, others, count);
    ChainIsWholeRun(data, region, pairs);
    RunOfPairs(data, region, pairs);
  }

  // ---------- no more targets than pairs ----------

  function CountQ(records: seq<Record>): nat {
    if records == [] then 0 else CountQ(records[..|records| - 1]) + if records[|records| - 1].Q? then 1 else 0
  }

  lemma {:induction false} CountQOthers(records: seq<Record>, n: nat)
    requires n <= |records|
    ensures CountQ(Others(records, n)) == CountQ(records[..n])
  {
    if n > 0 {
      CountQOthers(records, n - 1);
      assert records[..n][..n - 1] == records[..n - 1];
      var before := Others(records, n - 1);
      assert !records[n - 1].T? ==> (before + [records[n - 1]])[..|before|] == before;
      assert before + [] == before;
    }
  }

  lemma {:induction false} CountQFlatten(pairs: seq<Pair>)
    ensures CountQ(Flatten(pairs)) == |pairs|
  {
    if pairs != [] {
      var p, init := pairs[|pairs| - 1], Flatten(pairs[..|pairs| - 1]);
      CountQFlatten(pairs[..|pairs| - 1]);
      var mid := init + [Q(p.payload, p.r0)];
      assert mid[..|init|] == init;
      assert (mid + [P(p.r1, p.r2, p.r3)])[..|mid|] == mid;
    }
  }

  lemma {:induction false} CountQMonotone(records: seq<Record>, m: nat, n: nat)
    requires m <= n <= |records|
    ensures CountQ(records[..m]) <= CountQ(records[..n])
  {
    if m < n {
      CountQMonotone(records, m, n - 1);
      assert records[..n][..n - 1] == records[..n - 1];
    }
  }

  // The first k + 1 targets are that many different Q records.
  lemma {:induction false} TargetsCount(records: seq<Record>, b: nat, t: nat, k: nat)
    requires TargetBlock(records, b, t) && k < t
    ensures records[b + k].T? && records[b + k].target < |records|
    ensures k + 1 <= CountQ(records[..records[b + k].target + 1])
  {
    assert records[b + k].T?;
    var at := records[b + k].target;
    assert records[..at + 1][..at] == records[..at];
    if k > 0 {
      var before: nat := k - 1;
      TargetsCount(records, b, t, before);
      var prior := records[b + before].target;
      assert prior < at;
      CountQMonotone(records, prior + 1, at);
    }
  }

  lemma {:induction false} BlockWithinPairs(records: seq<Record>, b: nat, t: nat, pairs: seq<Pair>)
    requires TargetBlock(records, b, t) && Others(records, |records|) == Flatten(pairs)
    ensures t <= |pairs|
  {
    CountQFlatten(pairs);
    CountQOthers(records, |records|);
    assert records[..|records|] == records;
    if t > 0 {
      var k: nat := t - 1;
      TargetsCount(records, b, t, k);
      CountQMonotone(records, records[b + k].target + 1, |records|);
    }
  }

  lemma TargetsWithinPairs(data: seq<Byte>, maximumInputBytes: nat, maximumItems: nat)
    requires LayoutValid(data, maximumInputBytes, maximumItems)
    ensures HeaderOf(data).targetCount <= PairCount(HeaderOf(data))
  {
    var h := HeaderOf(data);
    var records := Records(data, h);
    var b :| TargetBlock(records, b, h.targetCount);
    var pairs :| |pairs| == PairCount(h) && Others(records, |records|) == Flatten(pairs)
                 && PairChain(data, RegionOf(h), pairs);
    BlockWithinPairs(records, b, h.targetCount, pairs);
  }
}
