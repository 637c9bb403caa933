// The metadata records of tools/vum_material_catalog_contract.py as a sequence of classified
// records: the one-pass state machine over them, and the layout it accepts.
module VumLayout {
  import opened Bytes
  import opened Options

  // T names its target by record index; Q and P carry payload and final-region references.
  datatype Record = T(target: nat) | Q(payload: nat, reference: nat) | P(r1: nat, r2: nat, r3: nat) | Unknown

  datatype Region = Region(middleBegin: nat, finalBegin: nat, primaryEnd: nat)

  ghost predicate RegionFits(data: seq<Byte>, region: Region) {
    region.middleBegin <= region.finalBegin <= region.primaryEnd <= |data|
  }

  predicate StrictlyInsideAligned(value: nat, begin: nat, end: nat, alignment: nat)
    requires alignment > 0
  {
    begin < value < end && value % alignment == 0
  }

  predicate IsObservedMiddleSpan(span: int) { span == 16 || span == 256 || span == 480 || span == 704 }

  predicate IsObservedFinalTail(span: int) { span == 4 || span == 8 || span == 12 || span == 16 }

  // The references a middle payload holds, interleaved with the references of its pair.
  predicate MiddleReferencesValid(data: seq<Byte>, region: Region, begin: nat, span: nat, refs: seq<nat>,
                                  previous: Option<nat>)
    requires region.finalBegin <= |data| && |refs| == 4
    requires IsObservedMiddleSpan(span) && begin + span <= region.finalBegin
  {
    var grouped := span != 16;
    var first := U32At(data, begin + if grouped then 0x74 else 4);
    && StrictlyInsideAligned(first, region.finalBegin, region.primaryEnd, 16)
    && (match previous case None => first == region.finalBegin + 16 case Some(p) => p < first)
    && first < refs[0] < refs[1] && refs[2] < refs[3]
    && (if !grouped then refs[1] < refs[2]
        else
          var second := U32At(data, begin + 0xF4);
          StrictlyInsideAligned(second, region.finalBegin, region.primaryEnd, 16) && refs[1] < second < refs[2])
  }

  // ---------- the T block ----------

  datatype BlockState = BlockState(inside: bool, after: bool, start: nat, count: nat, previous: Option<nat>)

  function BlockStep(records: seq<Record>, i: nat, st: BlockState): Option<BlockState>
    requires i < |records|
  {
    match records[i]
    case T(target) =>
      if st.after || target <= i || target >= |records| || !records[target].Q? then None
      else if st.previous.Some? && target <= st.previous.value then None
      else Some(BlockState(true, false, if st.inside then st.start else i, st.count + 1, Some(target)))
    case _ => Some(if st.inside then st.(after := true) else st)
  }

  function BlockRun(records: seq<Record>, n: nat): Option<BlockState>
    requires n <= |records|
  {
    if n == 0 then Some(BlockState(false, false, |records|, 0, None))
    else match BlockRun(records, n - 1)
      case None => None
      case Some(st) => BlockStep(records, n - 1, st)
  }

  // The T records are the indices [b, b + t), each aiming at a later Q, in increasing order.
  ghost predicate TargetBlock(records: seq<Record>, b: nat, t: nat) {
    && (forall i | 0 <= i < |records| :: records[i].T? <==> b <= i < b + t)
    && (forall i | 0 <= i < |records| && records[i].T? ::
          i < records[i].target < |records| && records[records[i].target].Q?)
    && (forall i, j | 0 <= i < j < |records| && records[i].T? && records[j].T? ::
          records[i].target < records[j].target)
    && b + t <= |records|
    && (t == 0 ==> b == |records|)
  }

  ghost predicate BlockInv(records: seq<Record>, n: nat, st: BlockState)
    requires n <= |records|
  {
    && (st.inside <==> st.count > 0)
    && (forall i | 0 <= i < n :: records[i].T? <==> st.start <= i < st.start + st.count)
    && (if st.inside then st.start + st.count <= n && (st.after <==> st.start + st.count < n)
        else st.start == |records| && !st.after)
    && (forall i | 0 <= i < n && records[i].T? ::
          i < records[i].target < |records| && records[records[i].target].Q?)
    && (forall i, j | 0 <= i < j < n && records[i].T? && records[j].T? :: records[i].target < records[j].target)
    && st.previous == if st.inside then Some(TargetOf(records, st.start + st.count - 1)) else None
  }

  function TargetOf(records: seq<Record>, i: int): nat {
    if 0 <= i < |records| && records[i].T? then records[i].target else 0
  }

  lemma BlockStepKeeps(records: seq<Record>, n: nat, st: BlockState)
    requires n < |records| && BlockInv(records, n, st)
    requires BlockStep(records, n, st).Some?
    ensures BlockInv(records, n + 1, BlockStep(records, n, st).value)
  {
    if records[n].T? {
      TargetKeeps(records, n, st);
    }
  }

  lemma TargetKeeps(records: seq<Record>, n: nat, st: BlockState)
    requires n < |records| && BlockInv(records, n, st) && records[n].T?
    requires BlockStep(records, n, st).Some?
    ensures BlockInv(records, n + 1, BlockStep(records, n, st).value)
  {
    TargetsBelow(records, n, st);
  }

  // The previous target is the largest so far.
  lemma TargetsBelow(records: seq<Record>, n: nat, st: BlockState)
    requires n < |records| && BlockInv(records, n, st) && records[n].T?
    requires BlockStep(records, n, st).Some?
    ensures forall i | 0 <= i < n && records[i].T? :: records[i].target < records[n].target
  {
    forall i | 0 <= i < n && records[i].T? ensures records[i].target < records[n].target {
      var last: nat := st.start + st.count - 1;
      assert records[last].T?;
      assert i < last ==> records[i].target < records[last].target;
    }
  }

  lemma {:induction false} BlockRunInv(records: seq<Record>, n: nat)
    requires n <= |records| && BlockRun(records, n).Some?
    ensures BlockInv(records, n, BlockRun(records, n).value)
  {
    if n > 0 {
      BlockRunInv(records, n - 1);
      BlockStepKeeps(records, n - 1, BlockRun(records, n - 1).value);
    }
  }

  lemma {:induction false} BlockAccepted(records: seq<Record>, b: nat, t: nat, n: nat)
    requires TargetBlock(records, b, t) && n <= |records|
    ensures BlockRun(records, n).Some?
  {
    if n > 0 {
      BlockAccepted(records, b, t, n - 1);
      BlockRunInv(records, n - 1);
      BlockStepDefined(records, b, t, n - 1, BlockRun(records, n - 1).value);
    }
  }

  lemma BlockStepDefined(records: seq<Record>, b: nat, t: nat, i: nat, st: BlockState)
    requires TargetBlock(records, b, t) && i < |records| && BlockInv(records, i, st)
    ensures BlockStep(records, i, st).Some?
  {
    if st.inside {
      var last: nat, end := st.start + st.count - 1, st.start + st.count;
      assert records[last].T?;
      assert end < i ==> (records[end].T? <==> b <= end < b + t);
    }
  }

  lemma InvIsBlock(records: seq<Record>, st: BlockState)
    requires BlockInv(records, |records|, st)
    ensures TargetBlock(records, st.start, st.count)
  {
  }

  // The block machine runs through, ending at count t, exactly on target blocks of size t.
  lemma BlockMachine(records: seq<Record>, t: nat)
    ensures (exists b :: TargetBlock(records, b, t)) <==>
            BlockRun(records, |records|).Some? && BlockRun(records, |records|).value.count == t
  {
    if BlockRun(records, |records|).Some? {
      BlockRunInv(records, |records|);
      InvIsBlock(records, BlockRun(records, |records|).value);
    }
    if b :| TargetBlock(records, b, t) {
      BlockAccepted(records, b, t, |records|);
      BlockRunInv(records, |records|);
      SameBlock(records, b, t, BlockRun(records, |records|).value);
    }
  }

  lemma SameBlock(records: seq<Record>, b: nat, t: nat, st: BlockState)
    requires TargetBlock(records, b, t) && BlockInv(records, |records|, st)
    ensures st.count == t && st.start == b
  {
    if t > 0 {
      assert records[b].T? && records[b + t - 1].T?;
    }
    if st.count > 0 {
      assert records[st.start].T? && records[st.start + st.count - 1].T?;
    }
  }

  // ---------- the alternating pairs ----------

  // The records left when the T records are taken out.
  function Others(records: seq<Record>, n: nat): seq<Record>
    requires n <= |records|
  {
    if n == 0 then []
    else Others(records, n - 1) + if records[n - 1].T? then [] else [records[n - 1]]
  }

  datatype PairState = PairState(ordinal: nat, payload: Option<nat>, boundary: Option<nat>, combined: Option<nat>,
                                 refs: seq<nat>, grouped: nat)

  const PAIR_START := PairState(0, None, None, None, [0, 0, 0, 0], 0)

  predicate Above(value: nat, boundary: Option<nat>) {
    match boundary case None => true case Some(b) => b < value
  }

  function PairStep(data: seq<Byte>, region: Region, record: Record, st: PairState): Option<PairState>
    requires RegionFits(data, region) && |st.refs| == 4
    ensures PairStep(data, region, record, st).Some? ==> |PairStep(data, region, record, st).value.refs| == 4
  {
    match record
    case Q(payload, reference) =>
      if st.ordinal % 2 != 0 || payload >= region.finalBegin || !Above(reference, st.boundary) then None
      else (match st.payload
        case None =>
          if payload != region.middleBegin then None
          else Some(PairState(st.ordinal + 1, Some(payload), Some(reference), st.combined,
                              st.refs[0 := reference], st.grouped))
        case Some(before) =>
          if payload <= before || !IsObservedMiddleSpan(payload - before) then None
          else if !MiddleReferencesValid(data, region, before, payload - before, st.refs, st.combined) then None
          else Some(PairState(st.ordinal + 1, Some(payload), Some(reference), Some(st.refs[3]),
                              st.refs[0 := reference], st.grouped + if payload - before != 16 then 1 else 0)))
    case P(r1, r2, r3) =>
      if st.ordinal % 2 == 0 || st.boundary.None? || !Above(r1, st.boundary) || r2 <= r1 || r3 <= r2 then None
      else Some(PairState(st.ordinal + 1, st.payload, Some(r3), st.combined, [st.refs[0], r1, r2, r3], st.grouped))
    case _ => None
  }

  function PairRun(data: seq<Byte>, region: Region, others: seq<Record>): (r: Option<PairState>)
    requires RegionFits(data, region)
    ensures r.Some? ==> |r.value.refs| == 4
  {
    if others == [] then Some(PAIR_START)
    else match PairRun(data, region, others[..|others| - 1])
      case None => None
      case Some(st) => PairStep(data, region, others[|others| - 1], st)
  }

  // The checks after the loop.
  predicate PairEnd(data: seq<Byte>, region: Region, st: PairState, count: nat)
    requires RegionFits(data, region) && |st.refs| == 4
  {
    && st.ordinal == 2 * count
    && (match st.payload
        case None => region.middleBegin == region.finalBegin && region.primaryEnd - region.finalBegin == 16
        case Some(before) =>
          && before < region.finalBegin && IsObservedMiddleSpan(region.finalBegin - before)
          && MiddleReferencesValid(data, region, before, region.finalBegin - before, st.refs, st.combined)
          && st.boundary.Some? && IsObservedFinalTail(region.primaryEnd - st.boundary.value))
  }

  ghost predicate PairsAccepted(data: seq<Byte>, region: Region, others: seq<Record>, count: nat)
    requires RegionFits(data, region)
  {
    var r := PairRun(data, region, others);
    r.Some? && PairEnd(data, region, r.value, count)
  }

  // ---------- the same as one chain of pairs ----------

  datatype Pair = Pair(payload: nat, r0: nat, r1: nat, r2: nat, r3: nat)
  datatype OpenQ = OpenQ(payload: nat, r0: nat)

  function RefsOf(p: Pair): seq<nat> { [p.r0, p.r1, p.r2, p.r3] }

  // Each pair is one Q followed by one P.
  function Flatten(pairs: seq<Pair>): seq<Record> {
    if pairs == [] then []
    else
      var p := pairs[|pairs| - 1];
      Flatten(pairs[..|pairs| - 1]) + [Q(p.payload, p.r0)] + [P(p.r1, p.r2, p.r3)]
  }

  // Pair j, with a payload that reaches to end, continues the reference chain.
  ghost predicate Linked(data: seq<Byte>, region: Region, pairs: seq<Pair>, j: nat, end: nat)
    requires RegionFits(data, region) && j < |pairs|
  {
    && pairs[j].payload < end <= region.finalBegin
    && IsObservedMiddleSpan(end - pairs[j].payload)
    && MiddleReferencesValid(data, region, pairs[j].payload, end - pairs[j].payload, RefsOf(pairs[j]),
                             if j == 0 then None else Some(pairs[j - 1].r3))
  }

  // The payloads tile the middle region, and all references form one increasing chain.
  ghost predicate PairChain(data: seq<Byte>, region: Region, pairs: seq<Pair>)
    requires RegionFits(data, region)
  {
    if pairs == [] then region.middleBegin == region.finalBegin && region.primaryEnd - region.finalBegin == 16
    else
      var last := |pairs| - 1;
      && pairs[0].payload == region.middleBegin
      && (forall i, j | 0 <= i < |pairs| && j == i + 1 < |pairs| :: Linked(data, region, pairs, i, pairs[j].payload))
      && Linked(data, region, pairs, last, region.finalBegin)
      && IsObservedFinalTail(region.primaryEnd - pairs[last].r3)
  }

  // ---------- what the machine has seen ----------

  ghost predicate Ordered(pairs: seq<Pair>) {
    && (forall i | 0 <= i < |pairs| :: pairs[i].r0 < pairs[i].r1 < pairs[i].r2 < pairs[i].r3)
    && (forall i, j | 0 <= i < |pairs| && j == i + 1 < |pairs| :: pairs[i].r3 < pairs[j].r0)
  }

  // A run of whole pairs: all but the last are linked to their successor.
  ghost predicate WholeRun(data: seq<Byte>, region: Region, pairs: seq<Pair>)
    requires RegionFits(data, region)
  {
    && Ordered(pairs)
    && (pairs != [] ==> pairs[0].payload == region.middleBegin)
    && (forall i | 0 <= i < |pairs| :: pairs[i].payload < region.finalBegin)
    && (forall i, j | 0 <= i < |pairs| && j == i + 1 < |pairs| :: Linked(data, region, pairs, i, pairs[j].payload))
  }

  // A run of whole pairs and a Q that waits for its P.
  ghost predicate OpenRun(data: seq<Byte>, region: Region, pairs: seq<Pair>, o: OpenQ)
    requires RegionFits(data, region)
  {
    && WholeRun(data, region, pairs)
    && o.payload < region.finalBegin
    && (if pairs == [] then o.payload == region.middleBegin
        else Linked(data, region, pairs, |pairs| - 1, o.payload) && pairs[|pairs| - 1].r3 < o.r0)
  }

  // How many of the payloads, the last one reaching to end, hold grouped references.
  function GroupedTo(pairs: seq<Pair>, end: int): nat {
    if pairs == [] then 0
    else
      var last := pairs[|pairs| - 1];
      GroupedTo(pairs[..|pairs| - 1], last.payload) + if end - last.payload != 16 then 1 else 0
  }

  ghost predicate WholeState(pairs: seq<Pair>, st: PairState) {
    if pairs == [] then st == PAIR_START
    else
      var n := |pairs|;
      && st.ordinal == 2 * n
      && st.payload == Some(pairs[n - 1].payload) && st.boundary == Some(pairs[n - 1].r3)
      && st.combined == (if n == 1 then None else Some(pairs[n - 2].r3))
      && st.refs == RefsOf(pairs[n - 1])
      && st.grouped == GroupedTo(pairs[..n - 1], pairs[n - 1].payload)
  }

  ghost predicate OpenState(pairs: seq<Pair>, o: OpenQ, st: PairState) {
    var n := |pairs|;
    && st.ordinal == 2 * n + 1
    && st.payload == Some(o.payload) && st.boundary == Some(o.r0)
    && st.combined == (if n == 0 then None else Some(pairs[n - 1].r3))
    && |st.refs| == 4 && st.refs[0] == o.r0
    && st.grouped == GroupedTo(pairs, o.payload)
  }

  lemma TakeQ(data: seq<Byte>, region: Region, pairs: seq<Pair>, st: PairState, o: OpenQ)
    requires RegionFits(data, region) && WholeRun(data, region, pairs) && WholeState(pairs, st)
    ensures |st.refs| == 4
    ensures PairStep(data, region, Q(o.payload, o.r0), st).Some? <==> OpenRun(data, region, pairs, o)
    ensures OpenRun(data, region, pairs, o) ==>
            OpenState(pairs, o, PairStep(data, region, Q(o.payload, o.r0), st).value)
  {
  }

  lemma WholeRunGrows(data: seq<Byte>, region: Region, pairs: seq<Pair>, o: OpenQ, p: Pair)
    requires RegionFits(data, region) && OpenRun(data, region, pairs, o) && p.payload == o.payload && p.r0 == o.r0
    ensures WholeRun(data, region, pairs + [p]) <==> o.r0 < p.r1 < p.r2 < p.r3
  {
    hide Linked;
    var next := pairs + [p];
    assert next[|pairs|] == p;
    if o.r0 < p.r1 < p.r2 < p.r3 {
      forall i, j | 0 <= i < |next| && j == i + 1 < |next| ensures Linked(data, region, next, i, next[j].payload) {
        LinkedInPrefix(data, region, pairs, p, i, next[j].payload);
      }
    }
  }

  lemma TakeP(data: seq<Byte>, region: Region, pairs: seq<Pair>, o: OpenQ, st: PairState, p: Pair)
    requires RegionFits(data, region) && OpenRun(data, region, pairs, o) && OpenState(pairs, o, st)
    requires p.payload == o.payload && p.r0 == o.r0
    ensures PairStep(data, region, P(p.r1, p.r2, p.r3), st).Some? <==> WholeRun(data, region, pairs + [p])
    ensures WholeRun(data, region, pairs + [p]) ==>
            WholeState(pairs + [p], PairStep(data, region, P(p.r1, p.r2, p.r3), st).value)
  {
    hide OpenRun, WholeRun, GroupedTo, MiddleReferencesValid, IsObservedMiddleSpan;
    WholeRunGrows(data, region, pairs, o, p);
    var next := pairs + [p];
    assert next[|pairs|] == p && next[..|next| - 1] == pairs;
  }

  lemma LinkedInPrefix(data: seq<Byte>, region: Region, pairs: seq<Pair>, p: Pair, j: nat, end: nat)
    requires RegionFits(data, region) && j < |pairs|
    ensures Linked(data, region, pairs + [p], j, end) <==> Linked(data, region, pairs, j, end)
  {
  }

  // A chain's prefix of whole pairs, and the open Q after it, are runs.
  lemma WholeRunShrinks(data: seq<Byte>, region: Region, pairs: seq<Pair>)
    requires RegionFits(data, region) && pairs != [] && WholeRun(data, region, pairs)
    ensures var last := pairs[|pairs| - 1];
      && WholeRun(data, region, pairs[..|pairs| - 1])
      && OpenRun(data, region, pairs[..|pairs| - 1], OpenQ(last.payload, last.r0))
  {
    hide Linked;
    var n := |pairs| - 1;
    var init := pairs[..n];
    assert pairs == init + [pairs[n]];
    assert Ordered(init);
    forall i, j | 0 <= i < |init| && j == i + 1 < |init| ensures Linked(data, region, init, i, init[j].payload) {
      assert Linked(data, region, pairs, i, pairs[j].payload);
      LinkedInPrefix(data, region, init, pairs[n], i, init[j].payload);
    }
    assert WholeRun(data, region, init);
    if n > 0 {
      assert Linked(data, region, pairs, n - 1, pairs[n].payload);
      LinkedInPrefix(data, region, init, pairs[n], n - 1, pairs[n].payload);
    }
  }

  lemma {:induction false} RunOfPairs(data: seq<Byte>, region: Region, pairs: seq<Pair>)
    requires RegionFits(data, region) && WholeRun(data, region, pairs)
    ensures PairRun(data, region, Flatten(pairs)).Some?
    ensures WholeState(pairs, PairRun(data, region, Flatten(pairs)).value)
  {
    hide WholeRun, OpenRun, OpenState, WholeState, PairStep, PairRun, Flatten;
    FlattenEnds(pairs);
    if pairs == [] {
      NoOthers(data, region);
    } else {
      var n := |pairs| - 1;
      var init, p := pairs[..n], pairs[n];
      var o := OpenQ(p.payload, p.r0);
      WholeRunShrinks(data, region, pairs);
      RunOfPairs(data, region, init);
      TakeQ(data, region, init, PairRun(data, region, Flatten(init)).value, o);
      RunAppends(data, region, Flatten(init), Q(p.payload, p.r0));
      assert pairs == init + [p];
      TakeP(data, region, init, o, PairRun(data, region, Flatten(init) + [Q(p.payload, p.r0)]).value, p);
      RunAppends(data, region, Flatten(init) + [Q(p.payload, p.r0)], P(p.r1, p.r2, p.r3));
    }
  }

  lemma FlattenEnds(pairs: seq<Pair>)
    ensures Flatten([]) == []
    ensures pairs != [] ==>
      var p := pairs[|pairs| - 1];
      Flatten(pairs) == Flatten(pairs[..|pairs| - 1]) + [Q(p.payload, p.r0)] + [P(p.r1, p.r2, p.r3)]
  {
  }

  lemma NoOthers(data: seq<Byte>, region: Region)
    requires RegionFits(data, region)
    ensures PairRun(data, region, []) == Some(PAIR_START) && WholeState([], PAIR_START)
  {
  }

  lemma RunAppends(data: seq<Byte>, region: Region, others: seq<Record>, record: Record)
    requires RegionFits(data, region) && PairRun(data, region, others).Some?
    ensures PairRun(data, region, others + [record]) ==
            PairStep(data, region, record, PairRun(data, region, others).value)
  {
    assert (others + [record])[..|others|] == others;
  }

  // The others read so far are whole pairs with at most one open Q behind them.
  ghost predicate Reads(data: seq<Byte>, region: Region, others: seq<Record>, st: PairState,
                        pairs: seq<Pair>, open: Option<OpenQ>)
    requires RegionFits(data, region)
  {
    match open
    case None => others == Flatten(pairs) && WholeRun(data, region, pairs) && WholeState(pairs, st)
    case Some(o) =>
      others == Flatten(pairs) + [Q(o.payload, o.r0)] && OpenRun(data, region, pairs, o) && OpenState(pairs, o, st)
  }

  lemma ReadNext(data: seq<Byte>, region: Region, others: seq<Record>, st: PairState,
                                    pairs: seq<Pair>, open: Option<OpenQ>, record: Record)
      returns (morePairs: seq<Pair>, stillOpen: Option<OpenQ>)
    requires RegionFits(data, region) && Reads(data, region, others, st, pairs, open)
    requires |st.refs| == 4 && PairStep(data, region, record, st).Some?
    ensures Reads(data, region, others + [record], PairStep(data, region, record, st).value, morePairs, stillOpen)
  {
    WrongTurn(data, region, pairs, open, st, record);
    match record
    case Q(payload, r0) =>
      TakeQ(data, region, pairs, st, OpenQ(payload, r0));
      morePairs, stillOpen := pairs, Some(OpenQ(payload, r0));
    case P(r1, r2, r3) =>
      var p := Pair(open.value.payload, open.value.r0, r1, r2, r3);
      TakeP(data, region, pairs, open.value, st, p);
      assert (pairs + [p])[..|pairs|] == pairs;
      morePairs, stillOpen := pairs + [p], None;
  }

  // Whatever the machine runs through is whole pairs, with at most one open Q behind them.
  lemma {:induction false} RunIsPairs(data: seq<Byte>, region: Region, others: seq<Record>)
      returns (pairs: seq<Pair>, open: Option<OpenQ>)
    requires RegionFits(data, region) && PairRun(data, region, others).Some?
    ensures Reads(data, region, others, PairRun(data, region, others).value, pairs, open)
  {
    if others == [] {
      pairs, open := [], None;
    } else {
      var n := |others| - 1;
      pairs, open := RunIsPairs(data, region, others[..n]);
      assert others == others[..n] + [others[n]];
      var st := PairRun(data, region, others[..n]).value;
      pairs, open := ReadNext(data, region, others[..n], st, pairs, open, others[n]);
    }
  }

  // Out of turn, the machine stops.
  lemma WrongTurn(data: seq<Byte>, region: Region, pairs: seq<Pair>, open: Option<OpenQ>,
                                     st: PairState, record: Record)
    requires RegionFits(data, region) && |st.refs| == 4 && PairStep(data, region, record, st).Some?
    requires match open case None => WholeState(pairs, st) case Some(o) => OpenState(pairs, o, st)
    ensures record.Q? ==> open.None?
    ensures record.P? ==> open.Some?
  {
    assert (2 * |pairs|) % 2 == 0 && (2 * |pairs| + 1) % 2 == 1;
  }

  lemma ChainIsWholeRun(data: seq<Byte>, region: Region, pairs: seq<Pair>)
    requires RegionFits(data, region) && PairChain(data, region, pairs)
    ensures WholeRun(data, region, pairs)
  {
    forall i: nat | i < |pairs| ensures pairs[i].r0 < pairs[i].r1 < pairs[i].r2 < pairs[i].r3
      ensures i > 0 ==> pairs[i - 1].r3 < pairs[i].r0
      ensures pairs[i].payload < region.finalBegin
    {
      if i + 1 < |pairs| {
        var j := i + 1;
        assert Linked(data, region, pairs, i, pairs[j].payload);
      } else {
        assert Linked(data, region, pairs, i, region.finalBegin);
      }
    }
  }

  // The final checks on a run of whole pairs say that it is a chain.
  lemma EndIsChain(data: seq<Byte>, region: Region, pairs: seq<Pair>, st: PairState)
    requires RegionFits(data, region) && WholeRun(data, region, pairs) && WholeState(pairs, st)
    ensures |st.refs| == 4
    ensures PairEnd(data, region, st, |pairs|) <==> PairChain(data, region, pairs)
    ensures forall count :: PairEnd(data, region, st, count) ==> count == |pairs|
  {
  }

  lemma ReadsToEnd(data: seq<Byte>, region: Region, others: seq<Record>, st: PairState,
                                      pairs: seq<Pair>, open: Option<OpenQ>, count: nat)
    requires RegionFits(data, region) && Reads(data, region, others, st, pairs, open)
    requires |st.refs| == 4 && PairEnd(data, region, st, count)
    ensures |pairs| == count && others == Flatten(pairs) && PairChain(data, region, pairs)
  {
    assert open.Some? ==> st.ordinal == 2 * |pairs| + 1;
    EndIsChain(data, region, pairs, st);
  }

  lemma AcceptedIsChain(data: seq<Byte>, region: Region, others: seq<Record>, count: nat)
      returns (pairs: seq<Pair>)
    requires RegionFits(data, region) && PairsAccepted(data, region, others, count)
    ensures |pairs| == count && others == Flatten(pairs) && PairChain(data, region, pairs)
  {
    var open;
    pairs, open := RunIsPairs(data, region, others);
    ReadsToEnd(data, region, others, PairRun(data, region, others).value, pairs, open, count);
  }

  lemma ChainIsAccepted(data: seq<Byte>, region: Region, pairs: seq<Pair>)
    requires RegionFits(data, region) && PairChain(data, region, pairs)
    ensures PairsAccepted(data, region, Flatten(pairs), |pairs|)
  {
    ChainIsWholeRun(data, region, pairs);
    RunOfPairs(data, region, pairs);
    EndIsChain(data, region, pairs, PairRun(data, region, Flatten(pairs)).value);
  }

  // The pair machine accepts exactly the flattened chains.
  lemma PairMachine(data: seq<Byte>, region: Region, others: seq<Record>, count: nat)
    requires RegionFits(data, region)
    ensures PairsAccepted(data, region, others, count) <==>
            exists pairs :: |pairs| == count && others == Flatten(pairs) && PairChain(data, region, pairs)
  {
    if PairsAccepted(data, region, others, count) {
      var pairs := AcceptedIsChain(data, region, others, count);
    }
    if pairs :| |pairs| == count && others == Flatten(pairs) && PairChain(data, region, pairs) {
      ChainIsAccepted(data, region, pairs);
    }
  }
}
