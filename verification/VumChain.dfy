// The pair chain of a VUM payload as a whole: one increasing list of all references, and
// payloads that tile the middle region.
module VumChain {
  import opened Bytes
  import opened Options
  import opened VumLayout

  ghost predicate Increasing(s: seq<nat>) { forall i, j | 0 <= i < j < |s| :: s[i] < s[j] }

  // ---------- payloads ----------

  // Where payload j ends: at the next payload, or at the final region.
  function EndOf(region: Region, pairs: seq<Pair>, j: nat): nat
    requires j < |pairs|
  {
    if j + 1 < |pairs| then pairs[j + 1].payload else region.finalBegin
  }

  predicate Spans(region: Region, p: Pair, end: nat) {
    p.payload < end <= region.finalBegin && end - p.payload in {16, 256, 480, 704}
  }

  // The payloads follow each other through the middle region, each of an observed size.
  ghost predicate PayloadsTile(region: Region, pairs: seq<Pair>) {
    && (if pairs == [] then region.middleBegin == region.finalBegin else pairs[0].payload == region.middleBegin)
    && forall j: nat | j < |pairs| :: Spans(region, pairs[j], EndOf(region, pairs, j))
  }

  predicate OwnsByte(region: Region, pairs: seq<Pair>, j: nat, x: nat)
    requires j < |pairs|
  {
    pairs[j].payload <= x < EndOf(region, pairs, j)
  }

  lemma PayloadSpans(region: Region, pairs: seq<Pair>, j: nat)
    requires PayloadsTile(region, pairs) && j < |pairs|
    ensures Spans(region, pairs[j], EndOf(region, pairs, j)) && pairs[0].payload == region.middleBegin
    ensures pairs[j].payload < EndOf(region, pairs, j) <= region.finalBegin
  {
  }

  lemma {:induction false} OwnerUpTo(region: Region, pairs: seq<Pair>, n: nat, x: nat) returns (j: nat)
    requires PayloadsTile(region, pairs) && n < |pairs| && region.middleBegin <= x < EndOf(region, pairs, n)
    ensures j <= n && OwnsByte(region, pairs, j, x)
  {
    hide PayloadsTile;
    j := n;
    PayloadSpans(region, pairs, n);
    if x < pairs[n].payload {
      var before: nat := n - 1;
      j := OwnerUpTo(region, pairs, before, x);
    }
  }

  lemma {:induction false} PayloadsApart(region: Region, pairs: seq<Pair>, i: nat, j: nat)
    requires PayloadsTile(region, pairs) && i < j < |pairs|
    ensures EndOf(region, pairs, i) <= pairs[j].payload
    decreases j
  {
    hide PayloadsTile, Spans;
    var k: nat := j - 1;
    PayloadSpans(region, pairs, k);
    if i < k {
      PayloadsApart(region, pairs, i, k);
    }
  }

  // Every byte of the middle region lies in exactly one payload, and payloads hold no other.
  lemma MiddleByteHasOneOwner(region: Region, pairs: seq<Pair>, x: nat)
    requires PayloadsTile(region, pairs)
    ensures region.middleBegin <= x < region.finalBegin <==>
            exists j: nat :: j < |pairs| && OwnsByte(region, pairs, j, x)
    ensures forall i: nat, j: nat | i < |pairs| && j < |pairs| ::
              OwnsByte(region, pairs, i, x) && OwnsByte(region, pairs, j, x) ==> i == j
  {
    hide Spans;
    if region.middleBegin <= x < region.finalBegin {
      var last: nat := |pairs| - 1;
      var j := OwnerUpTo(region, pairs, last, x);
    }
    forall j: nat | j < |pairs| && OwnsByte(region, pairs, j, x) ensures region.middleBegin <= x < region.finalBegin {
      PayloadSpans(region, pairs, j);
      if j > 0 {
        PayloadSpans(region, pairs, 0);
        PayloadsApart(region, pairs, 0, j);
      }
    }
    forall i: nat, j: nat | i < |pairs| && j < |pairs| && OwnsByte(region, pairs, i, x) && OwnsByte(region, pairs, j, x)
      ensures i == j
    {
      if i < j { PayloadsApart(region, pairs, i, j); }
      if j < i { PayloadsApart(region, pairs, j, i); }
    }
  }

  // ---------- references ----------

  // The references a payload itself holds: one, or two when it is grouped.
  function Held(data: seq<Byte>, region: Region, p: Pair, end: nat): (r: seq<nat>)
    requires RegionFits(data, region) && Spans(region, p, end)
    ensures |r| == if end - p.payload == 16 then 1 else 2
  {
    if end - p.payload == 16 then [U32At(data, p.payload + 4)]
    else [U32At(data, p.payload + 0x74), U32At(data, p.payload + 0xF4)]
  }

  // The references of a payload and of its pair, in the order the chain takes them.
  function Part(data: seq<Byte>, region: Region, p: Pair, end: nat): (r: seq<nat>)
    requires RegionFits(data, region) && Spans(region, p, end)
    ensures |r| >= 5 && r[|r| - 1] == p.r3
  {
    var held := Held(data, region, p, end);
    [held[0], p.r0, p.r1] + held[1..] + [p.r2, p.r3]
  }

  // The references of the first n pairs in one list.
  ghost function References(data: seq<Byte>, region: Region, pairs: seq<Pair>, n: nat): (r: seq<nat>)
    requires RegionFits(data, region) && PayloadsTile(region, pairs) && n <= |pairs|
    ensures n > 0 ==> r != [] && r[|r| - 1] == pairs[n - 1].r3
  {
    if n == 0 then []
    else
      var k := n - 1;
      References(data, region, pairs, k) + Part(data, region, pairs[k], EndOf(region, pairs, k))
  }

  ghost predicate HeldAligned(data: seq<Byte>, region: Region, p: Pair, end: nat)
    requires RegionFits(data, region) && Spans(region, p, end)
  {
    forall i | 0 <= i < |Held(data, region, p, end)| :: Held(data, region, p, end)[i] % 16 == 0
  }

  // The payloads tile the middle region; all references are one increasing list that starts
  // sixteen bytes into the final region and ends at its tail; those in payloads are aligned.
  ghost predicate OneChain(data: seq<Byte>, region: Region, pairs: seq<Pair>)
    requires RegionFits(data, region)
  {
    && PayloadsTile(region, pairs)
    && if pairs == [] then region.primaryEnd - region.finalBegin == 16
       else
         var refs := References(data, region, pairs, |pairs|);
         && Increasing(refs) && refs[0] == region.finalBegin + 16
         && region.primaryEnd - refs[|refs| - 1] in {4, 8, 12, 16}
         && forall j: nat | j < |pairs| :: HeldAligned(data, region, pairs[j], EndOf(region, pairs, j))
  }

  lemma IncreasingAppends(a: seq<nat>, b: seq<nat>)
    requires b != []
    ensures Increasing(a + b) <==> Increasing(a) && Increasing(b) && (a != [] ==> a[|a| - 1] < b[0])
  {
    var s := a + b;
    if Increasing(s) {
      forall i, j | 0 <= i < j < |a| ensures a[i] < a[j] { assert s[i] < s[j]; }
      forall i, j | 0 <= i < j < |b| ensures b[i] < b[j] { assert s[|a| + i] < s[|a| + j]; }
      if a != [] { assert s[|a| - 1] < s[|a|]; }
    }
    if Increasing(a) && Increasing(b) && (a != [] ==> a[|a| - 1] < b[0]) {
      forall i, j | 0 <= i < j < |s| ensures s[i] < s[j] {
        if j >= |a| {
          assert b[0] <= b[j - |a|];
          if i < |a| { assert a[i] <= a[|a| - 1]; }
        }
      }
    }
  }

  lemma FiveIncrease(a: nat, b: nat, c: nat, d: nat, e: nat)
    ensures Increasing([a, b, c, d, e]) <==> a < b < c < d < e
  {
    var s := [a, b, c, d, e];
    assert Increasing(s) ==> s[0] < s[1] < s[2] < s[3] < s[4];
  }

  lemma SixIncrease(a: nat, b: nat, c: nat, d: nat, e: nat, f: nat)
    ensures Increasing([a, b, c, d, e, f]) <==> a < b < c < d < e < f
  {
    var s := [a, b, c, d, e, f];
    assert Increasing(s) ==> s[0] < s[1] < s[2] < s[3] < s[4] < s[5];
  }

  // The code's test of one payload, in terms of the list: the part increases, continues after
  // what came before, and holds aligned references inside the final region.
  lemma MiddleIsPart(data: seq<Byte>, region: Region, p: Pair, end: nat, previous: Option<nat>)
    requires RegionFits(data, region) && Spans(region, p, end)
    ensures MiddleReferencesValid(data, region, p.payload, end - p.payload, RefsOf(p), previous) <==>
      var part, held := Part(data, region, p, end), Held(data, region, p, end);
      && Increasing(part) && HeldAligned(data, region, p, end)
      && (match previous case None => part[0] == region.finalBegin + 16 case Some(b) => b < part[0])
      && forall i | 0 <= i < |held| :: region.finalBegin < held[i] < region.primaryEnd
  {
    hide U32At, Increasing;
    var held, part := Held(data, region, p, end), Part(data, region, p, end);
    if end - p.payload == 16 {
      assert part == [held[0], p.r0, p.r1, p.r2, p.r3];
      FiveIncrease(held[0], p.r0, p.r1, p.r2, p.r3);
    } else {
      assert part == [held[0], p.r0, p.r1, held[1], p.r2, p.r3];
      SixIncrease(held[0], p.r0, p.r1, held[1], p.r2, p.r3);
    }
  }

  // A part follows what came before it, in the list.
  ghost predicate PartFollows(data: seq<Byte>, region: Region, pairs: seq<Pair>, j: nat)
    requires RegionFits(data, region) && PayloadsTile(region, pairs) && j < |pairs|
  {
    var part := Part(data, region, pairs[j], EndOf(region, pairs, j));
    Increasing(part) && (j > 0 ==> pairs[j - 1].r3 < part[0])
  }

  lemma {:induction false} ReferencesIncrease(data: seq<Byte>, region: Region, pairs: seq<Pair>, n: nat)
    requires RegionFits(data, region) && PayloadsTile(region, pairs) && n <= |pairs|
    ensures Increasing(References(data, region, pairs, n)) <==>
            forall j: nat | j < n :: PartFollows(data, region, pairs, j)
  {
    hide PayloadsTile, Increasing, Part, EndOf;
    if n == 0 {
      NothingIncreases();
    } else {
      var k: nat := n - 1;
      ReferencesIncrease(data, region, pairs, k);
      PayloadSpans(region, pairs, k);
      var before, part := References(data, region, pairs, k), Part(data, region, pairs[k], EndOf(region, pairs, k));
      IncreasingAppends(before, part);
      assert before == [] <==> k == 0;
      assert PartFollows(data, region, pairs, k) <==>
             Increasing(part) && (before != [] ==> before[|before| - 1] < part[0]);
    }
  }

  lemma NothingIncreases()
    ensures Increasing([])
  {
  }

  // Where part j stands in the list.
  lemma {:induction false} PartStands(data: seq<Byte>, region: Region, pairs: seq<Pair>, n: nat, j: nat)
      returns (at: nat)
    requires RegionFits(data, region) && PayloadsTile(region, pairs) && j < n <= |pairs|
    ensures var refs, part := References(data, region, pairs, n), Part(data, region, pairs[j], EndOf(region, pairs, j));
      && at + |part| <= |refs| && refs[at..at + |part|] == part && (j == 0 ==> at == 0)
    decreases n
  {
    hide PayloadsTile, Part, EndOf;
    var k: nat := n - 1;
    if j == k {
      at := |References(data, region, pairs, k)|;
    } else {
      at := PartStands(data, region, pairs, k, j);
    }
  }

  lemma HeldInPart(data: seq<Byte>, region: Region, p: Pair, end: nat, i: nat)
    requires RegionFits(data, region) && Spans(region, p, end) && i < |Held(data, region, p, end)|
    ensures Part(data, region, p, end)[if i == 0 then 0 else 3] == Held(data, region, p, end)[i]
  {
  }

  // Every reference held by a payload lies strictly between the ends of the list.
  lemma HeldInside(data: seq<Byte>, region: Region, pairs: seq<Pair>, j: nat, i: nat)
    requires RegionFits(data, region) && PayloadsTile(region, pairs) && j < |pairs|
    requires Spans(region, pairs[j], EndOf(region, pairs, j))
    requires i < |Held(data, region, pairs[j], EndOf(region, pairs, j))|
    requires Increasing(References(data, region, pairs, |pairs|))
    ensures var refs := References(data, region, pairs, |pairs|);
      refs[0] <= Held(data, region, pairs[j], EndOf(region, pairs, j))[i] < refs[|refs| - 1]
  {
    hide PayloadsTile, Part, Held, EndOf, References, Spans;
    var end := EndOf(region, pairs, j);
    var refs, part := References(data, region, pairs, |pairs|), Part(data, region, pairs[j], end);
    var at := PartStands(data, region, pairs, |pairs|, j);
    HeldInPart(data, region, pairs[j], end, i);
    var k := at + if i == 0 then 0 else 3;
    assert refs[k] == part[k - at];
  }

  lemma LinkedIsPart(data: seq<Byte>, region: Region, pairs: seq<Pair>, j: nat, end: nat)
    requires RegionFits(data, region) && j < |pairs|
    ensures Linked(data, region, pairs, j, end) <==>
      && Spans(region, pairs[j], end)
      && MiddleReferencesValid(data, region, pairs[j].payload, end - pairs[j].payload, RefsOf(pairs[j]),
                               if j == 0 then None else Some(pairs[j - 1].r3))
  {
  }

  // A chain is one linked payload after the other.
  lemma ChainLinks(data: seq<Byte>, region: Region, pairs: seq<Pair>)
    requires RegionFits(data, region) && pairs != []
    ensures PairChain(data, region, pairs) <==>
      && pairs[0].payload == region.middleBegin
      && (forall j: nat | j < |pairs| :: Linked(data, region, pairs, j, EndOf(region, pairs, j)))
      && IsObservedFinalTail(region.primaryEnd - pairs[|pairs| - 1].r3)
  {
    hide Linked, IsObservedFinalTail;
    var last: nat := |pairs| - 1;
    if PairChain(data, region, pairs) {
      forall j: nat | j < |pairs| ensures Linked(data, region, pairs, j, EndOf(region, pairs, j)) {
        if j < last {
          var next := j + 1;
          assert Linked(data, region, pairs, j, pairs[next].payload);
        }
      }
    }
    if forall j: nat | j < |pairs| :: Linked(data, region, pairs, j, EndOf(region, pairs, j)) {
      forall i, j | 0 <= i < |pairs| && j == i + 1 < |pairs| ensures Linked(data, region, pairs, i, pairs[j].payload) {
        assert Linked(data, region, pairs, i, EndOf(region, pairs, i));
      }
      assert Linked(data, region, pairs, last, EndOf(region, pairs, last));
    }
  }

  lemma LinkFollows(data: seq<Byte>, region: Region, pairs: seq<Pair>, j: nat)
    requires RegionFits(data, region) && PayloadsTile(region, pairs) && j < |pairs|
    requires Linked(data, region, pairs, j, EndOf(region, pairs, j))
    ensures PartFollows(data, region, pairs, j) && Spans(region, pairs[j], EndOf(region, pairs, j))
    ensures HeldAligned(data, region, pairs[j], EndOf(region, pairs, j))
    ensures j == 0 ==> Part(data, region, pairs[j], EndOf(region, pairs, j))[0] == region.finalBegin + 16
  {
    hide PayloadsTile, Linked, MiddleReferencesValid, Increasing, Part, Held, HeldAligned, EndOf;
    var end, previous := EndOf(region, pairs, j), if j == 0 then None else Some(pairs[j - 1].r3);
    LinkedIsPart(data, region, pairs, j, end);
    MiddleIsPart(data, region, pairs[j], end, previous);
  }

  lemma FollowsLink(data: seq<Byte>, region: Region, pairs: seq<Pair>, j: nat)
    requires RegionFits(data, region) && OneChain(data, region, pairs) && j < |pairs|
    ensures Linked(data, region, pairs, j, EndOf(region, pairs, j))
  {
    hide PayloadsTile, Linked, MiddleReferencesValid, Increasing, Part, Held, HeldAligned, EndOf, References, Spans;
    var end, previous := EndOf(region, pairs, j), if j == 0 then None else Some(pairs[j - 1].r3);
    PayloadSpans(region, pairs, j);
    ReferencesIncrease(data, region, pairs, |pairs|);
    assert PartFollows(data, region, pairs, j);
    var refs := References(data, region, pairs, |pairs|);
    forall i: nat | i < |Held(data, region, pairs[j], end)|
      ensures region.finalBegin < Held(data, region, pairs[j], end)[i] < region.primaryEnd
    {
      HeldInside(data, region, pairs, j, i);
    }
    if j == 0 {
      ListStarts(data, region, pairs);
    }
    MiddleIsPart(data, region, pairs[j], end, previous);
    LinkedIsPart(data, region, pairs, j, end);
  }

  lemma ListStarts(data: seq<Byte>, region: Region, pairs: seq<Pair>)
    requires RegionFits(data, region) && PayloadsTile(region, pairs) && pairs != []
    ensures Spans(region, pairs[0], EndOf(region, pairs, 0))
    ensures References(data, region, pairs, |pairs|)[0] == Part(data, region, pairs[0], EndOf(region, pairs, 0))[0]
  {
    hide Part, References, EndOf, Spans;
    PayloadSpans(region, pairs, 0);
    var at := PartStands(data, region, pairs, |pairs|, 0);
    var part := Part(data, region, pairs[0], EndOf(region, pairs, 0));
    assert References(data, region, pairs, |pairs|)[at..at + |part|][0] == part[0];
  }

  lemma LinksTile(data: seq<Byte>, region: Region, pairs: seq<Pair>)
    requires RegionFits(data, region) && pairs != [] && pairs[0].payload == region.middleBegin
    requires forall j: nat | j < |pairs| :: Linked(data, region, pairs, j, EndOf(region, pairs, j))
    ensures PayloadsTile(region, pairs)
  {
    hide Linked, EndOf, MiddleReferencesValid;
    forall j: nat | j < |pairs| ensures Spans(region, pairs[j], EndOf(region, pairs, j)) {
      LinkedIsPart(data, region, pairs, j, EndOf(region, pairs, j));
    }
  }

  // The chain the code checks link by link is one increasing list of references over payloads
  // that tile the middle region.
  lemma ChainIsOneList(data: seq<Byte>, region: Region, pairs: seq<Pair>)
    requires RegionFits(data, region)
    ensures PairChain(data, region, pairs) <==> OneChain(data, region, pairs)
  {
    if pairs != [] {
      hide PairChain, Linked, Spans, Increasing, Part, Held, HeldAligned, EndOf, References, IsObservedFinalTail;
      ChainLinks(data, region, pairs);
      if PairChain(data, region, pairs) {
        LinksTile(data, region, pairs);
        forall j: nat | j < |pairs|
          ensures Spans(region, pairs[j], EndOf(region, pairs, j)) && PartFollows(data, region, pairs, j)
          ensures HeldAligned(data, region, pairs[j], EndOf(region, pairs, j))
        {
          LinkFollows(data, region, pairs, j);
        }
        ReferencesIncrease(data, region, pairs, |pairs|);
        LinkFollows(data, region, pairs, 0);
        ListStarts(data, region, pairs);
      }
      if OneChain(data, region, pairs) {
        forall j: nat | j < |pairs| ensures Linked(data, region, pairs, j, EndOf(region, pairs, j)) {
          FollowsLink(data, region, pairs, j);
        }
        PayloadSpans(region, pairs, 0);
      }
    }
  }
}
