// VUM payload files written out part by part, and the proof that the validator accepts exactly
// what can be written: every count and position is stated where it stands in the file.
module VumImage {
  import opened Bytes
  import opened Options
  import opened VumLayout
  import opened VumChain
  import opened VumPayload

  // The parts of a file in order; words holds four words a metadata record, spare the header
  // words the contract does not read.
  datatype Plan = Plan(spare: seq<nat>, pairs: nat, targets: nat, nameCount: nat, materialCount: nat,
                       names: seq<Byte>, materials: seq<Byte>, words: seq<nat>, padding: nat,
                       middle: seq<Byte>, final: seq<Byte>, rest: seq<Byte>)

  function NamesEnd(p: Plan): nat { 112 + |p.names| }

  function MaterialsEnd(p: Plan): nat { NamesEnd(p) + |p.materials| }

  function RecordsEnd(p: Plan): nat { MaterialsEnd(p) + 4 * |p.words| }

  function MiddleBegin(p: Plan): nat { RecordsEnd(p) + p.padding }

  function FinalBegin(p: Plan): nat { MiddleBegin(p) + |p.middle| }

  function PrimaryEnd(p: Plan): nat { FinalBegin(p) + |p.final| }

  // The 28 header words; the first spells VUMS.
  function HeadOf(p: Plan): (w: seq<nat>)
    requires |p.spare| == 15
    ensures |w| == 28
  {
    [0x534D_5556, p.spare[0], p.spare[1], 2 * p.pairs + 1, p.targets, p.nameCount, p.materialCount] + p.spare[2..]
      + [NamesEnd(p), MaterialsEnd(p), PrimaryEnd(p), MiddleBegin(p), FinalBegin(p), 0, 0, 0]
  }

  ghost predicate PlanOk(p: Plan, maximumInputBytes: nat, maximumItems: nat) {
    && |p.spare| == 15 && (forall i | 0 <= i < 28 :: HeadOf(p)[i] < U32_LIMIT)
    && |p.names| % 4 == 0 && p.nameCount > 0 && p.materialCount > 0 && |p.materials| == 92 * p.materialCount
    && |p.words| == 4 * (2 * p.pairs + p.targets) && 2 * p.pairs + p.targets <= maximumItems
    && (forall i | 0 <= i < |p.words| :: p.words[i] < U32_LIMIT)
    && p.padding <= 12 && MiddleBegin(p) % 16 == 0 && |p.middle| % 16 == 0 && |p.final| % 16 == 0
    && |p.rest| % 16 == 0 && PrimaryEnd(p) + |p.rest| <= maximumInputBytes
  }

  function Image(p: Plan): seq<Byte>
    requires |p.spare| == 15 && (forall i | 0 <= i < 28 :: HeadOf(p)[i] < U32_LIMIT)
    requires forall i | 0 <= i < |p.words| :: p.words[i] < U32_LIMIT
  {
    WordBytes(HeadOf(p)) + (p.names + (p.materials + (WordBytes(p.words) + (Zeros(p.padding)
      + (p.middle + (p.final + p.rest))))))
  }

  // ---------- writing ----------

  lemma HeadWord(p: Plan, maximumInputBytes: nat, maximumItems: nat, i: nat)
    requires PlanOk(p, maximumInputBytes, maximumItems) && i < 28
    ensures |Image(p)| >= 112 && U32At(Image(p), 4 * i) == HeadOf(p)[i]
  {
    hide WordBytes, U32At, HeadOf;
    var after := p.names + (p.materials + (WordBytes(p.words) + (Zeros(p.padding) + (p.middle + (p.final + p.rest)))));
    WordBytesAt(HeadOf(p), [], after, i);
    assert [] + WordBytes(HeadOf(p)) + after == Image(p);
  }

  lemma RecordWord(p: Plan, maximumInputBytes: nat, maximumItems: nat, i: nat)
    requires PlanOk(p, maximumInputBytes, maximumItems) && i < |p.words|
    ensures RecordsEnd(p) <= |Image(p)| && U32At(Image(p), MaterialsEnd(p) + 4 * i) == p.words[i]
  {
    hide WordBytes, U32At, HeadOf;
    var before := WordBytes(HeadOf(p)) + (p.names + p.materials);
    var after := Zeros(p.padding) + (p.middle + (p.final + p.rest));
    WordBytesAt(p.words, before, after, i);
    assert before + WordBytes(p.words) + after == Image(p);
  }

  lemma PaddingStands(p: Plan, maximumInputBytes: nat, maximumItems: nat)
    requires PlanOk(p, maximumInputBytes, maximumItems)
    ensures |Image(p)| == PrimaryEnd(p) + |p.rest|
    ensures forall i | RecordsEnd(p) <= i < MiddleBegin(p) :: Image(p)[i] == 0
  {
    hide WordBytes, HeadOf;
    var before := WordBytes(HeadOf(p)) + (p.names + (p.materials + WordBytes(p.words)));
    assert Image(p) == before + (Zeros(p.padding) + (p.middle + (p.final + p.rest)));
    assert |before| == RecordsEnd(p);
  }

  // What the validator takes from the header of a written file.
  lemma HeaderIs(p: Plan, maximumInputBytes: nat, maximumItems: nat)
    requires PlanOk(p, maximumInputBytes, maximumItems)
    ensures |Image(p)| >= 112
    ensures HeaderOf(Image(p)) ==
      Header(p.nameCount, p.materialCount, NamesEnd(p), MaterialsEnd(p), PrimaryEnd(p), MiddleBegin(p), FinalBegin(p),
             2 * p.pairs + 1, p.targets)
    ensures U32At(Image(p), 0) == 0x534D_5556
    ensures U32At(Image(p), 100) == U32At(Image(p), 104) == U32At(Image(p), 108) == 0
  {
    hide Image, U32At;
    HeadWord(p, maximumInputBytes, maximumItems, 0);
    HeadWord(p, maximumInputBytes, maximumItems, 3);
    HeadWord(p, maximumInputBytes, maximumItems, 4);
    HeadWord(p, maximumInputBytes, maximumItems, 5);
    HeadWord(p, maximumInputBytes, maximumItems, 6);
    HeadWord(p, maximumInputBytes, maximumItems, 20);
    HeadWord(p, maximumInputBytes, maximumItems, 21);
    HeadWord(p, maximumInputBytes, maximumItems, 22);
    HeadWord(p, maximumInputBytes, maximumItems, 23);
    HeadWord(p, maximumInputBytes, maximumItems, 24);
    HeadWord(p, maximumInputBytes, maximumItems, 25);
    HeadWord(p, maximumInputBytes, maximumItems, 26);
    HeadWord(p, maximumInputBytes, maximumItems, 27);
  }

  lemma MagicIs(data: seq<Byte>)
    requires |data| >= 4
    ensures data[..4] == [0x56, 0x55, 0x4D, 0x53] <==> U32At(data, 0) == 0x534D_5556
  {
    U32Unique(data, 0);
    assert U32Bytes(0x534D_5556) == [0x56, 0x55, 0x4D, 0x53];
    assert data[0..4] == data[..4];
  }

  lemma CountsAre(p: Plan, h: Header)
    requires h.pairedCountWord == 2 * p.pairs + 1 && h.targetCount == p.targets && h.materialsEnd == MaterialsEnd(p)
    requires |p.words| == 4 * (2 * p.pairs + p.targets)
    ensures PairCount(h) == p.pairs && RecordCount(h) == 2 * p.pairs + p.targets && MetadataEnd(h) == RecordsEnd(p)
  {
    assert (2 * p.pairs + 1 - 1) / 2 == p.pairs;
  }

  lemma SectionsAre(p: Plan, maximumInputBytes: nat, maximumItems: nat, h: Header)
    requires PlanOk(p, maximumInputBytes, maximumItems)
    requires h.namesEnd == NamesEnd(p) && h.materialsEnd == MaterialsEnd(p) && h.primaryEnd == PrimaryEnd(p)
    requires h.middleBegin == MiddleBegin(p) && h.finalBegin == FinalBegin(p)
    requires h.nameCount == p.nameCount && h.materialCount == p.materialCount
    ensures SectionsValid(h, PrimaryEnd(p) + |p.rest|)
  {
    hide HeadOf;
    FoursAdd(112, |p.names|);
    FoursAdd(NamesEnd(p), |p.materials|);
    SixteensAdd(MiddleBegin(p), |p.middle|);
    SixteensAdd(FinalBegin(p), |p.final|);
  }

  lemma FoursAdd(a: nat, b: nat)
    requires a % 4 == 0 && b % 4 == 0
    ensures (a + b) % 4 == 0
  {
  }

  lemma SixteensAdd(a: nat, b: nat)
    requires a % 16 == 0 && b % 16 == 0
    ensures (a + b) % 16 == 0
  {
  }

  lemma SizesAre(p: Plan, maximumInputBytes: nat, maximumItems: nat)
    requires PlanOk(p, maximumInputBytes, maximumItems)
    ensures var size := PrimaryEnd(p) + |p.rest|; 112 <= size <= maximumInputBytes && size % 16 == 0
    ensures |p.words| == 4 * (2 * p.pairs + p.targets) && 2 * p.pairs + p.targets <= maximumItems && p.padding <= 12
    ensures (2 * p.pairs + 1) % 2 == 1
  {
    hide HeadOf;
    SixteensAdd(MiddleBegin(p), |p.middle|);
    SixteensAdd(FinalBegin(p), |p.final|);
    SixteensAdd(PrimaryEnd(p), |p.rest|);
  }

  lemma WrittenIsValid(p: Plan, maximumInputBytes: nat, maximumItems: nat)
    requires PlanOk(p, maximumInputBytes, maximumItems)
    ensures HeaderValid(Image(p), maximumInputBytes, maximumItems)
  {
    var image := Image(p);
    hide Image, U32At, HeaderOf, HeadOf, SectionsValid, MetadataEnd, RecordCount, PairCount, PlanOk, NamesEnd,
         FinalBegin, PrimaryEnd, MaterialsEnd, RecordsEnd;
    HeaderIs(p, maximumInputBytes, maximumItems);
    PaddingStands(p, maximumInputBytes, maximumItems);
    MagicIs(image);
    var h := HeaderOf(image);
    SizesAre(p, maximumInputBytes, maximumItems);
    CountsAre(p, h);
    SectionsAre(p, maximumInputBytes, maximumItems, h);
  }

  // ---------- reading a plan back ----------

  // Cut the file where its header says.
  ghost function PlanFrom(data: seq<Byte>, h: Header): Plan
    requires 112 <= h.namesEnd <= h.materialsEnd <= MetadataEnd(h) <= h.middleBegin <= h.finalBegin
    requires h.finalBegin <= h.primaryEnd <= |data|
  {
    Plan([U32At(data, 4), U32At(data, 8)] + Words(data, 28, 13), PairCount(h), h.targetCount, h.nameCount,
         h.materialCount, data[112..h.namesEnd], data[h.namesEnd..h.materialsEnd],
         Words(data, h.materialsEnd, 4 * RecordCount(h)), h.middleBegin - MetadataEnd(h),
         data[h.middleBegin..h.finalBegin], data[h.finalBegin..h.primaryEnd], data[h.primaryEnd..])
  }

  lemma ValidSections(data: seq<Byte>, maximumInputBytes: nat, maximumItems: nat)
    requires HeaderValid(data, maximumInputBytes, maximumItems)
    ensures var h := HeaderOf(data);
      112 <= h.namesEnd <= h.materialsEnd <= MetadataEnd(h) <= h.middleBegin <= h.finalBegin <= h.primaryEnd <= |data|
  {
    hide U32At;
  }

  lemma WordsSplit(data: seq<Byte>, at: nat, a: nat, b: nat)
    requires at + 4 * (a + b) <= |data|
    ensures Words(data, at, a + b) == Words(data, at, a) + Words(data, at + 4 * a, b)
  {
    hide U32At;
    var whole, parts := Words(data, at, a + b), Words(data, at, a) + Words(data, at + 4 * a, b);
    forall i | 0 <= i < a + b ensures whole[i] == parts[i] {
      if i >= a { assert at + 4 * i == at + 4 * a + 4 * (i - a); }
    }
  }

  // The header words of the file are those of the plan cut from it.
  lemma HeadReadBack(data: seq<Byte>, h: Header)
    requires 112 <= h.namesEnd <= h.materialsEnd <= MetadataEnd(h) <= h.middleBegin <= h.finalBegin
    requires h.finalBegin <= h.primaryEnd <= |data|
    requires h == HeaderOf(data) && h.pairedCountWord % 2 == 1 && U32At(data, 0) == 0x534D_5556
    requires U32At(data, 100) == 0 && U32At(data, 104) == 0 && U32At(data, 108) == 0
    ensures |PlanFrom(data, h).spare| == 15 && Words(data, 0, 28) == HeadOf(PlanFrom(data, h))
  {
    var p := PlanFrom(data, h);
    PlanEnds(data, h);
    OddCount(h);
    hide U32At, PlanFrom, PairCount;
    WordsSplit(data, 0, 7, 21);
    WordsSplit(data, 28, 13, 8);
    FirstWords(data);
    LastWords(data);
    hide Words;
  }

  lemma FirstWords(data: seq<Byte>)
    requires |data| >= 28
    ensures Words(data, 0, 7) ==
      [U32At(data, 0), U32At(data, 4), U32At(data, 8), U32At(data, 12), U32At(data, 16), U32At(data, 20),
       U32At(data, 24)]
  {
    hide U32At;
  }

  lemma LastWords(data: seq<Byte>)
    requires |data| >= 112
    ensures Words(data, 80, 8) ==
      [U32At(data, 80), U32At(data, 84), U32At(data, 88), U32At(data, 92), U32At(data, 96), U32At(data, 100),
       U32At(data, 104), U32At(data, 108)]
  {
    hide U32At;
  }

  lemma OddCount(h: Header)
    requires h.pairedCountWord % 2 == 1
    ensures h.pairedCountWord == 2 * PairCount(h) + 1
  {
  }

  lemma PlanEnds(data: seq<Byte>, h: Header)
    requires 112 <= h.namesEnd <= h.materialsEnd <= MetadataEnd(h) <= h.middleBegin <= h.finalBegin
    requires h.finalBegin <= h.primaryEnd <= |data|
    ensures var p := PlanFrom(data, h);
      && NamesEnd(p) == h.namesEnd && MaterialsEnd(p) == h.materialsEnd && RecordsEnd(p) == MetadataEnd(h)
      && MiddleBegin(p) == h.middleBegin && FinalBegin(p) == h.finalBegin && PrimaryEnd(p) == h.primaryEnd
      && |p.spare| == 15 && p.spare[0] == U32At(data, 4) && p.spare[1] == U32At(data, 8)
      && p.spare[2..] == Words(data, 28, 13)
      && p.pairs == PairCount(h) && p.targets == h.targetCount
      && p.nameCount == h.nameCount && p.materialCount == h.materialCount
  {
    hide U32At;
  }

  // The file is the image of the plan cut from it.
  lemma BodyReadBack(data: seq<Byte>, h: Header)
    requires 112 <= h.namesEnd <= h.materialsEnd <= MetadataEnd(h) <= h.middleBegin <= h.finalBegin
    requires h.finalBegin <= h.primaryEnd <= |data|
    requires forall i | MetadataEnd(h) <= i < h.middleBegin :: data[i] == 0
    ensures var p := PlanFrom(data, h);
      data == WordBytes(Words(data, 0, 28)) + (p.names + (p.materials + (WordBytes(p.words) + (Zeros(p.padding)
              + (p.middle + (p.final + p.rest))))))
  {
    PartsAre(data, h);
    hide PlanFrom, WordBytes, Words, Zeros, MetadataEnd, U32At;
    InParts(data, 112, h.namesEnd, h.materialsEnd, MetadataEnd(h), h.middleBegin, h.finalBegin, h.primaryEnd);
  }

  lemma PartsAre(data: seq<Byte>, h: Header)
    requires 112 <= h.namesEnd <= h.materialsEnd <= MetadataEnd(h) <= h.middleBegin <= h.finalBegin
    requires h.finalBegin <= h.primaryEnd <= |data|
    requires forall i | MetadataEnd(h) <= i < h.middleBegin :: data[i] == 0
    ensures var p := PlanFrom(data, h);
      && WordBytes(Words(data, 0, 28)) == data[..112]
      && p.names == data[112..h.namesEnd] && p.materials == data[h.namesEnd..h.materialsEnd]
      && (forall i | 0 <= i < |p.words| :: p.words[i] < U32_LIMIT)
      && WordBytes(p.words) == data[h.materialsEnd..MetadataEnd(h)]
      && Zeros(p.padding) == data[MetadataEnd(h)..h.middleBegin]
      && p.middle == data[h.middleBegin..h.finalBegin] && p.final == data[h.finalBegin..h.primaryEnd]
      && p.rest == data[h.primaryEnd..]
  {
    WordsStand(data, 0, 28);
    WordsStand(data, h.materialsEnd, 4 * RecordCount(h));
    ZeroBytes(data[MetadataEnd(h)..h.middleBegin]);
    WordLimits(data, h.materialsEnd, 4 * RecordCount(h));
    hide U32At, WordBytes, PairCount, Words, Zeros;
    assert data[0..112] == data[..112];
  }

  lemma InParts(data: seq<Byte>, a: nat, b: nat, c: nat, d: nat, e: nat, f: nat, g: nat)
    requires a <= b <= c <= d <= e <= f <= g <= |data|
    ensures data == data[..a] + (data[a..b] + (data[b..c] + (data[c..d] + (data[d..e]
      + (data[e..f] + (data[f..g] + data[g..]))))))
  {
    Cut(data, f, g);
    Cut(data, e, f);
    Cut(data, d, e);
    Cut(data, c, d);
    Cut(data, b, c);
    Cut(data, a, b);
    assert data == data[..a] + data[a..];
  }

  lemma Cut(data: seq<Byte>, a: nat, b: nat)
    requires a <= b <= |data|
    ensures data[a..] == data[a..b] + data[b..]
  {
  }

  lemma ValidIsWritten(data: seq<Byte>, maximumInputBytes: nat, maximumItems: nat) returns (p: Plan)
    requires HeaderValid(data, maximumInputBytes, maximumItems)
    ensures PlanOk(p, maximumInputBytes, maximumItems) && data == Image(p)
  {
    var h := HeaderOf(data);
    ValidSections(data, maximumInputBytes, maximumItems);
    MagicIs(data);
    p := PlanFrom(data, h);
    PlanEnds(data, h);
    HeadReadBack(data, h);
    BodyReadBack(data, h);
    WordLimits(data, 0, 28);
    WordLimits(data, h.materialsEnd, 4 * RecordCount(h));
    PlanSizes(data, h);
    hide U32At, PlanFrom, Words, WordBytes, HeadOf, PairCount, HeaderOf;
  }

  lemma PlanSizes(data: seq<Byte>, h: Header)
    requires 112 <= h.namesEnd <= h.materialsEnd <= MetadataEnd(h) <= h.middleBegin <= h.finalBegin
    requires h.finalBegin <= h.primaryEnd <= |data|
    requires SectionsValid(h, |data|) && |data| % 16 == 0
    ensures var p := PlanFrom(data, h);
      && |p.names| % 4 == 0 && |p.middle| % 16 == 0 && |p.final| % 16 == 0 && |p.rest| % 16 == 0
      && |p.materials| == 92 * p.materialCount && |p.words| == 4 * RecordCount(h)
      && p.words == Words(data, h.materialsEnd, 4 * RecordCount(h))
      && PrimaryEnd(p) + |p.rest| == |data|
  {
    hide U32At, PairCount, Words;
    FoursApart(h.namesEnd, 112);
    SixteensApart(h.finalBegin, h.middleBegin);
    SixteensApart(h.primaryEnd, h.finalBegin);
    SixteensApart(|data|, h.primaryEnd);
    PlanEnds(data, h);
  }

  lemma FoursApart(a: nat, b: nat)
    requires a % 4 == 0 && b % 4 == 0 && b <= a
    ensures (a - b) % 4 == 0
  {
  }

  lemma SixteensApart(a: nat, b: nat)
    requires a % 16 == 0 && b % 16 == 0 && b <= a
    ensures (a - b) % 16 == 0
  {
  }

  ghost predicate Written(data: seq<Byte>, p: Plan, maximumInputBytes: nat, maximumItems: nat) {
    PlanOk(p, maximumInputBytes, maximumItems) && data == Image(p)
  }

  // The header, the section and the padding checks accept exactly the files that can be written.
  lemma HeaderExactly(data: seq<Byte>, maximumInputBytes: nat, maximumItems: nat)
    ensures HeaderValid(data, maximumInputBytes, maximumItems) <==>
            exists p :: Written(data, p, maximumInputBytes, maximumItems)
  {
    hide HeaderValid, Image;
    if HeaderValid(data, maximumInputBytes, maximumItems) {
      var p := ValidIsWritten(data, maximumInputBytes, maximumItems);
      assert Written(data, p, maximumInputBytes, maximumItems);
    }
    if p :| Written(data, p, maximumInputBytes, maximumItems) {
      WrittenIsValid(p, maximumInputBytes, maximumItems);
    }
  }

  // ---------- the records ----------

  function Count(p: Plan): nat { 2 * p.pairs + p.targets }

  predicate InMiddle(p: Plan, w: nat) { MiddleBegin(p) <= w < FinalBegin(p) && w % 16 == 0 }

  predicate InFinal(p: Plan, w: nat) { FinalBegin(p) < w < PrimaryEnd(p) && w % 4 == 0 }

  // Record i holds the position of record k in its third word.
  predicate Aims(p: Plan, i: nat, k: nat)
    requires |p.words| == 4 * Count(p) && i < Count(p)
  {
    k < Count(p) && p.words[4 * i + 2] == MaterialsEnd(p) + 16 * k
  }

  ghost predicate AimsNowhere(p: Plan, i: nat)
    requires |p.words| == 4 * Count(p) && i < Count(p)
  {
    forall k: nat :: !Aims(p, i, k)
  }

  // Record i holds a payload position and one reference.
  ghost predicate HoldsQ(p: Plan, i: nat, payload: nat, reference: nat)
    requires |p.words| == 4 * Count(p) && i < Count(p)
  {
    && AimsNowhere(p, i)
    && p.words[4 * i + 1] == payload && InMiddle(p, payload)
    && p.words[4 * i + 3] == reference && InFinal(p, reference)
  }

  // Record i holds three references, and cannot be taken for one that holds a payload.
  ghost predicate HoldsP(p: Plan, i: nat, r1: nat, r2: nat, r3: nat)
    requires |p.words| == 4 * Count(p) && i < Count(p)
  {
    && AimsNowhere(p, i) && !InMiddle(p, p.words[4 * i + 1])
    && p.words[4 * i] == r1 && p.words[4 * i + 2] == r2 && p.words[4 * i + 3] == r3
    && InFinal(p, r1) && InFinal(p, r2) && InFinal(p, r3)
  }

  // What the validator sees in the words of record i.
  function Seen(p: Plan, i: nat): Record
    requires |p.words| == 4 * Count(p) && i < Count(p)
  {
    var (w0, w1, w2, w3) := (p.words[4 * i], p.words[4 * i + 1], p.words[4 * i + 2], p.words[4 * i + 3]);
    if IsRecordStart(w2, MaterialsEnd(p), RecordsEnd(p)) then T((w2 - MaterialsEnd(p)) / 16)
    else if InMiddle(p, w1) && InFinal(p, w3) then Q(w1, w3)
    else if InFinal(p, w0) && InFinal(p, w2) && InFinal(p, w3) then P(w0, w2, w3)
    else Unknown
  }

  lemma RecordIsSeen(p: Plan, maximumInputBytes: nat, maximumItems: nat, i: nat)
    requires PlanOk(p, maximumInputBytes, maximumItems) && i < Count(p)
    ensures |Image(p)| >= 112 && MetadataEnd(HeaderOf(Image(p))) == RecordsEnd(p) <= |Image(p)|
    ensures RecordCount(HeaderOf(Image(p))) == Count(p)
    ensures Records(Image(p), HeaderOf(Image(p)))[i] == Seen(p, i)
  {
    var image := Image(p);
    hide Image, HeaderOf, HeadOf, U32At, PlanOk, Classify, Seen, PairCount, MetadataEnd, MaterialsEnd, RecordsEnd,
         MiddleBegin, FinalBegin, PrimaryEnd, NamesEnd;
    HeaderIs(p, maximumInputBytes, maximumItems);
    WordsLength(p, maximumInputBytes, maximumItems);
    var h := HeaderOf(image);
    CountsAre(p, h);
    RecordWords(p, maximumInputBytes, maximumItems, i);
    ClassifySees(image, p, h, i);
  }

  lemma RecordWords(p: Plan, maximumInputBytes: nat, maximumItems: nat, i: nat)
    requires PlanOk(p, maximumInputBytes, maximumItems) && i < Count(p)
    ensures var (data, at) := (Image(p), MaterialsEnd(p) + 16 * i);
      && at + 16 <= RecordsEnd(p) <= |data|
      && U32At(data, at) == p.words[4 * i] && U32At(data, at + 4) == p.words[4 * i + 1]
      && U32At(data, at + 8) == p.words[4 * i + 2] && U32At(data, at + 12) == p.words[4 * i + 3]
  {
    hide Image, HeadOf, U32At;
    RecordWord(p, maximumInputBytes, maximumItems, 4 * i);
    RecordWord(p, maximumInputBytes, maximumItems, 4 * i + 1);
    RecordWord(p, maximumInputBytes, maximumItems, 4 * i + 2);
    RecordWord(p, maximumInputBytes, maximumItems, 4 * i + 3);
  }

  lemma WordsLength(p: Plan, maximumInputBytes: nat, maximumItems: nat)
    requires PlanOk(p, maximumInputBytes, maximumItems)
    ensures |p.words| == 4 * Count(p) == 4 * (2 * p.pairs + p.targets)
  {
  }

  lemma ClassifySees(data: seq<Byte>, p: Plan, h: Header, i: nat)
    requires |p.words| == 4 * Count(p) && i < Count(p)
    requires h.materialsEnd == MaterialsEnd(p) && MetadataEnd(h) == RecordsEnd(p) <= |data|
    requires h.middleBegin == MiddleBegin(p) && h.finalBegin == FinalBegin(p) && h.primaryEnd == PrimaryEnd(p)
    requires U32At(data, MaterialsEnd(p) + 16 * i) == p.words[4 * i]
    requires U32At(data, MaterialsEnd(p) + 16 * i + 4) == p.words[4 * i + 1]
    requires U32At(data, MaterialsEnd(p) + 16 * i + 8) == p.words[4 * i + 2]
    requires U32At(data, MaterialsEnd(p) + 16 * i + 12) == p.words[4 * i + 3]
    ensures Classify(data, h, Offset(h, i)) == Seen(p, i)
  {
    hide U32At, MetadataEnd, MaterialsEnd, RecordsEnd, MiddleBegin, FinalBegin, PrimaryEnd;
  }

  lemma SeenIs(p: Plan, i: nat)
    requires |p.words| == 4 * Count(p) && i < Count(p)
    ensures forall k: nat :: Seen(p, i) == T(k) <==> Aims(p, i, k)
    ensures forall a: nat, b: nat :: Seen(p, i) == Q(a, b) <==> HoldsQ(p, i, a, b)
    ensures forall a: nat, b: nat, c: nat :: Seen(p, i) == P(a, b, c) <==> HoldsP(p, i, a, b, c)
  {
    var w2 := p.words[4 * i + 2];
    AimsIs(p, i);
    hide InMiddle, InFinal, Aims, AimsNowhere, IsRecordStart;
  }

  lemma AimsIs(p: Plan, i: nat)
    requires |p.words| == 4 * Count(p) && i < Count(p)
    ensures var w := p.words[4 * i + 2];
      && (IsRecordStart(w, MaterialsEnd(p), RecordsEnd(p)) <==> !AimsNowhere(p, i))
      && (IsRecordStart(w, MaterialsEnd(p), RecordsEnd(p)) ==>
            forall k: nat :: Aims(p, i, k) <==> k == (w - MaterialsEnd(p)) / 16)
  {
    var w := p.words[4 * i + 2];
    if IsRecordStart(w, MaterialsEnd(p), RecordsEnd(p)) {
      var k: nat := (w - MaterialsEnd(p)) / 16;
      assert Aims(p, i, k);
    }
    if !AimsNowhere(p, i) {
      var k: nat :| Aims(p, i, k);
    }
  }

  // ---------- the arrangement of the records ----------

  // Target j of the block at b aims at a later record that holds a payload.
  ghost predicate AimsLater(p: Plan, b: nat, j: nat)
    requires |p.words| == 4 * Count(p) && b + j < Count(p)
  {
    exists k: nat, payload: nat, reference: nat ::
      Aims(p, b + j, k) && b + j < k && HoldsQ(p, k, payload, reference)
  }

  function AimAt(p: Plan, i: nat): nat
    requires |p.words| == 4 * Count(p) && i < Count(p)
  {
    p.words[4 * i + 2]
  }

  // Where the m-th record outside the block stands.
  function Place(p: Plan, b: nat, m: nat): nat { if m < b then m else m + p.targets }

  // The m-th record outside the block is half of a pair.
  ghost predicate HoldsHalf(p: Plan, b: nat, pairs: seq<Pair>, m: nat)
    requires |p.words| == 4 * Count(p) && |pairs| == p.pairs && m < 2 * p.pairs && b <= 2 * p.pairs
  {
    var (i, pair) := (Place(p, b, m), pairs[m / 2]);
    if m % 2 == 0 then HoldsQ(p, i, pair.payload, pair.r0) else HoldsP(p, i, pair.r1, pair.r2, pair.r3)
  }

  // The targets form one block of increasing aims; the other records are the pairs in order.
  ghost predicate Arranged(p: Plan, b: nat, pairs: seq<Pair>)
    requires |p.words| == 4 * Count(p)
  {
    && |pairs| == p.pairs && b <= 2 * p.pairs && (p.targets == 0 ==> b == 2 * p.pairs)
    && (forall j: nat | j < p.targets :: AimsLater(p, b, j))
    && (forall i: nat, j: nat | b <= i < j < b + p.targets :: AimAt(p, i) < AimAt(p, j))
    && (forall m: nat | m < 2 * p.pairs :: HoldsHalf(p, b, pairs, m))
  }

  ghost function SeenAll(p: Plan): (r: seq<Record>)
    requires |p.words| == 4 * Count(p)
    ensures |r| == Count(p)
  {
    seq(Count(p), i requires 0 <= i < Count(p) => Seen(p, i))
  }

  lemma FlattenAt(pairs: seq<Pair>, m: nat)
    requires m < 2 * |pairs|
    ensures |Flatten(pairs)| == 2 * |pairs|
    ensures var pair := pairs[m / 2];
      Flatten(pairs)[m] == if m % 2 == 0 then Q(pair.payload, pair.r0) else P(pair.r1, pair.r2, pair.r3)
  {
    var n := |pairs| - 1;
    if m < 2 * n {
      FlattenAt(pairs[..n], m);
    } else if n > 0 {
      FlattenAt(pairs[..n], 0);
    }
  }

  // Without the block, the records in front of it and behind it are left.
  lemma {:induction false} OthersCut(records: seq<Record>, b: nat, t: nat, n: nat)
    requires b + t <= |records| && n <= |records|
    requires forall i | 0 <= i < |records| :: records[i].T? <==> b <= i < b + t
    ensures Others(records, n) == records[..if n <= b then n else b] + if n <= b + t then [] else records[b + t..n]
  {
    if n > 0 {
      OthersCut(records, b, t, n - 1);
      var x := records[n - 1];
      if n <= b {
        assert records[..n] == records[..n - 1] + [x];
      } else if n > b + t {
        assert records[b + t..n] == records[b + t..n - 1] + [x];
      }
    }
  }

  lemma OthersAt(records: seq<Record>, b: nat, t: nat)
    requires b + t <= |records|
    requires forall i | 0 <= i < |records| :: records[i].T? <==> b <= i < b + t
    ensures var others := Others(records, |records|);
      && |others| == |records| - t
      && forall m: nat | m < |others| :: others[m] == records[if m < b then m else m + t]
  {
    hide Others;
    OthersCut(records, b, t, |records|);
  }

  lemma SeenHalf(p: Plan, b: nat, pairs: seq<Pair>, m: nat)
    requires |p.words| == 4 * Count(p) && |pairs| == p.pairs && m < 2 * p.pairs && b <= 2 * p.pairs
    ensures Place(p, b, m) < Count(p) && |Flatten(pairs)| == 2 * p.pairs
    ensures HoldsHalf(p, b, pairs, m) <==> Seen(p, Place(p, b, m)) == Flatten(pairs)[m]
  {
    hide Seen, HoldsQ, HoldsP, Flatten;
    FlattenAt(pairs, m);
    SeenIs(p, Place(p, b, m));
  }

  // Every place outside the block belongs to one half of a pair.
  lemma PlaceOf(p: Plan, b: nat, i: nat) returns (m: nat)
    requires i < Count(p) && b <= 2 * p.pairs && !(b <= i < b + p.targets)
    ensures m < 2 * p.pairs && Place(p, b, m) == i
  {
    m := if i < b then i else i - p.targets;
  }

  lemma ArrangedIsBlock(p: Plan, b: nat, pairs: seq<Pair>)
    requires |p.words| == 4 * Count(p) && Arranged(p, b, pairs)
    ensures TargetBlock(SeenAll(p), b, p.targets) && Others(SeenAll(p), Count(p)) == Flatten(pairs)
  {
    hide Seen, HoldsQ, HoldsP, Aims, AimsNowhere, Others, Flatten;
    var records := SeenAll(p);
    forall i: nat | i < Count(p)
      ensures b <= i < b + p.targets ==>
        && records[i].T? && i < records[i].target < Count(p) && records[records[i].target].Q?
        && Aims(p, i, records[i].target)
      ensures !(b <= i < b + p.targets) ==> !records[i].T?
    {
      if b <= i < b + p.targets {
        TargetSeen(p, b, i - b);
      } else {
        var m := PlaceOf(p, b, i);
        SeenHalf(p, b, pairs, m);
        FlattenAt(pairs, m);
      }
    }
    forall i: nat, j: nat | b <= i < j < b + p.targets ensures records[i].target < records[j].target {
      AimsGrow(p, i, j, records[i].target, records[j].target);
    }
    OthersAt(records, b, p.targets);
    if p.pairs > 0 { FlattenAt(pairs, 0); } else { NoHalves(pairs); }
    forall m: nat | m < 2 * p.pairs ensures Others(records, Count(p))[m] == Flatten(pairs)[m] {
      SeenHalf(p, b, pairs, m);
    }
  }

  lemma NoHalves(pairs: seq<Pair>)
    requires pairs == []
    ensures Flatten(pairs) == []
  {
  }

  lemma TargetSeen(p: Plan, b: nat, j: nat)
    requires |p.words| == 4 * Count(p) && b + j < Count(p) && AimsLater(p, b, j)
    ensures var records := SeenAll(p);
      var i := b + j;
      && records[i].T? && i < records[i].target < Count(p) && records[records[i].target].Q?
      && Aims(p, i, records[i].target)
  {
    hide Seen, HoldsQ, HoldsP, AimsNowhere;
    var k: nat, payload: nat, reference: nat :| Aims(p, b + j, k) && b + j < k && HoldsQ(p, k, payload, reference);
    SeenIs(p, b + j);
    SeenIs(p, k);
  }

  lemma AimsGrow(p: Plan, i: nat, j: nat, k: nat, l: nat)
    requires |p.words| == 4 * Count(p) && i < Count(p) && j < Count(p)
    requires Aims(p, i, k) && Aims(p, j, l)
    requires AimAt(p, i) < AimAt(p, j)
    ensures k < l
  {
  }

  lemma BlockIsArranged(p: Plan, b: nat, pairs: seq<Pair>)
    requires |p.words| == 4 * Count(p) && |pairs| == p.pairs
    requires TargetBlock(SeenAll(p), b, p.targets) && Others(SeenAll(p), Count(p)) == Flatten(pairs)
    ensures Arranged(p, b, pairs)
  {
    hide Seen, HoldsQ, HoldsP, Aims, AimsNowhere, Others, Flatten, HoldsHalf;
    var records := SeenAll(p);
    forall j: nat | j < p.targets ensures AimsLater(p, b, j) {
      assert records[b + j].T?;
      AimSeen(p, b + j);
      var k := records[b + j].target;
      SeenIs(p, k);
      assert HoldsQ(p, k, records[k].payload, records[k].reference);
    }
    forall i: nat, j: nat | b <= i < j < b + p.targets ensures AimAt(p, i) < AimAt(p, j) {
      assert records[i].T? && records[j].T?;
      AimSeen(p, i);
      AimSeen(p, j);
      AimsOrdered(p, i, j, records[i].target, records[j].target);
    }
    OthersAt(records, b, p.targets);
    forall m: nat | m < 2 * p.pairs ensures HoldsHalf(p, b, pairs, m) {
      SeenHalf(p, b, pairs, m);
    }
  }

  lemma AimSeen(p: Plan, i: nat)
    requires |p.words| == 4 * Count(p) && i < Count(p) && Seen(p, i).T?
    ensures Aims(p, i, Seen(p, i).target)
  {
    hide Seen;
    SeenIs(p, i);
  }

  lemma AimsOrdered(p: Plan, i: nat, j: nat, k: nat, l: nat)
    requires |p.words| == 4 * Count(p) && i < Count(p) && j < Count(p) && Aims(p, i, k) && Aims(p, j, l) && k < l
    ensures AimAt(p, i) < AimAt(p, j)
  {
  }

  // ---------- what the validator decides about a written file ----------

  // A written file is accepted exactly when its records are arranged and its payloads and
  // references form one chain.
  lemma AcceptedIsArranged(p: Plan, maximumInputBytes: nat, maximumItems: nat)
    requires PlanOk(p, maximumInputBytes, maximumItems)
    ensures MiddleBegin(p) <= FinalBegin(p) <= PrimaryEnd(p) <= |Image(p)|
    ensures LayoutValid(Image(p), maximumInputBytes, maximumItems) <==>
      exists b: nat, pairs ::
        Arranged(p, b, pairs) && OneChain(Image(p), Region(MiddleBegin(p), FinalBegin(p), PrimaryEnd(p)), pairs)
  {
    RecordsAreSeen(p, maximumInputBytes, maximumItems);
    var image, region := Image(p), Region(MiddleBegin(p), FinalBegin(p), PrimaryEnd(p));
    hide PlanOk, LayoutValid, Image, Arranged, OneChain, HeaderOf, Records, SeenAll, MiddleBegin, FinalBegin,
         PrimaryEnd;
    if b: nat, pairs: seq<Pair> :| Arranged(p, b, pairs) && OneChain(image, region, pairs) {
      ArrangedAccepted(p, maximumInputBytes, maximumItems, b, pairs);
    }
    if LayoutValid(image, maximumInputBytes, maximumItems) {
      var b, pairs := AcceptedArranged(p, maximumInputBytes, maximumItems);
    }
  }

  lemma ArrangedAccepted(p: Plan, maximumInputBytes: nat, maximumItems: nat, b: nat, pairs: seq<Pair>)
    requires PlanOk(p, maximumInputBytes, maximumItems) && |p.words| == 4 * Count(p)
    requires MiddleBegin(p) <= FinalBegin(p) <= PrimaryEnd(p) <= |Image(p)|
    requires Arranged(p, b, pairs) && OneChain(Image(p), Region(MiddleBegin(p), FinalBegin(p), PrimaryEnd(p)), pairs)
    ensures LayoutValid(Image(p), maximumInputBytes, maximumItems)
  {
    RecordsAreSeen(p, maximumInputBytes, maximumItems);
    WrittenIsValid(p, maximumInputBytes, maximumItems);
    var image, region := Image(p), Region(MiddleBegin(p), FinalBegin(p), PrimaryEnd(p));
    hide Image, HeaderOf, HeadOf, PlanOk, Records, SeenAll, HeaderValid, Arranged, TargetBlock, Others, Flatten,
         PairChain, OneChain, MiddleBegin, FinalBegin, PrimaryEnd, RegionOf, PairCount, MetadataEnd, LayoutValid;
    ArrangedIsBlock(p, b, pairs);
    ChainIsOneList(image, region, pairs);
    ArrangedPairs(p, b, pairs);
    LayoutStands(image, maximumInputBytes, maximumItems, b, pairs);
  }

  lemma LayoutStands(data: seq<Byte>, maximumInputBytes: nat, maximumItems: nat, b: nat, pairs: seq<Pair>)
    requires HeaderValid(data, maximumInputBytes, maximumItems)
    requires var h := HeaderOf(data);
      var records := Records(data, h);
      && TargetBlock(records, b, h.targetCount)
      && |pairs| == PairCount(h) && Others(records, |records|) == Flatten(pairs) && PairChain(data, RegionOf(h), pairs)
    ensures LayoutValid(data, maximumInputBytes, maximumItems)
  {
    hide HeaderOf, Records, TargetBlock, Others, Flatten, PairChain, RegionOf, PairCount;
  }

  lemma AcceptedArranged(p: Plan, maximumInputBytes: nat, maximumItems: nat) returns (b: nat, pairs: seq<Pair>)
    requires PlanOk(p, maximumInputBytes, maximumItems) && |p.words| == 4 * Count(p)
    requires MiddleBegin(p) <= FinalBegin(p) <= PrimaryEnd(p) <= |Image(p)|
    requires LayoutValid(Image(p), maximumInputBytes, maximumItems)
    ensures Arranged(p, b, pairs) && OneChain(Image(p), Region(MiddleBegin(p), FinalBegin(p), PrimaryEnd(p)), pairs)
  {
    RecordsAreSeen(p, maximumInputBytes, maximumItems);
    var image, region := Image(p), Region(MiddleBegin(p), FinalBegin(p), PrimaryEnd(p));
    hide Image, HeaderOf, HeadOf, PlanOk, Records, SeenAll, HeaderValid, Arranged, TargetBlock, Others, Flatten,
         PairChain, OneChain, MiddleBegin, FinalBegin, PrimaryEnd, RegionOf, PairCount, MetadataEnd;
    var records := SeenAll(p);
    b :| TargetBlock(records, b, p.targets);
    pairs :| |pairs| == p.pairs && Others(records, |records|) == Flatten(pairs) && PairChain(image, region, pairs);
    BlockIsArranged(p, b, pairs);
    ChainIsOneList(image, region, pairs);
  }

  lemma ArrangedPairs(p: Plan, b: nat, pairs: seq<Pair>)
    requires |p.words| == 4 * Count(p) && Arranged(p, b, pairs)
    ensures |pairs| == p.pairs
  {
  }

  lemma RecordsAreSeen(p: Plan, maximumInputBytes: nat, maximumItems: nat)
    requires PlanOk(p, maximumInputBytes, maximumItems)
    ensures |p.words| == 4 * Count(p) && |Image(p)| >= 112
    ensures MiddleBegin(p) <= FinalBegin(p) <= PrimaryEnd(p) <= |Image(p)|
    ensures var h := HeaderOf(Image(p));
      && MetadataEnd(h) <= |Image(p)| && Records(Image(p), h) == SeenAll(p)
      && RegionOf(h) == Region(MiddleBegin(p), FinalBegin(p), PrimaryEnd(p))
      && PairCount(h) == p.pairs && h.targetCount == p.targets && RecordCount(h) == Count(p)
  {
    var image := Image(p);
    WordsLength(p, maximumInputBytes, maximumItems);
    PaddingStands(p, maximumInputBytes, maximumItems);
    hide Image, HeaderOf, HeadOf, PlanOk, Seen, Classify, PairCount, U32At;
    HeaderIs(p, maximumInputBytes, maximumItems);
    var h := HeaderOf(image);
    CountsAre(p, h);
    assert |Records(image, h)| == Count(p);
    forall i: nat | i < Count(p) ensures Records(image, h)[i] == SeenAll(p)[i] {
      RecordIsSeen(p, maximumInputBytes, maximumItems, i);
    }
  }

  // The payloads that are not sixteen bytes long.
  ghost function GroupedPayloads(region: Region, pairs: seq<Pair>, n: nat): set<nat>
    requires n <= |pairs|
  {
    set j: nat | j < n && EndOf(region, pairs, j) - pairs[j].payload != 16
  }

  lemma {:induction false} GroupedIsCount(region: Region, pairs: seq<Pair>, n: nat)
    requires 0 < n <= |pairs|
    ensures GroupedTo(pairs[..n], EndOf(region, pairs, n - 1)) == |GroupedPayloads(region, pairs, n)|
  {
    var k: nat := n - 1;
    var init, last := pairs[..n][..k], pairs[..n][k];
    assert init == pairs[..k] && last == pairs[k];
    if k > 0 {
      GroupedIsCount(region, pairs, k);
      assert EndOf(region, pairs, k - 1) == last.payload;
    } else {
      assert GroupedPayloads(region, pairs, 0) == {};
    }
    var end := EndOf(region, pairs, k);
    assert GroupedPayloads(region, pairs, n) ==
           GroupedPayloads(region, pairs, k) + if end - last.payload != 16 then {k} else {};
  }

  // What the report of an accepted file says is what was written.
  lemma ReportSays(p: Plan, maximumInputBytes: nat, maximumItems: nat, layout: Layout)
    requires PlanOk(p, maximumInputBytes, maximumItems) && |p.words| == 4 * Count(p)
    requires MiddleBegin(p) <= FinalBegin(p) <= PrimaryEnd(p) <= |Image(p)|
    requires |Image(p)| >= 112 && MetadataEnd(HeaderOf(Image(p))) <= |Image(p)|
    requires RegionFits(Image(p), RegionOf(HeaderOf(Image(p)))) && Reports(Image(p), layout)
    ensures layout.header.nameCount == p.nameCount && layout.header.materialCount == p.materialCount
    ensures layout.header.namesEnd == NamesEnd(p) && layout.header.materialsEnd == MaterialsEnd(p)
    ensures layout.metadataEnd == RecordsEnd(p) && layout.header.middleBegin == MiddleBegin(p)
    ensures layout.header.finalBegin == FinalBegin(p) && layout.header.primaryEnd == PrimaryEnd(p)
    ensures layout.pairCount == p.pairs && layout.header.targetCount == p.targets && layout.recordCount == Count(p)
    ensures exists pairs ::
      && Arranged(p, layout.targetBlockStart, pairs)
      && OneChain(Image(p), Region(MiddleBegin(p), FinalBegin(p), PrimaryEnd(p)), pairs)
      && layout.groupedPairCount ==
         |GroupedPayloads(Region(MiddleBegin(p), FinalBegin(p), PrimaryEnd(p)), pairs, |pairs|)|
  {
    RecordsAreSeen(p, maximumInputBytes, maximumItems);
    HeaderIs(p, maximumInputBytes, maximumItems);
    CountsAre(p, HeaderOf(Image(p)));
    var image, region := Image(p), Region(MiddleBegin(p), FinalBegin(p), PrimaryEnd(p));
    hide Image, HeaderOf, HeadOf, PlanOk, Records, SeenAll, HeaderValid, Arranged, TargetBlock, Others, Flatten,
         PairChain, OneChain, MiddleBegin, FinalBegin, PrimaryEnd, RegionOf, PairCount, MetadataEnd, GroupedTo,
         GroupedPayloads, MaterialsEnd, NamesEnd, RecordsEnd;
    var records := SeenAll(p);
    var pairs :| |pairs| == p.pairs && Others(records, |records|) == Flatten(pairs) && PairChain(image, region, pairs)
                 && layout.groupedPairCount == GroupedTo(pairs, region.finalBegin);
    BlockIsArranged(p, layout.targetBlockStart, pairs);
    ChainIsOneList(image, region, pairs);
    GroupedAll(region, pairs);
  }

  lemma GroupedAll(region: Region, pairs: seq<Pair>)
    ensures GroupedTo(pairs, region.finalBegin) == |GroupedPayloads(region, pairs, |pairs|)|
  {
    if pairs == [] {
      assert GroupedPayloads(region, pairs, 0) == {};
    } else {
      GroupedIsCount(region, pairs, |pairs|);
      assert pairs[..|pairs|] == pairs;
    }
  }
}
