// The chunked scan for published four- and five-byte tags behind the terrain prefix
// (tools/scan_pop_post_terrain.py), against a scan of the whole file at once.
module PopMarkers {
  import opened Bytes
  import opened Options
  import Pop

  type Tag = seq<Byte>

  const PUBLISHED_TAGS: seq<Tag> :=
    [[84, 69, 82, 58], [71, 79, 66, 58], [83, 78, 68, 58], [65, 67, 76, 58], [73, 78, 76, 58], [78, 80, 67, 58],
     [65, 78, 80, 67, 58], [87, 80, 78, 58], [80, 76, 82, 58], [83, 75, 89, 58], [80, 78, 84, 58], [68, 73, 82, 58],
     [69, 78, 86, 58], [78, 79, 68, 58], [71, 69, 78, 58], [71, 82, 80, 58], [66, 79, 88, 58], [70, 73, 82, 58],
     [67, 65, 77, 58], [73, 78, 86, 58], [66, 85, 71, 58]]

  const MAXIMUM_TAG_BYTES := 5

  datatype Hit = Hit(offset: nat, tag: Tag)

  // The tag stands at that offset, whole.
  predicate Matches(data: seq<Byte>, at: nat, tag: Tag) {
    at + |tag| <= |data| && data[at..at + |tag|] == tag
  }

  // The first tag of a table that stands at an offset.
  function FirstMatch(tags: seq<Tag>, data: seq<Byte>, at: nat): Option<Tag> {
    if tags == [] then None
    else if Matches(data, at, tags[0]) then Some(tags[0])
    else FirstMatch(tags[1..], data, at)
  }

  // ---------- one tag at most ----------

  // The first three bytes of a tag as one number, highest byte first.
  function Key(tag: Tag): nat
    requires |tag| >= 3
  {
    var a: nat, b: nat, c: nat := tag[0], tag[1], tag[2];
    0x1_0000 * a + 256 * b + c
  }

  // The place in the table that the first three letters of a tag name.
  function Place(key: nat): nat {
    if key == 0x54_4552 then 0   // TER
    else if key == 0x47_4F42 then 1   // GOB
    else if key == 0x53_4E44 then 2   // SND
    else if key == 0x41_434C then 3   // ACL
    else if key == 0x49_4E4C then 4   // INL
    else if key == 0x4E_5043 then 5   // NPC
    else if key == 0x41_4E50 then 6   // ANP
    else if key == 0x57_504E then 7   // WPN
    else if key == 0x50_4C52 then 8   // PLR
    else if key == 0x53_4B59 then 9   // SKY
    else if key == 0x50_4E54 then 10  // PNT
    else if key == 0x44_4952 then 11  // DIR
    else if key == 0x45_4E56 then 12  // ENV
    else if key == 0x4E_4F44 then 13  // NOD
    else if key == 0x47_454E then 14  // GEN
    else if key == 0x47_5250 then 15  // GRP
    else if key == 0x42_4F58 then 16  // BOX
    else if key == 0x46_4952 then 17  // FIR
    else if key == 0x43_414D then 18  // CAM
    else if key == 0x49_4E56 then 19  // INV
    else 20  // BUG
  }

  lemma TagInPlace(i: nat)
    requires i < |PUBLISHED_TAGS|
    ensures 4 <= |PUBLISHED_TAGS[i]| <= MAXIMUM_TAG_BYTES && Place(Key(PUBLISHED_TAGS[i])) == i
  {
  }

  lemma SameKey(data: seq<Byte>, at: nat, a: Tag, b: Tag)
    requires |a| >= 3 && |b| >= 3 && Matches(data, at, a) && Matches(data, at, b)
    ensures Key(a) == Key(b)
  {
    assert forall k | 0 <= k < 3 :: a[k] == data[at..at + |a|][k] == data[at + k];
    assert forall k | 0 <= k < 3 :: b[k] == data[at..at + |b|][k] == data[at + k];
  }

  // At any offset at most one published tag can stand.
  lemma AtMostOneTag(data: seq<Byte>, at: nat, a: Tag, b: Tag)
    requires a in PUBLISHED_TAGS && b in PUBLISHED_TAGS && Matches(data, at, a) && Matches(data, at, b)
    ensures a == b
  {
    hide Place, Key, Matches;
    var i :| 0 <= i < |PUBLISHED_TAGS| && PUBLISHED_TAGS[i] == a;
    var j :| 0 <= j < |PUBLISHED_TAGS| && PUBLISHED_TAGS[j] == b;
    TagInPlace(i);
    TagInPlace(j);
    SameKey(data, at, a, b);
  }

  lemma {:induction false} FirstMatchIsMatch(tags: seq<Tag>, data: seq<Byte>, at: nat)
    ensures match FirstMatch(tags, data, at)
      case Some(tag) => tag in tags && Matches(data, at, tag)
      case None => forall tag | tag in tags :: !Matches(data, at, tag)
  {
    if tags != [] && !Matches(data, at, tags[0]) {
      FirstMatchIsMatch(tags[1..], data, at);
    }
  }

  // So the order of the table does not matter.
  lemma OrderIsIrrelevant(tags: seq<Tag>, data: seq<Byte>, at: nat)
    requires forall tag :: tag in tags <==> tag in PUBLISHED_TAGS
    ensures FirstMatch(tags, data, at) == FirstMatch(PUBLISHED_TAGS, data, at)
  {
    FirstMatchIsMatch(tags, data, at);
    FirstMatchIsMatch(PUBLISHED_TAGS, data, at);
    var x, y := FirstMatch(tags, data, at), FirstMatch(PUBLISHED_TAGS, data, at);
    if x.Some? && y.Some? {
      AtMostOneTag(data, at, x.value, y.value);
    }
  }

  // ---------- the scan of the whole file ----------

  function HitAt(data: seq<Byte>, at: nat): seq<Hit> {
    match FirstMatch(PUBLISHED_TAGS, data, at)
    case Some(tag) => [Hit(at, tag)]
    case None => []
  }

  // The hits at the n aligned offsets from `from` on, in order.
  function Hits(data: seq<Byte>, from: nat, n: nat): seq<Hit> {
    if n == 0 then [] else Hits(data, from, n - 1) + HitAt(data, from + 4 * (n - 1))
  }

  function Steps(from: nat, end: nat): nat { if from >= end then 0 else (end - from + 3) / 4 }

  lemma {:induction false} HitsGrow(data: seq<Byte>, from: nat, n: nat, m: nat)
    requires n <= m
    ensures |Hits(data, from, n)| <= |Hits(data, from, m)|
    decreases m
  {
    if n < m {
      HitsGrow(data, from, n, m - 1);
    }
  }

  lemma {:induction false} HitsStart(data: seq<Byte>, from: nat, n: nat)
    requires n > 0
    ensures Hits(data, from, n) == HitAt(data, from) + Hits(data, from + 4, n - 1)
  {
    if n == 1 {
      assert Hits(data, from, 1) == Hits(data, from, 0) + HitAt(data, from);
    } else {
      HitsStart(data, from, n - 1);
      assert from + 4 + 4 * (n - 2) == from + 4 * (n - 1);
    }
  }

  // ---------- what the hits are ----------

  const TAG_TEXTS := ["TER:", "GOB:", "SND:", "ACL:", "INL:", "NPC:", "ANPC:", "WPN:", "PLR:", "SKY:", "PNT:",
                      "DIR:", "ENV:", "NOD:", "GEN:", "GRP:", "BOX:", "FIR:", "CAM:", "INV:", "BUG:"]

  // The text stands in the file at that offset, character by character.
  predicate StandsAt(data: seq<Byte>, at: nat, text: string) {
    at + |text| <= |data| && forall i | 0 <= i < |text| :: data[at + i] == text[i] as int
  }

  predicate Spells(tag: Tag, text: string) {
    |tag| == |text| && forall i | 0 <= i < |tag| :: tag[i] == text[i] as int
  }

  lemma TagsSpelled(k: nat)
    requires k < |PUBLISHED_TAGS|
    ensures |TAG_TEXTS| == |PUBLISHED_TAGS| && Spells(PUBLISHED_TAGS[k], TAG_TEXTS[k])
  {
  }

  lemma SpelledStands(data: seq<Byte>, at: nat, tag: Tag, text: string)
    requires Spells(tag, text)
    ensures Matches(data, at, tag) <==> StandsAt(data, at, text)
  {
    if Matches(data, at, tag) {
      var slice := data[at..at + |tag|];
      assert forall i | 0 <= i < |tag| :: slice[i] == data[at + i];
    }
  }

  // One of the published texts stands at the offset, and the hit reports it.
  ghost predicate IsHit(data: seq<Byte>, h: Hit) {
    exists k :: 0 <= k < |TAG_TEXTS| && StandsAt(data, h.offset, TAG_TEXTS[k]) && Spells(h.tag, TAG_TEXTS[k])
  }

  lemma HitIs(data: seq<Byte>, h: Hit)
    ensures FirstMatch(PUBLISHED_TAGS, data, h.offset) == Some(h.tag) <==> IsHit(data, h)
  {
    hide FirstMatch, Matches, StandsAt, Spells, PUBLISHED_TAGS, TAG_TEXTS;
    FirstMatchIsMatch(PUBLISHED_TAGS, data, h.offset);
    var found := FirstMatch(PUBLISHED_TAGS, data, h.offset);
    TextsPair();
    if found == Some(h.tag) {
      var k: nat :| k < |PUBLISHED_TAGS| && PUBLISHED_TAGS[k] == h.tag;
      TagsSpelled(k);
      SpelledStands(data, h.offset, h.tag, TAG_TEXTS[k]);
    }
    if IsHit(data, h) {
      var k: nat :| k < |TAG_TEXTS| && StandsAt(data, h.offset, TAG_TEXTS[k]) && Spells(h.tag, TAG_TEXTS[k]);
      TagsSpelled(k);
      SameSpelling(h.tag, PUBLISHED_TAGS[k], TAG_TEXTS[k]);
      SpelledStands(data, h.offset, h.tag, TAG_TEXTS[k]);
      AtMostOneTag(data, h.offset, h.tag, found.value);
    }
  }

  lemma TextsPair()
    ensures |TAG_TEXTS| == |PUBLISHED_TAGS|
  {
  }

  lemma SameSpelling(a: Tag, b: Tag, text: string)
    requires Spells(a, text) && Spells(b, text)
    ensures a == b
  {
  }

  lemma {:induction false} HitsAre(data: seq<Byte>, from: nat, n: nat)
    ensures forall h: Hit :: h in Hits(data, from, n) <==>
      from <= h.offset < from + 4 * n && (h.offset - from) % 4 == 0 && IsHit(data, h)
    ensures forall i, j | 0 <= i < j < |Hits(data, from, n)| ::
      Hits(data, from, n)[i].offset < Hits(data, from, n)[j].offset
  {
    hide IsHit, FirstMatch;
    if n > 0 {
      HitsAre(data, from, n - 1);
      var at := from + 4 * (n - 1);
      var before, last := Hits(data, from, n - 1), HitAt(data, at);
      assert Hits(data, from, n) == before + last;
      forall h: Hit ensures h in before + last <==>
        from <= h.offset < from + 4 * n && (h.offset - from) % 4 == 0 && IsHit(data, h)
      {
        HitIs(data, h);
        assert h in before + last <==> h in before || h in last;
      }
    }
  }

  // The hits of the scan: in ascending order, every published text at an aligned offset behind the
  // start, and nothing else.
  lemma ScanFindsExactly(data: seq<Byte>, from: nat)
    requires from % 4 == 0
    ensures var hits := Hits(data, from, Steps(from, |data|));
      && (forall h: Hit :: h in hits <==> from <= h.offset && h.offset % 4 == 0 && IsHit(data, h))
      && (forall i, j | 0 <= i < j < |hits| :: hits[i].offset < hits[j].offset)
  {
    hide Hits, IsHit;
    HitsAre(data, from, Steps(from, |data|));
    forall h | IsHit(data, h) ensures h.offset < |data| { HitInside(data, h); }
  }

  lemma HitInside(data: seq<Byte>, h: Hit)
    requires IsHit(data, h)
    ensures h.offset < |data|
  {
  }

  // ---------- the scan by chunks ----------

  // The table, tag by tag, against one offset of a block.
  method MatchInBlock(tags: seq<Tag>, block: seq<Byte>, relative: nat) returns (r: Option<Tag>)
    ensures r == FirstMatch(tags, block, relative)
  {
    hide Matches;
    var i := 0;
    assert tags[0..] == tags;
    while i < |tags|
      invariant i <= |tags| && FirstMatch(tags, block, relative) == FirstMatch(tags[i..], block, relative)
    {
      if Matches(block, relative, tags[i]) { return Some(tags[i]); }
      i := i + 1;
    }
    r := None;
  }

  lemma SameSlice(data: seq<Byte>, cursor: nat, end: nat, relative: nat, n: nat)
    requires cursor + relative + n <= end <= |data|
    ensures data[cursor..end][relative..relative + n] == data[cursor + relative..cursor + relative + n]
  {
    var inner, outer := data[cursor..end][relative..relative + n], data[cursor + relative..cursor + relative + n];
    forall k | 0 <= k < n ensures inner[k] == outer[k] {
      assert inner[k] == data[cursor..end][relative + k] == data[cursor + relative + k];
    }
  }

  // A block with enough bytes behind the offset shows what the file shows.
  lemma BlockShowsFile(data: seq<Byte>, cursor: nat, end: nat, relative: nat)
    requires cursor <= end <= |data| && (cursor + relative + MAXIMUM_TAG_BYTES <= end || end == |data|)
    ensures FirstMatch(PUBLISHED_TAGS, data[cursor..end], relative) ==
            FirstMatch(PUBLISHED_TAGS, data, cursor + relative)
  {
    hide FirstMatch;
    forall i: nat | i < |PUBLISHED_TAGS|
      ensures Matches(data[cursor..end], relative, PUBLISHED_TAGS[i]) <==>
              Matches(data, cursor + relative, PUBLISHED_TAGS[i])
    {
      TagInPlace(i);
      var n := |PUBLISHED_TAGS[i]|;
      if cursor + relative + n <= end {
        SameSlice(data, cursor, end, relative, n);
      }
    }
    SameMatches(PUBLISHED_TAGS, data[cursor..end], relative, data, cursor + relative);
  }

  lemma {:induction false} SameMatches(tags: seq<Tag>, a: seq<Byte>, i: nat, b: seq<Byte>, j: nat)
    requires forall k | 0 <= k < |tags| :: Matches(a, i, tags[k]) <==> Matches(b, j, tags[k])
    ensures FirstMatch(tags, a, i) == FirstMatch(tags, b, j)
  {
    hide Matches;
    if tags != [] {
      SameMatches(tags[1..], a, i, b, j);
    }
  }

  // What the scan returns: every hit, unless there are too many.
  function Limited(hits: seq<Hit>, maximumHits: nat): Option<seq<Hit>> {
    if |hits| <= maximumHits then Some(hits) else None
  }

  // One block: the aligned offsets from cursor up to blockEnd.
  method ScanBlock(data: seq<Byte>, from: nat, cursor: nat, blockEnd: nat, hits0: seq<Hit>, maximumHits: nat)
      returns (r: Option<seq<Hit>>)
    requires from <= cursor < blockEnd <= |data| && (cursor - from) % 4 == 0
    requires (blockEnd - cursor) % 4 == 0 || blockEnd == |data|
    requires hits0 == Hits(data, from, Steps(from, cursor)) && |hits0| <= maximumHits
    ensures r == Limited(Hits(data, from, Steps(from, blockEnd)), maximumHits)
  {
    hide Hits, FirstMatch;
    var lookahead := if MAXIMUM_TAG_BYTES - 1 <= |data| - blockEnd then MAXIMUM_TAG_BYTES - 1 else |data| - blockEnd;
    var block := data[cursor..blockEnd + lookahead];
    var hits, absolute := hits0, cursor;
    while absolute < blockEnd
      invariant cursor <= absolute && (absolute - cursor) % 4 == 0 && absolute < blockEnd + 4
      invariant |hits| <= maximumHits && hits == Hits(data, from, (absolute - from) / 4)
    {
      var relative := absolute - cursor;
      BlockShowsFile(data, cursor, blockEnd + lookahead, relative);
      NextHit(data, from, absolute);
      var tag := MatchInBlock(PUBLISHED_TAGS, block, relative);
      if tag.Some? {
        if |hits| >= maximumHits {
          HitsGrow(data, from, (absolute - from) / 4 + 1, Steps(from, blockEnd));
          return None;
        }
        hits := hits + [Hit(absolute, tag.value)];
      }
      absolute := absolute + 4;
    }
    r := Some(hits);
  }

  lemma NextHit(data: seq<Byte>, from: nat, absolute: nat)
    requires from <= absolute && (absolute - from) % 4 == 0
    ensures Hits(data, from, (absolute - from) / 4 + 1) ==
            Hits(data, from, (absolute - from) / 4) + HitAt(data, absolute)
  {
    var n := (absolute - from) / 4;
    assert from + 4 * n == absolute;
  }

  // For every chunk size that is a multiple of four, the chunked scan returns the hits of the
  // whole file behind the aligned start, in order, or fails when there are too many.
  method ScanAlignedPublishedMarkers(data: seq<Byte>, startOffset: nat, maximumHits: nat, chunkBytes: nat)
      returns (r: Option<seq<Hit>>)
    requires chunkBytes > 0 && chunkBytes % 4 == 0
    ensures r == if startOffset > |data| then None
                 else Limited(Hits(data, AlignUp4(startOffset), Steps(AlignUp4(startOffset), |data|)), maximumHits)
  {
    hide Hits, Steps, AlignUp4;
    if startOffset > |data| { return None; }
    var from := AlignUp4(startOffset);
    var hits: seq<Hit>, cursor := [], from;
    NoHits(data, from);
    StepsGrow(from, from, |data|);
    while cursor < |data|
      invariant from <= cursor && (cursor < |data| ==> (cursor - from) % 4 == 0)
      invariant |hits| <= maximumHits && hits == Hits(data, from, Steps(from, cursor))
      invariant cursor >= |data| ==> Steps(from, cursor) == Steps(from, |data|)
      decreases |data| - cursor
    {
      var blockEnd := if |data| <= cursor + chunkBytes then |data| else cursor + chunkBytes;
      var next := ScanBlock(data, from, cursor, blockEnd, hits, maximumHits);
      if next.None? {
        StepsGrow(from, blockEnd, |data|);
        HitsGrow(data, from, Steps(from, blockEnd), Steps(from, |data|));
        return None;
      }
      hits, cursor := next.value, blockEnd;
    }
    r := Some(hits);
  }

  lemma NoHits(data: seq<Byte>, from: nat)
    ensures Hits(data, from, Steps(from, from)) == []
  {
  }

  lemma StepsGrow(from: nat, a: nat, b: nat)
    ensures a <= b ==> Steps(from, a) <= Steps(from, b)
    ensures a >= b && a == from ==> Steps(from, a) == Steps(from, b)
  {
  }

  // ---------- prefix and scan together ----------

  datatype Envelope = Envelope(terrainRecords: nat, nonzeroAlignmentRecords: nat, gobOffset: nat, markers: seq<Hit>)

  // The envelope's markers are all hits of the file from the GOB tag on: the tag itself, put in
  // front of the scan's result, is the hit at its offset.
  method ScanPopStream(data: seq<Byte>, limits: Pop.Limits, maximumHits: nat, chunkBytes: nat)
      returns (r: Option<Envelope>)
    requires maximumHits > 0 && chunkBytes > 0 && chunkBytes % 4 == 0
    ensures r.Some? ==> Pop.Accepted(data, limits)
    ensures Pop.Accepted(data, limits) ==>
      var gob := |data| - |Pop.Prefixes(limits.nameBytes).take(data).value.rest| - 4;
      && gob >= 0
      && (r.Some? <==> |Hits(data, gob, Steps(gob, |data|))| <= maximumHits)
      && (r.Some? ==> r.value.gobOffset == gob && r.value.markers == Hits(data, gob, Steps(gob, |data|)))
  {
    hide Hits, Pop.Prefixes, Pop.RecordsIn, Pop.NonzeroAlignments;
    var prefix := Pop.ReadTerrainPrefix(data, limits);
    if prefix.None? { return None; }
    var gobOffset := prefix.value.2;
    GobIsFirstHit(data, gobOffset);
    var markers := ScanAlignedPublishedMarkers(data, gobOffset + 4, maximumHits - 1, chunkBytes);
    if markers.None? { return None; }
    r := Some(Envelope(prefix.value.0, prefix.value.1, gobOffset, [Hit(gobOffset, Pop.GOB)] + markers.value));
  }

  lemma GobIsFirstHit(data: seq<Byte>, gob: nat)
    requires gob + 4 <= |data| && data[gob..gob + 4] == Pop.GOB && gob % 4 == 0
    ensures AlignUp4(gob + 4) == gob + 4
    ensures Hits(data, gob, Steps(gob, |data|)) == [Hit(gob, Pop.GOB)] + Hits(data, gob + 4, Steps(gob + 4, |data|))
  {
    hide Hits, FirstMatch;
    GobMatches(data, gob);
    HitsStart(data, gob, Steps(gob, |data|));
  }

  lemma GobMatches(data: seq<Byte>, gob: nat)
    requires gob + 4 <= |data| && data[gob..gob + 4] == Pop.GOB
    ensures FirstMatch(PUBLISHED_TAGS, data, gob) == Some(Pop.GOB)
  {
    hide FirstMatch;
    assert PUBLISHED_TAGS[1] == Pop.GOB;
    assert Matches(data, gob, Pop.GOB);
    FirstMatchIsMatch(PUBLISHED_TAGS, data, gob);
    AtMostOneTag(data, gob, Pop.GOB, FirstMatch(PUBLISHED_TAGS, data, gob).value);
  }
}
