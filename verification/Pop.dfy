// The terrain prefix of a POP file, read by two independently written parsers:
// tools/scan_pop_post_terrain.py and tools/measure_level_tdx_topology.py.
module Pop {
  import opened Bytes
  import opened Codecs
  import opened Fields
  import opened Options

  const OBSERVED_WORD := 70
  const TER: seq<Byte> := [84, 69, 82, 58]
  const GOB: seq<Byte> := [71, 79, 66, 58]
  const HEADER_BYTES := 12

  datatype Limits = Limits(fileBytes: nat, terrainRecords: nat, nameBytes: nat)

  // ---------- names ----------

  ghost predicate IsName(text: seq<Byte>, maximum: nat) { 0 < |text| <= maximum && Printable(text) }

  ghost predicate NameEnds(s: seq<Byte>, n: nat, maximum: nat) {
    n < |s| && s[n] == 0 && IsName(s[..n], maximum)
  }

  ghost function TakeName(s: seq<Byte>, maximum: nat): Option<Took<seq<Byte>>> {
    if n: nat :| NameEnds(s, n, maximum) then Some(Took(s[..n], s[n + 1..])) else None
  }

  lemma PrintablePrefix(s: seq<Byte>, k: nat)
    requires k <= |s| && Printable(s[..k])
    ensures forall i | 0 <= i < k :: 0x20 <= s[i] <= 0x7E
  {
    forall i | 0 <= i < k ensures 0x20 <= s[i] <= 0x7E {
      assert s[..k][i] == s[i];
    }
  }

  lemma NameEndsOnce(s: seq<Byte>, n: nat, k: nat, maximum: nat)
    requires NameEnds(s, n, maximum) && k <= |s| && Printable(s[..k])
    ensures k <= n
  {
    PrintablePrefix(s, k);
  }

  lemma NameFound(s: seq<Byte>, k: nat, maximum: nat)
    requires NameEnds(s, k, maximum)
    ensures TakeName(s, maximum) == Some(Took(s[..k], s[k + 1..]))
  {
    var n: nat :| NameEnds(s, n, maximum) && TakeName(s, maximum) == Some(Took(s[..n], s[n + 1..]));
    NameEndsOnce(s, n, k, maximum);
    NameEndsOnce(s, k, n, maximum);
  }

  // The four ways a name loop gives up after k printable bytes.
  lemma NoName(s: seq<Byte>, k: nat, maximum: nat)
    requires k <= |s| && Printable(s[..k])
    requires k < |s| && s[k] == 0 ==> k == 0
    requires k < |s| && s[k] != 0 ==> k >= maximum || !(0x20 <= s[k] <= 0x7E)
    ensures TakeName(s, maximum) == None
  {
    if n: nat :| NameEnds(s, n, maximum) {
      PrintablePrefix(s, n);
      NameEndsOnce(s, n, k, maximum);
    }
  }

  ghost function Names(maximum: nat): Codec<seq<Byte>> {
    Codec(s => TakeName(s, maximum), text => text + [0], text => IsName(text, maximum))
  }

  lemma NamesLawful(maximum: nat)
    ensures Lawful(Names(maximum))
  {
    forall s, text, rest
      ensures TakeName(s, maximum) == Some(Took(text, rest)) <==> IsName(text, maximum) && s == (text + [0]) + rest
    {
      if IsName(text, maximum) && s == (text + [0]) + rest {
        assert s[..|text|] == text && s[|text| + 1..] == rest;
        NameFound(s, |text|, maximum);
      }
      if TakeName(s, maximum) == Some(Took(text, rest)) {
        var n: nat :| NameEnds(s, n, maximum) && TakeName(s, maximum) == Some(Took(s[..n], s[n + 1..]));
        assert s == (s[..n] + [s[n]]) + s[n + 1..];
      }
    }
  }

  // ---------- records and the prefix ----------

  // Eight fixed bytes, a terminated name, and bytes up to the next word.
  type Record = (seq<Byte>, (seq<Byte>, seq<Byte>))

  function AlignmentBytes(name: seq<Byte>): nat { Padding(8 + |name| + 1) }

  ghost function NameAndAlignment(maximum: nat): Codec<(seq<Byte>, seq<Byte>)> {
    Then(Names(maximum), name => Raw(AlignmentBytes(name)))
  }

  ghost function Records(maximum: nat): Codec<Record> { Then(Raw(8), _ => NameAndAlignment(maximum)) }

  lemma RecordsSound(maximum: nat)
    ensures Sound(Records(maximum))
    ensures forall v | Records(maximum).valid(v) :: |Records(maximum).emit(v)| >= 12
  {
    NamesLawful(maximum);
    forall name: seq<Byte> ensures Lawful(Raw(AlignmentBytes(name))) {
      RawLawful(AlignmentBytes(name));
    }
    ThenLawful(Names(maximum), name => Raw(AlignmentBytes(name)));
    RawLawful(8);
    ThenLawful(Raw(8), _ => NameAndAlignment(maximum));
    forall v | Records(maximum).valid(v)
      ensures |Records(maximum).emit(v)| % 4 == 0 && |Records(maximum).emit(v)| >= 12
    {
      assert Records(maximum).emit(v) == v.0 + ((v.1.0 + [0]) + v.1.1);
      assert |v.0| == 8 && |v.1.1| == AlignmentBytes(v.1.0) && |v.1.0| > 0;
    }
  }

  type Prefix = (nat, (seq<Byte>, (seq<Record>, seq<Byte>)))

  ghost function ListAndGob(maximum: nat): Codec<(seq<Record>, seq<Byte>)> {
    Then(Counted(Records(maximum)), _ => Where(Raw(4), (b: seq<Byte>) => b == GOB))
  }

  ghost function Prefixes(maximum: nat): Codec<Prefix> {
    Then(Where(Word(), (v: nat) => v == OBSERVED_WORD),
         _ => Then(Where(Raw(4), (b: seq<Byte>) => b == TER), _ => ListAndGob(maximum)))
  }

  lemma PrefixesLawful(maximum: nat)
    ensures Lawful(Prefixes(maximum))
  {
    hide Then, Where, Word, Raw, Counted, Records;
    RecordsSound(maximum);
    CountedSound(Records(maximum));
    WordSound();
    RawLawful(4);
    WhereLawful(Word(), (v: nat) => v == OBSERVED_WORD);
    WhereLawful(Raw(4), (b: seq<Byte>) => b == TER);
    WhereLawful(Raw(4), (b: seq<Byte>) => b == GOB);
    ThenLawful(Counted(Records(maximum)), _ => Where(Raw(4), (b: seq<Byte>) => b == GOB));
    ThenLawful(Where(Raw(4), (b: seq<Byte>) => b == TER), _ => ListAndGob(maximum));
    ThenLawful(Where(Word(), (v: nat) => v == OBSERVED_WORD),
               _ => Then(Where(Raw(4), (b: seq<Byte>) => b == TER), _ => ListAndGob(maximum)));
  }

  // What both parsers look for: a prefix of the file within the caller's capacities.
  ghost predicate Accepted(data: seq<Byte>, limits: Limits) {
    && |data| <= limits.fileBytes
    && Prefixes(limits.nameBytes).take(data).Some?
    && |RecordsIn(data, limits)| <= limits.terrainRecords
  }

  ghost function RecordsIn(data: seq<Byte>, limits: Limits): seq<Record>
    requires Prefixes(limits.nameBytes).take(data).Some?
  {
    Prefixes(limits.nameBytes).take(data).value.value.1.1.0
  }

  // No prefix is too short for the parsers' early length checks, and it ends word-aligned.
  lemma {:induction false} RecordsLength(maximum: nat, vs: seq<Record>)
    requires AllValid(Records(maximum), vs)
    ensures |PrintMany(Records(maximum), vs)| >= 12 * |vs|
    ensures |PrintMany(Records(maximum), vs)| % 4 == 0
  {
    hide Records;
    RecordsSound(maximum);
    ManyAligned(Records(maximum), vs);
    if vs != [] {
      RecordsLength(maximum, vs[..|vs| - 1]);
    }
  }

  // The bytes of an accepted prefix.
  lemma PrefixBytes(data: seq<Byte>, maximum: nat)
    requires Prefixes(maximum).take(data).Some?
    ensures var t := Prefixes(maximum).take(data).value;
      var records := t.value.1.1.0;
      && |data| - |t.rest| == HEADER_BYTES + |PrintMany(Records(maximum), records)| + 4
      && 16 + 12 * |records| <= |data|
      && (|data| - |t.rest|) % 4 == 0
  {
    hide Prefixes, Records, PrintMany, AllValid;
    var t := Prefixes(maximum).take(data).value;
    PrefixesLawful(maximum);
    assert Prefixes(maximum).take(data) == Some(Took(t.value, t.rest));
    assert Prefixes(maximum).valid(t.value) && data == Prefixes(maximum).emit(t.value) + t.rest;
    PrefixLength(maximum, t.value);
    RecordsLength(maximum, t.value.1.1.0);
  }

  lemma PrefixLength(maximum: nat, v: Prefix)
    requires Prefixes(maximum).valid(v)
    ensures AllValid(Records(maximum), v.1.1.0)
    ensures |Prefixes(maximum).emit(v)| == HEADER_BYTES + |PrintMany(Records(maximum), v.1.1.0)| + 4
  {
    hide Records, PrintMany, AllValid;
    assert Prefixes(maximum).emit(v)
        == U32Bytes(v.0) + (v.1.0 + ((U32Bytes(|v.1.1.0|) + PrintMany(Records(maximum), v.1.1.0)) + v.1.1.1));
  }

  // ---------- the two name loops ----------

  lemma NextByte(s: seq<Byte>, k: nat)
    requires k <= |s|
    ensures TakeU8(s[k..]) == if k < |s| then Some(Took(s[k], s[k + 1..])) else None
  {
  }

  lemma PrintableSnoc(text: seq<Byte>, x: Byte)
    ensures Printable([])
    ensures Printable(text + [x]) <==> Printable(text) && 0x20 <= x <= 0x7E
  {
    var more := text + [x];
    if Printable(more) {
      assert more[|text|] == x && forall i | 0 <= i < |text| :: text[i] == more[i];
    }
  }

  // Counts the bytes of a name; the length limit is checked before the character.
  method CountName(stream: Reader, maximum: nat) returns (r: Option<nat>)
    requires stream.Valid()
    modifies stream`offset
    ensures stream.Valid()
    ensures match TakeName(old(stream.Rest()), maximum)
      case Some(t) => && r == Some(|t.value|) && stream.Rest() == t.rest
                      && stream.offset == old(stream.offset) + |t.value| + 1
      case None => r == None
  {
    hide TakeName, TakeU8, Printable;
    ghost var s := stream.Rest();
    var nameBytes := 0;
    PrintableSnoc([], 32);
    while true
      invariant stream.Valid() && stream.offset == old(stream.offset) + nameBytes
      invariant nameBytes <= |s| && stream.Rest() == s[nameBytes..]
      invariant Printable(s[..nameBytes]) && nameBytes <= maximum
      decreases |s| - nameBytes
    {
      NextByte(s, nameBytes);
      var value := stream.U8();
      if value.None? {
        NoName(s, nameBytes, maximum);
        return None;
      }
      if value.value == 0 {
        if nameBytes == 0 {
          NoName(s, nameBytes, maximum);
          return None;
        }
        NameFound(s, nameBytes, maximum);
        return Some(nameBytes);
      }
      if nameBytes >= maximum || value.value < 0x20 || value.value > 0x7E {
        NoName(s, nameBytes, maximum);
        return None;
      }
      PrintableSnoc(s[..nameBytes], value.value);
      assert s[..nameBytes + 1] == s[..nameBytes] + [value.value];
      nameBytes := nameBytes + 1;
    }
    assert false;
  }

  // Collects a name; emptiness is checked after the loop.
  method CollectName(stream: Reader, maximum: nat) returns (r: Option<seq<Byte>>)
    requires stream.Valid()
    modifies stream`offset
    ensures stream.Valid()
    ensures match TakeName(old(stream.Rest()), maximum)
      case Some(t) => && r == Some(t.value) && stream.Rest() == t.rest
                      && stream.offset == old(stream.offset) + |t.value| + 1
      case None => r == None
  {
    hide TakeName, TakeU8, Printable;
    ghost var s := stream.Rest();
    var rawName: seq<Byte> := [];
    NextByte(s, 0);
    PrintableSnoc([], 32);
    var value := stream.U8();
    while value.Some? && value.value != 0
      invariant stream.Valid() && |rawName| <= |s| && rawName == s[..|rawName|] && Printable(rawName)
      invariant |rawName| <= maximum
      invariant value.None? ==> |rawName| == |s|
      invariant value.Some? ==> stream.offset == old(stream.offset) + |rawName| + 1
      invariant value.Some? ==> |rawName| < |s| && s[|rawName|] == value.value && stream.Rest() == s[|rawName| + 1..]
      decreases |s| - |rawName|, value.Some?
    {
      if value.value < 0x20 || value.value > 0x7E || |rawName| >= maximum {
        NoName(s, |rawName|, maximum);
        return None;
      }
      PrintableSnoc(rawName, value.value);
      rawName := rawName + [value.value];
      NextByte(s, |rawName|);
      value := stream.U8();
    }
    if value.None? || rawName == [] {
      NoName(s, |rawName|, maximum);
      return None;
    }
    NameFound(s, |rawName|, maximum);
    r := Some(rawName);
  }

  // ---------- the two parsers ----------

  // The header, read as one block.
  method ReadHeader(stream: Reader) returns (r: Option<nat>)
    requires stream.Valid()
    modifies stream`offset
    ensures stream.Valid()
    ensures match TakeHeader(old(stream.Rest()))
      case Some(t) => r == Some(t.value) && stream.Rest() == t.rest
      case None => r == None
  {
    ghost var s := stream.Rest();
    var header := stream.Take(HEADER_BYTES);
    if header.None? { return None; }
    HeaderBlock(s);
    if U32At(header.value, 0) != OBSERVED_WORD || header.value[4..8] != TER { return None; }
    r := Some(U32At(header.value, 8));
  }

  ghost function TakeHeader(s: seq<Byte>): Option<Took<nat>> {
    match TakeU32(s)
    case None => None
    case Some(w) =>
      if w.value != OBSERVED_WORD then None
      else
        match TakeBytes(w.rest, 4)
        case None => None
        case Some(tag) => if tag.value != TER then None else TakeU32(tag.rest)
  }

  lemma HeaderBlock(s: seq<Byte>)
    requires |s| >= HEADER_BYTES
    ensures TakeHeader(s) == if U32At(s[..HEADER_BYTES], 0) == OBSERVED_WORD && s[..HEADER_BYTES][4..8] == TER
                             then Some(Took(U32At(s[..HEADER_BYTES], 8), s[HEADER_BYTES..])) else None
  {
    assert s[4..][..4] == s[..HEADER_BYTES][4..8];
    assert s[4..][4..] == s[8..] && s[8..][4..] == s[12..];
    assert forall k | 0 <= k < 4 :: s[8..][k] == s[..HEADER_BYTES][8 + k];
  }

  // A prefix is a header, the records it counts, and the tag behind them.
  lemma PrefixIsHeaderAndRecords(s: seq<Byte>, maximum: nat)
    ensures Prefixes(maximum).take(s) ==
      match TakeHeader(s)
      case None => None
      case Some(h) =>
        match TakeMany(Records(maximum), h.rest, h.value)
        case None => None
        case Some(list) =>
          match TakeBytes(list.rest, 4)
          case None => None
          case Some(tag) =>
            if tag.value == GOB then Some(Took((OBSERVED_WORD, (TER, (list.value, GOB))), tag.rest)) else None
  {
    hide Prefixes, ListAndGob, Records, TakeMany, TakeU32, TakeBytes;
    TagsThenList(s, maximum);
    if TakeU32(s).Some? && TakeBytes(TakeU32(s).value.rest, 4).Some? {
      ListParts(TakeBytes(TakeU32(s).value.rest, 4).value.rest, maximum);
    }
  }

  lemma TagsThenList(s: seq<Byte>, maximum: nat)
    ensures Prefixes(maximum).take(s) ==
      match TakeU32(s)
      case None => None
      case Some(w) =>
        if w.value != OBSERVED_WORD then None
        else
          match TakeBytes(w.rest, 4)
          case None => None
          case Some(tag) =>
            if tag.value != TER then None
            else
              match ListAndGob(maximum).take(tag.rest)
              case None => None
              case Some(l) => Some(Took((w.value, (tag.value, l.value)), l.rest))
  {
    hide ListAndGob, TakeU32, TakeBytes;
  }

  lemma ListParts(s: seq<Byte>, maximum: nat)
    ensures ListAndGob(maximum).take(s) ==
      match TakeU32(s)
      case None => None
      case Some(n) =>
        match TakeMany(Records(maximum), n.rest, n.value)
        case None => None
        case Some(list) =>
          match TakeBytes(list.rest, 4)
          case None => None
          case Some(tag) => if tag.value == GOB then Some(Took((list.value, tag.value), tag.rest)) else None
  {
    hide Records, TakeMany, TakeU32, TakeBytes;
  }

  lemma RecordParts(s: seq<Byte>, maximum: nat)
    ensures Records(maximum).take(s) ==
      match TakeBytes(s, 8)
      case None => None
      case Some(f) =>
        match TakeName(f.rest, maximum)
        case None => None
        case Some(n) =>
          match TakeBytes(n.rest, AlignmentBytes(n.value))
          case None => None
          case Some(a) => Some(Took((f.value, (n.value, a.value)), a.rest))
  {
    hide TakeName, AlignmentBytes;
  }

  // The first parser's record: its name is counted, its alignment bytes are compared with zero.
  method ReadTerrainRecord(stream: Reader, maximum: nat) returns (r: Option<bool>)
    requires stream.Valid() && stream.offset % 4 == 0
    modifies stream`offset
    ensures stream.Valid()
    ensures match Records(maximum).take(old(stream.Rest()))
      case Some(t) => r == Some(!AllZero(t.value.1.1)) && stream.Rest() == t.rest && stream.offset % 4 == 0
      case None => r == None
  {
    hide AllZero, TakeName, Padding, Records, AlignUp4;
    RecordParts(stream.Rest(), maximum);
    var begin := stream.offset;
    var fixed := stream.Take(8);
    if fixed.None? { return None; }
    var nameBytes := CountName(stream, maximum);
    if nameBytes.None? { return None; }
    var aligned := AlignUp4(stream.offset);
    PaddingIsAlignment(begin, 8 + nameBytes.value + 1);
    if aligned > |stream.raw| { return None; }
    var alignment := stream.Take(aligned - stream.offset);
    if alignment.None? { return None; }
    r := Some(!AllZero(alignment.value));
  }

  // The second parser's record: its name is kept.
  method ReadCellName(stream: Reader, maximum: nat) returns (r: Option<seq<Byte>>)
    requires stream.Valid() && stream.offset % 4 == 0
    modifies stream`offset
    ensures stream.Valid()
    ensures match Records(maximum).take(old(stream.Rest()))
      case Some(t) => r == Some(t.value.1.0) && stream.Rest() == t.rest && stream.offset % 4 == 0
      case None => r == None
  {
    hide TakeName, Padding, Records, AlignUp4;
    RecordParts(stream.Rest(), maximum);
    var begin := stream.offset;
    var fixed := stream.Take(8);
    if fixed.None? { return None; }
    var name := CollectName(stream, maximum);
    if name.None? { return None; }
    var aligned := AlignUp4(stream.offset);
    PaddingIsAlignment(begin, 8 + |name.value| + 1);
    if aligned > |stream.raw| { return None; }
    var alignment := stream.Take(aligned - stream.offset);
    if alignment.None? { return None; }
    r := name;
  }

  // How many of the first n records have alignment bytes that are not all zero.
  ghost function NonzeroAlignments(records: seq<Record>, n: nat): nat
    requires n <= |records|
  {
    if n == 0 then 0
    else NonzeroAlignments(records, n - 1) + if AllZero(records[n - 1].1.1) then 0 else 1
  }

  lemma {:induction false} NonzeroPrefix(records: seq<Record>, more: seq<Record>, n: nat)
    requires n <= |records|
    ensures NonzeroAlignments(records + more, n) == NonzeroAlignments(records, n)
  {
    if n > 0 {
      NonzeroPrefix(records, more, n - 1);
    }
  }

  lemma NoneNonzero()
    ensures NonzeroAlignments([], 0) == 0
  {
  }

  lemma NonzeroStep(records: seq<Record>, n: nat)
    requires n < |records|
    ensures NonzeroAlignments(records, n + 1) ==
            NonzeroAlignments(records, n) + if AllZero(records[n].1.1) then 0 else 1
  {
  }

  lemma NonzeroSnoc(records: seq<Record>, record: Record)
    ensures NonzeroAlignments(records + [record], |records| + 1) ==
            NonzeroAlignments(records, |records|) + if AllZero(record.1.1) then 0 else 1
  {
    hide NonzeroAlignments, AllZero;
    NonzeroPrefix(records, [record], |records|);
    NonzeroStep(records + [record], |records|);
  }

  // Every record takes at least twelve bytes, so neither early length check rejects a parseable file.
  lemma AcceptedIsLong(data: seq<Byte>, limits: Limits)
    requires Accepted(data, limits)
    ensures TakeHeader(data).Some? && 16 + 12 * TakeHeader(data).value.value <= |data|
    ensures TakeHeader(data).value.value == |RecordsIn(data, limits)|
  {
    hide Records, Prefixes, TakeHeader;
    PrefixBytes(data, limits.nameBytes);
    PrefixIsHeaderAndRecords(data, limits.nameBytes);
    ManyLength(Records(limits.nameBytes), TakeHeader(data).value.rest, TakeHeader(data).value.value);
  }

  method ReadTerrainRecords(stream: Reader, count: nat, maximum: nat) returns (r: Option<nat>)
    requires stream.Valid() && stream.offset % 4 == 0
    modifies stream`offset
    ensures stream.Valid()
    ensures match TakeMany(Records(maximum), old(stream.Rest()), count)
      case Some(t) => && r == Some(NonzeroAlignments(t.value, |t.value|))
                      && stream.Rest() == t.rest && stream.offset % 4 == 0 && |t.value| == count
      case None => r == None
  {
    hide Records, AllZero, NonzeroAlignments;
    ghost var s, records: seq<Record> := stream.Rest(), [];
    var nonzeroAlignmentRecords := 0;
    NoneNonzero();
    for i := 0 to count
      invariant stream.Valid() && stream.offset % 4 == 0
      invariant TakeMany(Records(maximum), s, i) == Some(Took(records, stream.Rest())) && |records| == i
      invariant nonzeroAlignmentRecords == NonzeroAlignments(records, i)
    {
      ghost var front := stream.Rest();
      if TakeMany(Records(maximum), s, i + 1).None? { TakeManyStops(Records(maximum), s, i + 1, count); }
      var nonzero := ReadTerrainRecord(stream, maximum);
      if nonzero.None? { return None; }
      ghost var record := Records(maximum).take(front).value.value;
      NonzeroSnoc(records, record);
      records := records + [record];
      nonzeroAlignmentRecords := nonzeroAlignmentRecords + if nonzero.value then 1 else 0;
    }
    r := Some(nonzeroAlignmentRecords);
  }

  // The first parser: record count, records with nonzero alignment bytes, offset of the tag
  // behind the records. The alignment check on that offset could never fire.
  method ReadTerrainPrefix(data: seq<Byte>, limits: Limits) returns (r: Option<(nat, nat, nat)>)
    ensures r.Some? <==> Accepted(data, limits)
    ensures r.Some? ==>
      var records := RecordsIn(data, limits);
      && r.value.0 == |records| && r.value.1 == NonzeroAlignments(records, |records|)
      && r.value.2 + 4 == |data| - |Prefixes(limits.nameBytes).take(data).value.rest|
      && data[r.value.2..r.value.2 + 4] == GOB && r.value.2 % 4 == 0
  {
    hide Accepted, RecordsIn, Records, Prefixes, TakeHeader, TakeMany, TakeBytes, AllZero, NonzeroAlignments;
    AcceptedParts(data, limits);
    if |data| < 16 || |data| > limits.fileBytes { return None; }
    var stream := new Reader(data);
    var header := ReadHeader(stream);
    if header.None? { return None; }
    var terrainRecords := header.value;
    if terrainRecords > limits.terrainRecords || 16 + terrainRecords * 10 > |data| { return None; }
    HeaderIsAligned(data);
    var nonzeroAlignmentRecords := ReadTerrainRecords(stream, terrainRecords, limits.nameBytes);
    if nonzeroAlignmentRecords.None? { return None; }
    var gobOffset := stream.offset;
    TagTaken(data, gobOffset);
    var tag := stream.Take(4);
    if tag != Some(GOB) { return None; }
    r := Some((terrainRecords, nonzeroAlignmentRecords.value, gobOffset));
  }

  lemma TagTaken(data: seq<Byte>, at: nat)
    requires at <= |data|
    ensures match TakeBytes(data[at..], 4)
      case Some(t) => at + 4 <= |data| && t.value == data[at..at + 4] && |t.rest| == |data| - at - 4
      case None => true
  {
  }

  // What acceptance comes down to, in the order the parsers read.
  lemma AcceptedParts(data: seq<Byte>, limits: Limits)
    ensures Accepted(data, limits) <==>
      && |data| <= limits.fileBytes && TakeHeader(data).Some?
      && var h := TakeHeader(data).value;
      && h.value <= limits.terrainRecords
      && var m := TakeMany(Records(limits.nameBytes), h.rest, h.value);
      && m.Some? && TakeBytes(m.value.rest, 4).Some? && TakeBytes(m.value.rest, 4).value.value == GOB
    ensures Accepted(data, limits) ==>
      var h := TakeHeader(data).value;
      var m := TakeMany(Records(limits.nameBytes), h.rest, h.value).value;
      && 16 + 12 * h.value <= |data| && RecordsIn(data, limits) == m.value
      && Prefixes(limits.nameBytes).take(data).value.rest == TakeBytes(m.rest, 4).value.rest
  {
    hide Records, Prefixes, TakeHeader, TakeMany, TakeBytes;
    PrefixIsHeaderAndRecords(data, limits.nameBytes);
    if TakeHeader(data).Some? {
      ManyLength(Records(limits.nameBytes), TakeHeader(data).value.rest, TakeHeader(data).value.value);
    }
    if Accepted(data, limits) {
      AcceptedIsLong(data, limits);
    }
  }

  lemma HeaderIsAligned(data: seq<Byte>)
    ensures TakeHeader(data).Some? ==> (|data| - |TakeHeader(data).value.rest|) % 4 == 0
  {
  }

  // How many name bytes the records own.
  ghost function OwnedBytes(records: seq<Record>, n: nat): nat
    requires n <= |records|
  {
    if n == 0 then 0 else OwnedBytes(records, n - 1) + |records[n - 1].1.0|
  }

  lemma {:induction false} OwnedPrefix(records: seq<Record>, more: seq<Record>, n: nat)
    requires n <= |records|
    ensures OwnedBytes(records + more, n) == OwnedBytes(records, n)
  {
    if n > 0 {
      OwnedPrefix(records, more, n - 1);
    }
  }

  lemma {:induction false} OwnedGrows(records: seq<Record>, n: nat, m: nat)
    requires n <= m <= |records|
    ensures OwnedBytes(records, n) <= OwnedBytes(records, m)
    decreases m
  {
    if n < m {
      OwnedGrows(records, n, m - 1);
    }
  }

  function NamesOf(records: seq<Record>): seq<seq<Byte>> {
    seq(|records|, i requires 0 <= i < |records| => records[i].1.0)
  }

  // The second parser's loop; the names it keeps may not exceed a total of their own.
  method ReadCellNames(stream: Reader, count: nat, maximum: nat, maximumOwned: nat) returns (r: Option<seq<seq<Byte>>>)
    requires stream.Valid() && stream.offset % 4 == 0
    modifies stream`offset
    ensures stream.Valid()
    ensures match TakeMany(Records(maximum), old(stream.Rest()), count)
      case Some(t) =>
        if OwnedBytes(t.value, |t.value|) <= maximumOwned
        then r == Some(NamesOf(t.value)) && stream.Rest() == t.rest && |t.value| == count else r == None
      case None => r == None
  {
    hide Records, NamesOf, OwnedBytes;
    ghost var s, records: seq<Record> := stream.Rest(), [];
    NothingOwned();
    var names: seq<seq<Byte>>, ownedNameBytes := [], 0;
    for i := 0 to count
      invariant stream.Valid() && stream.offset % 4 == 0
      invariant TakeMany(Records(maximum), s, i) == Some(Took(records, stream.Rest())) && |records| == i
      invariant names == NamesOf(records) && ownedNameBytes == OwnedBytes(records, i) <= maximumOwned
    {
      ghost var front := stream.Rest();
      if TakeMany(Records(maximum), s, i + 1).None? { TakeManyStops(Records(maximum), s, i + 1, count); }
      var name := ReadCellName(stream, maximum);
      if name.None? { return None; }
      ghost var record := Records(maximum).take(front).value.value;
      NamesSnoc(records, record);
      OwnedSnoc(records, record);
      records := records + [record];
      if |name.value| > maximumOwned - ownedNameBytes {
        TooManyOwned(s, maximum, i + 1, count, records);
        return None;
      }
      ownedNameBytes := ownedNameBytes + |name.value|;
      names := names + [name.value];
    }
    r := Some(names);
  }

  lemma NothingOwned()
    ensures NamesOf([]) == [] && OwnedBytes([], 0) == 0
  {
  }

  lemma NamesSnoc(records: seq<Record>, record: Record)
    ensures NamesOf(records + [record]) == NamesOf(records) + [record.1.0]
  {
    var (more, names) := (NamesOf(records + [record]), NamesOf(records) + [record.1.0]);
    assert |more| == |names|;
    forall i | 0 <= i < |names| ensures more[i] == names[i] {
    }
  }

  lemma OwnedSnoc(records: seq<Record>, record: Record)
    ensures OwnedBytes(records + [record], |records| + 1) == OwnedBytes(records, |records|) + |record.1.0|
  {
    hide OwnedBytes;
    OwnedPrefix(records, [record], |records|);
    OwnedStep(records + [record], |records|);
  }

  lemma OwnedStep(records: seq<Record>, n: nat)
    requires n < |records|
    ensures OwnedBytes(records, n + 1) == OwnedBytes(records, n) + |records[n].1.0|
  {
  }

  lemma TooManyOwned(s: seq<Byte>, maximum: nat, k: nat, count: nat, records: seq<Record>)
    requires k <= count && TakeMany(Records(maximum), s, k).Some?
    requires TakeMany(Records(maximum), s, k).value.value == records && |records| == k
    ensures var t := TakeMany(Records(maximum), s, count);
      t.Some? ==> OwnedBytes(records, k) <= OwnedBytes(t.value.value, |t.value.value|)
  {
    hide Records, TakeMany;
    var t := TakeMany(Records(maximum), s, count);
    if t.Some? {
      TakeManyPrefix(Records(maximum), s, k, count);
      var all := t.value.value;
      OwnedPrefix(records, all[k..], k);
      assert records + all[k..] == all;
      OwnedGrows(all, k, |all|);
    }
  }

  // The second parser: the names of the records.
  method ParsePopCellNames(data: seq<Byte>, limits: Limits, maximumOwned: nat) returns (r: Option<seq<seq<Byte>>>)
    ensures r.Some? <==>
      Accepted(data, limits) && OwnedBytes(RecordsIn(data, limits), |RecordsIn(data, limits)|) <= maximumOwned
    ensures r.Some? ==> r.value == NamesOf(RecordsIn(data, limits))
  {
    hide Accepted, RecordsIn, Records, Prefixes, TakeHeader, TakeMany, OwnedBytes, NamesOf;
    AcceptedParts(data, limits);
    if |data| > limits.fileBytes || |data| < 16 { return None; }
    var stream := new Reader(data);
    var header := ReadHeader(stream);
    if header.None? { return None; }
    var count := header.value;
    if count > limits.terrainRecords || count * 9 > |data| - 12 { return None; }
    HeaderIsAligned(data);
    var names := ReadCellNames(stream, count, limits.nameBytes, maximumOwned);
    if names.None? { return None; }
    var tag := stream.Take(4);
    if tag != Some(GOB) { return None; }
    r := names;
  }

  lemma {:induction false} OwnedBound(records: seq<Record>, maximum: nat, n: nat)
    requires n <= |records| && forall i | 0 <= i < |records| :: |records[i].1.0| <= maximum
    ensures OwnedBytes(records, n) <= n * maximum
  {
    if n > 0 {
      OwnedBound(records, maximum, n - 1);
      assert n * maximum == (n - 1) * maximum + maximum;
    }
  }

  lemma OwnedWithinCaps(data: seq<Byte>, limits: Limits)
    requires Accepted(data, limits)
    ensures OwnedBytes(RecordsIn(data, limits), |RecordsIn(data, limits)|) <= limits.terrainRecords * limits.nameBytes
  {
    hide Prefixes, Records, PrintMany, AllValid;
    var t := Prefixes(limits.nameBytes).take(data).value;
    PrefixesLawful(limits.nameBytes);
    assert Prefixes(limits.nameBytes).take(data) == Some(Took(t.value, t.rest));
    PrefixLength(limits.nameBytes, t.value);
    ValidNames(limits.nameBytes, RecordsIn(data, limits));
    OwnedBound(RecordsIn(data, limits), limits.nameBytes, |RecordsIn(data, limits)|);
    assert |RecordsIn(data, limits)| * limits.nameBytes <= limits.terrainRecords * limits.nameBytes;
  }

  lemma ValidNames(maximum: nat, records: seq<Record>)
    requires AllValid(Records(maximum), records)
    ensures forall i | 0 <= i < |records| :: |records[i].1.0| <= maximum
  {
    forall i | 0 <= i < |records| ensures |records[i].1.0| <= maximum {
      assert Records(maximum).valid(records[i]);
    }
  }

  // With equal capacities, and a total for owned names that cannot bind, the two parsers accept
  // the same files and count the same records.
  method ParseBoth(data: seq<Byte>, limits: Limits, maximumOwned: nat)
      returns (envelope: Option<(nat, nat, nat)>, names: Option<seq<seq<Byte>>>)
    requires limits.terrainRecords * limits.nameBytes <= maximumOwned
    ensures envelope.Some? <==> names.Some?
    ensures envelope.Some? ==> envelope.value.0 == |names.value|
  {
    hide Accepted, OwnedBytes, Prefixes;
    envelope := ReadTerrainPrefix(data, limits);
    names := ParsePopCellNames(data, limits, maximumOwned);
    if envelope.Some? {
      OwnedWithinCaps(data, limits);
    }
  }
}
