// HOG containers: the span parser of tools/fingerprint_assets.py, the whole-file parser of
// tools/hog.py, their agreement, and the round trip through a builder.
module Hog {
  import opened Bytes
  import opened Options
  import opened NameTable

  const MAXIMUM_ENTRIES := 1_000_000
  const OFFSETS_OFFSET := 0x14

  datatype Entry = Entry(name: seq<Byte>, offset: nat, size: nat)
  datatype Directory = Directory(entries: seq<Entry>, logicalSize: nat, paddingSize: nat)
  datatype Archive = Archive(tag: nat, count: nat, namesOffset: nat, dataOffset: nat, entries: seq<Entry>)

  // ---------- shared pieces ----------

  predicate MonotoneFromZero(offsets: seq<nat>) {
    && offsets != [] && offsets[0] == 0
    && forall i, j | 0 <= i < |offsets| && j == i + 1 < |offsets| :: offsets[i] <= offsets[j]
  }

  predicate Ascii(name: seq<Byte>) { forall i | 0 <= i < |name| :: name[i] < 128 }

  predicate AllAscii(names: seq<seq<Byte>>) { forall i | 0 <= i < |names| :: Ascii(names[i]) }

  function Entries(names: seq<seq<Byte>>, offsets: seq<nat>, payloadBase: nat): (r: seq<Entry>)
    requires |offsets| == |names| + 1 && MonotoneFromZero(offsets)
    ensures |r| == |names|
  {
    seq(|names|, i requires 0 <= i < |names| => EntryAt(names[i], offsets, payloadBase, i))
  }

  function EntryAt(name: seq<Byte>, offsets: seq<nat>, payloadBase: nat, i: nat): Entry
    requires i + 1 < |offsets| && MonotoneFromZero(offsets)
  {
    var j := i + 1;
    Entry(name, payloadBase + offsets[i], offsets[j] - offsets[i])
  }

  predicate RangeZero(file: seq<Byte>, offset: nat, size: nat) {
    size == 0 || (offset + size <= |file| && AllZero(file[offset..offset + size]))
  }

  lemma NotZero(file: seq<Byte>, offset: nat, size: nat, cursor: nat, end: nat)
    requires offset <= cursor <= end <= offset + size && end <= |file|
    requires exists i :: 0 <= i < |file[cursor..end]| && file[cursor..end][i] != 0
    ensures !RangeZero(file, offset, size)
  {
    var i :| 0 <= i < |file[cursor..end]| && file[cursor..end][i] != 0;
    assert offset + size <= |file| ==> file[offset..offset + size][cursor - offset + i] == file[cursor..end][i];
  }

  lemma ZeroGrows(file: seq<Byte>, offset: nat, cursor: nat, end: nat)
    requires offset <= cursor <= end <= |file| && AllZero(file[offset..cursor])
    requires forall i :: 0 <= i < |file[cursor..end]| ==> file[cursor..end][i] == 0
    ensures AllZero(file[offset..end])
  {
    assert file[offset..end] == file[offset..cursor] + file[cursor..end];
  }

  // The stream loop reads blocks until the range is used up or a byte is not zero.
  method RangeIsZero(file: seq<Byte>, offset: nat, size: nat, blockBytes: nat) returns (zero: bool)
    requires blockBytes > 0
    ensures zero <==> RangeZero(file, offset, size)
  {
    var remaining: nat, cursor: nat := size, offset;
    while remaining > 0
      invariant cursor + remaining == offset + size && offset <= cursor
      invariant cursor == offset || (cursor <= |file| && AllZero(file[offset..cursor]))
    {
      var wanted := if remaining <= blockBytes then remaining else blockBytes;
      var end := if cursor + wanted <= |file| then cursor + wanted else if cursor <= |file| then |file| else cursor;
      if cursor == end { return false; }
      var chunk := file[cursor..end];
      if exists i :: 0 <= i < |chunk| && chunk[i] != 0 {
        NotZero(file, offset, size, cursor, end);
        return false;
      }
      ZeroGrows(file, offset, cursor, end);
      cursor, remaining := end, remaining - |chunk|;
    }
    zero := true;
  }

  // ---------- the span parser ----------

  function ParseHogSpan(file: seq<Byte>, base: nat, spanSize: nat): Option<Directory> {
    if spanSize < 24 || base + 20 > |file| then None
    else
      var count, offsetsOffset := U32At(file, base + 4), U32At(file, base + 8);
      var namesOffset, dataOffset := U32At(file, base + 12), U32At(file, base + 16);
      if count > MAXIMUM_ENTRIES || offsetsOffset != OFFSETS_OFFSET then None
      else if namesOffset != offsetsOffset + 4 * (count + 1) then None
      else if !(namesOffset <= dataOffset <= spanSize) then None
      else if base + namesOffset > |file| then None
      else
        var offsets := Words(file, base + offsetsOffset, count + 1);
        if !MonotoneFromZero(offsets) then None
        else
          var logicalSize := dataOffset + offsets[count];
          if logicalSize > spanSize || !RangeZero(file, base + logicalSize, spanSize - logicalSize) then None
          else if base + dataOffset > |file| then None
          else
            var names := Names(file[base + namesOffset..base + dataOffset]);
            if |names| != count || !AllAscii(names) then None
            else Some(Directory(Entries(names, offsets, base + dataOffset), logicalSize, spanSize - logicalSize))
  }

  // ---------- the whole-file parser ----------

  function ParseHog(data: seq<Byte>): Option<Archive> {
    if |data| < 24 then None
    else
      var tag, count, offsetsOffset := U32At(data, 0), U32At(data, 4), U32At(data, 8);
      var namesOffset, dataOffset := U32At(data, 12), U32At(data, 16);
      var expectedNamesOffset := offsetsOffset + 4 * (count + 1);
      if offsetsOffset != OFFSETS_OFFSET || namesOffset != expectedNamesOffset then None
      else if !(namesOffset <= dataOffset <= |data|) then None
      else
        var offsets := Words(data, offsetsOffset, count + 1);
        if !MonotoneFromZero(offsets) || dataOffset + offsets[count] != |data| then None
        else
          var stripped := RStrip(data[namesOffset..dataOffset]);
          var rawNames := if stripped == [] then [] else Split(stripped);
          if |rawNames| != count || !AllAscii(rawNames) then None
          else Some(Archive(tag, count, namesOffset, dataOffset, Entries(rawNames, offsets, dataOffset)))
  }

  // The loop that decodes the names and lists the entries one by one.
  method ListEntries(rawNames: seq<seq<Byte>>, offsets: seq<nat>, dataOffset: nat) returns (r: Option<seq<Entry>>)
    requires |offsets| == |rawNames| + 1 && MonotoneFromZero(offsets)
    ensures r == if AllAscii(rawNames) then Some(Entries(rawNames, offsets, dataOffset)) else None
  {
    var entries: seq<Entry>, index := [], 0;
    while index < |rawNames|
      invariant index <= |rawNames| && AllAscii(rawNames[..index])
      invariant entries == Entries(rawNames, offsets, dataOffset)[..index]
    {
      if exists i :: 0 <= i < |rawNames[index]| && rawNames[index][i] >= 128 {
        assert !Ascii(rawNames[index]);
        return None;
      }
      assert rawNames[..index + 1] == rawNames[..index] + [rawNames[index]];
      entries := entries + [EntryAt(rawNames[index], offsets, dataOffset, index)];
      index := index + 1;
    }
    assert rawNames[..index] == rawNames;
    assert Entries(rawNames, offsets, dataOffset)[..index] == Entries(rawNames, offsets, dataOffset);
    r := Some(entries);
  }

  // The whole-file parser accepts exactly what the span parser accepts without padding, up to
  // the span parser's entry limit, and lists the same entries.
  lemma ParsersAgree(data: seq<Byte>)
    ensures ParseHog(data).Some? && ParseHog(data).value.count <= MAXIMUM_ENTRIES <==>
            ParseHogSpan(data, 0, |data|).Some? && ParseHogSpan(data, 0, |data|).value.paddingSize == 0
    ensures ParseHog(data).Some? && ParseHogSpan(data, 0, |data|).Some? ==>
            ParseHog(data).value.entries == ParseHogSpan(data, 0, |data|).value.entries
  {
  }

  ghost predicate Tile(e: seq<Entry>, from: nat, to: nat) {
    && (e == [] ==> from == to)
    && (e != [] ==> e[0].offset == from && e[|e| - 1].offset + e[|e| - 1].size == to)
    && forall i, j | 0 <= i < |e| && j == i + 1 < |e| :: e[i].offset + e[i].size == e[j].offset
  }

  lemma ListedEntriesTile(names: seq<seq<Byte>>, offsets: seq<nat>, payloadBase: nat)
    requires |offsets| == |names| + 1 && MonotoneFromZero(offsets)
    ensures Tile(Entries(names, offsets, payloadBase), payloadBase, payloadBase + offsets[|names|])
  {
    var e := Entries(names, offsets, payloadBase);
    forall i: nat, j | i < |e| && j == i + 1
      ensures e[i].offset == payloadBase + offsets[i] && e[i].offset + e[i].size == payloadBase + offsets[j]
    {
      assert e[i] == EntryAt(names[i], offsets, payloadBase, i);
    }
    if e != [] {
      var last := |e| - 1;
      assert e[last].offset + e[last].size == payloadBase + offsets[last + 1];
    }
  }

  // The entries of an accepted directory tile its payload region, and every byte of the span
  // behind them is zero padding.
  lemma EntriesTile(file: seq<Byte>, base: nat, spanSize: nat)
    requires ParseHogSpan(file, base, spanSize).Some?
    ensures var d := ParseHogSpan(file, base, spanSize).value;
      && Tile(d.entries, base + U32At(file, base + 16), base + d.logicalSize)
      && d.logicalSize + d.paddingSize == spanSize
      && RangeZero(file, base + d.logicalSize, d.paddingSize)
  {
    hide U32At, Words, RangeZero, MonotoneFromZero, Names, AllAscii, Entries, Tile;
    var namesOffset, dataOffset := U32At(file, base + 12), U32At(file, base + 16);
    var offsets := Words(file, base + OFFSETS_OFFSET, U32At(file, base + 4) + 1);
    ListedEntriesTile(Names(file[base + namesOffset..base + dataOffset]), offsets, base + dataOffset);
  }

  // ---------- building ----------

  function Join(names: seq<seq<Byte>>): seq<Byte> {
    if names == [] then [] else if |names| == 1 then names[0]
    else Join(names[..|names| - 1]) + [0] + names[|names| - 1]
  }

  lemma JoinSnoc(names: seq<seq<Byte>>, name: seq<Byte>)
    ensures Join(names + [name]) == if names == [] then name else Join(names) + [0] + name
  {
    assert (names + [name])[..|names|] == names;
  }

  ghost predicate PlainNames(names: seq<seq<Byte>>) {
    && (forall i | 0 <= i < |names| :: NoNul(names[i]) && Ascii(names[i]))
    && (names != [] ==> names[|names| - 1] != [])
  }

  lemma NoNulPrefix(text: seq<Byte>)
    requires text != [] && NoNul(text)
    ensures NoNul(text[..|text| - 1]) && text[|text| - 1] != 0
  {
  }

  lemma SplitSnoc(t: seq<Byte>, x: Byte)
    ensures var r := Split(t); Split(t + [x]) == if x == 0 then r + [[]] else r[..|r| - 1] + [r[|r| - 1] + [x]]
  {
    assert (t + [x])[..|t|] == t;
  }

  lemma {:induction false} SplitAppendsText(t: seq<Byte>, text: seq<Byte>)
    requires NoNul(text)
    ensures var r := Split(t); Split(t + text) == r[..|r| - 1] + [r[|r| - 1] + text]
  {
    hide NoNul, Split;
    var r := Split(t);
    if text == [] {
      assert t + text == t && r[|r| - 1] + text == r[|r| - 1];
    } else {
      var n := |text| - 1;
      NoNulPrefix(text);
      SplitAppendsText(t, text[..n]);
      SplitSnoc(t + text[..n], text[n]);
      assert t + text == (t + text[..n]) + [text[n]];
      var grown := Split(t + text[..n]);
      assert grown[..|grown| - 1] == r[..|r| - 1];
      assert text[..n] + [text[n]] == text;
      assert grown[|grown| - 1] + [text[n]] == r[|r| - 1] + text;
    }
  }

  lemma SplitOneMore(t: seq<Byte>, name: seq<Byte>)
    requires NoNul(name)
    ensures Split(t + [0] + name) == Split(t) + [name]
  {
    SplitSnoc(t, 0);
    SplitAppendsText(t + [0], name);
    var r := Split(t) + [[]];
    assert r[..|r| - 1] == Split(t) && r[|r| - 1] + name == name;
  }

  lemma {:induction false} SplitJoin(names: seq<seq<Byte>>)
    requires names != [] && forall i | 0 <= i < |names| :: NoNul(names[i])
    ensures Split(Join(names)) == names
  {
    hide Join, Split, NoNul;
    var n := |names| - 1;
    var (init, last) := (names[..n], names[n]);
    JoinSnoc(init, last);
    assert names == init + [last];
    if n == 0 {
      NothingSplit();
      SplitAppendsText([], last);
      assert [] + last == last;
    } else {
      SplitJoin(init);
      SplitOneMore(Join(init), last);
    }
  }

  lemma {:induction false} StripPadded(s: seq<Byte>, n: nat)
    requires s == [] || s[|s| - 1] != 0
    ensures RStrip(s + Zeros(n)) == s
  {
    if n == 0 {
      assert s + Zeros(0) == s;
    } else {
      assert (s + Zeros(n))[..|s| + n - 1] == s + Zeros(n - 1);
      StripPadded(s, n - 1);
    }
  }

  // Stripping leaves no empty name at the end.
  lemma NoEmptyLastName(table: seq<Byte>)
    ensures Names(table) == [] || Names(table)[|Names(table)| - 1] != []
  {
    var s := RStrip(table);
    StrippedEnd(table);
    if s != [] {
      var r := Split(s[..|s| - 1]);
      assert Split(s) == r[..|r| - 1] + [r[|r| - 1] + [s[|s| - 1]]];
    }
  }

  // Names survive the table, joined with NULs, padded, stripped and split again, exactly when
  // the last of them, if any, is nonempty.
  lemma {:induction false} NamesRoundTrip(names: seq<seq<Byte>>, padding: nat)
    requires forall i | 0 <= i < |names| :: NoNul(names[i])
    ensures Names(Join(names) + Zeros(padding)) == names <==> names == [] || names[|names| - 1] != []
  {
    NoEmptyLastName(Join(names) + Zeros(padding));
    if names == [] {
      StripPadded([], padding);
    } else if names[|names| - 1] != [] {
      var n := |names| - 1;
      var last := names[n];
      assert Join(names) != [] && Join(names)[|Join(names)| - 1] == last[|last| - 1];
      StripPadded(Join(names), padding);
      SplitJoin(names);
    }
  }

  function DataOffset(names: seq<seq<Byte>>, namePadding: nat): nat {
    OFFSETS_OFFSET + 4 * (|names| + 1) + |Join(names)| + namePadding
  }

  function HeaderWords(tag: nat, names: seq<seq<Byte>>, offsets: seq<nat>, namePadding: nat): seq<nat> {
    [tag, |names|, OFFSETS_OFFSET, OFFSETS_OFFSET + 4 * (|names| + 1), DataOffset(names, namePadding)] + offsets
  }

  ghost predicate Headable(tag: nat, names: seq<seq<Byte>>, offsets: seq<nat>, namePadding: nat) {
    && PlainNames(names) && |names| <= MAXIMUM_ENTRIES
    && |offsets| == |names| + 1 && MonotoneFromZero(offsets)
    && tag < U32_LIMIT && DataOffset(names, namePadding) < U32_LIMIT
    && forall i | 0 <= i < |offsets| :: offsets[i] < U32_LIMIT
  }

  // Everything in front of the payloads: header words, offset table, padded name table.
  function Head(tag: nat, names: seq<seq<Byte>>, offsets: seq<nat>, namePadding: nat): seq<Byte>
    requires forall i | 0 <= i < |HeaderWords(tag, names, offsets, namePadding)| ::
      HeaderWords(tag, names, offsets, namePadding)[i] < U32_LIMIT
  {
    WordBytes(HeaderWords(tag, names, offsets, namePadding)) + (Join(names) + Zeros(namePadding))
  }

  ghost predicate Buildable(tag: nat, names: seq<seq<Byte>>, offsets: seq<nat>, namePadding: nat, body: seq<Byte>) {
    Headable(tag, names, offsets, namePadding) && |body| == offsets[|names|]
  }

  function Build(tag: nat, names: seq<seq<Byte>>, offsets: seq<nat>, namePadding: nat, body: seq<Byte>): seq<Byte>
    requires forall i | 0 <= i < |HeaderWords(tag, names, offsets, namePadding)| ::
      HeaderWords(tag, names, offsets, namePadding)[i] < U32_LIMIT
  {
    Head(tag, names, offsets, namePadding) + body
  }

  // Where the parts of a head stand inside a larger file.
  lemma HeadWords(tag: nat, names: seq<seq<Byte>>, offsets: seq<nat>, namePadding: nat,
                  before: seq<Byte>, after: seq<Byte>, i: nat)
    requires Headable(tag, names, offsets, namePadding)
    requires i < 5 + |offsets|
    ensures var file := before + Head(tag, names, offsets, namePadding) + after;
      U32At(file, |before| + 4 * i) == HeaderWords(tag, names, offsets, namePadding)[i]
  {
    var words := HeaderWords(tag, names, offsets, namePadding);
    var table := Join(names) + Zeros(namePadding);
    assert before + Head(tag, names, offsets, namePadding) + after == before + WordBytes(words) + (table + after);
    WordBytesAt(words, before, table + after, i);
  }

  lemma HeadOffsets(tag: nat, names: seq<seq<Byte>>, offsets: seq<nat>, namePadding: nat,
                    before: seq<Byte>, after: seq<Byte>)
    requires Headable(tag, names, offsets, namePadding)
    ensures var file := before + Head(tag, names, offsets, namePadding) + after;
      Words(file, |before| + OFFSETS_OFFSET, |names| + 1) == offsets
  {
    hide U32At, Join, WordBytes;
    var file := before + Head(tag, names, offsets, namePadding) + after;
    forall i: nat | i < |offsets| ensures U32At(file, |before| + OFFSETS_OFFSET + 4 * i) == offsets[i] {
      HeadWords(tag, names, offsets, namePadding, before, after, 5 + i);
      assert |before| + 4 * (5 + i) == |before| + OFFSETS_OFFSET + 4 * i;
    }
  }

  lemma HeadNames(tag: nat, names: seq<seq<Byte>>, offsets: seq<nat>, namePadding: nat,
                  before: seq<Byte>, after: seq<Byte>)
    requires Headable(tag, names, offsets, namePadding)
    ensures |Head(tag, names, offsets, namePadding)| == DataOffset(names, namePadding)
    ensures var file := before + Head(tag, names, offsets, namePadding) + after;
      var namesAt := |before| + OFFSETS_OFFSET + 4 * (|names| + 1);
      var dataAt := |before| + DataOffset(names, namePadding);
      Names(file[namesAt..dataAt]) == names
  {
    hide Join, WordBytes, Names;
    var words := HeaderWords(tag, names, offsets, namePadding);
    var table := Join(names) + Zeros(namePadding);
    var file := before + Head(tag, names, offsets, namePadding) + after;
    var front := before + WordBytes(words);
    assert file == front + table + after;
    assert file[|front|..|front| + |table|] == table;
    NamesRoundTrip(names, namePadding);
  }

  lemma HeadHeader(tag: nat, names: seq<seq<Byte>>, offsets: seq<nat>, namePadding: nat,
                   before: seq<Byte>, after: seq<Byte>)
    requires Headable(tag, names, offsets, namePadding)
    ensures var file := before + Head(tag, names, offsets, namePadding) + after;
      && U32At(file, |before| + 4) == |names| && U32At(file, |before| + 8) == OFFSETS_OFFSET
      && U32At(file, |before| + 12) == OFFSETS_OFFSET + 4 * (|names| + 1)
      && U32At(file, |before| + 16) == DataOffset(names, namePadding)
  {
    HeadWords(tag, names, offsets, namePadding, before, after, 1);
    HeadWords(tag, names, offsets, namePadding, before, after, 2);
    HeadWords(tag, names, offsets, namePadding, before, after, 3);
    HeadWords(tag, names, offsets, namePadding, before, after, 4);
  }

  lemma PaddingIsZero(before: seq<Byte>, padding: nat, rest: seq<Byte>)
    ensures RangeZero(before + (Zeros(padding) + rest), |before|, padding)
  {
    assert (before + (Zeros(padding) + rest))[|before|..|before| + padding] == Zeros(padding);
  }

  // A span whose header words, offset table, name table and padding read as given is accepted.
  lemma ReadsAs(file: seq<Byte>, base: nat, dataOffset: nat, padding: nat,
                names: seq<seq<Byte>>, offsets: seq<nat>)
    requires |offsets| == |names| + 1 && MonotoneFromZero(offsets) && |names| <= MAXIMUM_ENTRIES
    requires OFFSETS_OFFSET + 4 * (|names| + 1) <= dataOffset && base + dataOffset <= |file|
    requires U32At(file, base + 4) == |names| && U32At(file, base + 8) == OFFSETS_OFFSET
    requires U32At(file, base + 12) == OFFSETS_OFFSET + 4 * (|names| + 1) && U32At(file, base + 16) == dataOffset
    requires Words(file, base + OFFSETS_OFFSET, |names| + 1) == offsets
    requires Names(file[base + (OFFSETS_OFFSET + 4 * (|names| + 1))..base + dataOffset]) == names
    requires AllAscii(names)
    requires RangeZero(file, base + (dataOffset + offsets[|names|]), padding)
    ensures ParseHogSpan(file, base, dataOffset + offsets[|names|] + padding) ==
      Some(Directory(Entries(names, offsets, base + dataOffset), dataOffset + offsets[|names|], padding))
  {
    hide U32At, Words, RangeZero, MonotoneFromZero, Names, AllAscii, Entries;
  }

  // The head of an accepted span, and the directory read from it.
  ghost predicate HeadStands(file: seq<Byte>, base: nat, spanSize: nat, d: Directory,
                             tag: nat, names: seq<seq<Byte>>, offsets: seq<nat>, namePadding: nat)
  {
    && Headable(tag, names, offsets, namePadding)
    && var dataOffset := DataOffset(names, namePadding);
    && base + dataOffset <= |file| && file[base..base + dataOffset] == Head(tag, names, offsets, namePadding)
    && d.logicalSize == dataOffset + offsets[|names|] && d.logicalSize + d.paddingSize == spanSize
    && d.entries == Entries(names, offsets, base + dataOffset)
    && RangeZero(file, base + d.logicalSize, d.paddingSize)
  }

  lemma HeadParses(file: seq<Byte>, base: nat, spanSize: nat, d: Directory,
                   tag: nat, names: seq<seq<Byte>>, offsets: seq<nat>, namePadding: nat)
    requires HeadStands(file, base, spanSize, d, tag, names, offsets, namePadding)
    ensures ParseHogSpan(file, base, spanSize) == Some(d)
  {
    hide ParseHogSpan, U32At, Words, RangeZero, Names, Entries, Join, WordBytes, MonotoneFromZero, Head;
    var dataOffset := DataOffset(names, namePadding);
    var before, after := file[..base], file[base + dataOffset..];
    HeadNames(tag, names, offsets, namePadding, before, after);
    HeadOffsets(tag, names, offsets, namePadding, before, after);
    HeadHeader(tag, names, offsets, namePadding, before, after);
    assert file == before + Head(tag, names, offsets, namePadding) + after;
    ReadsAs(file, base, dataOffset, d.paddingSize, names, offsets);
  }

  // ---------- what an accepted span holds ----------

  lemma JoinEnds(pieces: seq<seq<Byte>>)
    requires pieces != []
    ensures Join(pieces + [[]]) == Join(pieces) + [0]
  {
    hide Join;
    JoinSnoc(pieces, []);
    assert Join(pieces) + [0] + [] == Join(pieces) + [0];
  }

  lemma JoinGrows(init: seq<seq<Byte>>, last: seq<Byte>, x: Byte)
    ensures Join(init + [last + [x]]) == Join(init + [last]) + [x]
  {
    hide Join;
    JoinSnoc(init, last);
    JoinSnoc(init, last + [x]);
    if init != [] {
      Reassociate(Join(init) + [0], last, [x]);
    }
  }

  lemma NothingSplit()
    ensures Split([]) == [[]] && Join([[]]) == []
  {
  }

  // Splitting at NULs and joining with NULs gives the bytes back.
  lemma {:induction false} JoinSplit(s: seq<Byte>)
    ensures Join(Split(s)) == s
    ensures forall i | 0 <= i < |Split(s)| :: NoNul(Split(s)[i])
  {
    hide Join, Split;
    if s == [] {
      NothingSplit();
    } else {
      var (init, x) := (s[..|s| - 1], s[|s| - 1]);
      JoinSplit(init);
      assert s == init + [x];
      SplitSnoc(init, x);
      var r := Split(init);
      if x == 0 {
        JoinEnds(r);
      } else {
        JoinGrows(r[..|r| - 1], r[|r| - 1], x);
        assert r == r[..|r| - 1] + [r[|r| - 1]];
      }
    }
  }

  lemma {:induction false} StrippedZeros(table: seq<Byte>)
    ensures table == RStrip(table) + Zeros(|table| - |RStrip(table)|)
  {
    if table != [] && table[|table| - 1] == 0 {
      var init := table[..|table| - 1];
      StrippedZeros(init);
      assert table == init + [0];
      assert Zeros(|table| - |RStrip(init)|) == Zeros(|init| - |RStrip(init)|) + [0];
    }
  }

  // A name table is its names, joined, and zero bytes.
  lemma TableIsNames(table: seq<Byte>)
    ensures |Join(Names(table))| <= |table|
    ensures table == Join(Names(table)) + Zeros(|table| - |Join(Names(table))|)
    ensures AllAscii(Names(table)) ==> PlainNames(Names(table))
  {
    hide Join, Split, NoNul, RStrip;
    JoinSplit(RStrip(table));
    StrippedZeros(table);
    NoEmptyLastName(table);
    NothingJoined();
  }

  lemma NothingJoined()
    ensures Join([]) == []
  {
  }

  // The words and tables of a span, and the directory they give.
  ghost predicate TablesRead(file: seq<Byte>, base: nat, spanSize: nat, d: Directory, count: nat, dataOffset: nat) {
    var namesOffset := OFFSETS_OFFSET + 4 * (count + 1);
    && count <= MAXIMUM_ENTRIES && namesOffset <= dataOffset && base + dataOffset <= |file|
    && U32At(file, base + 4) == count && U32At(file, base + 8) == OFFSETS_OFFSET
    && U32At(file, base + 12) == namesOffset && U32At(file, base + 16) == dataOffset
    && var offsets := Words(file, base + OFFSETS_OFFSET, count + 1);
    && var names := Names(file[base + namesOffset..base + dataOffset]);
    && MonotoneFromZero(offsets) && |names| == count && AllAscii(names)
    && d.logicalSize == dataOffset + offsets[count] && d.logicalSize + d.paddingSize == spanSize
    && RangeZero(file, base + d.logicalSize, d.paddingSize)
    && d.entries == Entries(names, offsets, base + dataOffset)
  }

  lemma AcceptedTables(file: seq<Byte>, base: nat, spanSize: nat)
    requires ParseHogSpan(file, base, spanSize).Some?
    ensures base + 20 <= |file|
    ensures TablesRead(file, base, spanSize, ParseHogSpan(file, base, spanSize).value,
                       U32At(file, base + 4), U32At(file, base + 16))
  {
    hide U32At, Words, RangeZero, MonotoneFromZero, Names, AllAscii, Entries;
  }

  // The head of a span is its words and its name table.
  lemma HeadOfWords(file: seq<Byte>, base: nat, count: nat, dataOffset: nat)
    requires OFFSETS_OFFSET + 4 * (count + 1) <= dataOffset && base + dataOffset <= |file|
    ensures var namesAt := base + (OFFSETS_OFFSET + 4 * (count + 1));
      file[base..base + dataOffset] == WordBytes(Words(file, base, 6 + count)) + file[namesAt..base + dataOffset]
  {
    hide WordBytes, Words;
    var namesAt := base + (OFFSETS_OFFSET + 4 * (count + 1));
    WordsStand(file, base, 6 + count);
    assert namesAt == base + 4 * (6 + count);
    assert file[base..base + dataOffset] == file[base..namesAt] + file[namesAt..base + dataOffset];
  }

  lemma WordsOfHead(file: seq<Byte>, base: nat, count: nat)
    requires base + 4 * (6 + count) <= |file|
    ensures Words(file, base, 6 + count) ==
      [U32At(file, base), U32At(file, base + 4), U32At(file, base + 8), U32At(file, base + 12), U32At(file, base + 16)]
        + Words(file, base + OFFSETS_OFFSET, count + 1)
  {
    hide U32At;
    var left, right := Words(file, base, 6 + count), Words(file, base + OFFSETS_OFFSET, count + 1);
    forall i | 0 <= i < count + 1 ensures left[5 + i] == right[i] {
      assert base + 4 * (5 + i) == base + OFFSETS_OFFSET + 4 * i;
    }
  }

  lemma ParsedHead(file: seq<Byte>, base: nat, spanSize: nat)
      returns (tag: nat, names: seq<seq<Byte>>, offsets: seq<nat>, namePadding: nat)
    requires ParseHogSpan(file, base, spanSize).Some?
    ensures HeadStands(file, base, spanSize, ParseHogSpan(file, base, spanSize).value, tag, names, offsets, namePadding)
  {
    hide ParseHogSpan, U32At, Words, RangeZero, MonotoneFromZero, Names, AllAscii, Entries, Join, WordBytes, PlainNames;
    AcceptedTables(file, base, spanSize);
    var count, dataOffset := U32At(file, base + 4), U32At(file, base + 16);
    var table := file[base + (OFFSETS_OFFSET + 4 * (count + 1))..base + dataOffset];
    tag, names, offsets := U32At(file, base), Names(table), Words(file, base + OFFSETS_OFFSET, count + 1);
    TableIsNames(table);
    namePadding := |table| - |Join(names)|;
    HeadOfWords(file, base, count, dataOffset);
    WordsOfHead(file, base, count);
    WordLimits(file, base + OFFSETS_OFFSET, count + 1);
  }

  // The span parser accepts exactly the spans with the head of some directory in front, enough
  // room for its payloads and nothing but zero bytes behind them; and it returns that directory.
  lemma ParsesExactly(file: seq<Byte>, base: nat, spanSize: nat, d: Directory)
    ensures ParseHogSpan(file, base, spanSize) == Some(d) <==>
      exists tag, names, offsets, namePadding :: HeadStands(file, base, spanSize, d, tag, names, offsets, namePadding)
  {
    hide ParseHogSpan, HeadStands;
    if ParseHogSpan(file, base, spanSize) == Some(d) {
      var tag, names, offsets, namePadding := ParsedHead(file, base, spanSize);
    }
    if tag, names, offsets, namePadding :|
      HeadStands(file, base, spanSize, d, tag, names, offsets, namePadding)
    {
      HeadParses(file, base, spanSize, d, tag, names, offsets, namePadding);
    }
  }

  // An accepted span that lies within the file is a built directory with zero padding behind it.
  lemma ParsedIsBuilt(file: seq<Byte>, base: nat, spanSize: nat)
      returns (tag: nat, names: seq<seq<Byte>>, offsets: seq<nat>, namePadding: nat, body: seq<Byte>)
    requires ParseHogSpan(file, base, spanSize).Some? && base + spanSize <= |file|
    ensures Buildable(tag, names, offsets, namePadding, body)
    ensures var d := ParseHogSpan(file, base, spanSize).value;
      file[base..base + spanSize] == Build(tag, names, offsets, namePadding, body) + Zeros(d.paddingSize)
  {
    hide ParseHogSpan, Head, Entries;
    var d := ParseHogSpan(file, base, spanSize).value;
    tag, names, offsets, namePadding := ParsedHead(file, base, spanSize);
    var dataAt, bodyEnd := base + DataOffset(names, namePadding), base + d.logicalSize;
    body := file[dataAt..bodyEnd];
    var padding := file[bodyEnd..base + spanSize];
    ZeroBytes(padding);
    assert file[base..base + spanSize] == file[base..dataAt] + body + padding;
  }

  // Parsing a built archive, anywhere in a file and with any zero padding behind it, gives
  // back its names and its payload extents.
  lemma BuildParses(tag: nat, names: seq<seq<Byte>>, offsets: seq<nat>, namePadding: nat,
                    body: seq<Byte>, before: seq<Byte>, padding: nat, rest: seq<Byte>)
    requires Buildable(tag, names, offsets, namePadding, body)
    ensures var image := Build(tag, names, offsets, namePadding, body);
      var file := before + image + (Zeros(padding) + rest);
      ParseHogSpan(file, |before|, |image| + padding) ==
      Some(Directory(Entries(names, offsets, |before| + DataOffset(names, namePadding)), |image|, padding))
  {
    hide ParseHogSpan, RangeZero, Entries, Head;
    var image := Build(tag, names, offsets, namePadding, body);
    var head, file := Head(tag, names, offsets, namePadding), before + image + (Zeros(padding) + rest);
    HeadNames(tag, names, offsets, namePadding, before, body + (Zeros(padding) + rest));
    PaddingIsZero(before + image, padding, rest);
    assert file[|before|..|before| + |head|] == head;
    var d := Directory(Entries(names, offsets, |before| + DataOffset(names, namePadding)), |image|, padding);
    HeadParses(file, |before|, |image| + padding, d, tag, names, offsets, namePadding);
  }
}
