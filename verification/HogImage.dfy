// HOG directories written out word by word: the span parser accepts exactly the spans that start
// with a written directory, and reports the names and sizes written.
module HogImage {
  import opened Bytes
  import opened Options
  import opened Sums
  import opened NameTable
  import opened Hog

  // Where each payload starts, and where the last one ends.
  function Starts(sizes: seq<nat>): (r: seq<nat>)
    ensures |r| == |sizes| + 1
  {
    seq(|sizes| + 1, i requires 0 <= i <= |sizes| => Sum(sizes[..i]))
  }

  // The names with a NUL between any two.
  function NamesAs(names: seq<seq<Byte>>): seq<Byte> {
    if names == [] then []
    else if |names| == 1 then names[0]
    else NamesAs(names[..|names| - 1]) + [0] + names[|names| - 1]
  }

  function PayloadsAt(names: seq<seq<Byte>>, padding: nat): nat { 24 + 4 * |names| + |NamesAs(names)| + padding }

  // Tag, count, three positions, the starts, the names, zeros.
  function HeadAs(tag: nat, names: seq<seq<Byte>>, sizes: seq<nat>, padding: nat): seq<Byte> {
    WordAs(tag) + WordAs(|names|) + WordAs(20) + WordAs(24 + 4 * |names|) + WordAs(PayloadsAt(names, padding))
      + Joined(WordAs, Starts(sizes)) + NamesAs(names) + Zeros(padding)
  }

  // ASCII names without NULs, the last one not empty.
  ghost predicate NamesWritable(names: seq<seq<Byte>>) {
    && |names| <= 1_000_000 && (forall i, k | 0 <= i < |names| && 0 <= k < |names[i]| :: 0 < names[i][k] <= 127)
    && (names != [] ==> names[|names| - 1] != [])
  }

  ghost predicate ZerosBehind(file: seq<Byte>, from: nat, to: nat) {
    from == to || (from <= to <= |file| && forall x | from <= x < to :: file[x] == 0)
  }

  // The names with their sizes, each payload behind the ones before it.
  ghost predicate Lists(entries: seq<Entry>, names: seq<seq<Byte>>, sizes: seq<nat>, payloadsAt: nat)
    requires |names| == |sizes|
  {
    && |entries| == |names|
    && forall i | 0 <= i < |names| :: entries[i] == Entry(names[i], payloadsAt + Sum(sizes[..i]), sizes[i])
  }

  // The span from base on: a written head, room for the payloads, zeros up to its end; and the
  // directory d lists the names with their extents.
  ghost predicate SpanHolds(file: seq<Byte>, base: nat, spanSize: nat, d: Directory, tag: nat, names: seq<seq<Byte>>,
      sizes: seq<nat>, padding: nat)
  {
    && NamesWritable(names) && |sizes| == |names|
    && IsWord(tag) && IsWord(PayloadsAt(names, padding)) && IsWord(Sum(sizes))
    && PartsStand(file, base, spanSize, d, tag, names, sizes, padding)
  }

  ghost predicate PartsStand(file: seq<Byte>, base: nat, spanSize: nat, d: Directory, tag: nat, names: seq<seq<Byte>>,
      sizes: seq<nat>, padding: nat)
    requires |names| == |sizes|
  {
    var at := PayloadsAt(names, padding);
    && base + at <= |file| && file[base..base + at] == HeadAs(tag, names, sizes, padding)
    && d.logicalSize == at + Sum(sizes) && d.logicalSize + d.paddingSize == spanSize
    && ZerosBehind(file, base + d.logicalSize, base + spanSize)
    && Lists(d.entries, names, sizes, base + at)
  }

  // ---------- sizes and offsets ----------

  lemma StartsAre(sizes: seq<nat>)
    ensures Starts(sizes)[0] == 0 && Starts(sizes)[|sizes|] == Sum(sizes)
    ensures forall i: nat | i < |sizes| :: Starts(sizes)[i] == Sum(sizes[..i])
  {
    assert sizes[..|sizes|] == sizes;
    SumOfZeros(sizes[..0]);
  }

  lemma StartStep(sizes: seq<nat>, i: nat, j: nat)
    requires i < |sizes| && j == i + 1
    ensures Starts(sizes)[j] == Starts(sizes)[i] + sizes[i] <= Sum(sizes)
  {
    hide Sum;
    SumPrefix(sizes, i);
  }

  lemma StartsRise(sizes: seq<nat>)
    ensures MonotoneFromZero(Starts(sizes))
    ensures forall i: nat, j | i < |sizes| && j == i + 1 :: Starts(sizes)[j] == Starts(sizes)[i] + sizes[i]
    ensures forall i | 0 <= i <= |sizes| :: Starts(sizes)[i] <= Sum(sizes)
  {
    StartsAre(sizes);
    hide Sum, Starts;
    forall i: nat, j: nat | i < |sizes| && j == i + 1
      ensures Starts(sizes)[j] == Starts(sizes)[i] + sizes[i]
    {
      StartStep(sizes, i, j);
    }
    forall i: nat | i <= |sizes| ensures Starts(sizes)[i] <= Sum(sizes) {
      if i < |sizes| { StartStep(sizes, i, i + 1); }
    }
  }

  function Steps(offsets: seq<nat>): (r: seq<nat>)
    requires MonotoneFromZero(offsets)
    ensures |r| + 1 == |offsets|
  {
    seq(|offsets| - 1, i requires 0 <= i < |offsets| - 1 => var j := i + 1; offsets[j] - offsets[i])
  }

  lemma {:induction false} StepsSum(offsets: seq<nat>, n: nat)
    requires MonotoneFromZero(offsets) && n < |offsets|
    ensures Sum(Steps(offsets)[..n]) == offsets[n]
  {
    var steps := Steps(offsets);
    if n == 0 {
      SumOfZeros(steps[..0]);
    } else {
      var k: nat := n - 1;
      StepsSum(offsets, k);
      SumPrefix(steps, k);
      assert offsets[k] <= offsets[n];
    }
  }

  // Ascending offsets from zero are the starts of their differences.
  lemma StartsAgain(offsets: seq<nat>)
    requires MonotoneFromZero(offsets)
    ensures Starts(Steps(offsets)) == offsets
  {
    forall i: nat | i < |offsets| ensures Starts(Steps(offsets))[i] == offsets[i] { StepsSum(offsets, i); }
  }

  // ---------- the parts of a head ----------

  lemma {:induction false} NamesAsIs(names: seq<seq<Byte>>)
    ensures NamesAs(names) == Join(names)
  {
    if |names| > 1 { NamesAsIs(names[..|names| - 1]); }
  }

  lemma {:induction false} WordsAs(words: seq<nat>)
    requires forall i | 0 <= i < |words| :: words[i] < U32_LIMIT
    ensures WordBytes(words) == Joined(WordAs, words)
  {
    hide U32Bytes, WordAs;
    if words != [] {
      var n := |words| - 1;
      WordsAs(words[..n]);
      WordIs(words[n]);
    }
  }

  lemma {:induction false} JoinedAppend(a: seq<nat>, b: seq<nat>)
    ensures Joined(WordAs, a + b) == Joined(WordAs, a) + Joined(WordAs, b)
  {
    hide WordAs;
    if b == [] {
      assert a + b == a;
    } else {
      var n := |b| - 1;
      assert (a + b)[..|a + b| - 1] == a + b[..n];
      JoinedAppend(a, b[..n]);
    }
  }

  lemma FiveWords(a: nat, b: nat, c: nat, d: nat, e: nat)
    ensures Joined(WordAs, [a, b, c, d, e]) == WordAs(a) + WordAs(b) + WordAs(c) + WordAs(d) + WordAs(e)
  {
    hide WordAs;
    assert Joined(WordAs, [a]) == WordAs(a) by { assert [a][..0] == []; }
    assert Joined(WordAs, [a, b]) == WordAs(a) + WordAs(b) by { assert [a, b][..1] == [a]; }
    assert Joined(WordAs, [a, b, c]) == WordAs(a) + WordAs(b) + WordAs(c) by { assert [a, b, c][..2] == [a, b]; }
    assert [a, b, c, d][..3] == [a, b, c];
    assert Joined(WordAs, [a, b, c, d]) == WordAs(a) + WordAs(b) + WordAs(c) + WordAs(d);
    assert [a, b, c, d, e][..4] == [a, b, c, d];
  }

  lemma WordLimitsOf(tag: nat, names: seq<seq<Byte>>, sizes: seq<nat>, padding: nat)
    requires |names| == |sizes|
    ensures Headable(tag, names, Starts(sizes), padding) <==>
      NamesWritable(names) && IsWord(tag) && IsWord(PayloadsAt(names, padding)) && IsWord(Sum(sizes))
  {
    StartsAre(sizes);
    StartsRise(sizes);
    NamesAsIs(names);
    PlainIs(names);
    hide Starts, PlainNames, NamesWritable, Sum, Join, NamesAs, MonotoneFromZero;
  }

  lemma PlainIs(names: seq<seq<Byte>>)
    ensures NamesWritable(names) <==> PlainNames(names) && |names| <= MAXIMUM_ENTRIES
  {
    if PlainNames(names) {
      forall i, k | 0 <= i < |names| && 0 <= k < |names[i]| ensures 0 < names[i][k] <= 127 {
        assert Ascii(names[i]) && NoNul(names[i]);
      }
    }
  }

  lemma HeadIs(tag: nat, names: seq<seq<Byte>>, sizes: seq<nat>, padding: nat)
    requires |names| == |sizes| && Headable(tag, names, Starts(sizes), padding)
    ensures Head(tag, names, Starts(sizes), padding) == HeadAs(tag, names, sizes, padding)
    ensures DataOffset(names, padding) == PayloadsAt(names, padding)
  {
    NamesAsIs(names);
    var words := HeaderWords(tag, names, Starts(sizes), padding);
    var five := [tag, |names|, 20, 24 + 4 * |names|, PayloadsAt(names, padding)];
    hide Starts, Join, NamesAs, PlainNames, MonotoneFromZero, WordAs;
    WordsAs(words);
    assert words == five + Starts(sizes);
    JoinedAppend(five, Starts(sizes));
    FiveWords(tag, |names|, 20, 24 + 4 * |names|, PayloadsAt(names, padding));
    Reassociate(Joined(WordAs, words), NamesAs(names), Zeros(padding));
  }

  lemma ZerosAre(file: seq<Byte>, from: nat, size: nat)
    ensures RangeZero(file, from, size) <==> ZerosBehind(file, from, from + size)
  {
    if RangeZero(file, from, size) && size > 0 {
      forall x | from <= x < from + size ensures file[x] == 0 { assert file[from..from + size][x - from] == file[x]; }
    }
  }

  lemma EntriesAre(names: seq<seq<Byte>>, sizes: seq<nat>, at: nat, entries: seq<Entry>)
    requires |names| == |sizes|
    ensures MonotoneFromZero(Starts(sizes))
    ensures entries == Entries(names, Starts(sizes), at) <==> Lists(entries, names, sizes, at)
  {
    StartsAre(sizes);
    StartsRise(sizes);
    hide Sum, Starts, MonotoneFromZero;
    var listed := Entries(names, Starts(sizes), at);
    forall i: nat | i < |names| ensures listed[i] == Entry(names[i], at + Sum(sizes[..i]), sizes[i]) {
      var j := i + 1;
      assert Starts(sizes)[j] == Starts(sizes)[i] + sizes[i];
    }
  }

  lemma HeadParts(file: seq<Byte>, base: nat, spanSize: nat, d: Directory, tag: nat, names: seq<seq<Byte>>,
      offsets: seq<nat>, padding: nat)
    requires HeadStands(file, base, spanSize, d, tag, names, offsets, padding)
    ensures Headable(tag, names, offsets, padding) && |offsets| == |names| + 1 && MonotoneFromZero(offsets)
    ensures forall i | 0 <= i < |HeaderWords(tag, names, offsets, padding)| ::
      HeaderWords(tag, names, offsets, padding)[i] < U32_LIMIT
    ensures var at := DataOffset(names, padding);
      && base + at <= |file| && file[base..base + at] == Head(tag, names, offsets, padding)
      && d.logicalSize == at + offsets[|names|] && d.logicalSize + d.paddingSize == spanSize
      && d.entries == Entries(names, offsets, base + at)
      && RangeZero(file, base + d.logicalSize, d.paddingSize)
  {
    hide Head, Entries, RangeZero, MonotoneFromZero, PlainNames, Join;
  }

  lemma HeadToParts(file: seq<Byte>, base: nat, spanSize: nat, d: Directory, tag: nat, names: seq<seq<Byte>>,
      sizes: seq<nat>, padding: nat)
    requires |names| == |sizes| && HeadStands(file, base, spanSize, d, tag, names, Starts(sizes), padding)
    ensures PartsStand(file, base, spanSize, d, tag, names, sizes, padding)
  {
    hide HeadStands, Starts, Headable, Head, HeadAs, Entries, RangeZero, ZerosBehind, Sum, MonotoneFromZero, DataOffset,
         PayloadsAt, HeaderWords, Lists;
    HeadParts(file, base, spanSize, d, tag, names, Starts(sizes), padding);
    HeadIs(tag, names, sizes, padding);
    StartsAre(sizes);
    EntriesAre(names, sizes, base + PayloadsAt(names, padding), d.entries);
    ZerosAre(file, base + d.logicalSize, d.paddingSize);
  }

  lemma PartsToHead(file: seq<Byte>, base: nat, spanSize: nat, d: Directory, tag: nat, names: seq<seq<Byte>>,
      sizes: seq<nat>, padding: nat)
    requires |names| == |sizes| && Headable(tag, names, Starts(sizes), padding)
    requires PartsStand(file, base, spanSize, d, tag, names, sizes, padding)
    ensures HeadStands(file, base, spanSize, d, tag, names, Starts(sizes), padding)
  {
    HeadIs(tag, names, sizes, padding);
    HeadWordsFit(tag, names, sizes, padding);
    hide Starts, Headable, Head, HeadAs, Entries, RangeZero, ZerosBehind, Sum, MonotoneFromZero, DataOffset, PayloadsAt,
         HeaderWords, Lists;
    StartsAre(sizes);
    EntriesAre(names, sizes, base + PayloadsAt(names, padding), d.entries);
    ZerosAre(file, base + d.logicalSize, d.paddingSize);
  }

  lemma StandsExactly(file: seq<Byte>, base: nat, spanSize: nat, d: Directory, tag: nat, names: seq<seq<Byte>>,
      sizes: seq<nat>, padding: nat)
    requires |names| == |sizes|
    ensures HeadStands(file, base, spanSize, d, tag, names, Starts(sizes), padding) <==>
            SpanHolds(file, base, spanSize, d, tag, names, sizes, padding)
  {
    WordLimitsOf(tag, names, sizes, padding);
    HeadIsHeadable(file, base, spanSize, d, tag, names, Starts(sizes), padding);
    hide HeadStands, PartsStand, Starts, Headable, Sum, NamesWritable, PayloadsAt, IsWord;
    if HeadStands(file, base, spanSize, d, tag, names, Starts(sizes), padding) {
      HeadToParts(file, base, spanSize, d, tag, names, sizes, padding);
    }
    if SpanHolds(file, base, spanSize, d, tag, names, sizes, padding) {
      PartsToHead(file, base, spanSize, d, tag, names, sizes, padding);
    }
  }

  lemma HeadIsHeadable(file: seq<Byte>, base: nat, spanSize: nat, d: Directory, tag: nat, names: seq<seq<Byte>>,
      offsets: seq<nat>, padding: nat)
    ensures HeadStands(file, base, spanSize, d, tag, names, offsets, padding) ==> Headable(tag, names, offsets, padding)
  {
  }

  lemma HeadWordsFit(tag: nat, names: seq<seq<Byte>>, sizes: seq<nat>, padding: nat)
    requires |names| == |sizes| && Headable(tag, names, Starts(sizes), padding)
    ensures forall i | 0 <= i < |HeaderWords(tag, names, Starts(sizes), padding)| ::
      HeaderWords(tag, names, Starts(sizes), padding)[i] < U32_LIMIT
  {
    hide Starts, MonotoneFromZero, PlainNames, Join;
  }

  // The span parser accepts exactly such spans, and returns the directory they hold.
  lemma ParsesWritten(file: seq<Byte>, base: nat, spanSize: nat, d: Directory)
    ensures ParseHogSpan(file, base, spanSize) == Some(d) <==>
      exists tag, names, sizes, padding :: SpanHolds(file, base, spanSize, d, tag, names, sizes, padding)
  {
    ParsesExactly(file, base, spanSize, d);
    hide ParseHogSpan, HeadStands, SpanHolds, Starts;
    if tag, names, offsets, padding :| HeadStands(file, base, spanSize, d, tag, names, offsets, padding) {
      OffsetsRise(file, base, spanSize, d, tag, names, offsets, padding);
      StartsAgain(offsets);
      StandsExactly(file, base, spanSize, d, tag, names, Steps(offsets), padding);
      assert SpanHolds(file, base, spanSize, d, tag, names, Steps(offsets), padding);
    }
    if tag, names, sizes, padding :| SpanHolds(file, base, spanSize, d, tag, names, sizes, padding) {
      SizesMatch(file, base, spanSize, d, tag, names, sizes, padding);
      StandsExactly(file, base, spanSize, d, tag, names, sizes, padding);
      assert HeadStands(file, base, spanSize, d, tag, names, Starts(sizes), padding);
    }
  }

  lemma OffsetsRise(file: seq<Byte>, base: nat, spanSize: nat, d: Directory, tag: nat, names: seq<seq<Byte>>,
      offsets: seq<nat>, padding: nat)
    requires HeadStands(file, base, spanSize, d, tag, names, offsets, padding)
    ensures MonotoneFromZero(offsets) && |offsets| == |names| + 1
  {
  }

  lemma SizesMatch(file: seq<Byte>, base: nat, spanSize: nat, d: Directory, tag: nat, names: seq<seq<Byte>>,
      sizes: seq<nat>, padding: nat)
    requires SpanHolds(file, base, spanSize, d, tag, names, sizes, padding)
    ensures |sizes| == |names|
  {
  }
}
