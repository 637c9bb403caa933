// Terrain prefixes written out record by record. Both parsers accept exactly the files that start
// with a written prefix, and report what was written.
module PopImage {
  import opened Bytes
  import opened Codecs
  import opened Fields
  import opened Options
  import opened Pop
  import opened Sums

  // ---------- the bytes ----------

  predicate Spells(b: seq<Byte>, text: string) {
    |b| == |text| && forall i | 0 <= i < |b| :: b[i] == text[i] as int
  }

  // Eight fixed bytes, the name, a NUL, and the bytes up to the next word.
  datatype Entry = Entry(fixed: seq<Byte>, name: seq<Byte>, alignment: seq<Byte>)

  function EntryAs(e: Entry): seq<Byte> { e.fixed + e.name + [0] + e.alignment }

  predicate IsEntry(e: Entry, maximum: nat) {
    && |e.fixed| == 8 && 0 < |e.name| <= maximum && (forall i | 0 <= i < |e.name| :: 0x20 <= e.name[i] <= 0x7E)
    && |e.alignment| < 4 && |EntryAs(e)| % 4 == 0
  }

  // The word 70, a tag, the number of records, the records, another tag, and the rest of the file.
  function Written(ter: seq<Byte>, entries: seq<Entry>, gob: seq<Byte>, rest: seq<Byte>): seq<Byte> {
    WordAs(70) + ter + WordAs(|entries|) + Joined(EntryAs, entries) + gob + rest
  }

  ghost predicate Writable(ter: seq<Byte>, entries: seq<Entry>, gob: seq<Byte>, rest: seq<Byte>, limits: Limits) {
    && Spells(ter, "TER:") && Spells(gob, "GOB:") && IsWord(|entries|) && |entries| <= limits.terrainRecords
    && (forall i | 0 <= i < |entries| :: IsEntry(entries[i], limits.nameBytes))
    && |Written(ter, entries, gob, rest)| <= limits.fileBytes
  }

  // ---------- what is reported ----------

  predicate HasNonzero(e: Entry) { exists i :: 0 <= i < |e.alignment| && e.alignment[i] > 0 }

  ghost function Irregular(entries: seq<Entry>): set<nat> {
    set i: nat | i < |entries| && HasNonzero(entries[i])
  }

  function NameLengths(entries: seq<Entry>): seq<nat> {
    seq(|entries|, i requires 0 <= i < |entries| => |entries[i].name|)
  }

  // ---------- entries and records ----------

  function EntryOf(r: Record): Entry { Entry(r.0, r.1.0, r.1.1) }

  function RecordOf(e: Entry): Record { (e.fixed, (e.name, e.alignment)) }

  function EntriesOf(rs: seq<Record>): (es: seq<Entry>)
    ensures |es| == |rs|
  {
    seq(|rs|, i requires 0 <= i < |rs| => EntryOf(rs[i]))
  }

  function RecordsOf(es: seq<Entry>): (rs: seq<Record>)
    ensures |rs| == |es|
  {
    seq(|es|, i requires 0 <= i < |es| => RecordOf(es[i]))
  }

  lemma EntriesAgain(rs: seq<Record>)
    ensures RecordsOf(EntriesOf(rs)) == rs
  {
  }

  lemma EntryIs(e: Entry, maximum: nat)
    ensures Records(maximum).valid(RecordOf(e)) <==> IsEntry(e, maximum)
    ensures Records(maximum).emit(RecordOf(e)) == EntryAs(e)
  {
    var r := RecordOf(e);
    ThenIs(Names(maximum), name => Raw(AlignmentBytes(name)), r.1);
    ThenIs(Raw(8), _ => NameAndAlignment(maximum), r);
    assert Records(maximum).emit(r) == e.fixed + ((e.name + [0]) + e.alignment) == EntryAs(e);
    AlignmentIs(|e.fixed| + |e.name| + 1, |e.alignment|);
  }

  // The one way to reach the next word with fewer than four bytes.
  lemma AlignmentIs(length: nat, n: nat)
    ensures n == Padding(length) <==> n < 4 && (length + n) % 4 == 0
  {
  }

  lemma {:induction false} EntriesAre(es: seq<Entry>, maximum: nat)
    ensures AllValid(Records(maximum), RecordsOf(es)) <==> forall i | 0 <= i < |es| :: IsEntry(es[i], maximum)
    ensures PrintMany(Records(maximum), RecordsOf(es)) == Joined(EntryAs, es)
  {
    hide Records, IsEntry, EntryAs;
    forall i | 0 <= i < |es|
      ensures Records(maximum).valid(RecordsOf(es)[i]) <==> IsEntry(es[i], maximum)
    {
      EntryIs(es[i], maximum);
    }
    if es != [] {
      var n := |es| - 1;
      assert RecordsOf(es)[..n] == RecordsOf(es[..n]);
      EntriesAre(es[..n], maximum);
      EntryIs(es[n], maximum);
    }
  }

  function PrefixOf(ter: seq<Byte>, entries: seq<Entry>, gob: seq<Byte>): Prefix {
    (70, (ter, (RecordsOf(entries), gob)))
  }

  lemma TagsSpell(b: seq<Byte>)
    ensures Spells(b, "TER:") <==> b == TER
    ensures Spells(b, "GOB:") <==> b == GOB
  {
    assert Spells(TER, "TER:") && Spells(GOB, "GOB:");
  }

  lemma PrefixIs(ter: seq<Byte>, entries: seq<Entry>, gob: seq<Byte>, rest: seq<Byte>, maximum: nat)
    ensures Prefixes(maximum).valid(PrefixOf(ter, entries, gob)) <==>
      && Spells(ter, "TER:") && Spells(gob, "GOB:") && IsWord(|entries|)
      && forall i | 0 <= i < |entries| :: IsEntry(entries[i], maximum)
    ensures Prefixes(maximum).valid(PrefixOf(ter, entries, gob)) ==>
      Prefixes(maximum).emit(PrefixOf(ter, entries, gob)) + rest == Written(ter, entries, gob, rest)
  {
    hide Records, IsEntry, EntryAs, Spells, Joined, PrintMany, AllValid, U32Bytes, WordAs, RecordsOf;
    EntriesAre(entries, maximum);
    TagsSpell(ter);
    TagsSpell(gob);
    WordIs(70);
    if IsWord(|entries|) { WordIs(|entries|); }
    var v := PrefixOf(ter, entries, gob);
    ThenIs(Counted(Records(maximum)), _ => Where(Raw(4), (b: seq<Byte>) => b == GOB), v.1.1);
    ThenIs(Where(Raw(4), (b: seq<Byte>) => b == TER), _ => ListAndGob(maximum), v.1);
    ThenIs(Where(Word(), (w: nat) => w == OBSERVED_WORD),
           _ => Then(Where(Raw(4), (b: seq<Byte>) => b == TER), _ => ListAndGob(maximum)), v);
    if Prefixes(maximum).valid(v) {
      Rebracket(WordAs(70), ter, WordAs(|entries|), Joined(EntryAs, entries), gob, rest);
    }
  }

  lemma Rebracket(a: seq<Byte>, b: seq<Byte>, c: seq<Byte>, d: seq<Byte>, e: seq<Byte>, g: seq<Byte>)
    ensures (a + (b + ((c + d) + e))) + g == a + b + c + d + e + g
  {
  }

  // ---------- what both parsers accept ----------

  // A file that starts with a written prefix is accepted, and its records are those written.
  lemma WrittenIsAccepted(ter: seq<Byte>, entries: seq<Entry>, gob: seq<Byte>, rest: seq<Byte>, limits: Limits)
    requires Writable(ter, entries, gob, rest, limits)
    ensures var data := Written(ter, entries, gob, rest);
      && Accepted(data, limits) && RecordsIn(data, limits) == RecordsOf(entries)
      && Prefixes(limits.nameBytes).take(data).value.rest == rest
  {
    hide Prefixes, Written, IsEntry, Spells, Lawful;
    var v := PrefixOf(ter, entries, gob);
    PrefixIs(ter, entries, gob, rest, limits.nameBytes);
    PrefixTaken(limits.nameBytes, Written(ter, entries, gob, rest), v, rest);
  }

  lemma PrefixTaken(maximum: nat, data: seq<Byte>, v: Prefix, rest: seq<Byte>)
    ensures Prefixes(maximum).take(data) == Some(Took(v, rest)) <==>
            Prefixes(maximum).valid(v) && data == Prefixes(maximum).emit(v) + rest
  {
    hide Prefixes;
    PrefixesLawful(maximum);
  }

  // No other file is.
  lemma AcceptedIsWritten(data: seq<Byte>, limits: Limits)
      returns (ter: seq<Byte>, entries: seq<Entry>, gob: seq<Byte>, rest: seq<Byte>)
    requires Accepted(data, limits)
    ensures Writable(ter, entries, gob, rest, limits) && data == Written(ter, entries, gob, rest)
    ensures RecordsIn(data, limits) == RecordsOf(entries)
    ensures Prefixes(limits.nameBytes).take(data).value.rest == rest
  {
    hide Prefixes, Written, IsEntry, Spells, RecordsOf, EntriesOf;
    var t := Prefixes(limits.nameBytes).take(data).value;
    PrefixTaken(limits.nameBytes, data, t.value, t.rest);
    ter, entries, gob, rest := t.value.1.0, EntriesOf(t.value.1.1.0), t.value.1.1.1, t.rest;
    EntriesAgain(t.value.1.1.0);
    WordSeventy(t.value, limits.nameBytes);
    PrefixIs(ter, entries, gob, rest, limits.nameBytes);
  }

  lemma WordSeventy(v: Prefix, maximum: nat)
    requires Prefixes(maximum).valid(v)
    ensures v.0 == 70
  {
    hide Records, Counted;
  }

  // ---------- what both parsers report ----------

  lemma {:induction false} IrregularAre(es: seq<Entry>, n: nat)
    requires n <= |es|
    ensures NonzeroAlignments(RecordsOf(es), n) == |Irregular(es[..n])|
  {
    hide HasNonzero, AllZero;
    if n == 0 {
      assert Irregular(es[..0]) == {};
    } else {
      var k: nat := n - 1;
      IrregularAre(es, k);
      NonzeroIs(es[k]);
      var before, after := Irregular(es[..k]), Irregular(es[..n]);
      assert forall i | 0 <= i < k :: es[..n][i] == es[..k][i];
      if HasNonzero(es[k]) {
        assert after == before + {k};
      } else {
        assert after == before;
      }
    }
  }

  lemma NonzeroIs(e: Entry)
    ensures AllZero(RecordOf(e).1.1) <==> !HasNonzero(e)
  {
  }

  lemma {:induction false} OwnedAre(es: seq<Entry>, n: nat)
    requires n <= |es|
    ensures OwnedBytes(RecordsOf(es), n) == Sum(NameLengths(es)[..n])
  {
    if n > 0 {
      OwnedAre(es, n - 1);
      SumPrefix(NameLengths(es), n - 1);
    }
  }

  // The counts of the report: records whose alignment is not all zero, and the bytes of all names.
  lemma ReportIs(es: seq<Entry>)
    ensures NonzeroAlignments(RecordsOf(es), |es|) == |Irregular(es)|
    ensures OwnedBytes(RecordsOf(es), |es|) == Sum(NameLengths(es))
    ensures |NamesOf(RecordsOf(es))| == |es|
    ensures forall i | 0 <= i < |es| :: NamesOf(RecordsOf(es))[i] == es[i].name
  {
    IrregularAre(es, |es|);
    OwnedAre(es, |es|);
    assert es[..|es|] == es && NameLengths(es)[..|es|] == NameLengths(es);
  }
}
