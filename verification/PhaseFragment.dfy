// The binary phase fragment of tools/assemble_frontend_phase.py: a header, six tables and
// nothing behind them. The parser is the exact inverse of a printer on valid traces.
module PhaseFragment {
  import opened Bytes
  import opened Codecs
  import opened Fields
  import opened Options
  import opened PhaseTables
  import opened PhaseTemporal
  import opened PhaseTerminal

  // "OMEGAFRPHASE0002"
  const MAGIC: seq<Byte> := [79, 77, 69, 71, 65, 70, 82, 80, 72, 65, 83, 69, 48, 48, 48, 50]
  const VERSION := 2
  const DIGEST_BYTES := 32

  // Two frame counts, status, commit state, seven failure counters, twice six table counts.
  const HEADER_WIDTHS: seq<nat> := [4, 4, 4, 4, 4, 4, 4, 4, 4, 4, 4, 4, 4, 4, 4, 4, 4, 4, 4, 4, 4, 4, 4]

  datatype Header = Header(captureDomain: seq<Byte>, runtimeConfigDigest: seq<Byte>, siteMapDigest: seq<Byte>,
                           words: seq<nat>)

  // Site rows hold nothing but their dense ordinals, so their number stands for them.
  datatype Fragment = Fragment(captureDomain: seq<Byte>, runtimeConfigDigest: seq<Byte>, siteMapDigest: seq<Byte>,
                               frameCount: nat, terminal: Terminal, siteCount: nat, rows: Rows)

  // ---------- the header ----------

  predicate Digest(d: seq<Byte>) { |d| == DIGEST_BYTES && exists i :: 0 <= i < |d| && d[i] != 0 }

  ghost predicate HeaderShape(h: Header) {
    && Digest(h.captureDomain) && Digest(h.runtimeConfigDigest) && Digest(h.siteMapDigest)
    && RowFits(h.words, HEADER_WIDTHS)
  }

  ghost function HeaderBytes(h: Header): seq<Byte>
    requires HeaderShape(h)
  {
    MAGIC + (U32Bytes(VERSION) + (h.captureDomain + (h.runtimeConfigDigest + (h.siteMapDigest
      + Pack(h.words, HEADER_WIDTHS)))))
  }

  ghost function TakeDigests(s: seq<Byte>): Option<Took<Header>> {
    match TakeBytes(s, DIGEST_BYTES)
    case None => None
    case Some(a) =>
      match TakeBytes(a.rest, DIGEST_BYTES)
      case None => None
      case Some(b) =>
        match TakeBytes(b.rest, DIGEST_BYTES)
        case None => None
        case Some(c) =>
          if !Digest(a.value) || !Digest(b.value) || !Digest(c.value) then None
          else
            match TakeFields(c.rest, HEADER_WIDTHS)
            case None => None
            case Some(w) => Some(Took(Header(a.value, b.value, c.value, w.value), w.rest))
  }

  ghost function TakeHeader(s: seq<Byte>): Option<Took<Header>> {
    match TakeBytes(s, |MAGIC|)
    case None => None
    case Some(m) =>
      if m.value != MAGIC then None
      else
        match TakeU32(m.rest)
        case None => None
        case Some(v) => if v.value != VERSION then None else TakeDigests(v.rest)
  }

  lemma DigestsTaken(s: seq<Byte>, h: Header, rest: seq<Byte>)
    ensures TakeDigests(s) == Some(Took(h, rest)) <==>
      && HeaderShape(h)
      && s == h.captureDomain + (h.runtimeConfigDigest + (h.siteMapDigest + (Pack(h.words, HEADER_WIDTHS) + rest)))
  {
    hide TakeFields, Pack, RowFits;
    if TakeDigests(s) == Some(Took(h, rest)) {
      DigestsRead(s, h, rest);
    }
    if HeaderShape(h) {
      var t3 := Pack(h.words, HEADER_WIDTHS) + rest;
      var t2 := h.siteMapDigest + t3;
      var t1 := h.runtimeConfigDigest + t2;
      BytesTaken(h.captureDomain + t1, h.captureDomain, t1);
      BytesTaken(t1, h.runtimeConfigDigest, t2);
      BytesTaken(t2, h.siteMapDigest, t3);
      RowTaken(t3, HEADER_WIDTHS, h.words, rest);
    }
  }

  lemma DigestsRead(s: seq<Byte>, h: Header, rest: seq<Byte>)
    requires TakeDigests(s) == Some(Took(h, rest))
    ensures HeaderShape(h)
    ensures s == h.captureDomain + (h.runtimeConfigDigest + (h.siteMapDigest + (Pack(h.words, HEADER_WIDTHS) + rest)))
  {
    hide TakeFields, Pack, RowFits;
    var a := TakeBytes(s, DIGEST_BYTES).value;
    var b := TakeBytes(a.rest, DIGEST_BYTES).value;
    var c := TakeBytes(b.rest, DIGEST_BYTES).value;
    BytesTaken(s, a.value, a.rest);
    BytesTaken(a.rest, b.value, b.rest);
    BytesTaken(b.rest, c.value, c.rest);
    RowTaken(c.rest, HEADER_WIDTHS, h.words, rest);
  }

  lemma VersionTaken(s: seq<Byte>, rest: seq<Byte>)
    ensures TakeU32(s) == Some(Took(VERSION, rest)) <==> s == U32Bytes(VERSION) + rest
  {
    FieldTaken(s, 4, VERSION, rest);
  }

  lemma HeaderTaken(s: seq<Byte>, h: Header, rest: seq<Byte>)
    ensures TakeHeader(s) == Some(Took(h, rest)) <==> HeaderShape(h) && s == HeaderBytes(h) + rest
  {
    hide TakeDigests, U32Bytes, U32At, Pack, RowFits, Digest;
    if TakeHeader(s) == Some(Took(h, rest)) {
      var m := TakeBytes(s, |MAGIC|).value;
      var v := TakeU32(m.rest).value;
      BytesTaken(s, MAGIC, m.rest);
      VersionTaken(m.rest, v.rest);
      DigestsTaken(v.rest, h, rest);
      HeaderReassociates(h, rest);
    }
    if HeaderShape(h) && s == HeaderBytes(h) + rest {
      HeaderReassociates(h, rest);
      var d := h.captureDomain + (h.runtimeConfigDigest + (h.siteMapDigest + (Pack(h.words, HEADER_WIDTHS) + rest)));
      BytesTaken(s, MAGIC, U32Bytes(VERSION) + d);
      VersionTaken(U32Bytes(VERSION) + d, d);
      DigestsTaken(d, h, rest);
    }
  }

  lemma HeaderReassociates(h: Header, rest: seq<Byte>)
    requires HeaderShape(h)
    ensures HeaderBytes(h) + rest == MAGIC + (U32Bytes(VERSION) + (h.captureDomain + (h.runtimeConfigDigest
      + (h.siteMapDigest + (Pack(h.words, HEADER_WIDTHS) + rest)))))
  {
    hide Pack, U32Bytes, RowFits, Digest;
    var p := Pack(h.words, HEADER_WIDTHS);
    Reassociate(h.siteMapDigest, p, rest);
    Reassociate(h.runtimeConfigDigest, h.siteMapDigest + p, rest);
    Reassociate(h.captureDomain, h.runtimeConfigDigest + (h.siteMapDigest + p), rest);
    Reassociate(U32Bytes(VERSION), h.captureDomain + (h.runtimeConfigDigest + (h.siteMapDigest + p)), rest);
    Reassociate(MAGIC, U32Bytes(VERSION) + (h.captureDomain + (h.runtimeConfigDigest + (h.siteMapDigest + p))), rest);
  }

  method ReadHeader(reader: Reader) returns (r: Option<Header>)
    requires reader.Valid()
    modifies reader`offset
    ensures reader.Valid()
    ensures match TakeHeader(old(reader.Rest()))
      case Some(t) => r == Some(t.value) && reader.Rest() == t.rest
      case None => r == None
  {
    hide TakeFields, U32At, Digest;
    var magic := reader.Take(|MAGIC|);
    if magic != Some(MAGIC) { return None; }
    var version := reader.U32();
    if version != Some(VERSION) { return None; }
    var captureDomain := reader.Take(DIGEST_BYTES);
    if captureDomain.None? { return None; }
    var runtimeConfigDigest := reader.Take(DIGEST_BYTES);
    if runtimeConfigDigest.None? { return None; }
    var siteMapDigest := reader.Take(DIGEST_BYTES);
    if siteMapDigest.None? { return None; }
    if !Digest(captureDomain.value) || !Digest(runtimeConfigDigest.value) || !Digest(siteMapDigest.value) {
      return None;
    }
    var words := reader.Row(HEADER_WIDTHS);
    if words.None? { return None; }
    r := Some(Header(captureDomain.value, runtimeConfigDigest.value, siteMapDigest.value, words.value));
  }

  // ---------- the six tables ----------

  ghost predicate TablesFit(tables: seq<seq<seq<nat>>>, counts: seq<nat>) {
    |tables| <= |counts| == TABLES
    && forall k: nat | k < |tables| :: |tables[k]| == counts[k] && AllValid(RowsOfTable(k), tables[k])
  }

  ghost function PackTables(tables: seq<seq<seq<nat>>>, counts: seq<nat>): seq<Byte>
    requires TablesFit(tables, counts)
  {
    if tables == [] then []
    else
      var n := |tables| - 1;
      PackTables(tables[..n], counts) + PrintMany(RowsOfTable(n), tables[n])
  }

  ghost function TakeTables(s: seq<Byte>, counts: seq<nat>, k: nat): Option<Took<seq<seq<seq<nat>>>>>
    requires k <= |counts| == TABLES
  {
    if k == 0 then Some(Took([], s))
    else
      var n := k - 1;
      match TakeTables(s, counts, n)
      case None => None
      case Some(t) =>
        match TakeMany(RowsOfTable(n), t.rest, counts[n])
        case None => None
        case Some(f) => Some(Took(t.value + [f.value], f.rest))
  }

  lemma {:induction false} TakeTablesPrefix(s: seq<Byte>, counts: seq<nat>, k: nat, n: nat)
    requires k <= n <= |counts| == TABLES
    ensures TakeTables(s, counts, n).Some? ==>
      && TakeTables(s, counts, k).Some? && |TakeTables(s, counts, n).value.value| == n
      && TakeTables(s, counts, k).value.value == TakeTables(s, counts, n).value.value[..k]
    decreases n
  {
    hide TakeTables, TakeMany, RowsOfTable;
    NoTables(s, counts);
    if n > 0 && TakeTables(s, counts, n).Some? {
      var c: nat := n - 1;
      var t, f := TablesSplit(s, counts, n);
      TakeTablesPrefix(s, counts, if k < n then k else c, c);
    }
  }

  lemma NoTables(s: seq<Byte>, counts: seq<nat>)
    requires |counts| == TABLES
    ensures TakeTables(s, counts, 0) == Some(Took([], s))
  {
  }

  lemma TablesSplit(s: seq<Byte>, counts: seq<nat>, n: nat)
      returns (t: Took<seq<seq<seq<nat>>>>, f: Took<seq<seq<nat>>>)
    requires 0 < n <= |counts| == TABLES && TakeTables(s, counts, n).Some?
    ensures TakeTables(s, counts, n - 1) == Some(t) && TakeMany(RowsOfTable(n - 1), t.rest, counts[n - 1]) == Some(f)
    ensures TakeTables(s, counts, n) == Some(Took(t.value + [f.value], f.rest))
  {
    hide TakeMany, RowsOfTable;
    t := TakeTables(s, counts, n - 1).value;
    f := TakeMany(RowsOfTable(n - 1), t.rest, counts[n - 1]).value;
  }

  lemma {:induction false} TablesTaken(s: seq<Byte>, counts: seq<nat>, tables: seq<seq<seq<nat>>>, rest: seq<Byte>)
    requires |tables| <= |counts| == TABLES
    ensures TakeTables(s, counts, |tables|) == Some(Took(tables, rest)) <==>
            TablesFit(tables, counts) && s == PackTables(tables, counts) + rest
    decreases |tables|, 1
  {
    if tables == [] {
      assert s == rest <==> s == [] + rest;
    } else {
      if TakeTables(s, counts, |tables|) == Some(Took(tables, rest)) {
        TablesArePacked(s, counts, tables, rest);
      }
      if TablesFit(tables, counts) && s == PackTables(tables, counts) + rest {
        PackedAreTables(s, counts, tables, rest);
      }
    }
  }

  lemma {:induction false} TablesArePacked(s: seq<Byte>, counts: seq<nat>, tables: seq<seq<seq<nat>>>, rest: seq<Byte>)
    requires 0 < |tables| <= |counts| == TABLES && TakeTables(s, counts, |tables|) == Some(Took(tables, rest))
    ensures TablesFit(tables, counts) && s == PackTables(tables, counts) + rest
    decreases |tables|, 0
  {
    hide TakeTables, TablesFit, PackTables, TakeMany, PrintMany, AllValid, Lawful, RowsOfTable;
    var n: nat := |tables| - 1;
    var t, f := TablesSplit(s, counts, |tables|);
    TakeTablesPrefix(s, counts, n, n);
    assert tables[..n] == t.value && tables[n] == f.value;
    TablesTaken(s, counts, tables[..n], t.rest);
    TableRowsLawful(n);
    ManyLength(RowsOfTable(n), t.rest, counts[n]);
    ManyTaken(RowsOfTable(n), t.rest, tables[n], rest);
    FitGrows(tables, counts);
    PackSnoc(tables, counts);
    Reassociate(PackTables(tables[..n], counts), PrintMany(RowsOfTable(n), tables[n]), rest);
  }

  lemma FitGrows(tables: seq<seq<seq<nat>>>, counts: seq<nat>)
    requires 0 < |tables| <= |counts| == TABLES && TablesFit(tables[..|tables| - 1], counts)
    requires var n: nat := |tables| - 1; |tables[n]| == counts[n] && AllValid(RowsOfTable(n), tables[n])
    ensures TablesFit(tables, counts)
  {
    hide AllValid, RowsOfTable;
    var n: nat := |tables| - 1;
    var init := tables[..n];
    forall k: nat | k < |tables| ensures |tables[k]| == counts[k] && AllValid(RowsOfTable(k), tables[k]) {
      if k < n { assert init[k] == tables[k]; }
    }
  }

  lemma PackSnoc(tables: seq<seq<seq<nat>>>, counts: seq<nat>)
    requires tables != [] && TablesFit(tables, counts) && TablesFit(tables[..|tables| - 1], counts)
    ensures var n: nat := |tables| - 1;
      PackTables(tables, counts) == PackTables(tables[..n], counts) + PrintMany(RowsOfTable(n), tables[n])
  {
    hide TablesFit, PrintMany, RowsOfTable;
  }

  lemma {:induction false} PackedAreTables(s: seq<Byte>, counts: seq<nat>, tables: seq<seq<seq<nat>>>, rest: seq<Byte>)
    requires tables != [] && TablesFit(tables, counts) && s == PackTables(tables, counts) + rest
    ensures TakeTables(s, counts, |tables|) == Some(Took(tables, rest))
    decreases |tables|, 0
  {
    hide TakeMany, PrintMany, AllValid, Lawful, RowsOfTable, TakeTables;
    var n: nat := |tables| - 1;
    var last := PrintMany(RowsOfTable(n), tables[n]);
    Reassociate(PackTables(tables[..n], counts), last, rest);
    TablesTaken(s, counts, tables[..n], last + rest);
    TableRowsLawful(n);
    ManyTaken(RowsOfTable(n), last + rest, tables[n], rest);
    TakeTablesStep(s, counts, n, Took(tables[..n], last + rest), Took(tables[n], rest));
    assert tables[..n] + [tables[n]] == tables;
  }

  lemma TakeTablesStep(s: seq<Byte>, counts: seq<nat>, n: nat, t: Took<seq<seq<seq<nat>>>>, f: Took<seq<seq<nat>>>)
    requires n < |counts| == TABLES && TakeTables(s, counts, n) == Some(t)
    requires TakeMany(RowsOfTable(n), t.rest, counts[n]) == Some(f)
    ensures TakeTables(s, counts, n + 1) == Some(Took(t.value + [f.value], f.rest))
  {
    hide TakeMany, RowsOfTable;
  }

  ghost predicate TablesOk(counts: seq<nat>, frames: nat, tables: seq<seq<seq<nat>>>)
    requires |tables| <= |counts| == TABLES
  {
    forall k: nat | k < |tables| :: TableOk(k, counts, frames, tables[k])
  }

  method ReadTables(reader: Reader, counts: seq<nat>, frames: nat) returns (r: Option<seq<seq<seq<nat>>>>)
    requires reader.Valid() && |counts| == TABLES
    modifies reader`offset
    ensures reader.Valid()
    ensures var t := TakeTables(old(reader.Rest()), counts, TABLES);
      && (t.Some? ==> |t.value.value| == TABLES)
      && r == (if t.Some? && TablesOk(counts, frames, t.value.value) then Some(t.value.value) else None)
      && (r.Some? ==> reader.Rest() == t.value.rest)
  {
    hide TakeMany, TableOk, RowsOfTable;
    ghost var s := reader.Rest();
    var tables: seq<seq<seq<nat>>> := [];
    TakeTablesPrefix(s, counts, 0, TABLES);
    for k := 0 to TABLES
      invariant reader.Valid() && |tables| == k
      invariant TakeTables(s, counts, k) == Some(Took(tables, reader.Rest())) && TablesOk(counts, frames, tables)
    {
      TakeTablesPrefix(s, counts, k + 1, TABLES);
      var table := ReadTable(reader, k, counts[k], counts, frames);
      if table.None? {
        assert TakeTables(s, counts, TABLES).Some? ==>
          TakeTables(s, counts, k + 1).value.value[k] == TakeTables(s, counts, TABLES).value.value[k];
        return None;
      }
      tables := tables + [table.value];
    }
    r := Some(tables);
  }

  // ---------- fragments ----------

  function WordsOf(t: Terminal): seq<nat> {
    [t.discoveredFrames, t.retainedFrames, StatusCode(t.status), CommitCode(t.commit)]
      + t.failures + t.discovered + t.retained
  }

  function TerminalFrom(words: seq<nat>): (t: Terminal)
    requires |words| == |HEADER_WIDTHS| && words[2] < |STATUSES|
    ensures |t.failures| == |EXPECTED_STATUSES| && |t.discovered| == |t.retained| == TABLES
  {
    Terminal(STATUSES[words[2]], if words[3] == 0 then Aborted else Committed, words[0], words[1],
             words[4..11], words[11..17], words[17..23])
  }

  function FragmentFrom(h: Header, tables: seq<seq<seq<nat>>>): Fragment
    requires |h.words| == |HEADER_WIDTHS| && h.words[2] < |STATUSES| && Shaped(tables)
  {
    Fragment(h.captureDomain, h.runtimeConfigDigest, h.siteMapDigest, h.words[1], TerminalFrom(h.words),
             |tables[0]|, RowsOf(tables))
  }

  function HeaderFor(f: Fragment): Header {
    Header(f.captureDomain, f.runtimeConfigDigest, f.siteMapDigest, WordsOf(f.terminal))
  }

  ghost predicate TerminalShape(f: Fragment) {
    && |f.terminal.failures| == |EXPECTED_STATUSES| && |f.terminal.discovered| == |f.terminal.retained| == TABLES
    && f.terminal.retainedFrames == f.frameCount
  }

  // The trace is made of 32-bit fields and counts its own tables.
  ghost predicate Representable(f: Fragment) {
    && TerminalShape(f) && HeaderShape(HeaderFor(f))
    && TablesFit(AllFields(f.siteCount, f.rows), f.terminal.retained)
  }

  ghost predicate TerminalAccepted(t: Terminal, limits: Limits)
    requires |t.failures| == |EXPECTED_STATUSES| && |t.discovered| == |t.retained| == TABLES
  {
    && CountsOk(t.retained, t.discovered, limits) && TerminalOk(t, limits)
    && !(t.status == Complete && t.retainedFrames == 0)
  }

  // What the parser promises of a trace, without mentioning bytes.
  ghost predicate FragmentValid(f: Fragment, limits: Limits) {
    && Representable(f)
    && TerminalAccepted(f.terminal, limits)
    && TablesOk(f.terminal.retained, f.frameCount, AllFields(f.siteCount, f.rows))
    && TablesChecked(f.rows) && TemporalValid(f.rows, limits.nestingDepth)
  }

  ghost function Print(f: Fragment): seq<Byte>
    requires Representable(f)
  {
    HeaderBytes(HeaderFor(f)) + PackTables(AllFields(f.siteCount, f.rows), f.terminal.retained)
  }

  // ---------- what the parser accepts ----------

  ghost predicate HeaderAccepted(h: Header, rawSize: nat, limits: Limits) {
    && |h.words| == |HEADER_WIDTHS| && h.words[2] < |STATUSES| && h.words[3] <= 1
    && TerminalAccepted(TerminalFrom(h.words), limits)
    && ExpectedSize(h.words[17..23]) == rawSize
  }

  ghost predicate BodyAccepted(s: seq<Byte>, counts: seq<nat>, frames: nat, tables: seq<seq<seq<nat>>>)
    requires |counts| == TABLES
  {
    |tables| == TABLES && TakeTables(s, counts, TABLES) == Some(Took(tables, [])) && TablesOk(counts, frames, tables)
  }

  // The parse of raw: a header, six tables of well-formed rows, no byte more, one valid run.
  ghost predicate Parses(raw: seq<Byte>, limits: Limits, h: Header, tables: seq<seq<seq<nat>>>) {
    && TakeHeader(raw).Some? && TakeHeader(raw).value.value == h
    && HeaderAccepted(h, |raw|, limits)
    && BodyAccepted(TakeHeader(raw).value.rest, h.words[17..23], h.words[1], tables)
    && Shaped(tables) && TablesChecked(RowsOf(tables)) && TemporalValid(RowsOf(tables), limits.nestingDepth)
  }

  lemma BodyIsChecked(s: seq<Byte>, counts: seq<nat>, frames: nat, tables: seq<seq<seq<nat>>>)
    requires |counts| == TABLES && BodyAccepted(s, counts, frames, tables)
    ensures TablesFit(tables, counts) && s == PackTables(tables, counts)
    ensures Shaped(tables) && TablesChecked(RowsOf(tables))
  {
    hide TakeTables, TableOk;
    TablesTaken(s, counts, tables, []);
    assert PackTables(tables, counts) + [] == PackTables(tables, counts);
    forall k: nat | k < TABLES ensures WellShaped(tables[k], k) {
      assert AllValid(RowsOfTable(k), tables[k]);
      assert forall i | 0 <= i < |tables[k]| :: RowFits(tables[k][i], Widths(k));
    }
    TablesAreChecked(tables, counts, frames);
  }

  lemma WordsRoundTrip(t: Terminal)
    requires |t.failures| == |EXPECTED_STATUSES| && |t.discovered| == |t.retained| == TABLES
    ensures |WordsOf(t)| == |HEADER_WIDTHS| && WordsOf(t)[2] < |STATUSES| && WordsOf(t)[3] <= 1
    ensures TerminalFrom(WordsOf(t)) == t
    ensures WordsOf(t)[17..23] == t.retained && WordsOf(t)[1] == t.retainedFrames
  {
    var w := WordsOf(t);
    assert w[4..11] == t.failures && w[11..17] == t.discovered && w[17..23] == t.retained;
  }

  lemma TerminalRoundTrip(words: seq<nat>)
    requires |words| == |HEADER_WIDTHS| && words[2] < |STATUSES| && words[3] <= 1
    ensures WordsOf(TerminalFrom(words)) == words
  {
    assert words == words[..4] + words[4..11] + words[11..17] + words[17..23];
  }

  lemma FieldsRoundTrip(tables: seq<seq<seq<nat>>>, counts: seq<nat>, frames: nat)
    requires Shaped(tables) && |counts| == TABLES && TablesOk(counts, frames, tables)
    ensures AllFields(|tables[0]|, RowsOf(tables)) == tables
  {
    hide TableOk, FieldsOf, RowsOf;
    forall k: nat | k < TABLES ensures FieldsOf(|tables[0]|, RowsOf(tables), k) == tables[k] {
      FieldsOfRowsOf(tables, counts, frames, k);
    }
  }

  // The row widths the length check uses are those of the row layouts.
  lemma RowLengths(k: nat)
    requires k < TABLES
    ensures RowLength(Widths(k)) == ROW_WIDTHS[k]
  {
    match k
    case 2 =>
      AllFours([4, 4, 4, 4]);
      assert [4, 4, 4, 4, 1, 4][..5] == [4, 4, 4, 4, 1] && [4, 4, 4, 4, 1][..4] == [4, 4, 4, 4];
    case 4 =>
      AllFours([4, 4, 4]);
      assert [4, 4, 4, 1, 4][..4] == [4, 4, 4, 1] && [4, 4, 4, 1][..3] == [4, 4, 4];
    case _ => AllFours(Widths(k));
  }

  lemma {:induction false} TablesLength(tables: seq<seq<seq<nat>>>, counts: seq<nat>)
    requires TablesFit(tables, counts)
    ensures |PackTables(tables, counts)| == Weighted(counts[..|tables|], ROW_WIDTHS[..|tables|])
  {
    hide PrintMany, AllValid, Widths, RowLength;
    if tables != [] {
      var n: nat := |tables| - 1;
      TablesLength(tables[..n], counts);
      RowLengths(n);
      assert counts[..n + 1][..n] == counts[..n] && ROW_WIDTHS[..n + 1][..n] == ROW_WIDTHS[..n];
      RowsLength(Widths(n), tables[n]);
    }
  }

  lemma HeaderLength(h: Header)
    requires HeaderShape(h)
    ensures |HeaderBytes(h)| == HEADER_BYTES
  {
    hide Pack, RowFits, RowLength;
    AllFours(HEADER_WIDTHS);
  }

  lemma PrintLength(f: Fragment)
    requires Representable(f)
    ensures |Print(f)| == ExpectedSize(f.terminal.retained)
  {
    hide PackTables, AllValid, RowsOfTable, FieldsOf, Weighted, HeaderBytes, HeaderShape;
    HeaderLength(HeaderFor(f));
    TablesLength(AllFields(f.siteCount, f.rows), f.terminal.retained);
    assert f.terminal.retained[..TABLES] == f.terminal.retained && ROW_WIDTHS[..TABLES] == ROW_WIDTHS;
  }

  // An accepted byte string is the print of the trace it parses to, and that trace is valid.
  lemma ParseThenPrint(raw: seq<Byte>, limits: Limits, h: Header, tables: seq<seq<seq<nat>>>)
    requires Parses(raw, limits, h, tables)
    ensures FragmentValid(FragmentFrom(h, tables), limits) && Print(FragmentFrom(h, tables)) == raw
  {
    hide TakeHeader, TakeTables, TableOk, AllValid, RowsOf, AllFields, HeaderBytes, PackTables, WordsOf, TerminalFrom,
         Pack, TablesChecked, TemporalValid, CountsOk, TerminalOk, ExpectedSize;
    var rest := TakeHeader(raw).value.rest;
    HeaderTaken(raw, h, rest);
    BodyIsChecked(rest, h.words[17..23], h.words[1], tables);
    TerminalRoundTrip(h.words);
    WordsRoundTrip(TerminalFrom(h.words));
    FieldsRoundTrip(tables, h.words[17..23], h.words[1]);
  }

  // The print of a valid trace parses, to that trace.
  lemma PrintThenParse(f: Fragment, limits: Limits)
    requires FragmentValid(f, limits)
    ensures Parses(Print(f), limits, HeaderFor(f), AllFields(f.siteCount, f.rows))
    ensures FragmentFrom(HeaderFor(f), AllFields(f.siteCount, f.rows)) == f
  {
    hide TakeHeader, TakeTables, TableOk, AllValid, RowsOf, AllFields, HeaderBytes, PackTables, WordsOf, TerminalFrom,
         Pack, TablesChecked, TemporalValid, CountsOk, TerminalOk, ExpectedSize;
    var h, tables := HeaderFor(f), AllFields(f.siteCount, f.rows);
    var body := PackTables(tables, f.terminal.retained);
    HeaderTaken(Print(f), h, body);
    assert body + [] == body;
    TablesTaken(body, f.terminal.retained, tables, []);
    WordsRoundTrip(f.terminal);
    RowsOfFieldsOf(f.siteCount, f.rows);
    PrintLength(f);
  }

  method ValidateHeader(h: Header, rawSize: nat, limits: Limits) returns (ok: bool)
    requires |h.words| == |HEADER_WIDTHS|
    ensures ok <==> HeaderAccepted(h, rawSize, limits)
  {
    hide CountsOk, TerminalOk, ExpectedSize;
    if h.words[1] > limits.frames {
      TooManyFrames(h, rawSize, limits);
      return false;
    }
    ok := ValidateCounts(h.words[17..23], h.words[11..17], rawSize, limits);
    if !ok || h.words[2] >= |STATUSES| || h.words[3] > 1 { return false; }
    var terminal := TerminalFrom(h.words);
    ok := ValidateTerminal(terminal, limits);
    ok := ok && !(terminal.status == Complete && terminal.retainedFrames == 0);
  }

  method ParseHeader(reader: Reader, limits: Limits) returns (r: Option<Header>)
    requires reader.Valid() && reader.Rest() == reader.raw
    modifies reader`offset
    ensures reader.Valid()
    ensures var t := TakeHeader(reader.raw);
      && r == (if t.Some? && HeaderAccepted(t.value.value, |reader.raw|, limits) then Some(t.value.value) else None)
      && (r.Some? ==> reader.Rest() == t.value.rest)
  {
    hide TakeHeader, HeaderAccepted;
    var header := ReadHeader(reader);
    if header.None? { return None; }
    HeaderWords(reader.raw);
    var ok := ValidateHeader(header.value, |reader.raw|, limits);
    r := if ok then header else None;
  }

  lemma HeaderWords(raw: seq<Byte>)
    ensures TakeHeader(raw).Some? ==> |TakeHeader(raw).value.value.words| == |HEADER_WIDTHS|
  {
    if TakeHeader(raw).Some? {
      HeaderTaken(raw, TakeHeader(raw).value.value, TakeHeader(raw).value.rest);
    }
  }

  lemma TooManyFrames(h: Header, rawSize: nat, limits: Limits)
    requires |h.words| == |HEADER_WIDTHS| && h.words[1] > limits.frames
    ensures !HeaderAccepted(h, rawSize, limits)
  {
  }

  // The whole parse: everything is read in order, nothing is left, and the run is valid.
  method ParseTables(raw: seq<Byte>, limits: Limits) returns (ok: bool, h: Header, tables: seq<seq<seq<nat>>>)
    ensures ok ==> Parses(raw, limits, h, tables)
    ensures !ok ==> forall g, t :: !Parses(raw, limits, g, t)
  {
    hide TakeHeader, TakeTables, HeaderAccepted, TablesOk, TablesChecked, TemporalValid, RowsOf;
    h, tables := Header([], [], [], []), [];
    if |raw| > limits.fragmentBytes || |raw| < HEADER_BYTES {
      WrongLength(raw, limits);
      return false, h, tables;
    }
    var reader := new Reader(raw);
    var header := ParseHeader(reader, limits);
    if header.None? { return false, h, tables; }
    h := header.value;
    HeaderWords(raw);
    ghost var rest := reader.Rest();
    var body := ReadTables(reader, h.words[17..23], h.words[1]);
    if body.None? || reader.offset != |raw| { return false, h, tables; }
    tables := body.value;
    assert reader.Rest() == [];
    BodyIsChecked(rest, h.words[17..23], h.words[1], tables);
    ok := ValidateTemporalModel(RowsOf(tables), limits.nestingDepth);
  }

  lemma WrongLength(raw: seq<Byte>, limits: Limits)
    requires |raw| > limits.fragmentBytes || |raw| < HEADER_BYTES
    ensures forall h, tables :: !Parses(raw, limits, h, tables)
  {
    hide TakeHeader, TakeTables, TableOk, TemporalValid, TablesChecked;
  }

  // The parser accepts exactly the prints of valid traces, and returns the trace printed.
  method ParsePhaseFragment(raw: seq<Byte>, limits: Limits) returns (r: Option<Fragment>)
    ensures r.Some? ==> FragmentValid(r.value, limits) && Print(r.value) == raw
    ensures r.None? ==> forall f | FragmentValid(f, limits) :: Print(f) != raw
  {
    hide TakeHeader, TakeTables, BodyAccepted, TablesOk, TablesChecked, TemporalValid, TerminalAccepted,
         ExpectedSize, Representable, Print;
    var ok, h, tables := ParseTables(raw, limits);
    if !ok {
      forall f | FragmentValid(f, limits) ensures Print(f) != raw {
        PrintThenParse(f, limits);
      }
      return None;
    }
    ParseThenPrint(raw, limits, h, tables);
    r := Some(FragmentFrom(h, tables));
  }

  // No two valid traces print alike, so printing and parsing gives back the very trace.
  lemma PrintIsInjective(f: Fragment, g: Fragment, limits: Limits)
    requires FragmentValid(f, limits) && FragmentValid(g, limits) && Print(f) == Print(g)
    ensures f == g
  {
    hide TakeHeader, TakeTables, HeaderAccepted, TablesOk, TablesChecked, TemporalValid, TerminalAccepted,
         Representable, Print;
    PrintThenParse(f, limits);
    PrintThenParse(g, limits);
  }
}
