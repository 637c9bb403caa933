// A phase fragment byte by byte: the absolute offset at which every field of a trace stands. The file
// of a trace is described without row layouts, tables or printers, and only one file fits.
module PhaseBytes {
  import opened Bytes
  import opened Codecs
  import opened Fields
  import opened Sums
  import opened PhaseExact
  import opened PhaseFragment
  import opened PhaseTables
  import opened PhaseTemporal
  import opened PhaseTerminal

  // ---------- where the tables stand ----------

  function InvocationsAt(f: Fragment): nat { 208 + 4 * f.siteCount }

  function EventsAt(f: Fragment): nat { InvocationsAt(f) + 24 * |f.rows.invocations| }

  function SubmissionsAt(f: Fragment): nat { EventsAt(f) + 21 * |f.rows.events| }

  function DrawsAt(f: Fragment): nat { SubmissionsAt(f) + 24 * |f.rows.submissions| }

  function MembershipsAt(f: Fragment): nat { DrawsAt(f) + 17 * |f.rows.draws| }

  function FileSize(f: Fragment): nat { MembershipsAt(f) + 8 * |f.rows.memberships| }

  // ---------- the fields of one row ----------

  predicate SiteStands(raw: seq<Byte>, f: Fragment, i: nat) {
    var at := 208 + 4 * i;
    at + 4 <= |raw| && U32At(raw, at) == i + 1
  }

  predicate InvocationStands(raw: seq<Byte>, f: Fragment, i: nat)
    requires i < |f.rows.invocations|
  {
    var (at, v) := (InvocationsAt(f) + 24 * i, f.rows.invocations[i]);
    && at + 24 <= |raw| && U32At(raw, at) == i + 1 && U32At(raw, at + 4) == v.site && U32At(raw, at + 8) == 0
    && U32At(raw, at + 12) == v.parent && U32At(raw, at + 16) == v.enterEvent && U32At(raw, at + 20) == v.exitEvent
  }

  predicate EventStands(raw: seq<Byte>, f: Fragment, i: nat)
    requires i < |f.rows.events|
  {
    var (at, v) := (EventsAt(f) + 21 * i, f.rows.events[i]);
    && at + 21 <= |raw| && U32At(raw, at) == i + 1 && U32At(raw, at + 4) == v.sequence
    && U32At(raw, at + 8) == v.frame && U32At(raw, at + 12) == v.invocation && U32At(raw, at + 17) == 0
    && (raw[at + 16] == 0 <==> v.kind == EnterKind) && (raw[at + 16] == 1 <==> v.kind == ExitKind)
  }

  predicate SubmissionStands(raw: seq<Byte>, f: Fragment, i: nat)
    requires i < |f.rows.submissions|
  {
    var (at, v) := (SubmissionsAt(f) + 24 * i, f.rows.submissions[i]);
    && at + 24 <= |raw| && U32At(raw, at) == i + 1 && U32At(raw, at + 4) == v.sequence
    && U32At(raw, at + 8) == v.frame && U32At(raw, at + 12) == v.invocation
    && U32At(raw, at + 16) == v.primitiveBegin && U32At(raw, at + 20) == v.primitiveCount
  }

  predicate DrawStands(raw: seq<Byte>, f: Fragment, i: nat)
    requires i < |f.rows.draws|
  {
    var (at, v) := (DrawsAt(f) + 17 * i, f.rows.draws[i]);
    && at + 17 <= |raw| && U32At(raw, at) == i + 1 && U32At(raw, at + 4) == v.sequence
    && U32At(raw, at + 8) == v.frame && U32At(raw, at + 13) == 0
    && (raw[at + 12] == 0 <==> v.disposition == Submitted) && (raw[at + 12] == 1 <==> v.disposition == Skipped)
  }

  predicate MembershipStands(raw: seq<Byte>, f: Fragment, i: nat)
    requires i < |f.rows.memberships|
  {
    var (at, v) := (MembershipsAt(f) + 8 * i, f.rows.memberships[i]);
    at + 8 <= |raw| && U32At(raw, at) == v.submission && U32At(raw, at + 4) == v.draw
  }

  // ---------- the header ----------

  predicate StatusStands(code: nat, status: TerminalStatus) {
    && (code == 0 <==> status == Complete) && (code == 1 <==> status == TelemetryOverflow)
    && (code == 2 <==> status == TelemetryDropped) && (code == 3 <==> status == VmReset)
    && (code == 4 <==> status == SavestateDiscontinuity) && (code == 5 <==> status == QueueExhausted)
    && (code == 6 <==> status == ProducerAborted) && (code == 7 <==> status == OutputFailure)
    && (code == 8 <==> status == InternalFailure)
  }

  predicate CommitStands(code: nat, commit: CommitState) {
    (code == 0 <==> commit == Aborted) && (code == 1 <==> commit == Committed)
  }

  predicate Spelled(raw: seq<Byte>)
    requires |raw| >= 16
  {
    forall i | 0 <= i < 16 :: raw[i] == "OMEGAFRPHASE0002"[i] as int
  }

  ghost predicate HeaderStands(raw: seq<Byte>, f: Fragment) {
    var t := f.terminal;
    && |raw| >= 208 && |t.failures| == 7 && |t.discovered| == |t.retained| == 6
    && Spelled(raw) && U32At(raw, 16) == 2
    && raw[20..52] == f.captureDomain && raw[52..84] == f.runtimeConfigDigest && raw[84..116] == f.siteMapDigest
    && U32At(raw, 116) == t.discoveredFrames && U32At(raw, 120) == t.retainedFrames
    && StatusStands(U32At(raw, 124), t.status)
    && CommitStands(U32At(raw, 128), t.commit)
    && Words(raw, 132, 7) == t.failures && Words(raw, 160, 6) == t.discovered && Words(raw, 184, 6) == t.retained
  }

  // The whole file: a header of 208 bytes and six tables, each behind the one before it.
  ghost predicate FileHolds(raw: seq<Byte>, f: Fragment) {
    && |raw| == FileSize(f) && HeaderStands(raw, f)
    && (forall i: nat | i < f.siteCount :: SiteStands(raw, f, i))
    && (forall i: nat | i < |f.rows.invocations| :: InvocationStands(raw, f, i))
    && (forall i: nat | i < |f.rows.events| :: EventStands(raw, f, i))
    && (forall i: nat | i < |f.rows.submissions| :: SubmissionStands(raw, f, i))
    && (forall i: nat | i < |f.rows.draws| :: DrawStands(raw, f, i))
    && (forall i: nat | i < |f.rows.memberships| :: MembershipStands(raw, f, i))
  }

  // ---------- packed fields stand one behind the other ----------

  ghost predicate FieldIs(data: seq<Byte>, at: nat, width: nat, x: nat) {
    at + FieldLength(width) <= |data| && x == if width == 1 then data[at] else U32At(data, at)
  }

  lemma FieldStands(x: nat, width: nat, before: seq<Byte>, after: seq<Byte>)
    requires FieldFits(x, width)
    ensures FieldIs(before + FieldBytes(x, width) + after, |before|, width, x)
  {
    hide U32Bytes, U32At;
    if width != 1 {
      U32RoundTrip(x, before, after);
    }
  }

  lemma {:induction false} PackedField(values: seq<nat>, widths: seq<nat>, before: seq<Byte>, after: seq<Byte>, k: nat)
    requires RowFits(values, widths) && k < |values|
    ensures FieldIs(before + Pack(values, widths) + after, |before| + RowLength(widths[..k]), widths[k], values[k])
  {
    hide FieldBytes, FieldFits, FieldIs;
    var n := |values| - 1;
    var init, last := Pack(values[..n], widths[..n]), FieldBytes(values[n], widths[n]);
    if k == n {
      assert before + Pack(values, widths) + after == (before + init) + last + after;
      FieldStands(values[n], widths[n], before + init, after);
    } else {
      assert before + Pack(values, widths) + after == before + init + (last + after);
      PackedField(values[..n], widths[..n], before, last + after, k);
      assert widths[..n][..k] == widths[..k];
    }
  }

  lemma {:induction false} RowSplit(c: Codec<seq<nat>>, rows: seq<seq<nat>>, i: nat) returns (after: seq<Byte>)
    requires i < |rows|
    ensures PrintMany(c, rows) == PrintMany(c, rows[..i]) + c.emit(rows[i]) + after
  {
    var n := |rows| - 1;
    if i == n {
      after := [];
    } else {
      var middle := RowSplit(c, rows[..n], i);
      assert rows[..n][..i] == rows[..i];
      after := middle + c.emit(rows[n]);
    }
  }

  lemma {:induction false} TableSplit(tables: seq<seq<seq<nat>>>, counts: seq<nat>, k: nat) returns (after: seq<Byte>)
    requires TablesFit(tables, counts) && k < |tables|
    ensures TablesFit(tables[..k], counts)
    ensures PackTables(tables, counts) == PackTables(tables[..k], counts) + PrintMany(RowsOfTable(k), tables[k]) + after
  {
    hide AllValid, PrintMany, RowsOfTable;
    var n := |tables| - 1;
    if k == n {
      after := [];
    } else {
      var middle := TableSplit(tables[..n], counts, k);
      assert tables[..n][..k] == tables[..k];
      after := middle + PrintMany(RowsOfTable(n), tables[n]);
    }
  }

  ghost function RowBegin(counts: seq<nat>, k: nat, i: nat): nat
    requires k < TABLES == |counts|
  {
    208 + Weighted(counts[..k], ROW_WIDTHS[..k]) + i * ROW_WIDTHS[k]
  }

  // Row i of table k of the printed trace.
  lemma RowStands(f: Fragment, k: nat, i: nat) returns (before: seq<Byte>, after: seq<Byte>)
    requires Representable(f) && k < TABLES && i < |FieldsOf(f.siteCount, f.rows, k)|
    ensures var v := FieldsOf(f.siteCount, f.rows, k)[i];
      && RowFits(v, Widths(k)) && Print(f) == before + Pack(v, Widths(k)) + after
      && |before| == RowBegin(f.terminal.retained, k, i)
  {
    hide FieldsOf, Widths, RowFits, Pack, PackTables, PrintMany, Weighted, HeaderBytes, HeaderShape, RowLength;
    var tables, counts, rows := AllFields(f.siteCount, f.rows), f.terminal.retained, FieldsOf(f.siteCount, f.rows, k);
    HeaderLength(HeaderFor(f));
    TablesLength(tables[..k], counts);
    RowLengths(k);
    assert AllValid(Row(Widths(k)), tables[k]) && tables[k] == rows;
    assert AllValid(Row(Widths(k)), rows[..i]);
    RowsLength(Widths(k), rows[..i]);
    var behind := TableSplit(tables, counts, k);
    var beside := RowSplit(RowsOfTable(k), rows, i);
    var front := HeaderBytes(HeaderFor(f)) + PackTables(tables[..k], counts);
    before := front + PrintMany(RowsOfTable(k), rows[..i]);
    after := beside + behind;
    Rebracket(HeaderBytes(HeaderFor(f)), PackTables(tables[..k], counts), PrintMany(RowsOfTable(k), rows[..i]),
              RowsOfTable(k).emit(rows[i]), beside, behind);
  }

  lemma Rebracket(a: seq<Byte>, b: seq<Byte>, c: seq<Byte>, d: seq<Byte>, e: seq<Byte>, g: seq<Byte>)
    ensures a + (b + (c + d + e) + g) == a + b + c + d + (e + g)
  {
  }

  // Field c of row i of table k of the printed trace.
  lemma PrintedAt(f: Fragment, k: nat, i: nat, c: nat)
    requires Representable(f) && k < TABLES && i < |FieldsOf(f.siteCount, f.rows, k)| && c < |Widths(k)|
    ensures |FieldsOf(f.siteCount, f.rows, k)[i]| == |Widths(k)|
    ensures FieldIs(Print(f), RowBegin(f.terminal.retained, k, i) + RowLength(Widths(k)[..c]),
                    Widths(k)[c], FieldsOf(f.siteCount, f.rows, k)[i][c])
  {
    hide FieldIs, RowBegin, RowLength, Widths, FieldsOf, Pack, Print, Representable;
    var before, after := RowStands(f, k, i);
    PackedField(FieldsOf(f.siteCount, f.rows, k)[i], Widths(k), before, after, c);
  }

  // Only the fields behind a one-byte field stand off the word grid of their row.
  lemma ColumnAt(k: nat, c: nat)
    requires k < TABLES && c < |Widths(k)|
    ensures RowLength(Widths(k)[..c]) == if k == 2 && c == 5 then 17 else if k == 4 && c == 4 then 13 else 4 * c
  {
    if (k == 2 && c == 5) || (k == 4 && c == 4) {
      var w := Widths(k)[..c];
      AllFours(w[..c - 1]);
    } else {
      AllFours(Widths(k)[..c]);
    }
  }

  lemma WeightedStep(counts: seq<nat>, weights: seq<nat>, k: nat)
    requires k < |counts| == |weights|
    ensures Weighted(counts[..k + 1], weights[..k + 1]) == Weighted(counts[..k], weights[..k]) + counts[k] * weights[k]
  {
    assert counts[..k + 1][..k] == counts[..k] && weights[..k + 1][..k] == weights[..k];
  }

  lemma CountsAreLengths(f: Fragment)
    requires Representable(f)
    ensures var (t, r) := (f.terminal.retained, f.rows);
      t == [f.siteCount, |r.invocations|, |r.events|, |r.submissions|, |r.draws|, |r.memberships|]
  {
    hide AllValid, HeaderShape;
    var tables := AllFields(f.siteCount, f.rows);
    assert |tables[0]| == f.siteCount && |tables[1]| == |f.rows.invocations| && |tables[2]| == |f.rows.events|;
    assert |tables[3]| == |f.rows.submissions| && |tables[4]| == |f.rows.draws|;
    assert |tables[5]| == |f.rows.memberships|;
  }

  lemma TablesBegin(f: Fragment)
    requires Representable(f)
    ensures var t := f.terminal.retained;
      && (forall i: nat :: RowBegin(t, 0, i) == 208 + 4 * i)
      && (forall i: nat :: RowBegin(t, 1, i) == InvocationsAt(f) + 24 * i)
      && (forall i: nat :: RowBegin(t, 2, i) == EventsAt(f) + 21 * i)
      && (forall i: nat :: RowBegin(t, 3, i) == SubmissionsAt(f) + 24 * i)
      && (forall i: nat :: RowBegin(t, 4, i) == DrawsAt(f) + 17 * i)
      && (forall i: nat :: RowBegin(t, 5, i) == MembershipsAt(f) + 8 * i)
  {
    CountsAreLengths(f);
    var t := f.terminal.retained;
    assert Weighted(t[..0], ROW_WIDTHS[..0]) == 0;
    hide Weighted, Representable;
    WeightedStep(t, ROW_WIDTHS, 0);
    WeightedStep(t, ROW_WIDTHS, 1);
    WeightedStep(t, ROW_WIDTHS, 2);
    WeightedStep(t, ROW_WIDTHS, 3);
    WeightedStep(t, ROW_WIDTHS, 4);
  }

  // A four-byte field of row i of table k stands at its offset from the start of the row.
  lemma WordIn(f: Fragment, k: nat, i: nat, c: nat)
    requires Representable(f) && k < TABLES && i < |FieldsOf(f.siteCount, f.rows, k)| && c < |Widths(k)|
    requires Widths(k)[c] == 4
    ensures |FieldsOf(f.siteCount, f.rows, k)[i]| == |Widths(k)|
    ensures var at := RowBegin(f.terminal.retained, k, i)
                      + if k == 2 && c == 5 then 17 else if k == 4 && c == 4 then 13 else 4 * c;
      at + 4 <= |Print(f)| && U32At(Print(f), at) == FieldsOf(f.siteCount, f.rows, k)[i][c]
  {
    hide RowBegin, Widths, FieldsOf, RowLength, U32At, Print, Representable;
    PrintedAt(f, k, i, c);
    ColumnAt(k, c);
  }

  lemma ByteIn(f: Fragment, k: nat, i: nat, c: nat)
    requires Representable(f) && k < TABLES && i < |FieldsOf(f.siteCount, f.rows, k)| && c < |Widths(k)|
    requires Widths(k)[c] == 1
    ensures |FieldsOf(f.siteCount, f.rows, k)[i]| == |Widths(k)|
    ensures var at := RowBegin(f.terminal.retained, k, i) + RowLength(Widths(k)[..c]);
      at < |Print(f)| && Print(f)[at] == FieldsOf(f.siteCount, f.rows, k)[i][c]
  {
    hide RowBegin, Widths, FieldsOf, RowLength, U32At, Print, Representable;
    PrintedAt(f, k, i, c);
  }

  // ---------- the rows of the six tables ----------

  lemma SiteIn(f: Fragment, i: nat)
    requires Representable(f) && i < f.siteCount
    ensures SiteStands(Print(f), f, i)
  {
    hide RowBegin, U32At, Print, Representable;
    TablesBegin(f);
    WordIn(f, 0, i, 0);
  }

  lemma InvocationIn(f: Fragment, i: nat)
    requires Representable(f) && i < |f.rows.invocations|
    ensures InvocationStands(Print(f), f, i)
  {
    hide RowBegin, U32At, Print, Representable, InvocationsAt;
    TablesBegin(f);
    WordIn(f, 1, i, 0);
    WordIn(f, 1, i, 1);
    WordIn(f, 1, i, 2);
    WordIn(f, 1, i, 3);
    WordIn(f, 1, i, 4);
    WordIn(f, 1, i, 5);
  }

  lemma EventIn(f: Fragment, i: nat)
    requires Representable(f) && i < |f.rows.events|
    ensures EventStands(Print(f), f, i)
  {
    hide RowBegin, U32At, Print, Representable, EventsAt;
    TablesBegin(f);
    WordIn(f, 2, i, 0);
    WordIn(f, 2, i, 1);
    WordIn(f, 2, i, 2);
    WordIn(f, 2, i, 3);
    ByteIn(f, 2, i, 4);
    ColumnAt(2, 4);
    WordIn(f, 2, i, 5);
  }

  lemma SubmissionIn(f: Fragment, i: nat)
    requires Representable(f) && i < |f.rows.submissions|
    ensures SubmissionStands(Print(f), f, i)
  {
    hide RowBegin, U32At, Print, Representable, SubmissionsAt;
    TablesBegin(f);
    WordIn(f, 3, i, 0);
    WordIn(f, 3, i, 1);
    WordIn(f, 3, i, 2);
    WordIn(f, 3, i, 3);
    WordIn(f, 3, i, 4);
    WordIn(f, 3, i, 5);
  }

  lemma DrawIn(f: Fragment, i: nat)
    requires Representable(f) && i < |f.rows.draws|
    ensures DrawStands(Print(f), f, i)
  {
    hide RowBegin, U32At, Print, Representable, DrawsAt;
    TablesBegin(f);
    WordIn(f, 4, i, 0);
    WordIn(f, 4, i, 1);
    WordIn(f, 4, i, 2);
    ByteIn(f, 4, i, 3);
    ColumnAt(4, 3);
    WordIn(f, 4, i, 4);
  }

  lemma MembershipIn(f: Fragment, i: nat)
    requires Representable(f) && i < |f.rows.memberships|
    ensures MembershipStands(Print(f), f, i)
  {
    hide RowBegin, U32At, Print, Representable, MembershipsAt;
    TablesBegin(f);
    WordIn(f, 5, i, 0);
    WordIn(f, 5, i, 1);
  }

  // ---------- the header of a printed trace ----------

  lemma HeaderWordIn(f: Fragment, c: nat)
    requires Representable(f) && c < 23
    ensures |WordsOf(f.terminal)| == 23
    ensures 120 + 4 * c <= |Print(f)| && U32At(Print(f), 116 + 4 * c) == WordsOf(f.terminal)[c]
  {
    hide PackTables, Pack, WordsOf, U32At, U32Bytes, RowLength, AllFields, TablesFit;
    var h := HeaderFor(f);
    var body := PackTables(AllFields(f.siteCount, f.rows), f.terminal.retained);
    var front := MAGIC + (U32Bytes(VERSION) + (h.captureDomain + (h.runtimeConfigDigest + h.siteMapDigest)));
    PackedField(h.words, HEADER_WIDTHS, front, body, c);
    AllFours(HEADER_WIDTHS[..c]);
    assert front + Pack(h.words, HEADER_WIDTHS) + body == Print(f);
  }

  lemma FrontStands(f: Fragment)
    requires Representable(f)
    ensures |Print(f)| >= 208
    ensures Print(f)[..16] == MAGIC && U32At(Print(f), 16) == 2
    ensures Print(f)[20..52] == f.captureDomain && Print(f)[52..84] == f.runtimeConfigDigest
    ensures Print(f)[84..116] == f.siteMapDigest
  {
    hide PackTables, Pack, WordsOf, U32At, U32Bytes, RowLength, AllFields, TablesFit;
    var h := HeaderFor(f);
    HeaderLength(h);
    var body := PackTables(AllFields(f.siteCount, f.rows), f.terminal.retained);
    var behind := h.captureDomain + (h.runtimeConfigDigest + (h.siteMapDigest + (Pack(h.words, HEADER_WIDTHS) + body)));
    HeaderReassociates(h, body);
    assert Print(f) == MAGIC + U32Bytes(VERSION) + behind;
    U32RoundTrip(VERSION, MAGIC, behind);
  }

  lemma WordsSlice(data: seq<Byte>, at: nat, n: nat, i: nat, j: nat)
    requires at + 4 * n <= |data| && i <= j <= n
    ensures Words(data, at, n)[i..j] == Words(data, at + 4 * i, j - i)
  {
    forall k | 0 <= k < j - i ensures Words(data, at, n)[i..j][k] == Words(data, at + 4 * i, j - i)[k] {
      assert at + 4 * (i + k) == at + 4 * i + 4 * k;
    }
  }

  lemma HeaderWordsIn(f: Fragment)
    requires Representable(f) && |Print(f)| >= 208
    ensures Words(Print(f), 116, 23) == WordsOf(f.terminal)
  {
    hide Print, U32At, HeaderShape, TablesFit, WordsOf, Representable;
    HeaderWordIn(f, 0);
    forall c: nat | c < 23 ensures Words(Print(f), 116, 23)[c] == WordsOf(f.terminal)[c] {
      HeaderWordIn(f, c);
    }
  }

  lemma CodesStand(status: TerminalStatus, commit: CommitState)
    ensures StatusStands(StatusCode(status), status) && CommitStands(CommitCode(commit), commit)
  {
  }

  lemma TerminalIn(raw: seq<Byte>, t: Terminal)
    requires |t.failures| == |EXPECTED_STATUSES| && |t.discovered| == |t.retained| == TABLES
    requires |raw| >= 208 && Words(raw, 116, 23) == WordsOf(t)
    ensures U32At(raw, 116) == t.discoveredFrames && U32At(raw, 120) == t.retainedFrames
    ensures StatusStands(U32At(raw, 124), t.status) && CommitStands(U32At(raw, 128), t.commit)
    ensures Words(raw, 132, 7) == t.failures && Words(raw, 160, 6) == t.discovered && Words(raw, 184, 6) == t.retained
  {
    CodesStand(t.status, t.commit);
    hide U32At, StatusCode, CommitCode, StatusStands, CommitStands;
    var w, words := WordsOf(t), Words(raw, 116, 23);
    assert words[0] == w[0] && words[1] == w[1] && words[2] == w[2] && words[3] == w[3];
    hide Words;
    WordsSlice(raw, 116, 23, 4, 11);
    WordsSlice(raw, 116, 23, 11, 17);
    WordsSlice(raw, 116, 23, 17, 23);
    assert w[4..11] == t.failures && w[11..17] == t.discovered && w[17..23] == t.retained;
  }

  lemma MagicSpells(raw: seq<Byte>)
    requires |raw| >= 16 && raw[..16] == MAGIC
    ensures Spelled(raw)
  {
    assert forall i | 0 <= i < 16 :: raw[i] == raw[..16][i];
  }

  lemma HeaderIn(f: Fragment)
    requires Representable(f)
    ensures HeaderStands(Print(f), f)
  {
    FrontStands(f);
    HeaderWordsIn(f);
    assert TerminalShape(f);
    var raw := Print(f);
    hide Print, U32At, Representable, Words, WordsOf, TerminalShape, HeaderShape, TablesFit, StatusStands,
         CommitStands, Spelled;
    TerminalIn(raw, f.terminal);
    MagicSpells(raw);
  }

  lemma SizeIs(f: Fragment)
    requires Representable(f)
    ensures |Print(f)| == FileSize(f)
  {
    hide Print, Weighted, Representable, RowBegin;
    PrintLength(f);
    TablesBegin(f);
    CountsAreLengths(f);
    SizeIsEnd(f.terminal.retained);
  }

  lemma SizeIsEnd(counts: seq<nat>)
    requires |counts| == TABLES
    ensures ExpectedSize(counts) == RowBegin(counts, 5, counts[5])
  {
    hide Weighted;
    WeightedStep(counts, ROW_WIDTHS, 5);
    assert counts[..6] == counts && ROW_WIDTHS[..6] == ROW_WIDTHS;
  }

  // Every field of a printed trace, at its absolute offset.
  lemma EveryFieldStands(f: Fragment)
    requires Representable(f)
    ensures FileHolds(Print(f), f)
  {
    hide Print, Representable, HeaderStands, SiteStands, InvocationStands, EventStands, SubmissionStands, DrawStands,
         MembershipStands, FileSize;
    HeaderIn(f);
    SizeIs(f);
    forall i: nat | i < f.siteCount ensures SiteStands(Print(f), f, i) { SiteIn(f, i); }
    forall i: nat | i < |f.rows.invocations| ensures InvocationStands(Print(f), f, i) { InvocationIn(f, i); }
    forall i: nat | i < |f.rows.events| ensures EventStands(Print(f), f, i) { EventIn(f, i); }
    forall i: nat | i < |f.rows.submissions| ensures SubmissionStands(Print(f), f, i) { SubmissionIn(f, i); }
    forall i: nat | i < |f.rows.draws| ensures DrawStands(Print(f), f, i) { DrawIn(f, i); }
    forall i: nat | i < |f.rows.memberships| ensures MembershipStands(Print(f), f, i) { MembershipIn(f, i); }
  }

  // ---------- the bytes determine each other ----------

  ghost predicate SameBytes(a: seq<Byte>, b: seq<Byte>, lo: nat, hi: nat) {
    lo <= hi <= |a| == |b| && a[lo..hi] == b[lo..hi]
  }

  lemma SameJoin(a: seq<Byte>, b: seq<Byte>, lo: nat, mid: nat, hi: nat)
    requires SameBytes(a, b, lo, mid) && SameBytes(a, b, mid, hi)
    ensures SameBytes(a, b, lo, hi)
  {
    assert a[lo..hi] == a[lo..mid] + a[mid..hi] && b[lo..hi] == b[lo..mid] + b[mid..hi];
  }

  lemma SameWord(a: seq<Byte>, b: seq<Byte>, lo: nat, at: nat)
    requires |a| == |b| && at + 4 <= |a| && U32At(a, at) == U32At(b, at) && SameBytes(a, b, lo, at)
    ensures SameBytes(a, b, lo, at + 4)
  {
    hide U32At, U32Bytes;
    U32Unique(a, at);
    U32Unique(b, at);
    SameJoin(a, b, lo, at, at + 4);
  }

  lemma SameByte(a: seq<Byte>, b: seq<Byte>, lo: nat, at: nat)
    requires |a| == |b| && at < |a| && a[at] == b[at] && SameBytes(a, b, lo, at)
    ensures SameBytes(a, b, lo, at + 1)
  {
    assert a[at..at + 1] == [a[at]] && b[at..at + 1] == [b[at]];
    SameJoin(a, b, lo, at, at + 1);
  }

  lemma {:induction false} SameWords(a: seq<Byte>, b: seq<Byte>, lo: nat, at: nat, n: nat)
    requires |a| == |b| && at + 4 * n <= |a| && Words(a, at, n) == Words(b, at, n) && SameBytes(a, b, lo, at)
    ensures SameBytes(a, b, lo, at + 4 * n)
  {
    hide SameBytes, U32At;
    if n > 0 {
      var k: nat := n - 1;
      assert Words(a, at, k) == Words(a, at, n)[..k] && Words(b, at, k) == Words(b, at, n)[..k];
      assert Words(a, at, n)[k] == U32At(a, at + 4 * k) && Words(b, at, n)[k] == U32At(b, at + 4 * k);
      SameWords(a, b, lo, at, k);
      SameWord(a, b, lo, at + 4 * k);
    }
  }

  lemma SameHeader(a: seq<Byte>, b: seq<Byte>, f: Fragment)
    requires |a| == |b| && HeaderStands(a, f) && HeaderStands(b, f)
    ensures SameBytes(a, b, 0, 208)
  {
    assert a[0..0] == b[0..0];
    assert a[0..16] == b[0..16];
    SameWord(a, b, 0, 16);
    SameJoin(a, b, 0, 20, 52);
    SameJoin(a, b, 0, 52, 84);
    SameJoin(a, b, 0, 84, 116);
    hide U32At, SameBytes, Words, Spelled;
    SameWord(a, b, 0, 116);
    SameWord(a, b, 0, 120);
    SameWord(a, b, 0, 124);
    SameWord(a, b, 0, 128);
    SameWords(a, b, 0, 132, 7);
    SameWords(a, b, 0, 160, 6);
    SameWords(a, b, 0, 184, 6);
  }

  lemma {:induction false} SameSites(a: seq<Byte>, b: seq<Byte>, f: Fragment, n: nat)
    requires |a| == |b| && n <= f.siteCount && SameBytes(a, b, 0, 208)
    requires forall i: nat | i < n :: SiteStands(a, f, i) && SiteStands(b, f, i)
    ensures SameBytes(a, b, 0, 208 + 4 * n)
  {
    hide SameBytes, U32At;
    if n > 0 {
      var at := 208 + 4 * (n - 1);
      SameSites(a, b, f, n - 1);
      assert SiteStands(a, f, n - 1) && SiteStands(b, f, n - 1);
      SameWord(a, b, 0, at);
    }
  }

  // A row of six words.
  lemma SameSix(a: seq<Byte>, b: seq<Byte>, lo: nat, at: nat)
    requires |a| == |b| && at + 24 <= |a| && SameBytes(a, b, lo, at)
    requires U32At(a, at) == U32At(b, at) && U32At(a, at + 4) == U32At(b, at + 4)
    requires U32At(a, at + 8) == U32At(b, at + 8) && U32At(a, at + 12) == U32At(b, at + 12)
    requires U32At(a, at + 16) == U32At(b, at + 16) && U32At(a, at + 20) == U32At(b, at + 20)
    ensures SameBytes(a, b, lo, at + 24)
  {
    hide SameBytes, U32At;
    SameWord(a, b, lo, at);
    SameWord(a, b, lo, at + 4);
    SameWord(a, b, lo, at + 8);
    SameWord(a, b, lo, at + 12);
    SameWord(a, b, lo, at + 16);
    SameWord(a, b, lo, at + 20);
  }

  lemma {:induction false} SameInvocations(a: seq<Byte>, b: seq<Byte>, f: Fragment, n: nat)
    requires |a| == |b| && n <= |f.rows.invocations| && SameBytes(a, b, 0, InvocationsAt(f))
    requires forall i: nat | i < n :: InvocationStands(a, f, i) && InvocationStands(b, f, i)
    ensures SameBytes(a, b, 0, InvocationsAt(f) + 24 * n)
  {
    hide SameBytes, U32At, InvocationsAt;
    if n > 0 {
      SameInvocations(a, b, f, n - 1);
      assert InvocationStands(a, f, n - 1) && InvocationStands(b, f, n - 1);
      SameSix(a, b, 0, InvocationsAt(f) + 24 * (n - 1));
    }
  }

  lemma SameEvent(a: seq<Byte>, b: seq<Byte>, f: Fragment, i: nat)
    requires |a| == |b| && i < |f.rows.events| && SameBytes(a, b, 0, EventsAt(f) + 21 * i)
    requires EventStands(a, f, i) && EventStands(b, f, i)
    ensures SameBytes(a, b, 0, EventsAt(f) + 21 * i + 21)
  {
    hide SameBytes, U32At, EventsAt;
    var at := EventsAt(f) + 21 * i;
    SameWord(a, b, 0, at);
    SameWord(a, b, 0, at + 4);
    SameWord(a, b, 0, at + 8);
    SameWord(a, b, 0, at + 12);
    SameByte(a, b, 0, at + 16);
    SameWord(a, b, 0, at + 17);
  }

  lemma {:induction false} SameEvents(a: seq<Byte>, b: seq<Byte>, f: Fragment, n: nat)
    requires |a| == |b| && n <= |f.rows.events| && SameBytes(a, b, 0, EventsAt(f))
    requires forall i: nat | i < n :: EventStands(a, f, i) && EventStands(b, f, i)
    ensures SameBytes(a, b, 0, EventsAt(f) + 21 * n)
  {
    hide SameBytes, EventsAt, EventStands;
    if n > 0 {
      SameEvents(a, b, f, n - 1);
      SameEvent(a, b, f, n - 1);
    }
  }

  lemma {:induction false} SameSubmissions(a: seq<Byte>, b: seq<Byte>, f: Fragment, n: nat)
    requires |a| == |b| && n <= |f.rows.submissions| && SameBytes(a, b, 0, SubmissionsAt(f))
    requires forall i: nat | i < n :: SubmissionStands(a, f, i) && SubmissionStands(b, f, i)
    ensures SameBytes(a, b, 0, SubmissionsAt(f) + 24 * n)
  {
    hide SameBytes, U32At, SubmissionsAt;
    if n > 0 {
      SameSubmissions(a, b, f, n - 1);
      assert SubmissionStands(a, f, n - 1) && SubmissionStands(b, f, n - 1);
      SameSix(a, b, 0, SubmissionsAt(f) + 24 * (n - 1));
    }
  }

  lemma SameDraw(a: seq<Byte>, b: seq<Byte>, f: Fragment, i: nat)
    requires |a| == |b| && i < |f.rows.draws| && SameBytes(a, b, 0, DrawsAt(f) + 17 * i)
    requires DrawStands(a, f, i) && DrawStands(b, f, i)
    ensures SameBytes(a, b, 0, DrawsAt(f) + 17 * i + 17)
  {
    hide SameBytes, U32At, DrawsAt;
    var at := DrawsAt(f) + 17 * i;
    SameWord(a, b, 0, at);
    SameWord(a, b, 0, at + 4);
    SameWord(a, b, 0, at + 8);
    SameByte(a, b, 0, at + 12);
    SameWord(a, b, 0, at + 13);
  }

  lemma {:induction false} SameDraws(a: seq<Byte>, b: seq<Byte>, f: Fragment, n: nat)
    requires |a| == |b| && n <= |f.rows.draws| && SameBytes(a, b, 0, DrawsAt(f))
    requires forall i: nat | i < n :: DrawStands(a, f, i) && DrawStands(b, f, i)
    ensures SameBytes(a, b, 0, DrawsAt(f) + 17 * n)
  {
    hide SameBytes, DrawsAt, DrawStands;
    if n > 0 {
      SameDraws(a, b, f, n - 1);
      SameDraw(a, b, f, n - 1);
    }
  }

  lemma {:induction false} SameMemberships(a: seq<Byte>, b: seq<Byte>, f: Fragment, n: nat)
    requires |a| == |b| && n <= |f.rows.memberships| && SameBytes(a, b, 0, MembershipsAt(f))
    requires forall i: nat | i < n :: MembershipStands(a, f, i) && MembershipStands(b, f, i)
    ensures SameBytes(a, b, 0, MembershipsAt(f) + 8 * n)
  {
    hide SameBytes, U32At, MembershipsAt;
    if n > 0 {
      var at := MembershipsAt(f) + 8 * (n - 1);
      SameMemberships(a, b, f, n - 1);
      assert MembershipStands(a, f, n - 1) && MembershipStands(b, f, n - 1);
      SameWord(a, b, 0, at);
      SameWord(a, b, 0, at + 4);
    }
  }

  // Only one file holds a given trace.
  lemma FileIsUnique(a: seq<Byte>, b: seq<Byte>, f: Fragment)
    requires FileHolds(a, f) && FileHolds(b, f)
    ensures a == b
  {
    hide SameBytes, HeaderStands, SiteStands, InvocationStands, EventStands, SubmissionStands, DrawStands,
         MembershipStands;
    SameHeader(a, b, f);
    SameSites(a, b, f, f.siteCount);
    SameInvocations(a, b, f, |f.rows.invocations|);
    SameEvents(a, b, f, |f.rows.events|);
    SameSubmissions(a, b, f, |f.rows.submissions|);
    SameDraws(a, b, f, |f.rows.draws|);
    SameMemberships(a, b, f, |f.rows.memberships|);
    WholeSame(a, b);
  }

  lemma WholeSame(a: seq<Byte>, b: seq<Byte>)
    requires SameBytes(a, b, 0, |a|)
    ensures a == b
  {
    assert a[0..|a|] == a && b[0..|a|] == b;
  }
}
