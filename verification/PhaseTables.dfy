// The six tables of a phase fragment (tools/assemble_frontend_phase.py): row layouts, the rules
// each row must meet, and the typed rows they stand for.
module PhaseTables {
  import opened Bytes
  import opened Codecs
  import opened Fields
  import opened Options
  import opened PhaseTemporal
  import opened PhaseTerminal

  // Sites, invocations, events, submissions, draws, memberships.
  function Widths(k: nat): (w: seq<nat>)
    requires k < TABLES
    ensures w != []
  {
    match k
    case 0 => [4]
    case 1 => [4, 4, 4, 4, 4, 4]
    case 2 => [4, 4, 4, 4, 1, 4]
    case 3 => [4, 4, 4, 4, 4, 4]
    case 4 => [4, 4, 4, 1, 4]
    case _ => [4, 4]
  }

  // How a row of table k is read and printed.
  ghost function RowsOfTable(k: nat): Codec<seq<nat>>
    requires k < TABLES
  {
    Row(Widths(k))
  }

  lemma TableRowsLawful(k: nat)
    requires k < TABLES
    ensures Lawful(RowsOfTable(k))
  {
    RowLawful(Widths(k));
  }

  predicate Reference(value: nat, count: nat) { 0 < value <= count }

  predicate InFrames(frame: nat, frames: nat) { 0 < frame <= frames }

  // The checks on row i of table k; prior is the sequence number of the row before it.
  predicate RowOk(k: nat, counts: seq<nat>, frames: nat, i: nat, prior: nat, v: seq<nat>)
    requires k < TABLES && |counts| == TABLES && |v| == |Widths(k)|
  {
    match k
    case 0 => v[0] == i + 1
    case 1 => v[0] == i + 1 && Reference(v[1], counts[0]) && v[2] == 0 && v[3] <= i && 0 < v[4] < v[5]
    case 2 => && v[0] == i + 1 && prior < v[1] && InFrames(v[2], frames) && Reference(v[3], counts[1])
              && v[4] <= 1 && v[5] == 0
    case 3 => v[0] == i + 1 && prior < v[1] && InFrames(v[2], frames) && Reference(v[3], counts[1])
    case 4 => v[0] == i + 1 && prior < v[1] && InFrames(v[2], frames) && v[3] <= 1 && v[4] == 0
    case _ => Reference(v[0], counts[3]) && Reference(v[1], counts[4])
  }

  predicate Sequenced(k: nat) { 2 <= k <= 4 }

  // The sequence number a row leaves for its successor.
  function SequenceField(k: nat, v: seq<nat>): nat
    requires k < TABLES && |v| == |Widths(k)|
  {
    if Sequenced(k) then v[1] else 0
  }

  predicate RowAt(k: nat, counts: seq<nat>, frames: nat, table: seq<seq<nat>>, i: nat)
    requires k < TABLES && |counts| == TABLES && i < |table|
  {
    && |table[i]| == |Widths(k)|
    && if i == 0 then RowOk(k, counts, frames, i, 0, table[i])
       else
         var h := i - 1;
         |table[h]| == |Widths(k)| && RowOk(k, counts, frames, i, SequenceField(k, table[h]), table[i])
  }

  ghost predicate TableOk(k: nat, counts: seq<nat>, frames: nat, table: seq<seq<nat>>)
    requires k < TABLES && |counts| == TABLES
  {
    forall i: nat | i < |table| :: RowAt(k, counts, frames, table, i)
  }

  lemma TableOkPrefix(k: nat, counts: seq<nat>, frames: nat, table: seq<seq<nat>>, n: nat)
    requires k < TABLES && |counts| == TABLES && n <= |table| && TableOk(k, counts, frames, table)
    ensures TableOk(k, counts, frames, table[..n])
  {
    forall i: nat | i < n ensures RowAt(k, counts, frames, table[..n], i) {
      assert RowAt(k, counts, frames, table, i);
    }
  }

  lemma TableOkSnoc(k: nat, counts: seq<nat>, frames: nat, table: seq<seq<nat>>, v: seq<nat>, prior: nat)
    requires k < TABLES && |counts| == TABLES && TableOk(k, counts, frames, table) && |v| == |Widths(k)|
    requires table == [] ==> prior == 0
    requires table != [] ==> |table[|table| - 1]| == |v| && prior == SequenceField(k, table[|table| - 1])
    ensures TableOk(k, counts, frames, table + [v]) <==> RowOk(k, counts, frames, |table|, prior, v)
  {
    var next := table + [v];
    assert next[..|table|] == table;
    forall i: nat | i < |table| ensures RowAt(k, counts, frames, next, i) {
      assert RowAt(k, counts, frames, table, i);
    }
    assert RowAt(k, counts, frames, next, |table|) <==> RowOk(k, counts, frames, |table|, prior, v);
  }

  // The state of the row loop after i rows: the rows read, all of them checked.
  ghost predicate ReadSoFar(s: seq<Byte>, k: nat, counts: seq<nat>, frames: nat, table: seq<seq<nat>>, prior: nat,
      rest: seq<Byte>)
    requires k < TABLES && |counts| == TABLES
  {
    && TakeMany(RowsOfTable(k), s, |table|) == Some(Took(table, rest))
    && TableOk(k, counts, frames, table)
    && (table == [] ==> prior == 0)
    && (table != [] ==>
          var last := table[|table| - 1];
          |last| == |Widths(k)| && prior == SequenceField(k, last))
  }

  lemma NothingRead(s: seq<Byte>, k: nat, counts: seq<nat>, frames: nat)
    requires k < TABLES && |counts| == TABLES
    ensures ReadSoFar(s, k, counts, frames, [], 0, s)
  {
  }

  lemma RowMissing(s: seq<Byte>, k: nat, count: nat, counts: seq<nat>, frames: nat, table: seq<seq<nat>>, prior: nat,
      rest: seq<Byte>)
    requires k < TABLES && |counts| == TABLES && ReadSoFar(s, k, counts, frames, table, prior, rest)
    requires |table| < count && TakeFields(rest, Widths(k)).None?
    ensures TakeMany(RowsOfTable(k), s, count).None?
  {
    hide TableOk, TakeFields;
    TakeManyStops(RowsOfTable(k), s, |table| + 1, count);
  }

  lemma RowRead(s: seq<Byte>, k: nat, count: nat, counts: seq<nat>, frames: nat, table: seq<seq<nat>>, prior: nat,
      rest: seq<Byte>, v: seq<nat>, after: seq<Byte>)
    requires k < TABLES && |counts| == TABLES && ReadSoFar(s, k, counts, frames, table, prior, rest)
    requires |table| < count && TakeFields(rest, Widths(k)) == Some(Took(v, after))
    ensures |v| == |Widths(k)|
    ensures RowOk(k, counts, frames, |table|, prior, v) ==>
      ReadSoFar(s, k, counts, frames, table + [v], SequenceField(k, v), after)
    ensures !RowOk(k, counts, frames, |table|, prior, v) ==>
      var t := TakeMany(RowsOfTable(k), s, count); t.Some? ==> !TableOk(k, counts, frames, t.value.value)
  {
    hide RowOk, TableOk, TakeFields, Widths, Pack;
    RowTaken(rest, Widths(k), v, after);
    TableOkSnoc(k, counts, frames, table, v, prior);
    if !RowOk(k, counts, frames, |table|, prior, v) {
      RejectedPrefix(s, k, count, counts, frames, table + [v]);
    }
  }

  // The row loops of the parser: read the fields of a row, check them, keep the row.
  method ReadTable(reader: Reader, k: nat, count: nat, counts: seq<nat>, frames: nat)
      returns (r: Option<seq<seq<nat>>>)
    requires reader.Valid() && k < TABLES && |counts| == TABLES
    modifies reader`offset
    ensures reader.Valid()
    ensures var t := TakeMany(RowsOfTable(k), old(reader.Rest()), count);
      && r == (if t.Some? && TableOk(k, counts, frames, t.value.value) then Some(t.value.value) else None)
      && (r.Some? ==> reader.Rest() == t.value.rest)
  {
    hide RowOk, TableOk, TakeFields, ReadSoFar, TakeMany, RowsOfTable, Widths;
    ghost var s := reader.Rest();
    var table: seq<seq<nat>>, prior: nat := [], 0;
    NothingRead(s, k, counts, frames);
    for i := 0 to count
      invariant reader.Valid() && |table| == i
      invariant ReadSoFar(s, k, counts, frames, table, prior, reader.Rest())
    {
      ghost var front := reader.Rest();
      var row := reader.Row(Widths(k));
      if row.None? {
        RowMissing(s, k, count, counts, frames, table, prior, front);
        return None;
      }
      RowRead(s, k, count, counts, frames, table, prior, front, row.value, reader.Rest());
      if !RowOk(k, counts, frames, i, prior, row.value) { return None; }
      table, prior := table + [row.value], SequenceField(k, row.value);
    }
    AllRead(s, k, counts, frames, table, prior, reader.Rest());
    r := Some(table);
  }

  lemma AllRead(s: seq<Byte>, k: nat, counts: seq<nat>, frames: nat, table: seq<seq<nat>>, prior: nat, rest: seq<Byte>)
    requires k < TABLES && |counts| == TABLES && ReadSoFar(s, k, counts, frames, table, prior, rest)
    ensures TakeMany(RowsOfTable(k), s, |table|) == Some(Took(table, rest)) && TableOk(k, counts, frames, table)
  {
  }

  lemma RejectedPrefix(s: seq<Byte>, k: nat, count: nat, counts: seq<nat>, frames: nat, table: seq<seq<nat>>)
    requires k < TABLES && |counts| == TABLES && |table| <= count
    requires TakeMany(RowsOfTable(k), s, |table|).Some? && TakeMany(RowsOfTable(k), s, |table|).value.value == table
    requires !TableOk(k, counts, frames, table)
    ensures var t := TakeMany(RowsOfTable(k), s, count); t.Some? ==> !TableOk(k, counts, frames, t.value.value)
  {
    hide TableOk;
    var t := TakeMany(RowsOfTable(k), s, count);
    if t.Some? && TableOk(k, counts, frames, t.value.value) {
      TakeManyPrefix(RowsOfTable(k), s, |table|, count);
      TableOkPrefix(k, counts, frames, t.value.value, |table|);
    }
  }

  // ---------- typed rows ----------

  function KindCode(kind: EventKind): nat { if kind == EnterKind then 0 else 1 }

  function DispositionCode(disposition: DrawDisposition): nat { if disposition == Submitted then 0 else 1 }

  // The fields of table k: ordinals are dense, lanes and reserved fields are zero.
  function FieldsOf(siteCount: nat, rows: Rows, k: nat): seq<seq<nat>>
    requires k < TABLES
  {
    match k
    case 0 => seq(siteCount, i requires i >= 0 => [i + 1])
    case 1 => seq(|rows.invocations|, i requires 0 <= i < |rows.invocations| =>
                    var v := rows.invocations[i]; [i + 1, v.site, 0, v.parent, v.enterEvent, v.exitEvent])
    case 2 => seq(|rows.events|, i requires 0 <= i < |rows.events| =>
                    var v := rows.events[i]; [i + 1, v.sequence, v.frame, v.invocation, KindCode(v.kind), 0])
    case 3 => seq(|rows.submissions|, i requires 0 <= i < |rows.submissions| =>
                    var v := rows.submissions[i];
                    [i + 1, v.sequence, v.frame, v.invocation, v.primitiveBegin, v.primitiveCount])
    case 4 => seq(|rows.draws|, i requires 0 <= i < |rows.draws| =>
                    var v := rows.draws[i]; [i + 1, v.sequence, v.frame, DispositionCode(v.disposition), 0])
    case _ => seq(|rows.memberships|, i requires 0 <= i < |rows.memberships| =>
                    [rows.memberships[i].submission, rows.memberships[i].draw])
  }

  ghost predicate Shaped(tables: seq<seq<seq<nat>>>) {
    |tables| == TABLES && forall k: nat | k < TABLES :: WellShaped(tables[k], k)
  }

  predicate WellShaped(table: seq<seq<nat>>, k: nat)
    requires k < TABLES
  {
    forall i | 0 <= i < |table| :: |table[i]| == |Widths(k)|
  }

  function RowsOf(tables: seq<seq<seq<nat>>>): Rows
    requires Shaped(tables)
  {
    var (inv, ev, sub, dr, mem) := (tables[1], tables[2], tables[3], tables[4], tables[5]);
    Rows(seq(|inv|, i requires 0 <= i < |inv| => InvocationRow(inv[i][1], inv[i][3], inv[i][4], inv[i][5])),
         seq(|ev|, i requires 0 <= i < |ev| =>
           EventRow(ev[i][1], ev[i][2], ev[i][3], if ev[i][4] == 0 then EnterKind else ExitKind)),
         seq(|sub|, i requires 0 <= i < |sub| =>
           SubmissionRow(sub[i][1], sub[i][2], sub[i][3], sub[i][4], sub[i][5])),
         seq(|dr|, i requires 0 <= i < |dr| =>
           DrawRow(dr[i][1], dr[i][2], if dr[i][3] == 0 then Submitted else Skipped)),
         seq(|mem|, i requires 0 <= i < |mem| => MembershipRow(mem[i][0], mem[i][1])))
  }

  // The fields the typed rows do not carry are those the row checks fix.
  predicate FixedFields(k: nat, i: nat, v: seq<nat>)
    requires k < TABLES && |v| == |Widths(k)|
  {
    match k
    case 0 => v[0] == i + 1
    case 1 => v[0] == i + 1 && v[2] == 0
    case 2 => v[0] == i + 1 && v[4] <= 1 && v[5] == 0
    case 3 => v[0] == i + 1
    case 4 => v[0] == i + 1 && v[3] <= 1 && v[4] == 0
    case _ => true
  }

  lemma FieldCount(tables: seq<seq<seq<nat>>>, k: nat)
    requires Shaped(tables) && k < TABLES
    ensures |FieldsOf(|tables[0]|, RowsOf(tables), k)| == |tables[k]|
  {
  }

  lemma FieldsOfRow(tables: seq<seq<seq<nat>>>, k: nat, i: nat)
    requires Shaped(tables) && k < TABLES && i < |tables[k]|
    requires WellShaped(tables[k], k) && FixedFields(k, i, tables[k][i])
    ensures |FieldsOf(|tables[0]|, RowsOf(tables), k)| == |tables[k]|
    ensures FieldsOf(|tables[0]|, RowsOf(tables), k)[i] == tables[k][i]
  {
    var (f, v) := (FieldsOf(|tables[0]|, RowsOf(tables), k), tables[k][i]);
    match k {
      case 0 => assert f[i] == [v[0]];
      case 1 => assert f[i] == [v[0], v[1], v[2], v[3], v[4], v[5]];
      case 2 => assert f[i] == [v[0], v[1], v[2], v[3], v[4], v[5]];
      case 3 => assert f[i] == [v[0], v[1], v[2], v[3], v[4], v[5]];
      case 4 => assert f[i] == [v[0], v[1], v[2], v[3], v[4]];
      case _ => assert f[i] == [v[0], v[1]];
    }
  }

  // Typed rows and accepted tables determine each other.
  lemma FieldsOfRowsOf(tables: seq<seq<seq<nat>>>, counts: seq<nat>, frames: nat, k: nat)
    requires Shaped(tables) && |counts| == TABLES && k < TABLES && TableOk(k, counts, frames, tables[k])
    ensures FieldsOf(|tables[0]|, RowsOf(tables), k) == tables[k]
  {
    hide FieldsOf, RowsOf;
    var f := FieldsOf(|tables[0]|, RowsOf(tables), k);
    assert WellShaped(tables[k], k);
    FieldCount(tables, k);
    forall i: nat | i < |tables[k]| ensures f[i] == tables[k][i] {
      assert RowAt(k, counts, frames, tables[k], i);
      FieldsOfRow(tables, k, i);
    }
  }

  function AllFields(siteCount: nat, rows: Rows): (tables: seq<seq<seq<nat>>>)
    ensures Shaped(tables) && forall k: nat | k < TABLES :: tables[k] == FieldsOf(siteCount, rows, k)
  {
    [FieldsOf(siteCount, rows, 0), FieldsOf(siteCount, rows, 1), FieldsOf(siteCount, rows, 2),
     FieldsOf(siteCount, rows, 3), FieldsOf(siteCount, rows, 4), FieldsOf(siteCount, rows, 5)]
  }

  lemma RowsOfFieldsOf(siteCount: nat, rows: Rows)
    ensures RowsOf(AllFields(siteCount, rows)) == rows
  {
    var back := RowsOf(AllFields(siteCount, rows));
    assert back.invocations == rows.invocations;
    assert back.events == rows.events;
    assert back.submissions == rows.submissions;
    assert back.draws == rows.draws;
    assert back.memberships == rows.memberships;
  }

  // What the temporal model needs of the tables.
  lemma TablesAreChecked(tables: seq<seq<seq<nat>>>, counts: seq<nat>, frames: nat)
    requires Shaped(tables) && |counts| == TABLES
    requires forall k: nat | k < TABLES :: |tables[k]| == counts[k] && TableOk(k, counts, frames, tables[k])
    ensures TablesChecked(RowsOf(tables))
  {
    var rows := RowsOf(tables);
    forall i: nat | i < |rows.invocations|
      ensures 0 < rows.invocations[i].enterEvent < rows.invocations[i].exitEvent && rows.invocations[i].parent <= i
    {
      assert RowAt(1, counts, frames, tables[1], i);
    }
    forall e: nat | e < |rows.events| ensures 0 < rows.events[e].invocation <= |rows.invocations| {
      assert RowAt(2, counts, frames, tables[2], e);
    }
    forall e: nat, f: nat | e < f < |rows.events| ensures rows.events[e].sequence < rows.events[f].sequence {
      SequencesIncrease(2, counts, frames, tables[2], e, f);
    }
    forall s: nat | s < |rows.submissions| ensures 0 < rows.submissions[s].invocation <= |rows.invocations| {
      assert RowAt(3, counts, frames, tables[3], s);
    }
    forall m: nat | m < |rows.memberships|
      ensures 0 < rows.memberships[m].submission <= |rows.submissions|
      ensures 0 < rows.memberships[m].draw <= |rows.draws|
    {
      assert RowAt(5, counts, frames, tables[5], m);
    }
  }

  // Every frame of an accepted table is within the retained frames, so the last frame check of
  // the temporal model, on draws, can never fire.
  lemma FramesAreRetained(tables: seq<seq<seq<nat>>>, counts: seq<nat>, frames: nat)
    requires Shaped(tables) && |counts| == TABLES
    requires forall k: nat | k < TABLES :: TableOk(k, counts, frames, tables[k])
    ensures forall e | 0 <= e < |RowsOf(tables).events| :: InFrames(RowsOf(tables).events[e].frame, frames)
    ensures forall s | 0 <= s < |RowsOf(tables).submissions| :: InFrames(RowsOf(tables).submissions[s].frame, frames)
    ensures forall d | 0 <= d < |RowsOf(tables).draws| :: InFrames(RowsOf(tables).draws[d].frame, frames)
  {
    forall e: nat | e < |tables[2]| ensures InFrames(RowsOf(tables).events[e].frame, frames) {
      assert RowAt(2, counts, frames, tables[2], e);
    }
    forall s: nat | s < |tables[3]| ensures InFrames(RowsOf(tables).submissions[s].frame, frames) {
      assert RowAt(3, counts, frames, tables[3], s);
    }
    forall d: nat | d < |tables[4]| ensures InFrames(RowsOf(tables).draws[d].frame, frames) {
      assert RowAt(4, counts, frames, tables[4], d);
    }
  }

  lemma {:induction false} SequencesIncrease(k: nat, counts: seq<nat>, frames: nat, table: seq<seq<nat>>,
                                             i: nat, j: nat)
    requires k < TABLES && Sequenced(k) && |counts| == TABLES && TableOk(k, counts, frames, table)
    requires i < j < |table| && WellShaped(table, k)
    ensures table[i][1] < table[j][1]
    decreases j
  {
    assert RowAt(k, counts, frames, table, j);
    if i + 1 < j {
      SequencesIncrease(k, counts, frames, table, i, j - 1);
    }
  }
}
