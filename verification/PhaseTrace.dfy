// What a valid phase trace is on its own numbers, and which byte strings are accepted: both are
// stated without row layouts, tables, printers or the checks of the parser.
module PhaseTrace {
  import opened Bytes
  import opened Codecs
  import opened Fields
  import opened Sums
  import opened PhaseBytes
  import opened PhaseExact
  import opened PhaseFragment
  import opened PhaseTables
  import opened PhaseTemporal
  import opened PhaseTerminal

  predicate Word(x: nat) { x < 0x1_0000_0000 }

  ghost predicate Words32(s: seq<nat>) { forall i | 0 <= i < |s| :: Word(s[i]) }

  predicate DigestSet(d: seq<Byte>) { |d| == 32 && d != Zeros(32) }

  // The header counts the tables; nothing exceeds a word or a capacity, and nothing was discovered
  // less often than it was retained.
  ghost predicate CountsWithin(f: Fragment, limits: Limits) {
    var (t, r) := (f.terminal, f.rows);
    var (s, i, e, u, d, m) := (f.siteCount, |r.invocations|, |r.events|, |r.submissions|, |r.draws|, |r.memberships|);
    && t.retained == [s, i, e, u, d, m] && |t.discovered| == 6 && Words32(t.retained) && Words32(t.discovered)
    && s <= t.discovered[0] <= limits.sites && i <= t.discovered[1] <= limits.invocations
    && e <= t.discovered[2] <= limits.events && u <= t.discovered[3] <= limits.submissions
    && d <= t.discovered[4] <= limits.draws && m <= t.discovered[5] <= limits.edges
    && e == 2 * i
    && 65_536 + 256 * s + 1_024 * (i + e + u) + 768 * d + 512 * m <= limits.scratchBytes
    && s + 5 * (i + u + m) + 3 * (e + d) <= limits.lookupWork
    && FileSize(f) <= limits.fragmentBytes
  }

  // The commit state says whether the capture is complete, and the first counter that is not zero
  // says why not.
  ghost predicate StatusReported(f: Fragment, limits: Limits) {
    var (t, x) := (f.terminal, f.terminal.failures);
    && |x| == 7 && Words32(x) && x[0] + x[1] + x[2] + x[3] + x[4] + x[5] + x[6] <= limits.failureRecords
    && Word(t.discoveredFrames) && f.frameCount == t.retainedFrames <= t.discoveredFrames <= limits.frames
    && (t.commit == Committed <==> t.status == Complete)
    && (t.status == Complete || t.status == ProducerAborted <==> x == [0, 0, 0, 0, 0, 0, 0])
    && (t.status == TelemetryOverflow <==> x[0] > 0)
    && (t.status == TelemetryDropped <==> x[..1] == [0] && x[1] > 0)
    && (t.status == VmReset <==> x[..2] == [0, 0] && x[2] > 0)
    && (t.status == SavestateDiscontinuity <==> x[..3] == [0, 0, 0] && x[3] > 0)
    && (t.status == QueueExhausted <==> x[..4] == [0, 0, 0, 0] && x[4] > 0)
    && (t.status == OutputFailure <==> x[..5] == [0, 0, 0, 0, 0] && x[5] > 0)
    && (t.status == InternalFailure <==> x[..6] == [0, 0, 0, 0, 0, 0] && x[6] > 0)
    && (t.status == Complete ==>
          t.discovered == t.retained && t.discoveredFrames == f.frameCount && f.frameCount > 0)
  }

  predicate InvocationWithin(f: Fragment, i: nat)
    requires i < |f.rows.invocations|
  {
    var v := f.rows.invocations[i];
    1 <= v.site <= f.siteCount && v.parent <= i && 0 < v.enterEvent < v.exitEvent && Word(v.exitEvent)
  }

  predicate EventWithin(f: Fragment, i: nat)
    requires i < |f.rows.events|
  {
    var v := f.rows.events[i];
    && Word(v.sequence) && 1 <= v.frame <= f.frameCount && 1 <= v.invocation <= |f.rows.invocations|
    && v.sequence > if i == 0 then 0 else f.rows.events[i - 1].sequence
  }

  predicate SubmissionWithin(f: Fragment, i: nat)
    requires i < |f.rows.submissions|
  {
    var v := f.rows.submissions[i];
    && Word(v.sequence) && 1 <= v.frame <= f.frameCount && 1 <= v.invocation <= |f.rows.invocations|
    && Word(v.primitiveBegin) && Word(v.primitiveCount)
    && v.sequence > if i == 0 then 0 else f.rows.submissions[i - 1].sequence
  }

  predicate DrawWithin(f: Fragment, i: nat)
    requires i < |f.rows.draws|
  {
    var v := f.rows.draws[i];
    && Word(v.sequence) && 1 <= v.frame <= f.frameCount
    && v.sequence > if i == 0 then 0 else f.rows.draws[i - 1].sequence
  }

  predicate MembershipWithin(f: Fragment, i: nat)
    requires i < |f.rows.memberships|
  {
    var v := f.rows.memberships[i];
    1 <= v.submission <= |f.rows.submissions| && 1 <= v.draw <= |f.rows.draws|
  }

  ghost predicate RowsWithin(f: Fragment) {
    && (forall i: nat | i < |f.rows.invocations| :: InvocationWithin(f, i))
    && (forall i: nat | i < |f.rows.events| :: EventWithin(f, i))
    && (forall i: nat | i < |f.rows.submissions| :: SubmissionWithin(f, i))
    && (forall i: nat | i < |f.rows.draws| :: DrawWithin(f, i))
    && (forall i: nat | i < |f.rows.memberships| :: MembershipWithin(f, i))
  }

  // A valid trace: its digests, counts, status and rows, and one well-nested run in sequence order.
  ghost predicate TraceValid(f: Fragment, limits: Limits) {
    && DigestSet(f.captureDomain) && DigestSet(f.runtimeConfigDigest) && DigestSet(f.siteMapDigest)
    && CountsWithin(f, limits) && StatusReported(f, limits) && RowsWithin(f)
    && (RowsWithinChecked(f);
        && EventsNamed(f.rows) && SequencesCover(f.rows) && FramesFollow(f.rows)
        && (NamedIsInRange(f.rows); LifecyclesNest(f.rows, limits.nestingDepth))
        && RangesFollow(f.rows) && DrawsClaim(f.rows))
  }

  lemma DigestIsSet(d: seq<Byte>)
    ensures Digest(d) <==> DigestSet(d)
  {
    if |d| == 32 && d != Zeros(32) {
      assert !forall i | 0 <= i < 32 :: d[i] == Zeros(32)[i];
      var i :| 0 <= i < 32 && d[i] != Zeros(32)[i];
      assert d[i] != 0;
    }
  }

  lemma SumOfSeven(x: seq<nat>)
    requires |x| == 7
    ensures Sum(x) == x[0] + x[1] + x[2] + x[3] + x[4] + x[5] + x[6]
  {
    SumPrefix(x, 0);
    SumPrefix(x, 1);
    SumPrefix(x, 2);
    SumPrefix(x, 3);
    SumPrefix(x, 4);
    SumPrefix(x, 5);
    SumPrefix(x, 6);
    assert x[..7] == x;
  }

  lemma WeightedOfSix(c: seq<nat>, w: seq<nat>)
    requires |c| == |w| == 6
    ensures Weighted(c, w) == c[0] * w[0] + c[1] * w[1] + c[2] * w[2] + c[3] * w[3] + c[4] * w[4] + c[5] * w[5]
  {
    assert Weighted(c[..0], w[..0]) == 0;
    hide Weighted;
    WeightedStep(c, w, 0);
    WeightedStep(c, w, 1);
    WeightedStep(c, w, 2);
    WeightedStep(c, w, 3);
    WeightedStep(c, w, 4);
    WeightedStep(c, w, 5);
    assert c[..6] == c && w[..6] == w;
  }

  lemma CountsAreWithin(f: Fragment, limits: Limits)
    requires var r := f.rows;
      f.terminal.retained == [f.siteCount, |r.invocations|, |r.events|, |r.submissions|, |r.draws|, |r.memberships|]
    requires |f.terminal.discovered| == 6 && Words32(f.terminal.retained) && Words32(f.terminal.discovered)
    ensures CountsOk(f.terminal.retained, f.terminal.discovered, limits) <==> CountsWithin(f, limits)
  {
    hide Weighted, Words32;
    var c, d, caps := f.terminal.retained, f.terminal.discovered, Caps(limits);
    WeightedOfSix(c, [256, 1_024, 1_024, 1_024, 768, 512]);
    WeightedOfSix(c, ROW_WIDTHS);
    assert (forall k | 0 <= k < TABLES :: CountFits(c[k], d[k], caps[k])) <==>
      CountFits(c[0], d[0], caps[0]) && CountFits(c[1], d[1], caps[1]) && CountFits(c[2], d[2], caps[2])
      && CountFits(c[3], d[3], caps[3]) && CountFits(c[4], d[4], caps[4]) && CountFits(c[5], d[5], caps[5]);
  }

  lemma StatusIsReported(f: Fragment, limits: Limits)
    requires |f.terminal.failures| == 7 && Words32(f.terminal.failures) && Word(f.terminal.discoveredFrames)
    requires f.frameCount == f.terminal.retainedFrames
    ensures TerminalOk(f.terminal, limits) && !(f.terminal.status == Complete && f.frameCount == 0) <==>
            StatusReported(f, limits)
  {
    hide Words32, Sum, Precedence, NoFailures;
    var t, x := f.terminal, f.terminal.failures;
    SumOfSeven(x);
    FirstCounter(x, t.status);
  }

  // Which status the seven counters name.
  lemma FirstCounter(x: seq<nat>, status: TerminalStatus)
    requires |x| == 7
    ensures NoFailures(x) <==> x == [0, 0, 0, 0, 0, 0, 0]
    ensures Precedence(x, status) <==>
      || (status == TelemetryOverflow && x[0] > 0)
      || (status == TelemetryDropped && x[..1] == [0] && x[1] > 0)
      || (status == VmReset && x[..2] == [0, 0] && x[2] > 0)
      || (status == SavestateDiscontinuity && x[..3] == [0, 0, 0] && x[3] > 0)
      || (status == QueueExhausted && x[..4] == [0, 0, 0, 0] && x[4] > 0)
      || (status == OutputFailure && x[..5] == [0, 0, 0, 0, 0] && x[5] > 0)
      || (status == InternalFailure && x[..6] == [0, 0, 0, 0, 0, 0] && x[6] > 0)
  {
    hide Precedence;
    var first := FirstOf(x);
    PrecedenceIsFirst(x, first, status);
  }

  lemma FirstOf(x: seq<nat>) returns (first: nat)
    ensures first <= |x| && NoFailures(x[..first]) && (first < |x| ==> x[first] != 0)
  {
    first := 0;
    while first < |x| && x[first] == 0
      invariant first <= |x| && NoFailures(x[..first])
    {
      first := first + 1;
    }
  }

  // ---------- the rows of a valid trace ----------

  // A row of table k: its fields fit, and it meets the checks of its table.
  ghost predicate RowGood(f: Fragment, k: nat, i: nat)
    requires k < TABLES && i < |FieldsOf(f.siteCount, f.rows, k)| && |f.terminal.retained| == TABLES
  {
    var table := FieldsOf(f.siteCount, f.rows, k);
    RowFits(table[i], Widths(k)) && RowAt(k, f.terminal.retained, f.frameCount, table, i)
  }

  ghost predicate Counted(f: Fragment) {
    var (t, r) := (f.terminal.retained, f.rows);
    && t == [f.siteCount, |r.invocations|, |r.events|, |r.submissions|, |r.draws|, |r.memberships|] && Words32(t)
    && Word(f.frameCount)
  }

  lemma FitsSix(v: seq<nat>, w: seq<nat>)
    requires |v| == |w| == 6
    ensures RowFits(v, w) <==>
      && FieldFits(v[0], w[0]) && FieldFits(v[1], w[1]) && FieldFits(v[2], w[2]) && FieldFits(v[3], w[3])
      && FieldFits(v[4], w[4]) && FieldFits(v[5], w[5])
  {
    hide FieldFits;
  }

  lemma SiteGood(f: Fragment, i: nat)
    requires Counted(f) && i < f.siteCount
    ensures RowGood(f, 0, i)
  {
    assert Word(f.terminal.retained[0]);
  }

  lemma InvocationGood(f: Fragment, i: nat)
    requires Counted(f) && i < |f.rows.invocations|
    ensures RowGood(f, 1, i) <==> InvocationWithin(f, i)
  {
    assert Word(f.terminal.retained[0]) && Word(f.terminal.retained[1]);
    var table := FieldsOf(f.siteCount, f.rows, 1);
    FitsSix(table[i], Widths(1));
    hide RowFits, Words32;
  }

  lemma EventGood(f: Fragment, i: nat)
    requires Counted(f) && i < |f.rows.events|
    ensures RowGood(f, 2, i) <==> EventWithin(f, i)
  {
    assert Word(f.terminal.retained[1]) && Word(f.terminal.retained[2]);
    var table := FieldsOf(f.siteCount, f.rows, 2);
    FitsSix(table[i], Widths(2));
    hide RowFits, Words32;
  }

  lemma SubmissionGood(f: Fragment, i: nat)
    requires Counted(f) && i < |f.rows.submissions|
    ensures RowGood(f, 3, i) <==> SubmissionWithin(f, i)
  {
    assert Word(f.terminal.retained[1]) && Word(f.terminal.retained[3]);
    var table := FieldsOf(f.siteCount, f.rows, 3);
    FitsSix(table[i], Widths(3));
    hide RowFits, Words32;
  }

  lemma DrawGood(f: Fragment, i: nat)
    requires Counted(f) && i < |f.rows.draws|
    ensures RowGood(f, 4, i) <==> DrawWithin(f, i)
  {
    assert Word(f.terminal.retained[4]);
    hide Words32;
  }

  lemma MembershipGood(f: Fragment, i: nat)
    requires Counted(f) && i < |f.rows.memberships|
    ensures RowGood(f, 5, i) <==> MembershipWithin(f, i)
  {
    assert Word(f.terminal.retained[3]) && Word(f.terminal.retained[4]);
    hide Words32;
  }

  ghost predicate TableGood(f: Fragment, k: nat)
    requires k < TABLES && |f.terminal.retained| == TABLES
  {
    forall i: nat | i < |FieldsOf(f.siteCount, f.rows, k)| :: RowGood(f, k, i)
  }

  lemma TableGoodIs(f: Fragment, k: nat)
    requires k < TABLES && |f.terminal.retained| == TABLES
    ensures var table := FieldsOf(f.siteCount, f.rows, k);
      TableGood(f, k) <==> AllValid(RowsOfTable(k), table) && TableOk(k, f.terminal.retained, f.frameCount, table)
  {
    hide FieldsOf, Widths, RowFits, RowOk;
    var table := FieldsOf(f.siteCount, f.rows, k);
    if TableGood(f, k) {
      forall i | 0 <= i < |table| ensures RowsOfTable(k).valid(table[i]) { assert RowGood(f, k, i); }
      forall i: nat | i < |table| ensures RowAt(k, f.terminal.retained, f.frameCount, table, i) {
        assert RowGood(f, k, i);
      }
    }
    if AllValid(RowsOfTable(k), table) && TableOk(k, f.terminal.retained, f.frameCount, table) {
      forall i: nat | i < |table| ensures RowGood(f, k, i) { assert RowsOfTable(k).valid(table[i]); }
    }
  }

  lemma RowsAreWithin(f: Fragment)
    requires Counted(f)
    ensures (forall k: nat | k < TABLES :: TableGood(f, k)) <==> RowsWithin(f)
  {
    hide RowGood, InvocationWithin, EventWithin, SubmissionWithin, DrawWithin, MembershipWithin, Words32;
    forall i: nat | i < f.siteCount ensures RowGood(f, 0, i) { SiteGood(f, i); }
    forall i: nat | i < |f.rows.invocations| ensures RowGood(f, 1, i) <==> InvocationWithin(f, i) {
      InvocationGood(f, i);
    }
    forall i: nat | i < |f.rows.events| ensures RowGood(f, 2, i) <==> EventWithin(f, i) { EventGood(f, i); }
    forall i: nat | i < |f.rows.submissions| ensures RowGood(f, 3, i) <==> SubmissionWithin(f, i) {
      SubmissionGood(f, i);
    }
    forall i: nat | i < |f.rows.draws| ensures RowGood(f, 4, i) <==> DrawWithin(f, i) { DrawGood(f, i); }
    forall i: nat | i < |f.rows.memberships| ensures RowGood(f, 5, i) <==> MembershipWithin(f, i) {
      MembershipGood(f, i);
    }
    SixTables(f);
  }

  lemma SixTables(f: Fragment)
    requires |f.terminal.retained| == TABLES
    ensures (forall k: nat | k < TABLES :: TableGood(f, k)) <==>
      && (forall i: nat | i < f.siteCount :: RowGood(f, 0, i))
      && (forall i: nat | i < |f.rows.invocations| :: RowGood(f, 1, i))
      && (forall i: nat | i < |f.rows.events| :: RowGood(f, 2, i))
      && (forall i: nat | i < |f.rows.submissions| :: RowGood(f, 3, i))
      && (forall i: nat | i < |f.rows.draws| :: RowGood(f, 4, i))
      && (forall i: nat | i < |f.rows.memberships| :: RowGood(f, 5, i))
  {
    var n := |f.rows.invocations|;
    assert |FieldsOf(f.siteCount, f.rows, 0)| == f.siteCount && |FieldsOf(f.siteCount, f.rows, 1)| == n;
    assert |FieldsOf(f.siteCount, f.rows, 2)| == |f.rows.events|;
    assert |FieldsOf(f.siteCount, f.rows, 3)| == |f.rows.submissions|;
    assert |FieldsOf(f.siteCount, f.rows, 4)| == |f.rows.draws|;
    assert |FieldsOf(f.siteCount, f.rows, 5)| == |f.rows.memberships|;
    hide RowGood, FieldsOf;
    assert (forall k: nat | k < TABLES :: TableGood(f, k)) <==>
      TableGood(f, 0) && TableGood(f, 1) && TableGood(f, 2) && TableGood(f, 3) && TableGood(f, 4) && TableGood(f, 5);
  }

  // The header words fit exactly when each number does.
  lemma HeaderFits(f: Fragment)
    requires var t := f.terminal; |t.failures| == 7 && |t.discovered| == |t.retained| == 6
    ensures HeaderShape(HeaderFor(f)) <==>
      && DigestSet(f.captureDomain) && DigestSet(f.runtimeConfigDigest) && DigestSet(f.siteMapDigest)
      && Word(f.terminal.discoveredFrames) && Word(f.terminal.retainedFrames)
      && Words32(f.terminal.failures) && Words32(f.terminal.discovered) && Words32(f.terminal.retained)
  {
    DigestIsSet(f.captureDomain);
    DigestIsSet(f.runtimeConfigDigest);
    DigestIsSet(f.siteMapDigest);
    hide Digest, DigestSet, WordsOf, Words32, Word;
    TerminalFits(f.terminal);
    FitIsWords(WordsOf(f.terminal));
  }

  lemma TerminalFits(t: Terminal)
    requires |t.failures| == 7 && |t.discovered| == |t.retained| == 6
    ensures |WordsOf(t)| == 23
    ensures Words32(WordsOf(t)) <==>
      && Word(t.discoveredFrames) && Word(t.retainedFrames)
      && Words32(t.failures) && Words32(t.discovered) && Words32(t.retained)
  {
    var front := [t.discoveredFrames, t.retainedFrames, StatusCode(t.status), CommitCode(t.commit)];
    WordsJoin(front, t.failures);
    WordsJoin(front + t.failures, t.discovered);
    WordsJoin(front + t.failures + t.discovered, t.retained);
    FourWords(front);
  }

  lemma FitIsWords(w: seq<nat>)
    requires |w| == 23
    ensures RowFits(w, HEADER_WIDTHS) <==> Words32(w)
  {
    assert forall i | 0 <= i < 23 :: FieldFits(w[i], HEADER_WIDTHS[i]) <==> Word(w[i]);
  }

  lemma FourWords(w: seq<nat>)
    requires |w| == 4
    ensures Words32(w) <==> Word(w[0]) && Word(w[1]) && Word(w[2]) && Word(w[3])
  {
  }

  lemma WordsJoin(a: seq<nat>, b: seq<nat>)
    ensures Words32(a + b) <==> Words32(a) && Words32(b)
  {
    if Words32(a + b) {
      assert forall i | 0 <= i < |a| :: a[i] == (a + b)[i];
      assert forall i | 0 <= i < |b| :: b[i] == (a + b)[|a| + i];
    }
  }

  lemma TablesFitAre(f: Fragment)
    requires |f.terminal.retained| == TABLES
    ensures TablesFit(AllFields(f.siteCount, f.rows), f.terminal.retained)
            && TablesOk(f.terminal.retained, f.frameCount, AllFields(f.siteCount, f.rows)) <==>
      && (forall k: nat | k < TABLES :: f.terminal.retained[k] == |FieldsOf(f.siteCount, f.rows, k)|)
      && (forall k: nat | k < TABLES :: TableGood(f, k))
  {
    hide FieldsOf, TableGood, AllValid, TableOk, RowsOfTable;
    var tables := AllFields(f.siteCount, f.rows);
    forall k: nat | k < TABLES
      ensures TableGood(f, k) <==>
              AllValid(RowsOfTable(k), tables[k]) && TableOk(k, f.terminal.retained, f.frameCount, tables[k])
    {
      TableGoodIs(f, k);
    }
  }

  lemma LengthsAre(f: Fragment)
    requires |f.terminal.retained| == TABLES
    ensures (forall k: nat | k < TABLES :: f.terminal.retained[k] == |FieldsOf(f.siteCount, f.rows, k)|) <==>
      var r := f.rows;
      f.terminal.retained == [f.siteCount, |r.invocations|, |r.events|, |r.submissions|, |r.draws|, |r.memberships|]
  {
    var r, t := f.rows, f.terminal.retained;
    if forall k: nat | k < TABLES :: t[k] == |FieldsOf(f.siteCount, f.rows, k)| {
      assert t[0] == |FieldsOf(f.siteCount, r, 0)| && t[1] == |FieldsOf(f.siteCount, r, 1)|;
      assert t[2] == |FieldsOf(f.siteCount, r, 2)| && t[3] == |FieldsOf(f.siteCount, r, 3)|;
      assert t[4] == |FieldsOf(f.siteCount, r, 4)| && t[5] == |FieldsOf(f.siteCount, r, 5)|;
    }
  }

  lemma RowsWithinChecked(f: Fragment)
    requires RowsWithin(f)
    ensures TablesChecked(f.rows)
  {
    forall i | 0 <= i < |f.rows.invocations|
      ensures 0 < f.rows.invocations[i].enterEvent < f.rows.invocations[i].exitEvent
      ensures f.rows.invocations[i].parent <= i
    {
      assert InvocationWithin(f, i);
    }
    forall m | 0 <= m < |f.rows.memberships|
      ensures 0 < f.rows.memberships[m].submission <= |f.rows.submissions|
      ensures 0 < f.rows.memberships[m].draw <= |f.rows.draws|
    {
      assert MembershipWithin(f, m);
    }
    forall e | 0 <= e < |f.rows.events| ensures 0 < f.rows.events[e].invocation <= |f.rows.invocations| {
      assert EventWithin(f, e);
    }
    forall s | 0 <= s < |f.rows.submissions| ensures 0 < f.rows.submissions[s].invocation <= |f.rows.invocations| {
      assert SubmissionWithin(f, s);
    }
    forall e: nat, g: nat | e < g < |f.rows.events| ensures f.rows.events[e].sequence < f.rows.events[g].sequence {
      EventsIncrease(f, e, g);
    }
  }

  lemma {:induction false} EventsIncrease(f: Fragment, e: nat, g: nat)
    requires RowsWithin(f) && e < g < |f.rows.events|
    ensures f.rows.events[e].sequence < f.rows.events[g].sequence
    decreases g
  {
    assert EventWithin(f, g);
    if e + 1 < g { EventsIncrease(f, e, g - 1); }
  }

  // A trace is valid exactly when its own numbers say so.
  lemma ValidExactly(f: Fragment, limits: Limits)
    ensures FragmentValid(f, limits) <==> TraceValid(f, limits)
  {
    hide FieldsOf, TablesFit, TablesOk, HeaderShape, CountsOk, TerminalOk, CountsWithin, StatusReported, RowsWithin,
         DigestSet, Words32, TemporalValid, ReferencesInRange, SequencesCover, FramesFollow, LifecyclesNest,
         RangesFollow, DrawsClaim, TableGood, TablesChecked, HeaderFor, AllFields;
    ShapesAgree(f, limits);
    if TerminalShape(f) {
      HeaderFits(f);
      TablesFitAre(f);
      LengthsAre(f);
      ReportsAgree(f, limits);
    }
    NamedIsInRange(f.rows);
    if RowsWithin(f) { RowsWithinChecked(f); }
    if TablesChecked(f.rows) { TemporalExactly(f.rows, limits.nestingDepth); }
  }

  lemma ShapesAgree(f: Fragment, limits: Limits)
    ensures CountsWithin(f, limits) && StatusReported(f, limits) ==> TerminalShape(f) && Counted(f)
  {
  }

  lemma ReportsAgree(f: Fragment, limits: Limits)
    requires TerminalShape(f)
    ensures var (t, r) := (f.terminal, f.rows);
      && t.retained == [f.siteCount, |r.invocations|, |r.events|, |r.submissions|, |r.draws|, |r.memberships|]
      && Word(t.discoveredFrames) && Word(t.retainedFrames)
      && Words32(t.failures) && Words32(t.discovered) && Words32(t.retained) ==>
      && (CountsOk(t.retained, t.discovered, limits) <==> CountsWithin(f, limits))
      && (TerminalOk(t, limits) && !(t.status == Complete && f.frameCount == 0) <==> StatusReported(f, limits))
      && ((forall k: nat | k < TABLES :: TableGood(f, k)) <==> RowsWithin(f))
    ensures CountsWithin(f, limits) && StatusReported(f, limits) ==>
      && Word(f.terminal.discoveredFrames) && Word(f.terminal.retainedFrames) && Words32(f.terminal.failures)
      && Words32(f.terminal.discovered) && Words32(f.terminal.retained)
      && var (t, r) := (f.terminal, f.rows);
         t.retained == [f.siteCount, |r.invocations|, |r.events|, |r.submissions|, |r.draws|, |r.memberships|]
  {
    var t, r := f.terminal, f.rows;
    if && t.retained == [f.siteCount, |r.invocations|, |r.events|, |r.submissions|, |r.draws|, |r.memberships|]
       && Word(t.discoveredFrames) && Word(t.retainedFrames)
       && Words32(t.failures) && Words32(t.discovered) && Words32(t.retained)
    {
      CountsAreWithin(f, limits);
      StatusIsReported(f, limits);
      RowsAreWithin(f);
    }
  }

  // A byte string prints a valid trace exactly when it holds, field by field, a trace whose numbers are valid.
  lemma AcceptedExactly(raw: seq<Byte>, f: Fragment, limits: Limits)
    ensures FragmentValid(f, limits) && Print(f) == raw <==> TraceValid(f, limits) && FileHolds(raw, f)
  {
    ValidExactly(f, limits);
    hide FileHolds, TraceValid, Print;
    if FragmentValid(f, limits) {
      EveryFieldStands(f);
      if FileHolds(raw, f) { FileIsUnique(raw, Print(f), f); }
    }
  }
}
