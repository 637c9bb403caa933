// The temporal model of tools/assemble_frontend_phase.py: one merged timeline of events,
// submissions and draws, the lifecycle stack over it, primitive ranges and memberships.
module PhaseTemporal {
  import opened Cardinality
  import opened Options
  import opened Sums
  import opened PhaseTimeline

  // Rows carry dense one-based ordinals in the source; here a row's ordinal is its position plus one.
  datatype InvocationRow = InvocationRow(site: nat, parent: nat, enterEvent: nat, exitEvent: nat)
  datatype EventKind = EnterKind | ExitKind
  datatype EventRow = EventRow(sequence: nat, frame: nat, invocation: nat, kind: EventKind)
  datatype SubmissionRow = SubmissionRow(sequence: nat, frame: nat, invocation: nat,
                                         primitiveBegin: nat, primitiveCount: nat)
  datatype DrawDisposition = Submitted | Skipped
  datatype DrawRow = DrawRow(sequence: nat, frame: nat, disposition: DrawDisposition)
  datatype MembershipRow = MembershipRow(submission: nat, draw: nat)

  datatype Rows = Rows(invocations: seq<InvocationRow>, events: seq<EventRow>, submissions: seq<SubmissionRow>,
                       draws: seq<DrawRow>, memberships: seq<MembershipRow>)

  const PRIMITIVE_LIMIT := 0x1_0000_0000

  // What the table loops of the parser establish before the temporal model runs.
  ghost predicate TablesChecked(rows: Rows) {
    && (forall i | 0 <= i < |rows.invocations| ::
          0 < rows.invocations[i].enterEvent < rows.invocations[i].exitEvent && rows.invocations[i].parent <= i)
    && (forall e, f | 0 <= e < f < |rows.events| :: rows.events[e].sequence < rows.events[f].sequence)
    && (forall e | 0 <= e < |rows.events| :: 0 < rows.events[e].invocation <= |rows.invocations|)
    && (forall s | 0 <= s < |rows.submissions| :: 0 < rows.submissions[s].invocation <= |rows.invocations|)
    && (forall m | 0 <= m < |rows.memberships| ::
          && 0 < rows.memberships[m].submission <= |rows.submissions|
          && 0 < rows.memberships[m].draw <= |rows.draws|)
  }

  // ---------- the merged timeline ----------

  datatype Mark = EventMark(e: nat) | SubmissionMark(s: nat) | DrawMark(d: nat)

  function Total(rows: Rows): nat { |rows.events| + |rows.submissions| + |rows.draws| }

  predicate ValidMark(rows: Rows, mark: Mark) {
    match mark
    case EventMark(e) => e < |rows.events|
    case SubmissionMark(s) => s < |rows.submissions|
    case DrawMark(d) => d < |rows.draws|
  }

  // The k-th retained mark: events, then submissions, then draws.
  function MarkAt(rows: Rows, k: nat): (mark: Mark)
    requires k < Total(rows)
    ensures ValidMark(rows, mark)
  {
    var e, s := |rows.events|, |rows.submissions|;
    if k < e then EventMark(k) else if k < e + s then SubmissionMark(k - e) else DrawMark(k - e - s)
  }

  function RankOf(rows: Rows, mark: Mark): (k: nat)
    requires ValidMark(rows, mark)
    ensures k < Total(rows) && MarkAt(rows, k) == mark
  {
    match mark
    case EventMark(e) => e
    case SubmissionMark(s) => |rows.events| + s
    case DrawMark(d) => |rows.events| + |rows.submissions| + d
  }

  function SequenceOf(rows: Rows, mark: Mark): nat
    requires ValidMark(rows, mark)
  {
    match mark
    case EventMark(e) => rows.events[e].sequence
    case SubmissionMark(s) => rows.submissions[s].sequence
    case DrawMark(d) => rows.draws[d].sequence
  }

  function FrameOf(rows: Rows, mark: Mark): nat
    requires ValidMark(rows, mark)
  {
    match mark
    case EventMark(e) => rows.events[e].frame
    case SubmissionMark(s) => rows.submissions[s].frame
    case DrawMark(d) => rows.draws[d].frame
  }

  // Sequence numbers are 1..n, each used once.
  ghost predicate SequencesPermute(rows: Rows) {
    && (forall k | 0 <= k < Total(rows) :: 1 <= SequenceOf(rows, MarkAt(rows, k)) <= Total(rows))
    && (forall j, k | 0 <= j < k < Total(rows) ::
          SequenceOf(rows, MarkAt(rows, j)) != SequenceOf(rows, MarkAt(rows, k)))
  }

  // The timeline lists at position p the row whose sequence number is p + 1.
  ghost predicate IsTimeline(timeline: seq<Mark>, rows: Rows) {
    && |timeline| == Total(rows)
    && (forall p | 0 <= p < |timeline| :: ValidMark(rows, timeline[p]) && SequenceOf(rows, timeline[p]) == p + 1)
    && (forall k | 0 <= k < Total(rows) ::
          var q := SequenceOf(rows, MarkAt(rows, k));
          1 <= q <= |timeline| && timeline[q - 1] == MarkAt(rows, k))
  }

  lemma TimelineIsUnique(a: seq<Mark>, b: seq<Mark>, rows: Rows)
    requires IsTimeline(a, rows) && IsTimeline(b, rows)
    ensures a == b
  {
    forall p | 0 <= p < |a| ensures a[p] == b[p] {
      var k := RankOf(rows, a[p]);
      assert MarkAt(rows, k) == a[p];
    }
  }

  lemma TimelinePermutes(timeline: seq<Mark>, rows: Rows)
    requires IsTimeline(timeline, rows)
    ensures SequencesPermute(rows)
  {
    forall j, k | 0 <= j < k < Total(rows)
      ensures SequenceOf(rows, MarkAt(rows, j)) != SequenceOf(rows, MarkAt(rows, k))
    {
      assert MarkAt(rows, j) != MarkAt(rows, k);
    }
  }

  // ---------- retaining the marks ----------

  // After k marks: each is in its slot, and every filled slot holds one of them.
  ghost predicate Retained(temporal: seq<Option<Mark>>, rows: Rows, k: nat)
    requires k <= Total(rows)
  {
    && |temporal| == Total(rows)
    && (forall j | 0 <= j < k :: InItsSlot(temporal, rows, MarkAt(rows, j)))
    && (forall p | 0 <= p < |temporal| && temporal[p].Some? :: HoldsMark(rows, temporal[p].value, p, k))
    && |Filled(temporal)| == k
  }

  ghost predicate InItsSlot(temporal: seq<Option<Mark>>, rows: Rows, mark: Mark)
    requires ValidMark(rows, mark)
  {
    var q := SequenceOf(rows, mark);
    1 <= q <= |temporal| && temporal[q - 1] == Some(mark)
  }

  ghost predicate HoldsMark(rows: Rows, mark: Mark, p: nat, k: nat) {
    ValidMark(rows, mark) && SequenceOf(rows, mark) == p + 1 && RankOf(rows, mark) < k
  }

  ghost function Filled(temporal: seq<Option<Mark>>): set<nat> {
    set p: nat | p < |temporal| && temporal[p].Some?
  }

  // As many marks as slots and no clash leaves no gap, so the gap check cannot fire.
  lemma NoGapLeft(temporal: seq<Option<Mark>>, rows: Rows)
    requires Retained(temporal, rows, Total(rows))
    ensures forall p | 0 <= p < |temporal| :: temporal[p].Some?
  {
    SubsetFills(Filled(temporal), Below(|temporal|));
    forall p: nat | p < |temporal| ensures temporal[p].Some? {
      assert p in Below(|temporal|);
      assert p in Filled(temporal);
    }
  }

  function Values(temporal: seq<Option<Mark>>): seq<Mark>
    requires forall p | 0 <= p < |temporal| :: temporal[p].Some?
  {
    seq(|temporal|, p requires 0 <= p < |temporal| => temporal[p].value)
  }

  lemma SlotsAreTimeline(temporal: seq<Option<Mark>>, rows: Rows)
    requires Retained(temporal, rows, Total(rows))
    requires forall p | 0 <= p < |temporal| :: temporal[p].Some?
    ensures IsTimeline(Values(temporal), rows)
  {
    var timeline := Values(temporal);
    forall p | 0 <= p < |timeline| ensures ValidMark(rows, timeline[p]) && SequenceOf(rows, timeline[p]) == p + 1 {
      assert HoldsMark(rows, temporal[p].value, p, Total(rows));
    }
    forall k | 0 <= k < Total(rows)
      ensures var q := SequenceOf(rows, MarkAt(rows, k));
              1 <= q <= |timeline| && timeline[q - 1] == MarkAt(rows, k)
    {
      assert InItsSlot(temporal, rows, MarkAt(rows, k));
    }
  }

  lemma RetainStep(temporal: seq<Option<Mark>>, rows: Rows, k: nat)
    requires k < Total(rows) && Retained(temporal, rows, k)
    requires var q := SequenceOf(rows, MarkAt(rows, k)); 1 <= q <= Total(rows) && temporal[q - 1].None?
    ensures Retained(temporal[SequenceOf(rows, MarkAt(rows, k)) - 1 := Some(MarkAt(rows, k))], rows, k + 1)
  {
    hide Total, MarkAt, SequenceOf, RankOf, ValidMark, InItsSlot, HoldsMark, Filled;
    var mark := MarkAt(rows, k);
    var slot := SequenceOf(rows, mark) - 1;
    var next := temporal[slot := Some(mark)];
    FilledGrows(temporal, slot, mark);
    RankOfMark(rows, k);
    forall j | 0 <= j < k + 1 ensures InItsSlot(next, rows, MarkAt(rows, j)) {
      SlotKept(temporal, rows, slot, mark, MarkAt(rows, j));
    }
    forall p | 0 <= p < |next| && next[p].Some? ensures HoldsMark(rows, next[p].value, p, k + 1) {
      MarkHeld(rows, next[p].value, p, k);
    }
  }

  lemma FilledGrows(temporal: seq<Option<Mark>>, slot: nat, mark: Mark)
    requires slot < |temporal| && temporal[slot].None?
    ensures |Filled(temporal[slot := Some(mark)])| == |Filled(temporal)| + 1
  {
    assert Filled(temporal[slot := Some(mark)]) == Filled(temporal) + {slot};
  }

  lemma RankOfMark(rows: Rows, k: nat)
    requires k < Total(rows)
    ensures ValidMark(rows, MarkAt(rows, k)) && RankOf(rows, MarkAt(rows, k)) == k
  {
  }

  // A free slot is taken by its own mark, and the marks already in their slots stay there.
  lemma SlotKept(temporal: seq<Option<Mark>>, rows: Rows, slot: nat, mark: Mark, other: Mark)
    requires slot < |temporal| && temporal[slot].None? && ValidMark(rows, mark) && ValidMark(rows, other)
    requires SequenceOf(rows, mark) == slot + 1 && (other == mark || InItsSlot(temporal, rows, other))
    ensures InItsSlot(temporal[slot := Some(mark)], rows, other)
  {
  }

  lemma MarkHeld(rows: Rows, mark: Mark, p: nat, k: nat)
    requires || HoldsMark(rows, mark, p, k)
             || (ValidMark(rows, mark) && SequenceOf(rows, mark) == p + 1 && RankOf(rows, mark) == k)
    ensures HoldsMark(rows, mark, p, k + 1)
  {
  }

  lemma RetainRejects(temporal: seq<Option<Mark>>, rows: Rows, k: nat)
    requires k < Total(rows) && Retained(temporal, rows, k)
    requires var q := SequenceOf(rows, MarkAt(rows, k)); q < 1 || q > Total(rows) || temporal[q - 1].Some?
    ensures !SequencesPermute(rows)
  {
    var q := SequenceOf(rows, MarkAt(rows, k));
    if 1 <= q <= Total(rows) {
      assert HoldsMark(rows, temporal[q - 1].value, q - 1, k);
      var j := RankOf(rows, temporal[q - 1].value);
      assert SequenceOf(rows, MarkAt(rows, j)) == q;
    }
  }

  method RetainTemporal(rows: Rows) returns (r: Option<seq<Mark>>)
    ensures r.Some? ==> IsTimeline(r.value, rows)
    ensures r.None? ==> !SequencesPermute(rows)
  {
    var n := Total(rows);
    var temporal: seq<Option<Mark>> := seq(n, _ => None);
    assert Filled(temporal) == {};
    for k := 0 to n
      invariant Retained(temporal, rows, k)
    {
      var mark := MarkAt(rows, k);
      var sequence := SequenceOf(rows, mark);
      if sequence == 0 || sequence > n || temporal[sequence - 1] != None {
        RetainRejects(temporal, rows, k);
        return None;
      }
      RetainStep(temporal, rows, k);
      temporal := temporal[sequence - 1 := Some(mark)];
    }
    NoGapLeft(temporal, rows);
    SlotsAreTimeline(temporal, rows);
    r := Some(Values(temporal));
  }

  lemma {:induction false} FillSlots(rows: Rows, k: nat) returns (temporal: seq<Option<Mark>>)
    requires SequencesPermute(rows) && k <= Total(rows)
    ensures Retained(temporal, rows, k)
  {
    if k == 0 {
      temporal := seq(Total(rows), _ => None);
      assert Filled(temporal) == {};
    } else {
      var j: nat := k - 1;
      temporal := FillSlots(rows, j);
      var q := SequenceOf(rows, MarkAt(rows, j));
      if temporal[q - 1].Some? { RetainRejects(temporal, rows, j); }
      RetainStep(temporal, rows, j);
      temporal := temporal[q - 1 := Some(MarkAt(rows, j))];
    }
  }

  // Sequence numbers form a timeline exactly when they permute 1..n.
  lemma TimelineIffPermutation(rows: Rows)
    ensures (exists timeline :: IsTimeline(timeline, rows)) <==> SequencesPermute(rows)
  {
    if timeline :| IsTimeline(timeline, rows) {
      TimelinePermutes(timeline, rows);
    }
    if SequencesPermute(rows) {
      var temporal := FillSlots(rows, Total(rows));
      NoGapLeft(temporal, rows);
      SlotsAreTimeline(temporal, rows);
    }
  }

  // ---------- the timeline as lifecycle items ----------

  function ItemOf(rows: Rows, mark: Mark): Item
    requires ValidMark(rows, mark) && TablesInRange(rows)
  {
    match mark
    case EventMark(e) =>
      if rows.events[e].kind == EnterKind then Enter(rows.events[e].invocation - 1)
      else Exit(rows.events[e].invocation - 1)
    case SubmissionMark(s) => Submit(rows.submissions[s].invocation - 1)
    case DrawMark(_) => Draw
  }

  predicate TablesInRange(rows: Rows) {
    && (forall e | 0 <= e < |rows.events| :: rows.events[e].invocation > 0)
    && (forall s | 0 <= s < |rows.submissions| :: rows.submissions[s].invocation > 0)
  }

  function Items(rows: Rows, timeline: seq<Mark>): seq<Item>
    requires TablesInRange(rows) && forall p | 0 <= p < |timeline| :: ValidMark(rows, timeline[p])
  {
    seq(|timeline|, p requires 0 <= p < |timeline| => ItemOf(rows, timeline[p]))
  }

  predicate ReferencesInRange(rows: Rows) {
    forall i | 0 <= i < |rows.invocations| ::
      0 < rows.invocations[i].enterEvent <= |rows.events| && 0 < rows.invocations[i].exitEvent <= |rows.events|
  }

  // The positions an invocation claims by the event ordinals it names.
  function SpanOf(rows: Rows, inv: InvocationRow): Span
    requires 0 < inv.enterEvent <= |rows.events| && 0 < inv.exitEvent <= |rows.events|
    requires rows.events[inv.enterEvent - 1].sequence > 0 && rows.events[inv.exitEvent - 1].sequence > 0
  {
    Span(rows.events[inv.enterEvent - 1].sequence - 1, rows.events[inv.exitEvent - 1].sequence - 1, inv.parent)
  }

  function Spans(rows: Rows): (spans: seq<Span>)
    requires ReferencesInRange(rows) && forall e | 0 <= e < |rows.events| :: rows.events[e].sequence > 0
    ensures |spans| == |rows.invocations|
  {
    seq(|rows.invocations|, i requires 0 <= i < |rows.invocations| => SpanOf(rows, rows.invocations[i]))
  }

  lemma SpansInBounds(rows: Rows, timeline: seq<Mark>)
    requires TablesChecked(rows) && ReferencesInRange(rows) && IsTimeline(timeline, rows)
    ensures forall e | 0 <= e < |rows.events| :: 0 < rows.events[e].sequence <= |timeline|
    ensures InBounds(Items(rows, timeline), Spans(rows))
  {
    forall e: nat | e < |rows.events| ensures 0 < rows.events[e].sequence <= |timeline| {
      assert MarkAt(rows, e) == EventMark(e);
    }
  }

  ghost predicate FramesMonotone(rows: Rows, timeline: seq<Mark>)
    requires IsTimeline(timeline, rows)
  {
    forall p, q | 0 <= p < q < |timeline| :: FrameOf(rows, timeline[p]) <= FrameOf(rows, timeline[q])
  }

  ghost predicate ChronologyValid(rows: Rows, timeline: seq<Mark>, depth: nat)
    requires TablesChecked(rows) && ReferencesInRange(rows) && IsTimeline(timeline, rows)
  {
    SpansInBounds(rows, timeline);
    FramesMonotone(rows, timeline) && ProperlyNested(Items(rows, timeline), Spans(rows), depth)
  }

  // ---------- one pass over the timeline ----------

  // An event of the timeline is the one its invocation names exactly when it stands where the span says.
  lemma NamedEvent(rows: Rows, timeline: seq<Mark>, p: nat, e: nat, ordinal: nat)
    requires IsTimeline(timeline, rows) && p < |timeline| && timeline[p] == EventMark(e)
    requires 0 < ordinal <= |rows.events|
    ensures ordinal == e + 1 <==> rows.events[ordinal - 1].sequence == p + 1
  {
    assert MarkAt(rows, ordinal - 1) == EventMark(ordinal - 1);
  }

  // The branches of the loop body on one temporal item.
  method Advance(rows: Rows, timeline: seq<Mark>, p: nat, stack: seq<nat>, depth: nat) returns (r: Option<seq<nat>>)
    requires TablesChecked(rows) && ReferencesInRange(rows) && IsTimeline(timeline, rows) && p < |timeline|
    requires forall e | 0 <= e < |rows.events| :: rows.events[e].sequence > 0
    ensures r == Step(stack, ItemOf(rows, timeline[p]), p, Spans(rows), depth)
  {
    match timeline[p]
    case DrawMark(_) => r := Some(stack);
    case SubmissionMark(s) =>
      if stack == [] || stack[|stack| - 1] + 1 != rows.submissions[s].invocation { return None; }
      r := Some(stack);
    case EventMark(e) =>
      var event := rows.events[e];
      var i := event.invocation - 1;
      var invocation := rows.invocations[i];
      if event.kind == EnterKind {
        NamedEvent(rows, timeline, p, e, invocation.enterEvent);
        if invocation.parent != Parent(stack) { return None; }
        if invocation.enterEvent != e + 1 { return None; }
        if |stack + [i]| > depth { return None; }
        r := Some(stack + [i]);
      } else {
        NamedEvent(rows, timeline, p, e, invocation.exitEvent);
        if stack == [] || stack[|stack| - 1] != i { return None; }
        if invocation.exitEvent != e + 1 { return None; }
        r := Some(stack[..|stack| - 1]);
      }
  }

  // Recorded sequence numbers: position + 1 once the named event has been processed, else 0.
  predicate Processed(items: seq<Item>, spans: seq<Span>, i: nat, n: nat, exits: bool)
    requires i < |spans| && n <= |items|
  {
    if exits then spans[i].exitAt < n && items[spans[i].exitAt] == Exit(i)
    else spans[i].enterAt < n && items[spans[i].enterAt] == Enter(i)
  }

  ghost predicate Recorded(sequences: seq<nat>, items: seq<Item>, spans: seq<Span>, n: nat, exits: bool)
    requires n <= |items|
  {
    && |sequences| == |spans|
    && forall i | 0 <= i < |spans| :: sequences[i] != 0 <==> Processed(items, spans, i, n, exits)
  }

  lemma RecordStep(sequences: seq<nat>, items: seq<Item>, spans: seq<Span>, n: nat, exits: bool,
                   stack: seq<nat>, depth: nat)
    requires n < |items| && Recorded(sequences, items, spans, n, exits)
    requires Step(stack, items[n], n, spans, depth).Some?
    ensures if (if exits then items[n].Exit? else items[n].Enter?)
            then items[n].invocation < |sequences|
                 && Recorded(sequences[items[n].invocation := n + 1], items, spans, n + 1, exits)
            else Recorded(sequences, items, spans, n + 1, exits)
  {
    forall i | 0 <= i < |spans|
      ensures Processed(items, spans, i, n + 1, exits) <==>
              Processed(items, spans, i, n, exits) || items[n] == if exits then Exit(i) else Enter(i)
    {}
  }

  lemma StuckRejects(items: seq<Item>, spans: seq<Span>, depth: nat, n: nat, stack: seq<nat>)
    requires InBounds(items, spans) && n < |items| && Run(items, n, spans, depth) == Some(stack)
    requires Step(stack, items[n], n, spans, depth).None?
    ensures !MachineAccepts(items, spans, depth)
  {
    if Run(items, |items|, spans, depth).Some? {
      RunPrefix(items, spans, depth, |items|, n + 1);
    }
  }

  // What the pass knows before position n.
  ghost predicate Scanned(rows: Rows, timeline: seq<Mark>, n: nat, depth: nat, stack: seq<nat>, priorFrame: nat,
                          enters: seq<nat>, exits: seq<nat>)
    requires TablesChecked(rows) && ReferencesInRange(rows) && IsTimeline(timeline, rows) && n <= |timeline|
  {
    SpansInBounds(rows, timeline);
    && FramesUpTo(rows, timeline, n, priorFrame)
    && Run(Items(rows, timeline), n, Spans(rows), depth) == Some(stack)
    && Recorded(enters, Items(rows, timeline), Spans(rows), n, false)
    && Recorded(exits, Items(rows, timeline), Spans(rows), n, true)
  }

  ghost predicate FramesUpTo(rows: Rows, timeline: seq<Mark>, n: nat, priorFrame: nat)
    requires IsTimeline(timeline, rows) && n <= |timeline|
  {
    && (forall p, q | 0 <= p < q < n :: FrameOf(rows, timeline[p]) <= FrameOf(rows, timeline[q]))
    && (forall p | 0 <= p < n :: FrameOf(rows, timeline[p]) <= priorFrame)
    && (if n == 0 then priorFrame == 0 else priorFrame == FrameOf(rows, timeline[n - 1]))
  }

  lemma RegressRejects(rows: Rows, timeline: seq<Mark>, n: nat, depth: nat, priorFrame: nat)
    requires TablesChecked(rows) && ReferencesInRange(rows) && IsTimeline(timeline, rows) && n < |timeline|
    requires FramesUpTo(rows, timeline, n, priorFrame) && FrameOf(rows, timeline[n]) < priorFrame
    ensures !ChronologyValid(rows, timeline, depth)
  {
    assert FrameOf(rows, timeline[n - 1]) > FrameOf(rows, timeline[n]);
  }

  lemma ScanStep(rows: Rows, timeline: seq<Mark>, n: nat, depth: nat, stack: seq<nat>, priorFrame: nat,
                 enters: seq<nat>, exits: seq<nat>, next: seq<nat>)
    requires TablesChecked(rows) && ReferencesInRange(rows) && IsTimeline(timeline, rows) && n < |timeline|
    requires Scanned(rows, timeline, n, depth, stack, priorFrame, enters, exits)
    requires priorFrame <= FrameOf(rows, timeline[n])
    requires forall e | 0 <= e < |rows.events| :: rows.events[e].sequence > 0
    requires Step(stack, ItemOf(rows, timeline[n]), n, Spans(rows), depth) == Some(next)
    ensures var item := ItemOf(rows, timeline[n]);
      && (item.Enter? ==> item.invocation < |enters|)
      && (item.Exit? ==> item.invocation < |exits|)
      && Scanned(rows, timeline, n + 1, depth, next, FrameOf(rows, timeline[n]),
                 if item.Enter? then enters[item.invocation := n + 1] else enters,
                 if item.Exit? then exits[item.invocation := n + 1] else exits)
  {
    SpansInBounds(rows, timeline);
    var items, spans := Items(rows, timeline), Spans(rows);
    assert items[n] == ItemOf(rows, timeline[n]);
    FramesStep(rows, timeline, n, priorFrame);
    RecordStep(enters, items, spans, n, false, stack, depth);
    RecordStep(exits, items, spans, n, true, stack, depth);
    RunStep(items, spans, n, depth, stack);
  }

  lemma RunStep(items: seq<Item>, spans: seq<Span>, n: nat, depth: nat, stack: seq<nat>)
    requires n < |items| && Run(items, n, spans, depth) == Some(stack)
    ensures Run(items, n + 1, spans, depth) == Step(stack, items[n], n, spans, depth)
  {
  }

  lemma FramesStep(rows: Rows, timeline: seq<Mark>, n: nat, priorFrame: nat)
    requires IsTimeline(timeline, rows) && n < |timeline|
    requires FramesUpTo(rows, timeline, n, priorFrame) && priorFrame <= FrameOf(rows, timeline[n])
    ensures FramesUpTo(rows, timeline, n + 1, FrameOf(rows, timeline[n]))
  {
  }

  lemma ScanStuck(rows: Rows, timeline: seq<Mark>, n: nat, depth: nat, stack: seq<nat>, priorFrame: nat,
                  enters: seq<nat>, exits: seq<nat>)
    requires TablesChecked(rows) && ReferencesInRange(rows) && IsTimeline(timeline, rows) && n < |timeline|
    requires Scanned(rows, timeline, n, depth, stack, priorFrame, enters, exits)
    requires forall e | 0 <= e < |rows.events| :: rows.events[e].sequence > 0
    requires Step(stack, ItemOf(rows, timeline[n]), n, Spans(rows), depth).None?
    ensures !ChronologyValid(rows, timeline, depth)
  {
    SpansInBounds(rows, timeline);
    var items, spans := Items(rows, timeline), Spans(rows);
    assert items[n] == ItemOf(rows, timeline[n]);
    StuckRejects(items, spans, depth, n, stack);
    MachineIffNested(items, spans, depth);
  }

  lemma ScanStart(rows: Rows, timeline: seq<Mark>, depth: nat)
    requires TablesChecked(rows) && ReferencesInRange(rows) && IsTimeline(timeline, rows)
    ensures var zeros: seq<nat> := seq(|rows.invocations|, _ => 0);
      Scanned(rows, timeline, 0, depth, [], 0, zeros, zeros)
  {
    SpansInBounds(rows, timeline);
  }

  lemma ScanEnd(rows: Rows, timeline: seq<Mark>, depth: nat, stack: seq<nat>, priorFrame: nat,
                enters: seq<nat>, exits: seq<nat>)
    requires TablesChecked(rows) && ReferencesInRange(rows) && IsTimeline(timeline, rows)
    requires Scanned(rows, timeline, |timeline|, depth, stack, priorFrame, enters, exits)
    ensures ChronologyValid(rows, timeline, depth) <==>
      stack == [] && (forall i | 0 <= i < |enters| :: enters[i] != 0) && (forall i | 0 <= i < |exits| :: exits[i] != 0)
  {
    SpansInBounds(rows, timeline);
    var items, spans := Items(rows, timeline), Spans(rows);
    MachineIffNested(items, spans, depth);
    CompleteIffRecorded(items, spans, enters, exits);
  }

  lemma CompleteIffRecorded(items: seq<Item>, spans: seq<Span>, enters: seq<nat>, exits: seq<nat>)
    requires InBounds(items, spans)
    requires Recorded(enters, items, spans, |items|, false) && Recorded(exits, items, spans, |items|, true)
    ensures Complete(items, spans) <==>
      (forall i | 0 <= i < |enters| :: enters[i] != 0) && (forall i | 0 <= i < |exits| :: exits[i] != 0)
  {
    forall i: nat | i < |spans|
      ensures enters[i] != 0 <==> items[spans[i].enterAt] == Enter(i)
      ensures exits[i] != 0 <==> items[spans[i].exitAt] == Exit(i)
    {
      assert enters[i] != 0 <==> Processed(items, spans, i, |items|, false);
      assert exits[i] != 0 <==> Processed(items, spans, i, |items|, true);
    }
  }

  // The pass over the timeline accepts exactly the valid chronologies.
  method ValidateChronology(rows: Rows, timeline: seq<Mark>, depth: nat) returns (ok: bool)
    requires TablesChecked(rows) && ReferencesInRange(rows) && IsTimeline(timeline, rows)
    ensures ok <==> ChronologyValid(rows, timeline, depth)
  {
    hide ChronologyValid, SpanOf, FramesMonotone, FramesUpTo, Run, InBounds;
    SpansInBounds(rows, timeline);
    ScanStart(rows, timeline, depth);
    var stack: seq<nat>, priorFrame: nat := [], 0;
    var enters: seq<nat>, exits: seq<nat> := seq(|rows.invocations|, _ => 0), seq(|rows.invocations|, _ => 0);
    for p := 0 to |timeline|
      invariant Scanned(rows, timeline, p, depth, stack, priorFrame, enters, exits)
    {
      var frame := FrameOf(rows, timeline[p]);
      if frame < priorFrame {
        RegressRejects(rows, timeline, p, depth, priorFrame);
        return false;
      }
      var next := Advance(rows, timeline, p, stack, depth);
      if next.None? {
        ScanStuck(rows, timeline, p, depth, stack, priorFrame, enters, exits);
        return false;
      }
      ScanStep(rows, timeline, p, depth, stack, priorFrame, enters, exits, next.value);
      stack, priorFrame := next.value, frame;
      var item := ItemOf(rows, timeline[p]);
      if item.Enter? {
        enters := enters[item.invocation := p + 1];
      } else if item.Exit? {
        exits := exits[item.invocation := p + 1];
      }
    }
    ScanEnd(rows, timeline, depth, stack, priorFrame, enters, exits);
    ok := && stack == []
          && (forall i | 0 <= i < |enters| :: enters[i] != 0)
          && (forall i | 0 <= i < |exits| :: exits[i] != 0);
  }

  // ---------- primitive ranges ----------

  function PrimitiveCounts(rows: Rows): seq<nat> {
    seq(|rows.submissions|, s requires 0 <= s < |rows.submissions| => rows.submissions[s].primitiveCount)
  }

  // Each submission continues where the previous one ended.
  ghost predicate PrimitivesTile(rows: Rows) {
    && (forall s | 0 <= s < |rows.submissions| ::
          rows.submissions[s].primitiveCount > 0
          && rows.submissions[s].primitiveBegin == Sum(PrimitiveCounts(rows)[..s]))
    && Sum(PrimitiveCounts(rows)) <= PRIMITIVE_LIMIT
  }

  predicate HoldsPrimitive(row: SubmissionRow, x: nat) {
    row.primitiveBegin <= x < row.primitiveBegin + row.primitiveCount
  }

  // Every primitive number below the total belongs to exactly one submission.
  lemma PrimitiveHasOneOwner(rows: Rows, x: nat) returns (s: nat)
    requires PrimitivesTile(rows) && x < Sum(PrimitiveCounts(rows))
    ensures s < |rows.submissions| && HoldsPrimitive(rows.submissions[s], x)
    ensures forall t | 0 <= t < |rows.submissions| && HoldsPrimitive(rows.submissions[t], x) :: t == s
  {
    var counts := PrimitiveCounts(rows);
    assert counts[..|counts|] == counts;
    s := OwnerBelow(rows, x, |counts|);
    forall t: nat | t < |rows.submissions| && HoldsPrimitive(rows.submissions[t], x) ensures t == s {
      if t < s { BeginsApart(rows, t, s); }
      if s < t { BeginsApart(rows, s, t); }
    }
  }

  lemma {:induction false} OwnerBelow(rows: Rows, x: nat, k: nat) returns (s: nat)
    requires PrimitivesTile(rows) && k <= |rows.submissions| && x < Sum(PrimitiveCounts(rows)[..k])
    ensures s < k && HoldsPrimitive(rows.submissions[s], x)
  {
    var counts := PrimitiveCounts(rows);
    var j: nat := k - 1;
    SumPrefix(counts, j);
    if x < Sum(counts[..j]) {
      s := OwnerBelow(rows, x, j);
    } else {
      s := j;
    }
  }

  lemma {:induction false} BeginsApart(rows: Rows, s: nat, t: nat)
    requires PrimitivesTile(rows) && s < t < |rows.submissions|
    ensures var before, after := rows.submissions[s], rows.submissions[t];
      before.primitiveBegin + before.primitiveCount <= after.primitiveBegin
    decreases t
  {
    var counts := PrimitiveCounts(rows);
    var j: nat := t - 1;
    SumPrefix(counts, j);
    if s < j { BeginsApart(rows, s, j); }
  }

  // The first n submissions tile the primitives below end.
  ghost predicate TilesTo(rows: Rows, n: nat, end: nat) {
    && n <= |rows.submissions|
    && (forall s | 0 <= s < n ::
          rows.submissions[s].primitiveCount > 0
          && rows.submissions[s].primitiveBegin == Sum(PrimitiveCounts(rows)[..s]))
    && end == Sum(PrimitiveCounts(rows)[..n]) <= PRIMITIVE_LIMIT
  }

  lemma NothingTiled(rows: Rows)
    ensures TilesTo(rows, 0, 0)
  {
  }

  lemma TileNext(rows: Rows, n: nat, end: nat)
    requires n < |rows.submissions| && TilesTo(rows, n, end)
    ensures var row := rows.submissions[n];
      if row.primitiveCount > 0 && row.primitiveBegin == end && end + row.primitiveCount <= PRIMITIVE_LIMIT
      then TilesTo(rows, n + 1, end + row.primitiveCount) else !PrimitivesTile(rows)
  {
    hide Sum;
    SumPrefix(PrimitiveCounts(rows), n);
  }

  lemma AllTiled(rows: Rows, end: nat)
    requires TilesTo(rows, |rows.submissions|, end)
    ensures PrimitivesTile(rows)
  {
    hide Sum;
    assert PrimitiveCounts(rows)[..|rows.submissions|] == PrimitiveCounts(rows);
  }

  method ValidatePrimitives(rows: Rows) returns (ok: bool)
    ensures ok <==> PrimitivesTile(rows)
  {
    hide TilesTo, PrimitivesTile;
    var priorPrimitiveEnd: nat := 0;
    NothingTiled(rows);
    for s := 0 to |rows.submissions|
      invariant TilesTo(rows, s, priorPrimitiveEnd)
    {
      var row := rows.submissions[s];
      TileNext(rows, s, priorPrimitiveEnd);
      if row.primitiveCount == 0 || row.primitiveBegin != priorPrimitiveEnd { return false; }
      priorPrimitiveEnd := priorPrimitiveEnd + row.primitiveCount;
      if priorPrimitiveEnd > PRIMITIVE_LIMIT { return false; }
    }
    AllTiled(rows, priorPrimitiveEnd);
    ok := true;
  }

  // ---------- memberships ----------

  predicate MemberKeyLess(a: MembershipRow, b: MembershipRow) {
    a.draw < b.draw || (a.draw == b.draw && a.submission < b.submission)
  }

  predicate DrawFollows(rows: Rows, m: MembershipRow)
    requires 0 < m.submission <= |rows.submissions| && 0 < m.draw <= |rows.draws|
  {
    var submission, draw := rows.submissions[m.submission - 1], rows.draws[m.draw - 1];
    draw.disposition == Submitted && submission.sequence < draw.sequence && submission.frame <= draw.frame
  }

  predicate MembersOrdered(rows: Rows, k: nat)
    requires k <= |rows.memberships|
  {
    forall a, b | 0 <= a < k && b == a + 1 < k :: MemberKeyLess(rows.memberships[a], rows.memberships[b])
  }

  predicate MembersDistinct(rows: Rows, k: nat)
    requires k <= |rows.memberships|
  {
    forall a, b | 0 <= a < b < k :: rows.memberships[a].submission != rows.memberships[b].submission
  }

  // In producer order, the memberships map every submission to one later submitted draw,
  // and reach every submitted draw.
  ghost predicate MembershipsValid(rows: Rows)
    requires TablesChecked(rows)
  {
    && MembersOrdered(rows, |rows.memberships|)
    && MembersDistinct(rows, |rows.memberships|)
    && (forall s: nat | 0 < s <= |rows.submissions| :: SubmissionClaimed(rows, |rows.memberships|, s))
    && (forall a | 0 <= a < |rows.memberships| :: DrawFollows(rows, rows.memberships[a]))
    && (forall d | 0 <= d < |rows.draws| && rows.draws[d].disposition == Submitted ::
          ClaimCount(rows, |rows.memberships|, d) > 0)
  }

  ghost predicate SubmissionClaimed(rows: Rows, k: nat, s: nat) {
    exists a :: 0 <= a < k && a < |rows.memberships| && rows.memberships[a].submission == s
  }

  // How many of the first k memberships name draw d.
  function ClaimCount(rows: Rows, k: nat, d: nat): nat
    requires k <= |rows.memberships|
  {
    if k == 0 then 0 else ClaimCount(rows, k - 1, d) + if rows.memberships[k - 1].draw == d + 1 then 1 else 0
  }

  ghost function ClaimCounts(rows: Rows, k: nat): seq<nat>
    requires k <= |rows.memberships|
  {
    seq(|rows.draws|, d requires 0 <= d < |rows.draws| => ClaimCount(rows, k, d))
  }

  lemma {:induction false} ClaimsSum(rows: Rows, k: nat)
    requires TablesChecked(rows) && k <= |rows.memberships|
    ensures Sum(ClaimCounts(rows, k)) == k
  {
    if k == 0 {
      SumOfZeros(ClaimCounts(rows, 0));
    } else {
      ClaimsSum(rows, k - 1);
      var d: nat := rows.memberships[k - 1].draw - 1;
      var before := ClaimCounts(rows, k - 1);
      assert ClaimCounts(rows, k) == before[d := before[d] + 1];
      SumUpdate(before, d, before[d] + 1);
    }
  }

  ghost function Claimed(rows: Rows, k: nat): set<nat>
    requires k <= |rows.memberships|
  {
    if k == 0 then {} else Claimed(rows, k - 1) + {rows.memberships[k - 1].submission}
  }

  lemma {:induction false} ClaimedMember(rows: Rows, k: nat, s: nat)
    requires k <= |rows.memberships|
    ensures s in Claimed(rows, k) <==> SubmissionClaimed(rows, k, s)
  {
    if k > 0 {
      ClaimedMember(rows, k - 1, s);
      if rows.memberships[k - 1].submission == s { assert SubmissionClaimed(rows, k, s); }
      if SubmissionClaimed(rows, k - 1, s) {
        var a :| 0 <= a < k - 1 && rows.memberships[a].submission == s;
        assert SubmissionClaimed(rows, k, s);
      }
    }
  }

  lemma {:induction false} ClaimedCount(rows: Rows, k: nat)
    requires k <= |rows.memberships|
    requires MembersDistinct(rows, |rows.memberships|)
    ensures |Claimed(rows, k)| == k
  {
    if k > 0 {
      ClaimedCount(rows, k - 1);
      var s := rows.memberships[k - 1].submission;
      ClaimedMember(rows, k - 1, s);
    }
  }

  lemma EverySubmissionClaimed(rows: Rows)
    requires TablesChecked(rows) && MembershipsValid(rows)
    ensures Claimed(rows, |rows.memberships|) == Below(|rows.submissions| + 1) - {0}
  {
    forall s: nat
      ensures s in Claimed(rows, |rows.memberships|) <==> 0 < s <= |rows.submissions|
    {
      ClaimedMember(rows, |rows.memberships|, s);
    }
  }

  // One membership per submission, and the per-draw counts add up to the submissions.
  lemma MembershipsCount(rows: Rows)
    requires TablesChecked(rows) && MembershipsValid(rows)
    ensures |rows.memberships| == |rows.submissions|
    ensures Sum(ClaimCounts(rows, |rows.memberships|)) == |rows.submissions|
  {
    ClaimsSum(rows, |rows.memberships|);
    ClaimedCount(rows, |rows.memberships|);
    EverySubmissionClaimed(rows);
    var all := Below(|rows.submissions| + 1);
    assert |all - {0}| == |all| - 1 by { assert 0 in all; }
  }

  // ---------- the membership loops ----------

  // member[s] is the draw that the first k memberships give submission s + 1, or 0.
  ghost predicate MembersRecorded(rows: Rows, k: nat, member: seq<nat>, perDraw: seq<nat>)
    requires k <= |rows.memberships|
  {
    && |member| == |rows.submissions| && |perDraw| == |rows.draws|
    && (forall a | 0 <= a < k :: 0 < rows.memberships[a].submission <= |member|
                                 && member[rows.memberships[a].submission - 1] == rows.memberships[a].draw)
    && (forall s | 0 <= s < |member| && member[s] != 0 :: SubmissionClaimed(rows, k, s + 1))
    && (forall d | 0 <= d < |perDraw| :: perDraw[d] == ClaimCount(rows, k, d))
  }

  lemma MemberStep(rows: Rows, k: nat, member: seq<nat>, perDraw: seq<nat>)
    requires TablesChecked(rows) && k < |rows.memberships| && MembersRecorded(rows, k, member, perDraw)
    requires var row := rows.memberships[k]; member[row.submission - 1] == 0
    ensures var row := rows.memberships[k];
      MembersRecorded(rows, k + 1, member[row.submission - 1 := row.draw],
                      perDraw[row.draw - 1 := perDraw[row.draw - 1] + 1])
  {
    var row := rows.memberships[k];
    var next := member[row.submission - 1 := row.draw];
    forall s | 0 <= s < |next| && next[s] != 0 ensures SubmissionClaimed(rows, k + 1, s + 1) {
      if s == row.submission - 1 {
        assert rows.memberships[k].submission == s + 1;
      } else {
        assert SubmissionClaimed(rows, k, s + 1);
        var a :| 0 <= a < k && rows.memberships[a].submission == s + 1;
        assert rows.memberships[a].submission == s + 1;
      }
    }
  }

  // A nonzero slot is a claim, and a zero slot is none.
  lemma SlotIsClaim(rows: Rows, k: nat, member: seq<nat>, perDraw: seq<nat>, s: nat)
    requires TablesChecked(rows) && k <= |rows.memberships| && MembersRecorded(rows, k, member, perDraw)
    requires s < |member|
    ensures member[s] != 0 <==> SubmissionClaimed(rows, k, s + 1)
  {
    if SubmissionClaimed(rows, k, s + 1) {
      var a :| 0 <= a < k && rows.memberships[a].submission == s + 1;
      assert member[rows.memberships[a].submission - 1] == rows.memberships[a].draw;
    }
  }

  lemma ClashRejects(rows: Rows, k: nat)
    requires k < |rows.memberships| && SubmissionClaimed(rows, k, rows.memberships[k].submission)
    ensures !MembersDistinct(rows, k + 1) && !MembersDistinct(rows, |rows.memberships|)
  {
    var a :| 0 <= a < k && rows.memberships[a].submission == rows.memberships[k].submission;
    assert 0 <= a < k;
  }

  lemma FreshKeepsDistinct(rows: Rows, k: nat)
    requires k < |rows.memberships| && MembersDistinct(rows, k)
    requires !SubmissionClaimed(rows, k, rows.memberships[k].submission)
    ensures MembersDistinct(rows, k + 1)
  {
  }

  lemma NothingRecorded(rows: Rows, member: seq<nat>, perDraw: seq<nat>)
    requires |member| == |rows.submissions| && |perDraw| == |rows.draws|
    requires forall s | 0 <= s < |member| :: member[s] == 0
    requires forall d | 0 <= d < |perDraw| :: perDraw[d] == 0
    ensures MembersRecorded(rows, 0, member, perDraw) && MembersDistinct(rows, 0)
  {
  }

  method RecordMembers(rows: Rows) returns (ok: bool, member: seq<nat>, perDraw: seq<nat>)
    requires TablesChecked(rows)
    ensures ok <==> MembersOrdered(rows, |rows.memberships|) && MembersDistinct(rows, |rows.memberships|)
    ensures ok ==> MembersRecorded(rows, |rows.memberships|, member, perDraw)
  {
    hide SubmissionClaimed, ClaimCount, MembersDistinct, DrawFollows;
    member, perDraw := seq(|rows.submissions|, _ => 0), seq(|rows.draws|, _ => 0);
    NothingRecorded(rows, member, perDraw);
    for k := 0 to |rows.memberships|
      invariant MembersRecorded(rows, k, member, perDraw)
      invariant MembersOrdered(rows, k) && MembersDistinct(rows, k)
    {
      var row := rows.memberships[k];
      if k > 0 && !MemberKeyLess(rows.memberships[k - 1], row) {
        return false, member, perDraw;
      }
      SlotIsClaim(rows, k, member, perDraw, row.submission - 1);
      if member[row.submission - 1] != 0 {
        ClashRejects(rows, k);
        return false, member, perDraw;
      }
      FreshKeepsDistinct(rows, k);
      MemberStep(rows, k, member, perDraw);
      member := member[row.submission - 1 := row.draw];
      perDraw := perDraw[row.draw - 1 := perDraw[row.draw - 1] + 1];
    }
    ok := true;
  }

  method CheckSubmissions(rows: Rows, member: seq<nat>, perDraw: seq<nat>) returns (ok: bool)
    requires TablesChecked(rows) && MembersRecorded(rows, |rows.memberships|, member, perDraw)
    ensures ok <==>
      && (forall s: nat | 0 < s <= |rows.submissions| :: SubmissionClaimed(rows, |rows.memberships|, s))
      && (forall a | 0 <= a < |rows.memberships| :: DrawFollows(rows, rows.memberships[a]))
  {
    for s := 0 to |rows.submissions|
      invariant forall t: nat | 0 < t <= s :: SubmissionClaimed(rows, |rows.memberships|, t)
      invariant forall a | 0 <= a < |rows.memberships| && rows.memberships[a].submission <= s ::
        DrawFollows(rows, rows.memberships[a])
    {
      SlotIsClaim(rows, |rows.memberships|, member, perDraw, s);
      if member[s] == 0 { return false; }
      ghost var a :| 0 <= a < |rows.memberships| && rows.memberships[a].submission == s + 1;
      if !DrawFollows(rows, MembershipRow(s + 1, member[s])) {
        assert rows.memberships[a] == MembershipRow(s + 1, member[s]);
        return false;
      }
    }
    ok := true;
  }

  method ValidateMemberships(rows: Rows) returns (ok: bool)
    requires TablesChecked(rows)
    ensures ok <==> MembershipsValid(rows)
  {
    var member, perDraw;
    ok, member, perDraw := RecordMembers(rows);
    if !ok { return false; }
    ok := CheckSubmissions(rows, member, perDraw);
    if !ok { return false; }
    for d := 0 to |rows.draws|
      invariant forall e | 0 <= e < d && rows.draws[e].disposition == Submitted ::
        ClaimCount(rows, |rows.memberships|, e) > 0
    {
      if rows.draws[d].disposition == Submitted && perDraw[d] == 0 { return false; }
    }
    ok := true;
  }

  // A draw that was skipped has no memberships, so the last loop's second check cannot fire.
  lemma {:induction false} SkippedDrawUnclaimed(rows: Rows, k: nat, d: nat)
    requires TablesChecked(rows) && k <= |rows.memberships| && d < |rows.draws|
    requires forall a | 0 <= a < |rows.memberships| :: DrawFollows(rows, rows.memberships[a])
    requires rows.draws[d].disposition == Skipped
    ensures ClaimCount(rows, k, d) == 0
  {
    if k > 0 {
      SkippedDrawUnclaimed(rows, k - 1, d);
      assert DrawFollows(rows, rows.memberships[k - 1]);
    }
  }

  // ---------- the whole temporal model ----------

  ghost predicate TemporalValid(rows: Rows, depth: nat)
    requires TablesChecked(rows)
  {
    && ReferencesInRange(rows)
    && (exists timeline :: IsTimeline(timeline, rows) && ChronologyValid(rows, timeline, depth))
    && PrimitivesTile(rows)
    && MembershipsValid(rows)
  }

  method ValidateTemporalModel(rows: Rows, depth: nat) returns (ok: bool)
    requires TablesChecked(rows)
    ensures ok <==> TemporalValid(rows, depth)
  {
    for i := 0 to |rows.invocations|
      invariant forall j | 0 <= j < i ::
        rows.invocations[j].enterEvent <= |rows.events| && rows.invocations[j].exitEvent <= |rows.events|
    {
      var invocation := rows.invocations[i];
      if invocation.enterEvent > |rows.events| || invocation.exitEvent > |rows.events| { return false; }
    }
    var retained := RetainTemporal(rows);
    TimelineIffPermutation(rows);
    if retained.None? { return false; }
    ok := ValidateChronology(rows, retained.value, depth);
    OnlyTimeline(rows, retained.value, depth);
    if !ok { return false; }
    ok := ValidatePrimitives(rows);
    if !ok { return false; }
    ok := ValidateMemberships(rows);
  }

  lemma OnlyTimeline(rows: Rows, timeline: seq<Mark>, depth: nat)
    requires TablesChecked(rows) && ReferencesInRange(rows) && IsTimeline(timeline, rows)
    ensures (exists t :: IsTimeline(t, rows) && ChronologyValid(rows, t, depth)) <==>
            ChronologyValid(rows, timeline, depth)
  {
    if t :| IsTimeline(t, rows) && ChronologyValid(rows, t, depth) {
      TimelineIsUnique(t, timeline, rows);
    }
  }

  // ---------- the checks that follow the pass can never fire ----------

  // The events an invocation names are its own, in order, with frames in order.
  predicate NamesItsEvents(rows: Rows, i: nat)
    requires ReferencesInRange(rows) && i < |rows.invocations|
  {
    var inv := rows.invocations[i];
    var enter, exit := rows.events[inv.enterEvent - 1], rows.events[inv.exitEvent - 1];
    && enter.invocation == i + 1 && enter.kind == EnterKind
    && exit.invocation == i + 1 && exit.kind == ExitKind
    && enter.sequence < exit.sequence && enter.frame <= exit.frame
  }

  predicate InsideParent(rows: Rows, i: nat)
    requires ReferencesInRange(rows) && i < |rows.invocations|
  {
    var inv := rows.invocations[i];
    if inv.parent == 0 then true
    else if inv.parent > |rows.invocations| then false
    else
      var parent := rows.invocations[inv.parent - 1];
      && rows.events[parent.enterEvent - 1].sequence < rows.events[inv.enterEvent - 1].sequence
      && rows.events[inv.exitEvent - 1].sequence < rows.events[parent.exitEvent - 1].sequence
  }

  predicate InsideInvocation(rows: Rows, s: nat)
    requires ReferencesInRange(rows) && s < |rows.submissions|
    requires 0 < rows.submissions[s].invocation <= |rows.invocations|
  {
    var row := rows.submissions[s];
    var inv := rows.invocations[row.invocation - 1];
    var enter, exit := rows.events[inv.enterEvent - 1], rows.events[inv.exitEvent - 1];
    && enter.sequence < row.sequence < exit.sequence
    && enter.frame <= row.frame <= exit.frame
  }

  // The draw of a membership is not in an earlier frame than the entry of the invocation.
  predicate DrawFollowsEnter(rows: Rows, a: nat)
    requires TablesChecked(rows) && ReferencesInRange(rows) && a < |rows.memberships|
  {
    var submission := rows.submissions[rows.memberships[a].submission - 1];
    rows.events[rows.invocations[submission.invocation - 1].enterEvent - 1].frame
      <= rows.draws[rows.memberships[a].draw - 1].frame
  }

  lemma EventOnTimeline(rows: Rows, timeline: seq<Mark>, e: nat)
    requires IsTimeline(timeline, rows) && e < |rows.events|
    ensures 0 < rows.events[e].sequence <= |timeline| && timeline[rows.events[e].sequence - 1] == EventMark(e)
  {
    assert MarkAt(rows, e) == EventMark(e);
  }

  lemma SubmissionOnTimeline(rows: Rows, timeline: seq<Mark>, s: nat)
    requires IsTimeline(timeline, rows) && s < |rows.submissions|
    ensures 0 < rows.submissions[s].sequence <= |timeline|
    ensures timeline[rows.submissions[s].sequence - 1] == SubmissionMark(s)
  {
    assert MarkAt(rows, |rows.events| + s) == SubmissionMark(s);
  }

  ghost predicate Prepared(rows: Rows, timeline: seq<Mark>) {
    && TablesChecked(rows) && ReferencesInRange(rows) && IsTimeline(timeline, rows)
    && forall e | 0 <= e < |rows.events| :: rows.events[e].sequence > 0
  }

  lemma EventsAreOwn(rows: Rows, timeline: seq<Mark>, i: nat)
    requires Prepared(rows, timeline) && FramesMonotone(rows, timeline) && i < |rows.invocations|
    requires InBounds(Items(rows, timeline), Spans(rows)) && Complete(Items(rows, timeline), Spans(rows))
    ensures NamesItsEvents(rows, i)
  {
    hide IsTimeline, FramesMonotone, Items, TablesChecked, TablesInRange;
    var inv, span := rows.invocations[i], Spans(rows)[i];
    var enter: nat, exit: nat := inv.enterEvent - 1, inv.exitEvent - 1;
    assert span == SpanOf(rows, inv);
    EventItem(rows, timeline, enter);
    EventItem(rows, timeline, exit);
    FramesInOrder(rows, timeline, enter, exit);
  }

  lemma EventItem(rows: Rows, timeline: seq<Mark>, e: nat)
    requires Prepared(rows, timeline) && e < |rows.events|
    ensures 0 < rows.events[e].sequence <= |timeline|
    ensures var row := rows.events[e];
      Items(rows, timeline)[row.sequence - 1] ==
      if row.kind == EnterKind then Enter(row.invocation - 1) else Exit(row.invocation - 1)
  {
    EventOnTimeline(rows, timeline, e);
  }

  lemma FramesInOrder(rows: Rows, timeline: seq<Mark>, e: nat, f: nat)
    requires Prepared(rows, timeline) && FramesMonotone(rows, timeline) && e < |rows.events| && f < |rows.events|
    requires rows.events[e].sequence < rows.events[f].sequence
    ensures rows.events[e].frame <= rows.events[f].frame
  {
    EventOnTimeline(rows, timeline, e);
    EventOnTimeline(rows, timeline, f);
    var p: nat, q: nat := rows.events[e].sequence - 1, rows.events[f].sequence - 1;
    assert FrameOf(rows, timeline[p]) <= FrameOf(rows, timeline[q]);
  }

  lemma ParentContains(rows: Rows, i: nat)
    requires TablesChecked(rows) && ReferencesInRange(rows) && i < |rows.invocations|
    requires forall e | 0 <= e < |rows.events| :: rows.events[e].sequence > 0
    requires ParentInnermost(Spans(rows), i) && NoCrossing(Spans(rows))
    ensures InsideParent(rows, i)
  {
    if rows.invocations[i].parent > 0 {
      InnerExitsFirst(Spans(rows), rows.invocations[i].parent - 1, i);
    }
  }

  lemma SubmissionInside(rows: Rows, timeline: seq<Mark>, s: nat)
    requires Prepared(rows, timeline) && FramesMonotone(rows, timeline) && s < |rows.submissions|
    requires rows.submissions[s].sequence > 0
    requires Innermost(Spans(rows), rows.submissions[s].invocation - 1, rows.submissions[s].sequence - 1)
    ensures InsideInvocation(rows, s)
  {
    SubmissionOnTimeline(rows, timeline, s);
    var row := rows.submissions[s];
    var inv := rows.invocations[row.invocation - 1];
    assert Spans(rows)[row.invocation - 1] == SpanOf(rows, inv);
    EventOnTimeline(rows, timeline, inv.enterEvent - 1);
    EventOnTimeline(rows, timeline, inv.exitEvent - 1);
    var p: nat, at: nat := rows.events[inv.enterEvent - 1].sequence - 1, row.sequence - 1;
    var q: nat := rows.events[inv.exitEvent - 1].sequence - 1;
    assert FrameOf(rows, timeline[p]) <= FrameOf(rows, timeline[at]) <= FrameOf(rows, timeline[q]);
  }

  lemma SubmitAt(rows: Rows, timeline: seq<Mark>, s: nat)
    requires Prepared(rows, timeline) && s < |rows.submissions|
    requires SubmitsInnermost(Items(rows, timeline), Spans(rows))
    ensures rows.submissions[s].sequence > 0
    ensures Innermost(Spans(rows), rows.submissions[s].invocation - 1, rows.submissions[s].sequence - 1)
  {
    SubmissionOnTimeline(rows, timeline, s);
    var items, at: nat := Items(rows, timeline), rows.submissions[s].sequence - 1;
    assert items[at] == Submit(rows.submissions[s].invocation - 1);
  }

  lemma EveryEventAndSubmission(rows: Rows, timeline: seq<Mark>, depth: nat)
    requires TablesChecked(rows) && ReferencesInRange(rows) && IsTimeline(timeline, rows)
    requires ChronologyValid(rows, timeline, depth)
    ensures forall i | 0 <= i < |rows.invocations| :: NamesItsEvents(rows, i) && InsideParent(rows, i)
    ensures forall s | 0 <= s < |rows.submissions| :: InsideInvocation(rows, s)
  {
    SpansInBounds(rows, timeline);
    forall i: nat | i < |rows.invocations| ensures NamesItsEvents(rows, i) && InsideParent(rows, i) {
      EventsAreOwn(rows, timeline, i);
      assert ParentsInnermost(Spans(rows));
      ParentContains(rows, i);
    }
    forall s: nat | s < |rows.submissions| ensures InsideInvocation(rows, s) {
      SubmitAt(rows, timeline, s);
      SubmissionInside(rows, timeline, s);
    }
  }

  // Once the stack pass has succeeded, whatever else may reject the trace later, the rejections at
  // tools/assemble_frontend_phase.py:545-576 other than those of the primitive ranges are
  // unreachable; so is the one at 605-607 behind the two checks before it.
  lemma LaterChecksNeverFire(rows: Rows, timeline: seq<Mark>, depth: nat)
    requires TablesChecked(rows) && ReferencesInRange(rows)
    requires IsTimeline(timeline, rows) && ChronologyValid(rows, timeline, depth)
    ensures forall i | 0 <= i < |rows.invocations| :: NamesItsEvents(rows, i) && InsideParent(rows, i)
    ensures forall s | 0 <= s < |rows.submissions| :: InsideInvocation(rows, s)
    ensures forall a: nat | a < |rows.memberships| ::
              DrawFollows(rows, rows.memberships[a]) ==> DrawFollowsEnter(rows, a)
  {
    hide IsTimeline, ChronologyValid, NamesItsEvents, InsideParent, InsideInvocation, DrawFollows, DrawFollowsEnter;
    EveryEventAndSubmission(rows, timeline, depth);
    forall a: nat | a < |rows.memberships| && DrawFollows(rows, rows.memberships[a]) ensures DrawFollowsEnter(rows, a) {
      EnterPrecedesDraw(rows, a);
    }
  }

  lemma EnterPrecedesDraw(rows: Rows, a: nat)
    requires TablesChecked(rows) && ReferencesInRange(rows) && a < |rows.memberships|
    requires DrawFollows(rows, rows.memberships[a]) && InsideInvocation(rows, rows.memberships[a].submission - 1)
    ensures DrawFollowsEnter(rows, a)
  {
  }
}
