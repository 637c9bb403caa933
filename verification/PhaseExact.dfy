// What a valid temporal trace is on the fields of its rows alone: no timeline, no marks, no stack.
module PhaseExact {
  import opened Options
  import opened Sums
  import opened PhaseTimeline
  import opened PhaseTemporal

  // ---------- sequence numbers and frames ----------

  // The sequence numbers of the three tables together are 1..n, each used once.
  ghost predicate SequencesCover(rows: Rows) {
    var (e, s, d) := (rows.events, rows.submissions, rows.draws);
    var n := |e| + |s| + |d|;
    && (forall i | 0 <= i < |e| :: 1 <= e[i].sequence <= n)
    && (forall i | 0 <= i < |s| :: 1 <= s[i].sequence <= n)
    && (forall i | 0 <= i < |d| :: 1 <= d[i].sequence <= n)
    && (forall i, j | 0 <= i < j < |e| :: e[i].sequence != e[j].sequence)
    && (forall i, j | 0 <= i < j < |s| :: s[i].sequence != s[j].sequence)
    && (forall i, j | 0 <= i < j < |d| :: d[i].sequence != d[j].sequence)
    && (forall i, j | 0 <= i < |e| && 0 <= j < |s| :: e[i].sequence != s[j].sequence)
    && (forall i, j | 0 <= i < |e| && 0 <= j < |d| :: e[i].sequence != d[j].sequence)
    && (forall i, j | 0 <= i < |s| && 0 <= j < |d| :: s[i].sequence != d[j].sequence)
  }

  predicate Ordered(sequence: nat, frame: nat, otherSequence: nat, otherFrame: nat) {
    && (sequence < otherSequence ==> frame <= otherFrame)
    && (otherSequence < sequence ==> otherFrame <= frame)
  }

  // Of any two rows of any two tables, the later one is not in an earlier frame.
  ghost predicate FramesFollow(rows: Rows) {
    var (e, s, d) := (rows.events, rows.submissions, rows.draws);
    && (forall i, j | 0 <= i < |e| && 0 <= j < |e| :: Ordered(e[i].sequence, e[i].frame, e[j].sequence, e[j].frame))
    && (forall i, j | 0 <= i < |s| && 0 <= j < |s| :: Ordered(s[i].sequence, s[i].frame, s[j].sequence, s[j].frame))
    && (forall i, j | 0 <= i < |d| && 0 <= j < |d| :: Ordered(d[i].sequence, d[i].frame, d[j].sequence, d[j].frame))
    && (forall i, j | 0 <= i < |e| && 0 <= j < |s| :: Ordered(e[i].sequence, e[i].frame, s[j].sequence, s[j].frame))
    && (forall i, j | 0 <= i < |e| && 0 <= j < |d| :: Ordered(e[i].sequence, e[i].frame, d[j].sequence, d[j].frame))
    && (forall i, j | 0 <= i < |s| && 0 <= j < |d| :: Ordered(s[i].sequence, s[i].frame, d[j].sequence, d[j].frame))
  }

  lemma CoverIsPermutation(rows: Rows)
    ensures SequencesPermute(rows) <==> SequencesCover(rows)
  {
    if SequencesPermute(rows) { PermutationCovers(rows); }
    if SequencesCover(rows) { CoverPermutes(rows); }
  }

  lemma CoverPermutes(rows: Rows)
    requires SequencesCover(rows)
    ensures SequencesPermute(rows)
  {
    forall j, k | 0 <= j < k < Total(rows)
      ensures SequenceOf(rows, MarkAt(rows, j)) != SequenceOf(rows, MarkAt(rows, k))
    {
    }
  }

  lemma PermutationCovers(rows: Rows)
    requires SequencesPermute(rows)
    ensures SequencesCover(rows)
  {
    var (e, s, d) := (rows.events, rows.submissions, rows.draws);
    hide SequencesPermute, Total;
    forall i: nat | i < |e| ensures 1 <= e[i].sequence <= Total(rows) { Separate(rows, EventMark(i), EventMark(i)); }
    forall i: nat | i < |s| ensures 1 <= s[i].sequence <= Total(rows) {
      Separate(rows, SubmissionMark(i), SubmissionMark(i));
    }
    forall i: nat | i < |d| ensures 1 <= d[i].sequence <= Total(rows) { Separate(rows, DrawMark(i), DrawMark(i)); }
    forall i: nat, j: nat | i < j < |e| ensures e[i].sequence != e[j].sequence {
      Separate(rows, EventMark(i), EventMark(j));
    }
    forall i: nat, j: nat | i < j < |s| ensures s[i].sequence != s[j].sequence {
      Separate(rows, SubmissionMark(i), SubmissionMark(j));
    }
    forall i: nat, j: nat | i < j < |d| ensures d[i].sequence != d[j].sequence {
      Separate(rows, DrawMark(i), DrawMark(j));
    }
    forall i: nat, j: nat | i < |e| && j < |s| ensures e[i].sequence != s[j].sequence {
      Separate(rows, EventMark(i), SubmissionMark(j));
    }
    forall i: nat, j: nat | i < |e| && j < |d| ensures e[i].sequence != d[j].sequence {
      Separate(rows, EventMark(i), DrawMark(j));
    }
    forall i: nat, j: nat | i < |s| && j < |d| ensures s[i].sequence != d[j].sequence {
      Separate(rows, SubmissionMark(i), DrawMark(j));
    }
    TotalIs(rows);
  }

  lemma TotalIs(rows: Rows)
    ensures Total(rows) == |rows.events| + |rows.submissions| + |rows.draws|
  {
  }

  lemma Separate(rows: Rows, a: Mark, b: Mark)
    requires SequencesPermute(rows) && ValidMark(rows, a) && ValidMark(rows, b)
    ensures 1 <= SequenceOf(rows, a) <= Total(rows)
    ensures a != b ==> SequenceOf(rows, a) != SequenceOf(rows, b)
  {
    var j, k := RankOf(rows, a), RankOf(rows, b);
    assert MarkAt(rows, j) == a && MarkAt(rows, k) == b;
  }

  // On a timeline, frames never decrease exactly when they follow the sequence numbers.
  lemma MonotoneIsFollowing(rows: Rows, timeline: seq<Mark>)
    requires IsTimeline(timeline, rows)
    ensures FramesMonotone(rows, timeline) <==> FramesFollow(rows)
  {
    if FramesMonotone(rows, timeline) {
      forall a: Mark, b: Mark | ValidMark(rows, a) && ValidMark(rows, b)
        ensures Ordered(SequenceOf(rows, a), FrameOf(rows, a), SequenceOf(rows, b), FrameOf(rows, b))
      {
        Listed(rows, timeline, a);
        Listed(rows, timeline, b);
      }
      MarksFollow(rows);
    }
    if FramesFollow(rows) {
      forall p, q | 0 <= p < q < |timeline| ensures FrameOf(rows, timeline[p]) <= FrameOf(rows, timeline[q]) {
        FollowAt(rows, timeline[p], timeline[q]);
      }
    }
  }

  lemma Listed(rows: Rows, timeline: seq<Mark>, mark: Mark)
    requires IsTimeline(timeline, rows) && ValidMark(rows, mark)
    ensures 1 <= SequenceOf(rows, mark) <= |timeline| && timeline[SequenceOf(rows, mark) - 1] == mark
  {
    assert MarkAt(rows, RankOf(rows, mark)) == mark;
  }

  lemma MarksFollow(rows: Rows)
    requires forall a: Mark, b: Mark | ValidMark(rows, a) && ValidMark(rows, b) ::
      Ordered(SequenceOf(rows, a), FrameOf(rows, a), SequenceOf(rows, b), FrameOf(rows, b))
    ensures FramesFollow(rows)
  {
    hide Ordered;
    var (e, s, d) := (rows.events, rows.submissions, rows.draws);
    forall i: nat, j: nat | i < |e| && j < |e| ensures Ordered(e[i].sequence, e[i].frame, e[j].sequence, e[j].frame) {
      assert ValidMark(rows, EventMark(i)) && ValidMark(rows, EventMark(j));
    }
    forall i: nat, j: nat | i < |s| && j < |s| ensures Ordered(s[i].sequence, s[i].frame, s[j].sequence, s[j].frame) {
      assert ValidMark(rows, SubmissionMark(i)) && ValidMark(rows, SubmissionMark(j));
    }
    forall i: nat, j: nat | i < |d| && j < |d| ensures Ordered(d[i].sequence, d[i].frame, d[j].sequence, d[j].frame) {
      assert ValidMark(rows, DrawMark(i)) && ValidMark(rows, DrawMark(j));
    }
    forall i: nat, j: nat | i < |e| && j < |s| ensures Ordered(e[i].sequence, e[i].frame, s[j].sequence, s[j].frame) {
      assert ValidMark(rows, EventMark(i)) && ValidMark(rows, SubmissionMark(j));
    }
    forall i: nat, j: nat | i < |e| && j < |d| ensures Ordered(e[i].sequence, e[i].frame, d[j].sequence, d[j].frame) {
      assert ValidMark(rows, EventMark(i)) && ValidMark(rows, DrawMark(j));
    }
    forall i: nat, j: nat | i < |s| && j < |d| ensures Ordered(s[i].sequence, s[i].frame, d[j].sequence, d[j].frame) {
      assert ValidMark(rows, SubmissionMark(i)) && ValidMark(rows, DrawMark(j));
    }
  }

  lemma FollowAt(rows: Rows, a: Mark, b: Mark)
    requires FramesFollow(rows) && ValidMark(rows, a) && ValidMark(rows, b)
    ensures SequenceOf(rows, a) < SequenceOf(rows, b) ==> FrameOf(rows, a) <= FrameOf(rows, b)
  {
    var (e, s, d) := (rows.events, rows.submissions, rows.draws);
    match (a, b) {
      case (EventMark(i), EventMark(j)) =>
        assert Ordered(e[i].sequence, e[i].frame, e[j].sequence, e[j].frame);
      case (EventMark(i), SubmissionMark(j)) =>
        assert Ordered(e[i].sequence, e[i].frame, s[j].sequence, s[j].frame);
      case (EventMark(i), DrawMark(j)) =>
        assert Ordered(e[i].sequence, e[i].frame, d[j].sequence, d[j].frame);
      case (SubmissionMark(j), EventMark(i)) =>
        assert Ordered(e[i].sequence, e[i].frame, s[j].sequence, s[j].frame);
      case (SubmissionMark(i), SubmissionMark(j)) =>
        assert Ordered(s[i].sequence, s[i].frame, s[j].sequence, s[j].frame);
      case (SubmissionMark(i), DrawMark(j)) =>
        assert Ordered(s[i].sequence, s[i].frame, d[j].sequence, d[j].frame);
      case (DrawMark(j), EventMark(i)) =>
        assert Ordered(e[i].sequence, e[i].frame, d[j].sequence, d[j].frame);
      case (DrawMark(j), SubmissionMark(i)) =>
        assert Ordered(s[i].sequence, s[i].frame, d[j].sequence, d[j].frame);
      case (DrawMark(i), DrawMark(j)) =>
        assert Ordered(d[i].sequence, d[i].frame, d[j].sequence, d[j].frame);
    }
  }

  // ---------- lifecycles ----------

  function EnterOf(rows: Rows, i: nat): nat
    requires ReferencesInRange(rows) && i < |rows.invocations|
  {
    rows.events[rows.invocations[i].enterEvent - 1].sequence
  }

  function ExitOf(rows: Rows, i: nat): nat
    requires ReferencesInRange(rows) && i < |rows.invocations|
  {
    rows.events[rows.invocations[i].exitEvent - 1].sequence
  }

  // Invocation i is open at a sequence number strictly inside its interval.
  predicate OpenAround(rows: Rows, i: nat, at: nat)
    requires ReferencesInRange(rows) && i < |rows.invocations|
  {
    EnterOf(rows, i) < at < ExitOf(rows, i)
  }

  // Invocation i is the one opened last among those open around a sequence number.
  ghost predicate OpenedLast(rows: Rows, i: int, at: nat)
    requires ReferencesInRange(rows)
  {
    && 0 <= i < |rows.invocations| && OpenAround(rows, i, at)
    && forall j: nat | j < |rows.invocations| && OpenAround(rows, j, at) :: EnterOf(rows, j) <= EnterOf(rows, i)
  }

  // Invocation i names two events of its own, an entry and an exit.
  ghost predicate NamesTwo(rows: Rows, i: nat)
    requires ReferencesInRange(rows) && i < |rows.invocations|
  {
    var inv := rows.invocations[i];
    var enter, exit := rows.events[inv.enterEvent - 1], rows.events[inv.exitEvent - 1];
    && enter.invocation == i + 1 && enter.kind == EnterKind
    && exit.invocation == i + 1 && exit.kind == ExitKind
  }

  // Event e is the one its invocation names.
  ghost predicate NamedBack(rows: Rows, e: nat)
    requires TablesChecked(rows) && e < |rows.events|
  {
    var inv := rows.invocations[rows.events[e].invocation - 1];
    if rows.events[e].kind == EnterKind then inv.enterEvent == e + 1 else inv.exitEvent == e + 1
  }

  ghost predicate Contained(rows: Rows, i: nat, j: nat)
    requires ReferencesInRange(rows) && i < |rows.invocations| && j < |rows.invocations|
  {
    EnterOf(rows, i) < EnterOf(rows, j) < ExitOf(rows, i) ==> ExitOf(rows, j) < ExitOf(rows, i)
  }

  ghost predicate UnderParent(rows: Rows, i: nat)
    requires ReferencesInRange(rows) && i < |rows.invocations|
  {
    if rows.invocations[i].parent == 0
    then forall j: nat | j < |rows.invocations| :: !OpenAround(rows, j, EnterOf(rows, i))
    else OpenedLast(rows, rows.invocations[i].parent - 1, EnterOf(rows, i))
  }

  // Invocations and events name each other; intervals do not cross; parents and submissions name
  // the invocation opened last; no more than depth invocations are ever open.
  ghost predicate LifecyclesNest(rows: Rows, depth: nat)
    requires ReferencesInRange(rows) && TablesChecked(rows)
  {
    && (forall i: nat | i < |rows.invocations| :: NamesTwo(rows, i))
    && (forall e: nat | e < |rows.events| :: NamedBack(rows, e))
    && (forall i: nat, j: nat | i < |rows.invocations| && j < |rows.invocations| :: Contained(rows, i, j))
    && (forall i: nat | i < |rows.invocations| :: UnderParent(rows, i))
    && (forall s: nat | s < |rows.submissions| ::
          OpenedLast(rows, rows.submissions[s].invocation - 1, rows.submissions[s].sequence))
    && (forall i: nat | i < |rows.invocations| :: |OpenWith(rows, i)| <= depth)
  }

  // The invocations open when invocation i is opened, itself included.
  ghost function OpenWith(rows: Rows, i: nat): set<nat>
    requires ReferencesInRange(rows) && i < |rows.invocations|
  {
    set j: nat | j < |rows.invocations| && EnterOf(rows, j) <= EnterOf(rows, i) < ExitOf(rows, j)
  }

  lemma SpanIs(rows: Rows, i: nat)
    requires ReferencesInRange(rows) && i < |rows.invocations|
    requires forall e | 0 <= e < |rows.events| :: rows.events[e].sequence > 0
    ensures var span := Spans(rows)[i];
      && span.enterAt + 1 == EnterOf(rows, i) && span.exitAt + 1 == ExitOf(rows, i)
      && span.parent == rows.invocations[i].parent
  {
  }

  lemma ItemIs(rows: Rows, timeline: seq<Mark>, mark: Mark)
    requires IsTimeline(timeline, rows) && ValidMark(rows, mark) && TablesInRange(rows)
    ensures 1 <= SequenceOf(rows, mark) <= |timeline| && timeline[SequenceOf(rows, mark) - 1] == mark
    ensures Items(rows, timeline)[SequenceOf(rows, mark) - 1] == ItemOf(rows, mark)
  {
    Listed(rows, timeline, mark);
  }

  lemma CompleteAt(rows: Rows, timeline: seq<Mark>, i: nat)
    requires Prepared(rows, timeline) && InBounds(Items(rows, timeline), Spans(rows)) && i < |rows.invocations|
    ensures var (items, span) := (Items(rows, timeline), Spans(rows)[i]);
      items[span.enterAt] == Enter(i) && items[span.exitAt] == Exit(i) <==> NamesTwo(rows, i)
  {
    hide IsTimeline, Items;
    SpanIs(rows, i);
    ItemIs(rows, timeline, EventMark(rows.invocations[i].enterEvent - 1));
    ItemIs(rows, timeline, EventMark(rows.invocations[i].exitEvent - 1));
  }

  // What Matched asks of position at.
  ghost predicate MatchedAt(timeline: seq<Item>, spans: seq<Span>, at: nat)
    requires at < |timeline|
  {
    match timeline[at]
    case Enter(i) => i < |spans| && spans[i].enterAt == at
    case Exit(i) => i < |spans| && spans[i].exitAt == at
    case Submit(i) => i < |spans|
    case Draw => true
  }

  lemma MatchedAtMark(rows: Rows, timeline: seq<Mark>, at: nat)
    requires Prepared(rows, timeline) && at < |timeline|
    ensures MatchedAt(Items(rows, timeline), Spans(rows), at) <==>
      (timeline[at].EventMark? ==> NamedBack(rows, timeline[at].e))
  {
    assert ValidMark(rows, timeline[at]) && SequenceOf(rows, timeline[at]) == at + 1;
    hide IsTimeline;
    ItemIs(rows, timeline, timeline[at]);
    if timeline[at].EventMark? {
      var e := timeline[at].e;
      var i: nat := rows.events[e].invocation - 1;
      SpanIs(rows, i);
      NamedEvent(rows, timeline, at, e, rows.invocations[i].enterEvent);
      NamedEvent(rows, timeline, at, e, rows.invocations[i].exitEvent);
    }
  }

  ghost predicate MatchedEverywhere(items: seq<Item>, spans: seq<Span>) {
    forall at: nat | at < |items| :: MatchedAt(items, spans, at)
  }

  lemma EventsNamedBack(rows: Rows, timeline: seq<Mark>)
    requires Prepared(rows, timeline)
    ensures MatchedEverywhere(Items(rows, timeline), Spans(rows)) <==>
            forall e: nat | e < |rows.events| :: NamedBack(rows, e)
  {
    var (items, spans) := (Items(rows, timeline), Spans(rows));
    hide IsTimeline, NamedBack, Items, Spans, MatchedAt;
    if MatchedEverywhere(items, spans) {
      forall e: nat | e < |rows.events| ensures NamedBack(rows, e) {
        ItemIs(rows, timeline, EventMark(e));
        MatchedAtMark(rows, timeline, rows.events[e].sequence - 1);
      }
    }
    if forall e: nat | e < |rows.events| :: NamedBack(rows, e) {
      forall at: nat | at < |items| ensures MatchedAt(items, spans, at) {
        MarksValid(rows, timeline, at);
        MatchedAtMark(rows, timeline, at);
      }
    }
  }

  lemma AllComplete(rows: Rows, timeline: seq<Mark>)
    requires Prepared(rows, timeline) && InBounds(Items(rows, timeline), Spans(rows))
    ensures Complete(Items(rows, timeline), Spans(rows)) <==>
            forall i: nat | i < |rows.invocations| :: NamesTwo(rows, i)
  {
    var (items, spans) := (Items(rows, timeline), Spans(rows));
    hide IsTimeline, NamesTwo, Items, Spans;
    forall i: nat | i < |rows.invocations|
      ensures items[spans[i].enterAt] == Enter(i) && items[spans[i].exitAt] == Exit(i) <==> NamesTwo(rows, i)
    {
      CompleteAt(rows, timeline, i);
    }
  }

  lemma MatchedIsNamed(rows: Rows, timeline: seq<Mark>)
    requires Prepared(rows, timeline) && InBounds(Items(rows, timeline), Spans(rows))
    ensures Matched(Items(rows, timeline), Spans(rows)) <==>
      && (forall i: nat | i < |rows.invocations| :: NamesTwo(rows, i))
      && (forall e: nat | e < |rows.events| :: NamedBack(rows, e))
  {
    var (items, spans) := (Items(rows, timeline), Spans(rows));
    hide IsTimeline, NamesTwo, NamedBack, Items, Spans, MatchedEverywhere, Complete, Matched, InBounds;
    MatchedParts(items, spans);
    EventsNamedBack(rows, timeline);
    AllComplete(rows, timeline);
  }

  lemma MarksValid(rows: Rows, timeline: seq<Mark>, at: nat)
    requires IsTimeline(timeline, rows) && at < |timeline|
    ensures ValidMark(rows, timeline[at]) && SequenceOf(rows, timeline[at]) == at + 1
  {
  }

  lemma MatchedParts(items: seq<Item>, spans: seq<Span>)
    requires InBounds(items, spans)
    ensures Matched(items, spans) <==> Complete(items, spans) && MatchedEverywhere(items, spans)
  {
    hide Complete;
    if MatchedEverywhere(items, spans) {
      forall at | 0 <= at < |items|
        ensures match items[at]
          case Enter(i) => i < |spans| && spans[i].enterAt == at
          case Exit(i) => i < |spans| && spans[i].exitAt == at
          case Submit(i) => i < |spans|
          case Draw => true
      {
        assert MatchedAt(items, spans, at);
      }
    }
  }

  lemma EnclosesIs(rows: Rows, j: nat, at: nat)
    requires ReferencesInRange(rows) && j < |rows.invocations|
    requires forall e | 0 <= e < |rows.events| :: rows.events[e].sequence > 0
    ensures Encloses(Spans(rows)[j], at) <==> OpenAround(rows, j, at + 1)
  {
    SpanIs(rows, j);
  }

  lemma InnermostIs(rows: Rows, i: nat, at: nat)
    requires ReferencesInRange(rows)
    requires forall e | 0 <= e < |rows.events| :: rows.events[e].sequence > 0
    ensures Innermost(Spans(rows), i, at) <==> OpenedLast(rows, i, at + 1)
  {
    hide Encloses, OpenAround;
    forall j: nat | j < |rows.invocations|
      ensures Encloses(Spans(rows)[j], at) <==> OpenAround(rows, j, at + 1)
      ensures Spans(rows)[j].enterAt + 1 == EnterOf(rows, j)
    {
      EnclosesIs(rows, j, at);
      SpanIs(rows, j);
    }
    hide Spans, EnterOf;
  }

  lemma CrossingIs(rows: Rows)
    requires ReferencesInRange(rows) && forall e | 0 <= e < |rows.events| :: rows.events[e].sequence > 0
    ensures NoCrossing(Spans(rows)) <==>
      forall i: nat, j: nat | i < |rows.invocations| && j < |rows.invocations| :: Contained(rows, i, j)
  {
    forall i: nat, j: nat | i < |rows.invocations| && j < |rows.invocations|
      ensures (Encloses(Spans(rows)[i], Spans(rows)[j].enterAt) ==> Spans(rows)[j].exitAt < Spans(rows)[i].exitAt)
              <==> Contained(rows, i, j)
    {
      SpanIs(rows, i);
      SpanIs(rows, j);
    }
    hide Spans, Contained, Encloses;
  }

  lemma ParentIs(rows: Rows, i: nat)
    requires ReferencesInRange(rows) && i < |rows.invocations|
    requires forall e | 0 <= e < |rows.events| :: rows.events[e].sequence > 0
    ensures ParentInnermost(Spans(rows), i) <==> UnderParent(rows, i)
  {
    hide Innermost, OpenedLast, Encloses, OpenAround;
    SpanIs(rows, i);
    var at, enter := Spans(rows)[i].enterAt, EnterOf(rows, i);
    forall j: nat | j < |rows.invocations| ensures Encloses(Spans(rows)[j], at) <==> OpenAround(rows, j, enter) {
      EnclosesIs(rows, j, at);
    }
    if rows.invocations[i].parent > 0 {
      InnermostIs(rows, rows.invocations[i].parent - 1, at);
    }
  }

  lemma SubmitsAre(rows: Rows, timeline: seq<Mark>)
    requires Prepared(rows, timeline)
    ensures SubmitsInnermost(Items(rows, timeline), Spans(rows)) <==>
      forall s: nat | s < |rows.submissions| ::
        OpenedLast(rows, rows.submissions[s].invocation - 1, rows.submissions[s].sequence)
  {
    var (items, spans) := (Items(rows, timeline), Spans(rows));
    hide IsTimeline, Innermost, OpenedLast, Spans;
    forall s: nat | s < |rows.submissions|
      ensures var at: int := rows.submissions[s].sequence - 1;
        && 0 <= at < |items| && items[at] == Submit(rows.submissions[s].invocation - 1)
        && timeline[at] == SubmissionMark(s)
        && (Innermost(spans, rows.submissions[s].invocation - 1, at) <==>
            OpenedLast(rows, rows.submissions[s].invocation - 1, rows.submissions[s].sequence))
    {
      ItemIs(rows, timeline, SubmissionMark(s));
      InnermostIs(rows, rows.submissions[s].invocation - 1, rows.submissions[s].sequence - 1);
    }
    forall at: nat | at < |items| && items[at].Submit?
      ensures timeline[at].SubmissionMark? && timeline[at].s < |rows.submissions|
      ensures rows.submissions[timeline[at].s].sequence == at + 1
    {
      MarksValid(rows, timeline, at);
    }
  }

  lemma OpenWithIs(rows: Rows, i: nat)
    requires ReferencesInRange(rows) && i < |rows.invocations|
    requires forall e | 0 <= e < |rows.events| :: rows.events[e].sequence > 0
    ensures OpenAt(Spans(rows), Spans(rows)[i].enterAt) == OpenWith(rows, i)
  {
    forall j: nat | j < |rows.invocations|
      ensures Spans(rows)[j].enterAt + 1 == EnterOf(rows, j) && Spans(rows)[j].exitAt + 1 == ExitOf(rows, j)
    {
      SpanIs(rows, j);
    }
    hide Spans;
  }

  // As many invocations are open at any place as when the last of them was opened.
  lemma DeepestAtEntry(spans: seq<Span>, at: nat) returns (i: nat)
    requires OpenAt(spans, at) != {}
    ensures i in OpenAt(spans, at) && OpenAt(spans, at) <= OpenAt(spans, spans[i].enterAt)
  {
    i := LatestOf(spans, OpenAt(spans, at));
  }

  lemma {:induction false} LatestOf(spans: seq<Span>, open: set<nat>) returns (i: nat)
    requires open != {} && forall j | j in open :: j < |spans|
    ensures i in open && forall j | j in open :: spans[j].enterAt <= spans[i].enterAt
  {
    var x :| x in open;
    i := x;
    if open != {x} {
      var y := LatestOf(spans, open - {x});
      if spans[x].enterAt < spans[y].enterAt { i := y; }
    }
  }

  lemma {:induction false} SubsetCount(a: set<nat>, b: set<nat>)
    requires a <= b
    ensures |a| <= |b|
  {
    assert b == a + (b - a);
  }

  lemma DepthIs(rows: Rows, timeline: seq<Mark>, depth: nat)
    requires Prepared(rows, timeline) && InBounds(Items(rows, timeline), Spans(rows))
    ensures WithinDepth(Items(rows, timeline), Spans(rows), depth) <==>
      forall i: nat | i < |rows.invocations| :: |OpenWith(rows, i)| <= depth
  {
    var (items, spans) := (Items(rows, timeline), Spans(rows));
    hide Items, Spans, IsTimeline, OpenAt, OpenWith;
    forall i: nat | i < |rows.invocations|
      ensures OpenAt(spans, spans[i].enterAt) == OpenWith(rows, i) && spans[i].enterAt < |items|
    {
      OpenWithIs(rows, i);
    }
    if forall i: nat | i < |rows.invocations| :: |OpenWith(rows, i)| <= depth {
      forall at: nat | at < |items| ensures |OpenAt(spans, at)| <= depth {
        if OpenAt(spans, at) != {} {
          var i := DeepestAtEntry(spans, at);
          OpenIsInvocation(spans, at, i);
          SubsetCount(OpenAt(spans, at), OpenAt(spans, spans[i].enterAt));
        }
      }
    }
  }

  lemma OpenIsInvocation(spans: seq<Span>, at: nat, i: nat)
    requires i in OpenAt(spans, at)
    ensures i < |spans|
  {
  }

  // ---------- the whole chronology ----------

  // The stack pass and the frame check over the merged timeline decide these two conditions on rows.
  lemma ChronologyIsNesting(rows: Rows, timeline: seq<Mark>, depth: nat)
    requires TablesChecked(rows) && ReferencesInRange(rows) && IsTimeline(timeline, rows)
    ensures ChronologyValid(rows, timeline, depth) <==> FramesFollow(rows) && LifecyclesNest(rows, depth)
  {
    SpansInBounds(rows, timeline);
    hide IsTimeline, FramesMonotone, FramesFollow, Matched, NoCrossing, WithinDepth, SubmitsInnermost, NamesTwo,
         NamedBack, Contained, OpenedLast, OpenWith, ParentInnermost, UnderParent, TablesChecked;
    MonotoneIsFollowing(rows, timeline);
    MatchedIsNamed(rows, timeline);
    CrossingIs(rows);
    forall i: nat | i < |rows.invocations| ensures ParentInnermost(Spans(rows), i) <==> UnderParent(rows, i) {
      ParentIs(rows, i);
    }
    SubmitsAre(rows, timeline);
    DepthIs(rows, timeline, depth);
  }

  // ---------- primitives and memberships ----------

  // Each range starts where the previous one ends; the last one ends at 2^32 at the latest.
  ghost predicate RangesFollow(rows: Rows) {
    var s := rows.submissions;
    && (forall i | 0 <= i < |s| :: s[i].primitiveCount > 0)
    && (s != [] ==> s[0].primitiveBegin == 0)
    && (forall i, j | 0 <= i < |s| && j == i + 1 < |s| ::
          s[j].primitiveBegin == s[i].primitiveBegin + s[i].primitiveCount)
    && (s != [] ==> s[|s| - 1].primitiveBegin + s[|s| - 1].primitiveCount <= 0x1_0000_0000)
  }

  lemma {:induction false} BeginIsSum(rows: Rows, n: nat)
    requires n < |rows.submissions| && rows.submissions[0].primitiveBegin == 0
    requires forall i, j | 0 <= i < |rows.submissions| && j == i + 1 < |rows.submissions| ::
      rows.submissions[j].primitiveBegin == rows.submissions[i].primitiveBegin + rows.submissions[i].primitiveCount
    ensures rows.submissions[n].primitiveBegin == Sum(PrimitiveCounts(rows)[..n])
  {
    if n > 0 {
      var k: nat := n - 1;
      BeginIsSum(rows, k);
      SumPrefix(PrimitiveCounts(rows), k);
    }
  }

  lemma TilingIsFollowing(rows: Rows)
    ensures PrimitivesTile(rows) <==> RangesFollow(rows)
  {
    hide Sum;
    var s, counts := rows.submissions, PrimitiveCounts(rows);
    if s == [] {
      assert counts == [];
      SumOfZeros(counts);
    } else {
      var last: nat := |s| - 1;
      SumPrefix(counts, last);
      assert counts[..last + 1] == counts;
      if PrimitivesTile(rows) {
        SumOfZeros(counts[..0]);
        forall i: nat, j | i < |s| && j == i + 1 < |s|
          ensures s[j].primitiveBegin == s[i].primitiveBegin + s[i].primitiveCount
        {
          SumPrefix(counts, i);
        }
      }
      if RangesFollow(rows) {
        forall n: nat | n < |s| ensures s[n].primitiveBegin == Sum(counts[..n]) { BeginIsSum(rows, n); }
      }
    }
  }

  ghost predicate SubmissionNamed(rows: Rows, s: nat) {
    exists a: nat :: a < |rows.memberships| && rows.memberships[a].submission == s + 1
  }

  ghost predicate DrawNamed(rows: Rows, d: nat) {
    exists a: nat :: a < |rows.memberships| && rows.memberships[a].draw == d + 1
  }

  // In producer order: by draw, then by submission.
  predicate InOrder(rows: Rows, a: nat, b: nat)
    requires a < |rows.memberships| && b < |rows.memberships|
  {
    var (m, n) := (rows.memberships[a], rows.memberships[b]);
    m.draw < n.draw || (m.draw == n.draw && m.submission < n.submission)
  }

  // The draw of a membership was submitted, and comes after its submission.
  predicate ClaimedLater(rows: Rows, a: nat)
    requires TablesChecked(rows) && a < |rows.memberships|
  {
    var submission := rows.submissions[rows.memberships[a].submission - 1];
    var draw := rows.draws[rows.memberships[a].draw - 1];
    draw.disposition == Submitted && submission.sequence < draw.sequence && submission.frame <= draw.frame
  }

  // Every submission is named once, by a later submitted draw; every submitted draw is named.
  ghost predicate DrawsClaim(rows: Rows)
    requires TablesChecked(rows)
  {
    var m := rows.memberships;
    && (forall a: nat, b: nat | b == a + 1 < |m| :: InOrder(rows, a, b))
    && (forall a: nat, b: nat | a < b < |m| :: m[a].submission != m[b].submission)
    && (forall s: nat | s < |rows.submissions| :: SubmissionNamed(rows, s))
    && (forall a: nat | a < |m| :: ClaimedLater(rows, a))
    && (forall d: nat | d < |rows.draws| && rows.draws[d].disposition == Submitted :: DrawNamed(rows, d))
  }

  lemma {:induction false} CountIsNamed(rows: Rows, k: nat, d: nat)
    requires k <= |rows.memberships|
    ensures ClaimCount(rows, k, d) > 0 <==> exists a: nat :: a < k && rows.memberships[a].draw == d + 1
  {
    if k > 0 {
      CountIsNamed(rows, k - 1, d);
      assert rows.memberships[k - 1].draw == d + 1 ==> exists a: nat :: a < k && rows.memberships[a].draw == d + 1;
    }
  }

  lemma SubmissionIs(rows: Rows, s: nat)
    ensures SubmissionClaimed(rows, |rows.memberships|, s + 1) <==> SubmissionNamed(rows, s)
  {
    if SubmissionNamed(rows, s) {
      var a: nat :| a < |rows.memberships| && rows.memberships[a].submission == s + 1;
    }
  }

  lemma MembershipsClaim(rows: Rows)
    requires TablesChecked(rows)
    ensures MembershipsValid(rows) <==> DrawsClaim(rows)
  {
    hide ClaimCount, SubmissionClaimed, SubmissionNamed, DrawNamed;
    forall d: nat | d < |rows.draws| ensures ClaimCount(rows, |rows.memberships|, d) > 0 <==> DrawNamed(rows, d) {
      CountIsNamed(rows, |rows.memberships|, d);
      DrawNamedIs(rows, d);
    }
    ClaimsAre(rows);
    OrderIs(rows);
    FollowsAre(rows);
  }

  lemma DrawNamedIs(rows: Rows, d: nat)
    ensures DrawNamed(rows, d) <==> exists a: nat :: a < |rows.memberships| && rows.memberships[a].draw == d + 1
  {
  }

  lemma ClaimsAre(rows: Rows)
    ensures (forall s: nat | 0 < s <= |rows.submissions| :: SubmissionClaimed(rows, |rows.memberships|, s)) <==>
            forall s: nat | s < |rows.submissions| :: SubmissionNamed(rows, s)
  {
    hide SubmissionClaimed, SubmissionNamed;
    if forall s: nat | 0 < s <= |rows.submissions| :: SubmissionClaimed(rows, |rows.memberships|, s) {
      forall s: nat | s < |rows.submissions| ensures SubmissionNamed(rows, s) { SubmissionIs(rows, s); }
    }
    if forall s: nat | s < |rows.submissions| :: SubmissionNamed(rows, s) {
      forall s: nat | 0 < s <= |rows.submissions| ensures SubmissionClaimed(rows, |rows.memberships|, s) {
        SubmissionIs(rows, s - 1);
      }
    }
  }

  lemma OrderIs(rows: Rows)
    ensures MembersOrdered(rows, |rows.memberships|) <==>
            forall a: nat, b: nat | b == a + 1 < |rows.memberships| :: InOrder(rows, a, b)
  {
    if forall a: nat, b: nat | b == a + 1 < |rows.memberships| :: InOrder(rows, a, b) {
      forall a, b | 0 <= a < |rows.memberships| && b == a + 1 < |rows.memberships|
        ensures MemberKeyLess(rows.memberships[a], rows.memberships[b])
      {
        assert InOrder(rows, a, b);
      }
    }
  }

  lemma FollowsAre(rows: Rows)
    requires TablesChecked(rows)
    ensures (forall a | 0 <= a < |rows.memberships| :: DrawFollows(rows, rows.memberships[a])) <==>
            forall a: nat | a < |rows.memberships| :: ClaimedLater(rows, a)
  {
    if forall a: nat | a < |rows.memberships| :: ClaimedLater(rows, a) {
      forall a | 0 <= a < |rows.memberships| ensures DrawFollows(rows, rows.memberships[a]) {
        assert ClaimedLater(rows, a);
      }
    }
  }

  // ---------- the whole temporal model ----------

  // Every invocation names two events of the table.
  ghost predicate EventsNamed(rows: Rows) {
    var (n, v) := (|rows.events|, rows.invocations);
    && (forall i | 0 <= i < |v| :: v[i].enterEvent >= 1 && v[i].exitEvent >= 1)
    && (forall i | 0 <= i < |v| :: v[i].enterEvent <= n && v[i].exitEvent <= n)
  }

  lemma NamedIsInRange(rows: Rows)
    ensures EventsNamed(rows) <==> ReferencesInRange(rows)
  {
  }

  // A trace is accepted exactly when its rows meet these conditions.
  lemma TemporalExactly(rows: Rows, depth: nat)
    requires TablesChecked(rows)
    ensures TemporalValid(rows, depth) <==>
      && EventsNamed(rows) && SequencesCover(rows) && FramesFollow(rows)
      && (NamedIsInRange(rows); LifecyclesNest(rows, depth))
      && RangesFollow(rows) && DrawsClaim(rows)
  {
    NamedIsInRange(rows);
    hide SequencesCover, FramesFollow, LifecyclesNest, RangesFollow, DrawsClaim, ChronologyValid, PrimitivesTile,
         MembershipsValid, IsTimeline, SequencesPermute, TablesChecked;
    TimelineIffPermutation(rows);
    CoverIsPermutation(rows);
    TilingIsFollowing(rows);
    MembershipsClaim(rows);
    if ReferencesInRange(rows) {
      if timeline :| IsTimeline(timeline, rows) {
        OnlyTimeline(rows, timeline, depth);
        ChronologyIsNesting(rows, timeline, depth);
      }
    }
  }
}
