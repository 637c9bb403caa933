// Transition rows of a front-end trace (tools/validate_frontend_trace.py) and where two of them
// part (tools/analyze_frontend_trace.py).
module TransitionTrace {
  import opened Numbering
  import opened Options

  const MAX_FRAME_COUNT := 600
  const MAX_TRANSITIONS := 1_024
  const SCENARIOS := 5

  datatype Transition = Transition(frameDelta: nat, ordinal: nat)

  // A row with its absolute frame.
  datatype Point = Point(frame: nat, ordinal: nat)

  // ---------- accepted rows ----------

  // The frame of the last of the first n rows.
  function Absolute(rows: seq<Transition>, n: nat): nat
    requires n <= |rows|
  {
    if n == 0 then 0 else Absolute(rows, n - 1) + rows[n - 1].frameDelta
  }

  function Ordinals(rows: seq<Transition>): seq<nat> {
    seq(|rows|, i requires 0 <= i < |rows| => rows[i].ordinal)
  }

  ghost predicate InFrames(rows: seq<Transition>, n: nat, frameCount: nat)
    requires n <= |rows|
  {
    forall k: nat | 0 < k <= n :: Absolute(rows, k) < frameCount
  }

  predicate FieldsInRange(row: Transition) { row.frameDelta < MAX_FRAME_COUNT && row.ordinal < MAX_TRANSITIONS }

  // The ordinals number states by first appearance, and no two neighbours are the same state.
  ghost predicate TransitionsAccepted(rows: seq<Transition>, frameCount: nat, expectedCount: nat) {
    && 0 < |rows| <= MAX_TRANSITIONS && |rows| == expectedCount
    && (forall i | 0 <= i < |rows| :: FieldsInRange(rows[i]))
    && InFrames(rows, |rows|, frameCount)
    && NoEqualNeighbours(Ordinals(rows)) && Normalized(Ordinals(rows))
  }

  method ValidateTransitionOrdinals(rows: seq<Transition>, frameCount: nat, expectedCount: nat) returns (ok: bool)
    ensures ok <==> TransitionsAccepted(rows, frameCount, expectedCount)
  {
    hide Normalized, NormalSoFar;
    if rows == [] || |rows| > MAX_TRANSITIONS || |rows| != expectedCount { return false; }
    ghost var s := Ordinals(rows);
    var absoluteFrame, nextOrdinal: nat := 0, 0;
    var priorOrdinal: Option<nat> := None;
    NothingYet(s);
    for i := 0 to |rows|
      invariant absoluteFrame == Absolute(rows, i) && InFrames(rows, i, frameCount)
      invariant forall k | 0 <= k < i :: FieldsInRange(rows[k])
      invariant priorOrdinal == if i == 0 then None else Some(s[i - 1])
      invariant NoEqualNeighbours(s[..i]) && NormalSoFar(s, i, nextOrdinal)
    {
      var row := rows[i];
      if !FieldsInRange(row) { return false; }
      absoluteFrame := absoluteFrame + row.frameDelta;
      if absoluteFrame >= frameCount {
        assert !(Absolute(rows, i + 1) < frameCount);
        return false;
      }
      Neighbours(s, i);
      if priorOrdinal == Some(row.ordinal) { return false; }
      if row.ordinal == nextOrdinal {
        NextNumber(s, i, nextOrdinal);
        nextOrdinal := nextOrdinal + 1;
      } else if row.ordinal > nextOrdinal {
        SkippedNumber(s, i, nextOrdinal);
        return false;
      } else {
        SeenNumber(s, i, nextOrdinal);
      }
      priorOrdinal := Some(row.ordinal);
    }
    assert s[..|rows|] == s;
    AllNormal(s, nextOrdinal);
    ok := true;
  }

  lemma NothingYet(s: seq<nat>)
    ensures NormalSoFar(s, 0, 0)
  {
    assert Numbered(s[..0]) == s[..0];
  }

  // Once a row was read some number was used: the check that ordinal zero was introduced
  // can never fire.
  lemma AllNormal(s: seq<nat>, next: nat)
    requires NormalSoFar(s, |s|, next)
    ensures Normalized(s) && (s != [] ==> next > 0)
  {
    assert s[..|s|] == s;
    if s != [] {
      assert s[0] in Distinct(s);
    }
  }

  lemma Neighbours(s: seq<nat>, i: nat)
    requires i < |s| && NoEqualNeighbours(s[..i])
    ensures NoEqualNeighbours(s[..i + 1]) <==> i == 0 || s[i - 1] != s[i]
    ensures i > 0 && s[i - 1] == s[i] ==> !NoEqualNeighbours(s)
  {
    var t := s[..i + 1];
    if i > 0 {
      var h := i - 1;
      assert t[h] == s[h] && t[i] == s[i];
    }
    forall a, b | 0 <= a < i && b == a + 1 < i ensures t[a] != t[b] {
      assert s[..i][a] != s[..i][b];
    }
  }

  // Accepted ordinals are exactly the numberings of state sequences without equal neighbours.
  lemma AcceptedAreNumberings(ordinals: seq<nat>)
    ensures NoEqualNeighbours(ordinals) && Normalized(ordinals) <==>
      exists states: seq<nat> :: NoEqualNeighbours(states) && ordinals == Numbered(states)
  {
    hide Numbered;
    if states: seq<nat> :| NoEqualNeighbours(states) && ordinals == Numbered(states) {
      NumberedIsNormalized(states);
    }
  }

  // ---------- shapes and histories ----------

  ghost function Shape(rows: seq<Transition>): (r: seq<Point>)
    ensures |r| == |rows|
  {
    seq(|rows|, i requires 0 <= i < |rows| => Point(Absolute(rows, i + 1), rows[i].ordinal))
  }

  method AbsoluteTransitionShape(rows: seq<Transition>) returns (shape: seq<Point>)
    ensures shape == Shape(rows)
  {
    var absoluteFrame := 0;
    shape := [];
    for i := 0 to |rows|
      invariant absoluteFrame == Absolute(rows, i) && shape == Shape(rows)[..i]
    {
      absoluteFrame := absoluteFrame + rows[i].frameDelta;
      shape := shape + [Point(absoluteFrame, rows[i].ordinal)];
    }
  }

  ghost predicate Chronological(shape: seq<Point>) {
    forall i, j | 0 <= i < j < |shape| :: shape[i].frame <= shape[j].frame
  }

  lemma {:induction false} AbsoluteGrows(rows: seq<Transition>, m: nat, n: nat)
    requires m <= n <= |rows|
    ensures Absolute(rows, m) <= Absolute(rows, n)
    decreases n
  {
    if m < n {
      AbsoluteGrows(rows, m, n - 1);
    }
  }

  lemma ShapesAreChronological(rows: seq<Transition>)
    ensures Chronological(Shape(rows))
  {
    forall i: nat, j: nat | i < j < |rows| ensures Shape(rows)[i].frame <= Shape(rows)[j].frame {
      AbsoluteGrows(rows, i + 1, j + 1);
    }
  }

  // Absolute frames and deltas carry the same information.
  lemma ShapeDeterminesRows(a: seq<Transition>, b: seq<Transition>)
    requires Shape(a) == Shape(b)
    ensures a == b
  {
    assert |a| == |b|;
    forall i: nat | i < |a| ensures a[i] == b[i] {
      SameFrames(a, b, i);
      SameFrames(a, b, i + 1);
      assert Shape(a)[i] == Shape(b)[i];
    }
  }

  lemma SameFrames(a: seq<Transition>, b: seq<Transition>, n: nat)
    requires Shape(a) == Shape(b) && n <= |a| == |b|
    ensures Absolute(a, n) == Absolute(b, n)
  {
    if n > 0 {
      var i := n - 1;
      assert Shape(a)[i] == Shape(b)[i];
    }
  }

  // The rows up to a frame.
  ghost function History(shape: seq<Point>, frame: nat): seq<Point> {
    if shape == [] then []
    else
      var n := |shape| - 1;
      History(shape[..n], frame) + if shape[n].frame <= frame then [shape[n]] else []
  }

  // The least frame at which the histories differ.
  ghost predicate DivergesAt(a: seq<Point>, b: seq<Point>, frame: nat) {
    History(a, frame) != History(b, frame) && forall g: nat | g < frame :: History(a, g) == History(b, g)
  }

  // A history of a chronological shape is a prefix of it.
  lemma {:induction false} HistoryIsPrefix(shape: seq<Point>, frame: nat, k: nat)
    requires k <= |shape|
    requires forall i | 0 <= i < k :: shape[i].frame <= frame
    requires forall i | k <= i < |shape| :: shape[i].frame > frame
    ensures History(shape, frame) == shape[..k]
    decreases |shape|
  {
    if shape != [] {
      var n: nat := |shape| - 1;
      HistoryIsPrefix(shape[..n], frame, if k <= n then k else n);
      assert k <= n ==> shape[..n][..k] == shape[..k];
      assert k > n ==> shape[..n] + [shape[n]] == shape[..k];
    }
  }

  lemma HistoryCut(shape: seq<Point>, frame: nat) returns (k: nat)
    requires Chronological(shape)
    ensures k <= |shape| && History(shape, frame) == shape[..k]
    ensures forall i | 0 <= i < |shape| :: shape[i].frame <= frame <==> i < k
  {
    k := 0;
    while k < |shape| && shape[k].frame <= frame
      invariant k <= |shape| && forall i | 0 <= i < k :: shape[i].frame <= frame
    {
      k := k + 1;
    }
    HistoryIsPrefix(shape, frame, k);
  }

  // The shapes agree before index and not at it: one ends there, or the rows differ.
  ghost predicate PartAt(a: seq<Point>, b: seq<Point>, index: nat) {
    && index <= |a| && index <= |b| && a[..index] == b[..index]
    && (index < |a| || index < |b|)
    && (index < |a| && index < |b| ==> a[index] != b[index])
  }

  // The earlier of the frames of the rows at index.
  function PartingFrame(a: seq<Point>, b: seq<Point>, index: nat): nat
    requires index < |a| || index < |b|
  {
    if index >= |a| then b[index].frame
    else if index >= |b| then a[index].frame
    else if a[index].frame <= b[index].frame then a[index].frame else b[index].frame
  }

  lemma EqualBefore(a: seq<Point>, b: seq<Point>, index: nat, g: nat)
    requires Chronological(a) && Chronological(b) && PartAt(a, b, index) && g < PartingFrame(a, b, index)
    ensures History(a, g) == History(b, g)
  {
    var k := HistoryCut(a, g);
    var m := HistoryCut(b, g);
    assert index < |a| ==> !(a[index].frame <= g);
    assert index < |b| ==> !(b[index].frame <= g);
    assert k <= index;
    assert m <= index;
    assert forall i | 0 <= i < index :: a[..index][i] == b[..index][i];
    assert forall i | 0 <= i < index :: a[i] == b[i];
    assert k < index ==> a[k] == b[k];
    assert m < index ==> a[m] == b[m];
    assert k == m;
    assert a[..k] == a[..index][..k] && b[..k] == b[..index][..k];
  }

  lemma DifferAt(a: seq<Point>, b: seq<Point>, index: nat)
    requires Chronological(a) && Chronological(b) && PartAt(a, b, index)
    ensures History(a, PartingFrame(a, b, index)) != History(b, PartingFrame(a, b, index))
  {
    var f := PartingFrame(a, b, index);
    var k := HistoryCut(a, f);
    var m := HistoryCut(b, f);
    assert index < |a| && a[index].frame <= f ==> index < k;
    assert index < |b| && b[index].frame <= f ==> index < m;
    SlicesDiffer(a, k, b, m, index);
  }

  lemma SlicesDiffer(a: seq<Point>, k: nat, b: seq<Point>, m: nat, index: nat)
    requires k <= |a| && m <= |b|
    requires k == m ==> index < k && a[index] != b[index]
    ensures a[..k] != b[..m]
  {
    if k == m {
      assert a[..k][index] == a[index] && b[..m][index] == b[index];
    } else {
      assert |a[..k]| != |b[..m]|;
    }
  }

  lemma PartingIsDivergence(a: seq<Point>, b: seq<Point>, index: nat)
    requires Chronological(a) && Chronological(b) && PartAt(a, b, index)
    ensures DivergesAt(a, b, PartingFrame(a, b, index))
  {
    DifferAt(a, b, index);
    forall g: nat | g < PartingFrame(a, b, index) ensures History(a, g) == History(b, g) {
      EqualBefore(a, b, index, g);
    }
  }

  // None exactly for equal shapes; otherwise the least frame up to which the histories differ.
  method FirstTransitionDivergenceFrame(idle: seq<Point>, action: seq<Point>) returns (r: Option<nat>)
    requires Chronological(idle) && Chronological(action)
    ensures r.None? <==> idle == action
    ensures r.Some? ==> DivergesAt(idle, action, r.value)
  {
    var commonCount := if |idle| <= |action| then |idle| else |action|;
    for index := 0 to commonCount
      invariant idle[..index] == action[..index]
    {
      if idle[index] != action[index] {
        PartingIsDivergence(idle, action, index);
        var frame := if idle[index].frame <= action[index].frame then idle[index].frame else action[index].frame;
        return Some(frame);
      }
    }
    if |idle| == |action| {
      assert idle[..commonCount] == idle && action[..commonCount] == action;
      return None;
    }
    PartingIsDivergence(idle, action, commonCount);
    var remaining := if |idle| > commonCount then idle else action;
    r := Some(remaining[commonCount].frame);
  }

  // ---------- bundles ----------

  // A validated report: its transition rows, and everything else its normalised bytes hold
  // (scenario, frame count, event and resource counts, site events).
  datatype Report<!R(==)> = Report(transitions: seq<Transition>, others: R)

  // Two trials for each scenario, idle first: the whole repeat is identical, and the
  // transitions of some action differ from those of idle.
  ghost predicate BundleAccepted<R>(reports: seq<Report<R>>) {
    && |reports| == 2 * SCENARIOS
    && (forall s: nat | s < SCENARIOS :: reports[2 * s] == reports[2 * s + 1])
    && exists s: nat :: 0 < s < SCENARIOS && reports[2 * s].transitions != reports[0].transitions
  }

  method ValidateSignatures<R(==)>(reports: seq<Report<R>>) returns (ok: bool)
    ensures ok <==> BundleAccepted(reports)
  {
    if |reports| != 2 * SCENARIOS { return false; }
    for s := 0 to SCENARIOS
      invariant forall t: nat | t < s :: reports[2 * t] == reports[2 * t + 1]
    {
      if reports[2 * s] != reports[2 * s + 1] { return false; }
    }
    for s := 1 to SCENARIOS
      invariant forall t: nat | 0 < t < s :: reports[2 * t].transitions == reports[0].transitions
    {
      if reports[2 * s].transitions != reports[0].transitions { return true; }
    }
    ok := false;
  }

  // Every accepted bundle has an action that leaves idle at some frame.
  lemma SomeActionDiverges<R>(reports: seq<Report<R>>) returns (s: nat, frame: nat)
    requires BundleAccepted(reports)
    ensures 0 < s < SCENARIOS
    ensures DivergesAt(Shape(reports[0].transitions), Shape(reports[2 * s].transitions), frame)
  {
    s :| 0 < s < SCENARIOS && reports[2 * s].transitions != reports[0].transitions;
    var idleRows, actionRows := reports[0].transitions, reports[2 * s].transitions;
    var idle, action := Shape(idleRows), Shape(actionRows);
    if idle == action {
      ShapeDeterminesRows(idleRows, actionRows);
    }
    ShapesAreChronological(idleRows);
    ShapesAreChronological(actionRows);
    var index: nat := 0;
    while index < |idle| && index < |action| && idle[index] == action[index]
      invariant index <= |idle| && index <= |action| && idle[..index] == action[..index]
    {
      index := index + 1;
    }
    assert idle[..|idle|] == idle && action[..|action|] == action;
    frame := PartingFrame(idle, action, index);
    PartingIsDivergence(idle, action, index);
  }
}
