// The lifecycle stack of tools/assemble_frontend_phase.py against a description without a
// stack: properly nested intervals, each child under its innermost enclosing invocation.
module PhaseTimeline {
  import opened Options

  // One item per temporal sequence number.
  datatype Item = Enter(invocation: nat) | Exit(invocation: nat) | Submit(invocation: nat) | Draw

  // Where an invocation says it enters and exits; parent 0 is none, parent q + 1 is invocation q.
  datatype Span = Span(enterAt: nat, exitAt: nat, parent: nat)

  // ---------- the stack machine ----------

  function Parent(stack: seq<nat>): nat {
    if stack == [] then 0 else stack[|stack| - 1] + 1
  }

  function Step(stack: seq<nat>, item: Item, at: nat, spans: seq<Span>, depth: nat): Option<seq<nat>> {
    match item
    case Enter(i) =>
      if i < |spans| && spans[i].parent == Parent(stack) && spans[i].enterAt == at && |stack| < depth
      then Some(stack + [i]) else None
    case Exit(i) =>
      if i < |spans| && Parent(stack) == i + 1 && spans[i].exitAt == at
      then Some(stack[..|stack| - 1]) else None
    case Submit(i) => if i < |spans| && Parent(stack) == i + 1 then Some(stack) else None
    case Draw => Some(stack)
  }

  function Run(timeline: seq<Item>, n: nat, spans: seq<Span>, depth: nat): Option<seq<nat>>
    requires n <= |timeline|
  {
    if n == 0 then Some([])
    else match Run(timeline, n - 1, spans, depth)
      case None => None
      case Some(stack) => Step(stack, timeline[n - 1], n - 1, spans, depth)
  }

  ghost predicate InBounds(timeline: seq<Item>, spans: seq<Span>) {
    forall i | 0 <= i < |spans| :: spans[i].enterAt < spans[i].exitAt < |timeline|
  }

  ghost predicate Complete(timeline: seq<Item>, spans: seq<Span>)
    requires InBounds(timeline, spans)
  {
    forall i | 0 <= i < |spans| ::
      timeline[spans[i].enterAt] == Enter(i) && timeline[spans[i].exitAt] == Exit(i)
  }

  ghost predicate MachineAccepts(timeline: seq<Item>, spans: seq<Span>, depth: nat)
    requires InBounds(timeline, spans)
  {
    Run(timeline, |timeline|, spans, depth) == Some([]) && Complete(timeline, spans)
  }

  // ---------- the same without a stack ----------

  predicate Encloses(span: Span, at: nat) { span.enterAt < at < span.exitAt }

  ghost predicate Innermost(spans: seq<Span>, i: nat, at: nat) {
    && i < |spans| && Encloses(spans[i], at)
    && forall j | 0 <= j < |spans| && Encloses(spans[j], at) :: spans[j].enterAt <= spans[i].enterAt
  }

  ghost function OpenAt(spans: seq<Span>, at: nat): set<nat> {
    set i: nat | i < |spans| && spans[i].enterAt <= at < spans[i].exitAt
  }

  // Every enter and exit is the one its invocation names, and conversely.
  ghost predicate Matched(timeline: seq<Item>, spans: seq<Span>)
    requires InBounds(timeline, spans)
  {
    && Complete(timeline, spans)
    && forall at | 0 <= at < |timeline| ::
         match timeline[at]
         case Enter(i) => i < |spans| && spans[i].enterAt == at
         case Exit(i) => i < |spans| && spans[i].exitAt == at
         case Submit(i) => i < |spans|
         case Draw => true
  }

  ghost predicate NoCrossing(spans: seq<Span>) {
    forall i, j | 0 <= i < |spans| && 0 <= j < |spans| && Encloses(spans[i], spans[j].enterAt) ::
      spans[j].exitAt < spans[i].exitAt
  }

  ghost predicate ParentInnermost(spans: seq<Span>, i: nat)
    requires i < |spans|
  {
    if spans[i].parent == 0 then forall j | 0 <= j < |spans| :: !Encloses(spans[j], spans[i].enterAt)
    else Innermost(spans, spans[i].parent - 1, spans[i].enterAt)
  }

  ghost predicate ParentsInnermost(spans: seq<Span>) {
    forall i | 0 <= i < |spans| :: ParentInnermost(spans, i)
  }

  ghost predicate WithinDepth(timeline: seq<Item>, spans: seq<Span>, depth: nat) {
    forall at: nat | at < |timeline| :: |OpenAt(spans, at)| <= depth
  }

  ghost predicate SubmitsInnermost(timeline: seq<Item>, spans: seq<Span>) {
    forall at: nat | at < |timeline| && timeline[at].Submit? :: Innermost(spans, timeline[at].invocation, at)
  }

  ghost predicate ProperlyNested(timeline: seq<Item>, spans: seq<Span>, depth: nat)
    requires InBounds(timeline, spans)
  {
    && Matched(timeline, spans)
    && NoCrossing(spans)
    && ParentsInnermost(spans)
    && WithinDepth(timeline, spans, depth)
    && SubmitsInnermost(timeline, spans)
  }

  // ---------- what the stack holds ----------

  // Before position n the stack lists the open invocations, outermost first.
  ghost predicate ListsOpen(stack: seq<nat>, spans: seq<Span>, n: nat) {
    && (forall i: nat :: i in stack <==> i < |spans| && spans[i].enterAt < n <= spans[i].exitAt)
    && (forall a, b | 0 <= a < b < |stack| && stack[a] < |spans| && stack[b] < |spans| ::
          spans[stack[a]].enterAt < spans[stack[b]].enterAt)
  }

  lemma EnterKeepsListing(stack: seq<nat>, timeline: seq<Item>, spans: seq<Span>, n: nat, i: nat)
    requires InBounds(timeline, spans) && Matched(timeline, spans) && n < |timeline|
    requires ListsOpen(stack, spans, n) && timeline[n] == Enter(i)
    ensures ListsOpen(stack + [i], spans, n + 1)
  {
    var next := stack + [i];
    forall j: nat ensures j in next <==> j < |spans| && spans[j].enterAt < n + 1 <= spans[j].exitAt {
      if j < |spans| && j != i {
        assert timeline[spans[j].enterAt] == Enter(j) && timeline[spans[j].exitAt] == Exit(j);
      }
    }
    forall a, b | 0 <= a < b < |next| && next[a] < |spans| && next[b] < |spans|
      ensures spans[next[a]].enterAt < spans[next[b]].enterAt
    {
      assert next[a] in next && next[b] in next && next[a] in stack;
      if b < |stack| { assert next[a] == stack[a] && next[b] == stack[b] && next[b] in stack; }
    }
  }

  lemma ExitKeepsListing(stack: seq<nat>, timeline: seq<Item>, spans: seq<Span>, n: nat, i: nat)
    requires InBounds(timeline, spans) && Matched(timeline, spans) && n < |timeline|
    requires ListsOpen(stack, spans, n) && timeline[n] == Exit(i) && Parent(stack) == i + 1
    ensures ListsOpen(stack[..|stack| - 1], spans, n + 1)
  {
    var last := |stack| - 1;
    var next := stack[..last];
    forall j: nat ensures j in next <==> j < |spans| && spans[j].enterAt < n + 1 <= spans[j].exitAt {
      PoppedListing(stack, timeline, spans, n, i, j);
    }
  }

  lemma PoppedListing(stack: seq<nat>, timeline: seq<Item>, spans: seq<Span>, n: nat, i: nat, j: nat)
    requires InBounds(timeline, spans) && Matched(timeline, spans) && n < |timeline|
    requires ListsOpen(stack, spans, n) && timeline[n] == Exit(i) && Parent(stack) == i + 1
    ensures j in stack[..|stack| - 1] <==> j < |spans| && spans[j].enterAt < n + 1 <= spans[j].exitAt
  {
    var last := |stack| - 1;
    if j in stack[..last] {
      var a :| 0 <= a < last && stack[a] == j;
      assert stack[a] in stack && stack[last] in stack;
      assert timeline[spans[j].exitAt] == Exit(j);
    }
    if j < |spans| && spans[j].enterAt < n + 1 <= spans[j].exitAt {
      assert timeline[spans[j].enterAt] == Enter(j);
      assert j in stack && j != i;
      var a :| 0 <= a < |stack| && stack[a] == j;
      assert stack[..last][a] == j;
    }
  }

  lemma OtherKeepsListing(stack: seq<nat>, timeline: seq<Item>, spans: seq<Span>, n: nat)
    requires InBounds(timeline, spans) && Matched(timeline, spans) && n < |timeline|
    requires ListsOpen(stack, spans, n) && (timeline[n].Submit? || timeline[n].Draw?)
    ensures ListsOpen(stack, spans, n + 1)
  {
    forall j: nat ensures j in stack <==> j < |spans| && spans[j].enterAt < n + 1 <= spans[j].exitAt {
      if j < |spans| {
        assert timeline[spans[j].enterAt] == Enter(j) && timeline[spans[j].exitAt] == Exit(j);
      }
    }
  }

  lemma StepKeepsListing(stack: seq<nat>, timeline: seq<Item>, spans: seq<Span>, n: nat, depth: nat)
    requires InBounds(timeline, spans) && Matched(timeline, spans) && n < |timeline|
    requires ListsOpen(stack, spans, n) && Step(stack, timeline[n], n, spans, depth).Some?
    ensures ListsOpen(Step(stack, timeline[n], n, spans, depth).value, spans, n + 1)
  {
    match timeline[n]
    case Enter(i) => EnterKeepsListing(stack, timeline, spans, n, i);
    case Exit(i) => ExitKeepsListing(stack, timeline, spans, n, i);
    case Submit(_) => OtherKeepsListing(stack, timeline, spans, n);
    case Draw => OtherKeepsListing(stack, timeline, spans, n);
  }

  lemma {:induction false} RunListsOpen(timeline: seq<Item>, spans: seq<Span>, depth: nat, n: nat)
    requires InBounds(timeline, spans) && Matched(timeline, spans) && n <= |timeline|
    requires Run(timeline, n, spans, depth).Some?
    ensures ListsOpen(Run(timeline, n, spans, depth).value, spans, n)
  {
    if n > 0 {
      RunListsOpen(timeline, spans, depth, n - 1);
      StepKeepsListing(Run(timeline, n - 1, spans, depth).value, timeline, spans, n - 1, depth);
    }
  }

  // The top of the stack entered last.
  lemma TopEnteredLast(stack: seq<nat>, spans: seq<Span>, n: nat, j: nat)
    requires ListsOpen(stack, spans, n) && j in stack
    ensures stack[|stack| - 1] < |spans| && j < |spans|
    ensures spans[j].enterAt <= spans[stack[|stack| - 1]].enterAt
  {
    var a :| 0 <= a < |stack| && stack[a] == j;
    assert stack[|stack| - 1] in stack;
  }

  // The top of the stack is the innermost invocation around position n.
  lemma TopIsInnermost(stack: seq<nat>, timeline: seq<Item>, spans: seq<Span>, n: nat)
    requires InBounds(timeline, spans) && Matched(timeline, spans) && n < |timeline|
    requires ListsOpen(stack, spans, n) && !timeline[n].Exit?
    ensures stack == [] ==> forall j | 0 <= j < |spans| :: !Encloses(spans[j], n)
    ensures stack != [] ==> Innermost(spans, stack[|stack| - 1], n)
  {
    forall j: nat | j < |spans| && Encloses(spans[j], n)
      ensures stack != [] && spans[j].enterAt <= spans[stack[|stack| - 1]].enterAt
    {
      assert j in stack;
      TopEnteredLast(stack, spans, n, j);
    }
    if stack != [] {
      var top := stack[|stack| - 1];
      assert top in stack;
      assert timeline[spans[top].exitAt] == Exit(top);
    }
  }

  lemma InnermostIsUnique(timeline: seq<Item>, spans: seq<Span>, i: nat, j: nat, at: nat)
    requires InBounds(timeline, spans) && Matched(timeline, spans)
    requires Innermost(spans, i, at) && Innermost(spans, j, at)
    ensures i == j
  {
    assert timeline[spans[i].enterAt] == Enter(i) && timeline[spans[j].enterAt] == Enter(j);
  }

  // ---------- what the machine accepts is properly nested ----------

  lemma {:induction false} RunPrefix(timeline: seq<Item>, spans: seq<Span>, depth: nat, n: nat, k: nat)
    requires k <= n <= |timeline| && Run(timeline, n, spans, depth).Some?
    ensures Run(timeline, k, spans, depth).Some?
    decreases n
  {
    if k < n { RunPrefix(timeline, spans, depth, n - 1, k); }
  }

  lemma StepAt(timeline: seq<Item>, spans: seq<Span>, depth: nat, at: nat) returns (stack: seq<nat>)
    requires at < |timeline| && Run(timeline, |timeline|, spans, depth).Some?
    ensures Run(timeline, at, spans, depth) == Some(stack)
    ensures Step(stack, timeline[at], at, spans, depth).Some?
  {
    RunPrefix(timeline, spans, depth, |timeline|, at);
    RunPrefix(timeline, spans, depth, |timeline|, at + 1);
    stack := Run(timeline, at, spans, depth).value;
  }

  lemma MachineMatches(timeline: seq<Item>, spans: seq<Span>, depth: nat)
    requires InBounds(timeline, spans) && MachineAccepts(timeline, spans, depth)
    ensures Matched(timeline, spans)
  {
    forall at: nat | at < |timeline|
      ensures match timeline[at]
              case Enter(i) => i < |spans| && spans[i].enterAt == at
              case Exit(i) => i < |spans| && spans[i].exitAt == at
              case Submit(i) => i < |spans|
              case Draw => true
    {
      var stack := StepAt(timeline, spans, depth, at);
    }
  }

  lemma MachineNoCrossing(timeline: seq<Item>, spans: seq<Span>, depth: nat, i: nat, j: nat)
    requires InBounds(timeline, spans) && MachineAccepts(timeline, spans, depth)
    requires i < |spans| && j < |spans| && Encloses(spans[i], spans[j].enterAt)
    ensures spans[j].exitAt < spans[i].exitAt
  {
    MachineMatches(timeline, spans, depth);
    var at := spans[i].exitAt;
    var stack := StepAt(timeline, spans, depth, at);
    RunListsOpen(timeline, spans, depth, at);
    assert stack[|stack| - 1] == i;
    assert timeline[spans[j].exitAt] == Exit(j);
    if j in stack { TopEnteredLast(stack, spans, at, j); }
  }

  lemma MachineTop(timeline: seq<Item>, spans: seq<Span>, depth: nat, at: nat) returns (stack: seq<nat>)
    requires InBounds(timeline, spans) && MachineAccepts(timeline, spans, depth)
    requires at < |timeline| && !timeline[at].Exit?
    ensures Step(stack, timeline[at], at, spans, depth).Some?
    ensures stack == [] ==> forall j | 0 <= j < |spans| :: !Encloses(spans[j], at)
    ensures stack != [] ==> Innermost(spans, stack[|stack| - 1], at)
  {
    MachineMatches(timeline, spans, depth);
    stack := StepAt(timeline, spans, depth, at);
    RunListsOpen(timeline, spans, depth, at);
    TopIsInnermost(stack, timeline, spans, at);
  }

  lemma MachineParents(timeline: seq<Item>, spans: seq<Span>, depth: nat)
    requires InBounds(timeline, spans) && MachineAccepts(timeline, spans, depth)
    ensures ParentsInnermost(spans) && SubmitsInnermost(timeline, spans)
  {
    forall i: nat | i < |spans| ensures ParentInnermost(spans, i) {
      assert timeline[spans[i].enterAt] == Enter(i);
      var stack := MachineTop(timeline, spans, depth, spans[i].enterAt);
    }
    forall at: nat | at < |timeline| && timeline[at].Submit? ensures Innermost(spans, timeline[at].invocation, at) {
      var stack := MachineTop(timeline, spans, depth, at);
    }
  }

  lemma {:induction false} StackWithinDepth(timeline: seq<Item>, spans: seq<Span>, depth: nat, n: nat)
    requires n <= |timeline| && Run(timeline, n, spans, depth).Some?
    ensures |Run(timeline, n, spans, depth).value| <= depth
  {
    if n > 0 { StackWithinDepth(timeline, spans, depth, n - 1); }
  }

  ghost function Members(stack: seq<nat>): set<nat> { set i | i in stack }

  lemma {:induction false} MembersCount(stack: seq<nat>)
    requires forall a, b | 0 <= a < b < |stack| :: stack[a] != stack[b]
    ensures |Members(stack)| == |stack|
  {
    if stack != [] {
      var n := |stack| - 1;
      MembersCount(stack[..n]);
      assert Members(stack) == Members(stack[..n]) + {stack[n]};
    }
  }

  // After position at, the stack holds as many invocations as are open there.
  lemma StackCountsOpen(stack: seq<nat>, spans: seq<Span>, at: nat)
    requires ListsOpen(stack, spans, at + 1)
    ensures |stack| == |OpenAt(spans, at)|
  {
    forall a, b | 0 <= a < b < |stack| ensures stack[a] != stack[b] {
      assert stack[a] in stack && stack[b] in stack;
    }
    MembersCount(stack);
    assert Members(stack) == OpenAt(spans, at);
  }

  lemma MachineDepth(timeline: seq<Item>, spans: seq<Span>, depth: nat)
    requires InBounds(timeline, spans) && MachineAccepts(timeline, spans, depth)
    ensures WithinDepth(timeline, spans, depth)
  {
    MachineMatches(timeline, spans, depth);
    forall at: nat | at < |timeline| ensures |OpenAt(spans, at)| <= depth {
      RunPrefix(timeline, spans, depth, |timeline|, at + 1);
      RunListsOpen(timeline, spans, depth, at + 1);
      StackWithinDepth(timeline, spans, depth, at + 1);
      StackCountsOpen(Run(timeline, at + 1, spans, depth).value, spans, at);
    }
  }

  // ---------- what is properly nested the machine accepts ----------

  lemma NestedEnter(timeline: seq<Item>, spans: seq<Span>, depth: nat, n: nat, stack: seq<nat>, i: nat)
    requires InBounds(timeline, spans) && ProperlyNested(timeline, spans, depth)
    requires n < |timeline| && ListsOpen(stack, spans, n) && timeline[n] == Enter(i)
    ensures spans[i].parent == Parent(stack) && |stack| < depth
  {
    TopIsInnermost(stack, timeline, spans, n);
    EnterKeepsListing(stack, timeline, spans, n, i);
    StackCountsOpen(stack + [i], spans, n);
    assert ParentInnermost(spans, i);
    if spans[i].parent != 0 && stack != [] {
      InnermostIsUnique(timeline, spans, spans[i].parent - 1, stack[|stack| - 1], n);
    }
  }

  lemma NestedSubmit(timeline: seq<Item>, spans: seq<Span>, depth: nat, n: nat, stack: seq<nat>, i: nat)
    requires InBounds(timeline, spans) && ProperlyNested(timeline, spans, depth)
    requires n < |timeline| && ListsOpen(stack, spans, n) && timeline[n] == Submit(i)
    ensures Parent(stack) == i + 1
  {
    TopIsInnermost(stack, timeline, spans, n);
    if stack != [] {
      InnermostIsUnique(timeline, spans, i, stack[|stack| - 1], n);
    }
  }

  lemma NestedExit(timeline: seq<Item>, spans: seq<Span>, n: nat, stack: seq<nat>, i: nat)
    requires InBounds(timeline, spans) && Matched(timeline, spans) && NoCrossing(spans)
    requires n < |timeline| && ListsOpen(stack, spans, n) && timeline[n] == Exit(i)
    ensures Parent(stack) == i + 1
  {
    assert i in stack;
    var top := stack[|stack| - 1];
    assert top in stack;
    TopEnteredLast(stack, spans, n, i);
    assert timeline[spans[top].enterAt] == Enter(top) && timeline[spans[i].enterAt] == Enter(i);
    InnerExitsFirst(spans, i, top);
  }

  lemma InnerExitsFirst(spans: seq<Span>, i: nat, j: nat)
    requires NoCrossing(spans) && i < |spans| && j < |spans|
    ensures Encloses(spans[i], spans[j].enterAt) ==> spans[j].exitAt < spans[i].exitAt
  {
  }

  lemma NestedStep(timeline: seq<Item>, spans: seq<Span>, depth: nat, n: nat, stack: seq<nat>)
    requires InBounds(timeline, spans) && ProperlyNested(timeline, spans, depth)
    requires n < |timeline| && ListsOpen(stack, spans, n)
    ensures Step(stack, timeline[n], n, spans, depth).Some?
  {
    match timeline[n]
    case Enter(i) => NestedEnter(timeline, spans, depth, n, stack, i);
    case Exit(i) => NestedExit(timeline, spans, n, stack, i);
    case Submit(i) => NestedSubmit(timeline, spans, depth, n, stack, i);
    case Draw =>
  }

  lemma {:induction false} NestedRuns(timeline: seq<Item>, spans: seq<Span>, depth: nat, n: nat)
    requires InBounds(timeline, spans) && ProperlyNested(timeline, spans, depth) && n <= |timeline|
    ensures Run(timeline, n, spans, depth).Some?
  {
    hide InBounds, Matched, NoCrossing, ParentsInnermost, WithinDepth, SubmitsInnermost, ListsOpen, Step;
    if n > 0 {
      NestedRuns(timeline, spans, depth, n - 1);
      RunListsOpen(timeline, spans, depth, n - 1);
      NestedStep(timeline, spans, depth, n - 1, Run(timeline, n - 1, spans, depth).value);
    }
  }

  // The stack machine accepts exactly the properly nested timelines.
  lemma MachineIffNested(timeline: seq<Item>, spans: seq<Span>, depth: nat)
    requires InBounds(timeline, spans)
    ensures MachineAccepts(timeline, spans, depth) <==> ProperlyNested(timeline, spans, depth)
  {
    if MachineAccepts(timeline, spans, depth) {
      MachineMatches(timeline, spans, depth);
      forall i: nat, j: nat | i < |spans| && j < |spans| && Encloses(spans[i], spans[j].enterAt)
        ensures spans[j].exitAt < spans[i].exitAt
      {
        MachineNoCrossing(timeline, spans, depth, i, j);
      }
      MachineParents(timeline, spans, depth);
      MachineDepth(timeline, spans, depth);
    }
    if ProperlyNested(timeline, spans, depth) {
      NestedRuns(timeline, spans, depth, |timeline|);
      RunListsOpen(timeline, spans, depth, |timeline|);
      if timeline != [] {
        StackCountsOpen(Run(timeline, |timeline|, spans, depth).value, spans, |timeline| - 1);
        assert OpenAt(spans, |timeline| - 1) == {};
      }
    }
  }
}
