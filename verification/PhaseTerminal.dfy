// Counts and terminal record of a phase fragment (tools/assemble_frontend_phase.py): the caller's
// capacities, the exact length the counts imply, and the status the failure counters imply.
module PhaseTerminal {
  import opened Sums

  const HEADER_BYTES := 208
  const TABLES := 6

  datatype Limits = Limits(fragmentBytes: nat, frames: nat, sites: nat, nestingDepth: nat, invocations: nat,
                           events: nat, submissions: nat, draws: nat, edges: nat, failureRecords: nat,
                           lookupWork: nat, scratchBytes: nat)

  datatype TerminalStatus = Complete | TelemetryOverflow | TelemetryDropped | VmReset | SavestateDiscontinuity
    | QueueExhausted | ProducerAborted | OutputFailure | InternalFailure

  datatype CommitState = Aborted | Committed

  datatype Terminal = Terminal(status: TerminalStatus, commit: CommitState, discoveredFrames: nat,
                               retainedFrames: nat, failures: seq<nat>, discovered: seq<nat>, retained: seq<nat>)

  const STATUSES := [Complete, TelemetryOverflow, TelemetryDropped, VmReset, SavestateDiscontinuity,
                     QueueExhausted, ProducerAborted, OutputFailure, InternalFailure]

  // The statuses of the seven failure counters, in order of precedence.
  const EXPECTED_STATUSES := [TelemetryOverflow, TelemetryDropped, VmReset, SavestateDiscontinuity,
                              QueueExhausted, OutputFailure, InternalFailure]

  function StatusCode(status: TerminalStatus): (code: nat)
    ensures code < |STATUSES| && STATUSES[code] == status
  {
    match status
    case Complete => 0
    case TelemetryOverflow => 1
    case TelemetryDropped => 2
    case VmReset => 3
    case SavestateDiscontinuity => 4
    case QueueExhausted => 5
    case ProducerAborted => 6
    case OutputFailure => 7
    case InternalFailure => 8
  }

  function CommitCode(commit: CommitState): nat { if commit == Aborted then 0 else 1 }

  // ---------- counts and terminal record ----------

  function Caps(limits: Limits): seq<nat> {
    [limits.sites, limits.invocations, limits.events, limits.submissions, limits.draws, limits.edges]
  }

  function Weighted(counts: seq<nat>, weights: seq<nat>): nat
    requires |counts| == |weights|
  {
    if counts == [] then 0
    else
      var n := |counts| - 1;
      Weighted(counts[..n], weights[..n]) + counts[n] * weights[n]
  }

  function ScratchBytes(counts: seq<nat>): nat
    requires |counts| == TABLES
  {
    65_536 + Weighted(counts, [256, 1_024, 1_024, 1_024, 768, 512])
  }

  function LookupWork(counts: seq<nat>): nat
    requires |counts| == TABLES
  {
    counts[0] + counts[1] * 5 + counts[2] * 3 + counts[3] * 5 + counts[4] * 3 + counts[5] * 5
  }

  const ROW_WIDTHS: seq<nat> := [4, 24, 21, 24, 17, 8]

  function ExpectedSize(counts: seq<nat>): nat
    requires |counts| == TABLES
  {
    HEADER_BYTES + Weighted(counts, ROW_WIDTHS)
  }

  predicate CountFits(retained: nat, discovered: nat, cap: nat) {
    retained <= cap && discovered <= cap && retained <= discovered
  }

  ghost predicate CountsOk(counts: seq<nat>, discovered: seq<nat>, limits: Limits)
    requires |counts| == |discovered| == TABLES
  {
    && (forall k | 0 <= k < TABLES :: CountFits(counts[k], discovered[k], Caps(limits)[k]))
    && counts[2] == counts[1] * 2
    && ScratchBytes(counts) <= limits.scratchBytes
    && LookupWork(counts) <= limits.lookupWork
    && ExpectedSize(counts) <= limits.fragmentBytes
  }

  method ValidateCounts(counts: seq<nat>, discovered: seq<nat>, rawSize: nat, limits: Limits) returns (ok: bool)
    requires |counts| == |discovered| == TABLES
    ensures ok <==> CountsOk(counts, discovered, limits) && ExpectedSize(counts) == rawSize
  {
    hide Weighted;
    var caps := Caps(limits);
    for k := 0 to TABLES
      invariant forall j | 0 <= j < k :: CountFits(counts[j], discovered[j], caps[j])
    {
      if !CountFits(counts[k], discovered[k], caps[k]) { return false; }
    }
    if counts[2] != counts[1] * 2 || ScratchBytes(counts) > limits.scratchBytes
      || LookupWork(counts) > limits.lookupWork
    {
      return false;
    }
    var expectedSize := SizeOf(counts);
    ok := expectedSize <= limits.fragmentBytes && expectedSize == rawSize;
  }

  method SizeOf(counts: seq<nat>) returns (expectedSize: nat)
    requires |counts| == TABLES
    ensures expectedSize == ExpectedSize(counts)
  {
    expectedSize := HEADER_BYTES;
    for k := 0 to TABLES
      invariant expectedSize == HEADER_BYTES + Weighted(counts[..k], ROW_WIDTHS[..k])
    {
      assert counts[..k + 1][..k] == counts[..k] && ROW_WIDTHS[..k + 1][..k] == ROW_WIDTHS[..k];
      expectedSize := expectedSize + counts[k] * ROW_WIDTHS[k];
    }
    assert counts[..TABLES] == counts && ROW_WIDTHS[..TABLES] == ROW_WIDTHS;
  }

  ghost predicate NoFailures(failures: seq<nat>) { forall i | 0 <= i < |failures| :: failures[i] == 0 }

  // The first nonzero counter names the status.
  ghost predicate Precedence(failures: seq<nat>, status: TerminalStatus)
    requires |failures| == |EXPECTED_STATUSES|
  {
    exists i :: 0 <= i < |failures| && failures[i] != 0 && NoFailures(failures[..i]) && status == EXPECTED_STATUSES[i]
  }

  ghost predicate TerminalOk(t: Terminal, limits: Limits)
    requires |t.failures| == |EXPECTED_STATUSES|
  {
    && Sum(t.failures) <= limits.failureRecords
    && t.retainedFrames <= t.discoveredFrames <= limits.frames
    && match t.status
       case Complete =>
         && t.commit == Committed && NoFailures(t.failures) && t.discovered == t.retained
         && t.discoveredFrames == t.retainedFrames
       case ProducerAborted => t.commit == Aborted && NoFailures(t.failures)
       case _ => t.commit == Aborted && Precedence(t.failures, t.status)
  }

  method FirstNonzero(failures: seq<nat>) returns (first: nat)
    ensures first <= |failures| && NoFailures(failures[..first])
    ensures first < |failures| ==> failures[first] != 0
  {
    first := 0;
    while first < |failures| && failures[first] == 0
      invariant first <= |failures| && NoFailures(failures[..first])
    {
      first := first + 1;
    }
  }

  lemma NoneBefore(failures: seq<nat>, n: nat)
    requires n <= |failures| && NoFailures(failures[..n])
    ensures forall k | 0 <= k < n :: failures[k] == 0
  {
    forall k | 0 <= k < n ensures failures[k] == 0 {
      assert failures[..n][k] == failures[k];
    }
  }

  lemma PrecedenceIsFirst(failures: seq<nat>, first: nat, status: TerminalStatus)
    requires |failures| == |EXPECTED_STATUSES| && first <= |failures| && NoFailures(failures[..first])
    requires first < |failures| ==> failures[first] != 0
    ensures Precedence(failures, status) <==> first < |failures| && status == EXPECTED_STATUSES[first]
    ensures NoFailures(failures) <==> first == |failures|
  {
    assert failures[..|failures|] == failures;
    if i :| 0 <= i < |failures| && failures[i] != 0 && NoFailures(failures[..i]) && status == EXPECTED_STATUSES[i] {
      NoneBefore(failures, first);
      NoneBefore(failures, i);
    }
  }

  method ValidateTerminal(t: Terminal, limits: Limits) returns (ok: bool)
    requires |t.failures| == |EXPECTED_STATUSES|
    ensures ok <==> TerminalOk(t, limits)
  {
    if Sum(t.failures) > limits.failureRecords { return false; }
    if t.discoveredFrames > limits.frames || t.retainedFrames > t.discoveredFrames { return false; }
    var first := FirstNonzero(t.failures);
    PrecedenceIsFirst(t.failures, first, t.status);
    if t.status == Complete {
      ok := t.commit == Committed && first == |t.failures| && t.discovered == t.retained
            && t.discoveredFrames == t.retainedFrames;
    } else if t.commit != Aborted {
      ok := false;
    } else if t.status == ProducerAborted {
      ok := first == |t.failures|;
    } else {
      ok := first < |t.failures| && t.status == EXPECTED_STATUSES[first];
    }
  }

  // The completeness flag of a parsed fragment.
  predicate CaptureComplete(t: Terminal) {
    && t.status == Complete && t.commit == Committed && t.discoveredFrames == t.retainedFrames
    && (forall i | 0 <= i < |t.failures| :: t.failures[i] == 0) && t.discovered == t.retained
  }

  // In accepted records the failure counters and the commit state determine the status, and the
  // completeness flag says no more than the commit state.
  lemma StatusIsDetermined(t: Terminal, u: Terminal, limits: Limits)
    requires |t.failures| == |u.failures| == |EXPECTED_STATUSES|
    requires TerminalOk(t, limits) && TerminalOk(u, limits)
    requires t.failures == u.failures && t.commit == u.commit
    ensures t.status == u.status
    ensures CaptureComplete(t) <==> t.commit == Committed
  {
    if t.commit == Aborted && NoFailures(t.failures) {
      assert !Precedence(t.failures, t.status) && !Precedence(u.failures, u.status);
    } else if t.commit == Aborted {
      var i :| 0 <= i < |t.failures| && t.failures[i] != 0 && NoFailures(t.failures[..i])
               && t.status == EXPECTED_STATUSES[i];
      PrecedenceIsFirst(t.failures, i, t.status);
      PrecedenceIsFirst(u.failures, i, u.status);
    }
  }
}
