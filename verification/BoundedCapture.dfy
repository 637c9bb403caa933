// The bounded capture of tools/probe_native_levels.py: two reader threads share one byte
// budget under a lock, and one process tree is killed under another. Every interleaving of
// their steps is a run of the state machine below.
module BoundedCapture {
  import opened Bytes

  const MAX_PROBE_CAPTURE_BYTES: nat := 64 * 1024
  const PIPE_READ_BYTES: nat := 4096

  // Where a reader thread stands in its loop.
  datatype Pc = Reading | Holding(chunk: seq<Byte>) | Exceeding | Killing | Finished

  // received is all the thread has taken from its pipe, output its shared buffer.
  datatype Reader = Reader(pc: Pc, received: seq<Byte>, output: seq<Byte>)

  // The main thread waits, ends the tree, joins the readers and then reports.
  datatype Main = Waiting | Ending(timedOut: bool) | Joining(timedOut: bool) | Reported(outcome: Outcome)
  datatype Outcome = Returned(stdout: seq<Byte>, stderr: seq<Byte>)
                   | TimedOut(output: seq<Byte>, errors: seq<Byte>) | LimitExceeded | ReadersStuck | TerminationFailed

  datatype State = State(out: Reader, err: Reader, capturedBytes: nat, outputExceeded: bool,
                         terminated: bool, kills: nat, killFailed: bool, main: Main)

  // ---------- the two critical sections ----------

  function Retained(chunk: seq<Byte>, capturedBytes: nat): (n: nat)
    ensures n <= |chunk|
  {
    var remaining: nat :=
      if capturedBytes < MAX_PROBE_CAPTURE_BYTES then MAX_PROBE_CAPTURE_BYTES - capturedBytes else 0;
    if |chunk| <= remaining then |chunk| else remaining
  }

  function Terminate(s: State, failed: bool): State {
    if s.terminated then s else s.(terminated := true, kills := s.kills + 1, killFailed := failed)
  }

  // ---------- steps ----------

  function ReaderOf(s: State, onErr: bool): Reader { if onErr then s.err else s.out }

  function With(s: State, onErr: bool, r: Reader): State { if onErr then s.(err := r) else s.(out := r) }

  function Receive(s: State, onErr: bool, chunk: seq<Byte>): State {
    var r := ReaderOf(s, onErr);
    With(s, onErr, Reader(Holding(chunk), r.received + chunk, r.output))
  }

  ghost predicate Receives(s: State, t: State, onErr: bool, chunk: seq<Byte>) {
    0 < |chunk| <= PIPE_READ_BYTES && t == Receive(s, onErr, chunk)
  }

  // One atomic step of the reader of one pipe.
  ghost predicate ReaderStep(s: State, t: State, onErr: bool) {
    var r := ReaderOf(s, onErr);
    match r.pc
    case Reading =>
      // read1 returns a chunk, reaches end of file, or fails because the handle was closed
      (exists chunk :: Receives(s, t, onErr, chunk)) || t == With(s, onErr, r.(pc := Finished))
    case Holding(chunk) =>
      // the body under capture_lock
      var n := Retained(chunk, s.capturedBytes);
      t == With(s, onErr, Reader(if n != |chunk| then Exceeding else Reading, r.received, r.output + chunk[..n]))
            .(capturedBytes := s.capturedBytes + n)
    case Exceeding =>
      t == With(s, onErr, r.(pc := Killing)).(outputExceeded := true)
    case Killing =>
      var next := With(s, onErr, r.(pc := Reading));
      t == Terminate(next, true) || t == Terminate(next, false)
    case Finished => false
  }

  function Report(s: State, timedOut: bool): Outcome {
    if s.killFailed then TerminationFailed
    else if s.out.pc != Finished || s.err.pc != Finished then ReadersStuck
    else if timedOut then TimedOut(s.out.output, s.err.output)
    else if s.outputExceeded then LimitExceeded
    else Returned(s.out.output, s.err.output)
  }

  // One step of the main thread; a join may end because the readers finished or its time ran out.
  ghost predicate MainStep(s: State, t: State) {
    match s.main
    case Waiting => t == s.(main := Ending(true)) || t == s.(main := Ending(false))
    case Ending(timedOut) =>
      var next := s.(main := Joining(timedOut));
      t == Terminate(next, true) || t == Terminate(next, false)
    case Joining(timedOut) => t == s.(main := Reported(Report(s, timedOut)))
    case Reported(_) => t == Terminate(s, true) || t == Terminate(s, false)
  }

  ghost predicate Next(s: State, t: State) {
    ReaderStep(s, t, false) || ReaderStep(s, t, true) || MainStep(s, t)
  }

  ghost predicate Init(s: State) {
    s == State(Reader(Reading, [], []), Reader(Reading, [], []), 0, false, false, 0, false, Waiting)
  }

  ghost predicate IsRun(run: seq<State>) {
    && run != [] && Init(run[0])
    && forall i, j | 0 <= i < |run| && j == i + 1 < |run| :: Next(run[i], run[j])
  }

  // ---------- the invariant ----------

  // Bytes received and already through the critical section.
  function Processed(r: Reader): nat {
    if r.pc.Holding? && |r.pc.chunk| <= |r.received| then |r.received| - |r.pc.chunk| else |r.received|
  }

  ghost predicate ReaderInv(r: Reader) {
    && (r.pc.Holding? ==> |r.pc.chunk| <= |r.received| && r.received[|r.received| - |r.pc.chunk|..] == r.pc.chunk)
    && |r.output| <= Processed(r)
    && r.output <= r.received
  }

  function Min(a: nat, b: nat): nat { if a <= b then a else b }

  ghost predicate Inv(s: State) {
    && ReaderInv(s.out) && ReaderInv(s.err)
    && s.capturedBytes == |s.out.output| + |s.err.output|
    && s.capturedBytes == Min(MAX_PROBE_CAPTURE_BYTES, Processed(s.out) + Processed(s.err))
    && (Processed(s.out) + Processed(s.err) > MAX_PROBE_CAPTURE_BYTES <==>
        s.outputExceeded || s.out.pc.Exceeding? || s.err.pc.Exceeding?)
    && (s.outputExceeded ==> s.terminated || s.out.pc.Killing? || s.err.pc.Killing?)
    && s.kills == (if s.terminated then 1 else 0)
    && (s.main.Joining? || s.main.Reported? ==> s.terminated)
    && (s.main.Reported? && s.main.outcome.Returned? ==> ReturnsAll(s))
  }

  // A returned result holds everything that was read.
  ghost predicate ReturnsAll(s: State) {
    && s.out.pc.Finished? && s.err.pc.Finished?
    && s.main == Reported(Returned(s.out.received, s.err.received))
    && |s.out.received| + |s.err.received| <= MAX_PROBE_CAPTURE_BYTES
  }

  lemma InitInv(s: State)
    requires Init(s)
    ensures Inv(s)
  {
  }

  lemma RetainKeepsReader(r: Reader, n: nat)
    requires ReaderInv(r) && r.pc.Holding? && n <= |r.pc.chunk|
    requires n > 0 ==> |r.output| == Processed(r)
    ensures forall pc: Pc | !pc.Holding? ::
      var now := Reader(pc, r.received, r.output + r.pc.chunk[..n]);
      ReaderInv(now) && Processed(now) == Processed(r) + |r.pc.chunk|
  {
    var k := |r.received| - |r.pc.chunk|;
    assert r.received == r.received[..k] + r.pc.chunk;
    if n > 0 {
      assert r.received[..k + n] == r.received[..k] + r.pc.chunk[..n];
    } else {
      assert r.output + r.pc.chunk[..n] == r.output;
    }
  }

  lemma OutputIsProcessed(r: Reader)
    requires ReaderInv(r)
    ensures |r.output| <= Processed(r)
  {
  }

  lemma RetainStep(s: State, t: State, onErr: bool)
    requires Inv(s) && ReaderOf(s, onErr).pc.Holding? && ReaderStep(s, t, onErr)
    ensures Inv(t)
  {
    hide ReaderInv, Processed;
    OutputIsProcessed(s.out);
    OutputIsProcessed(s.err);
    var r := ReaderOf(s, onErr);
    RetainKeepsReader(r, Retained(r.pc.chunk, s.capturedBytes));
  }

  lemma ReceiveKeepsReader(r: Reader, chunk: seq<Byte>)
    requires ReaderInv(r) && r.pc.Reading?
    ensures ReaderInv(Reader(Holding(chunk), r.received + chunk, r.output))
    ensures Processed(Reader(Holding(chunk), r.received + chunk, r.output)) == Processed(r)
  {
    var all := r.received + chunk;
    assert all[|all| - |chunk|..] == chunk;
  }

  // Between chunks a step changes only where the reader stands.
  lemma PcKeepsReader(r: Reader, pc: Pc)
    requires ReaderInv(r) && !r.pc.Holding? && !pc.Holding?
    ensures ReaderInv(r.(pc := pc)) && Processed(r.(pc := pc)) == Processed(r)
  {
  }

  lemma ReceiveStep(s: State, t: State, onErr: bool)
    requires Inv(s) && ReaderOf(s, onErr).pc.Reading? && ReaderStep(s, t, onErr)
    ensures Inv(t)
  {
    hide ReaderInv, Processed;
    PcKeepsReader(ReaderOf(s, onErr), Finished);
    if chunk :| Receives(s, t, onErr, chunk) {
      ReceiveKeepsReader(ReaderOf(s, onErr), chunk);
    }
  }

  lemma SignalStep(s: State, t: State, onErr: bool)
    requires Inv(s) && ReaderStep(s, t, onErr)
    requires ReaderOf(s, onErr).pc.Exceeding? || ReaderOf(s, onErr).pc.Killing?
    ensures Inv(t)
  {
    hide ReaderInv, Processed;
    PcKeepsReader(ReaderOf(s, onErr), Killing);
    PcKeepsReader(ReaderOf(s, onErr), Reading);
  }

  lemma ReaderKeepsInv(s: State, t: State, onErr: bool)
    requires Inv(s) && ReaderStep(s, t, onErr)
    ensures Inv(t)
  {
    match ReaderOf(s, onErr).pc
    case Reading => ReceiveStep(s, t, onErr);
    case Holding(_) => RetainStep(s, t, onErr);
    case Exceeding => SignalStep(s, t, onErr);
    case Killing => SignalStep(s, t, onErr);
    case Finished =>
  }

  // Equal lengths make a prefix the whole.
  lemma FullPrefix(a: seq<Byte>, b: seq<Byte>)
    requires a <= b && |a| == |b|
    ensures a == b
  {
  }

  lemma NothingLost(s: State)
    requires Inv(s) && s.out.pc.Finished? && s.err.pc.Finished? && !s.outputExceeded
    ensures s.out.output == s.out.received && s.err.output == s.err.received
    ensures |s.out.received| + |s.err.received| <= MAX_PROBE_CAPTURE_BYTES
  {
    FullPrefix(s.out.output, s.out.received);
    FullPrefix(s.err.output, s.err.received);
  }

  lemma MainKeepsInv(s: State, t: State)
    requires Inv(s) && MainStep(s, t)
    ensures Inv(t)
  {
    hide ReaderInv, Processed;
    if s.main.Joining? && t.main.outcome.Returned? {
      NothingLost(s);
    }
  }

  lemma NextKeepsInv(s: State, t: State)
    requires Inv(s) && Next(s, t)
    ensures Inv(t)
  {
    if ReaderStep(s, t, false) {
      ReaderKeepsInv(s, t, false);
    } else if ReaderStep(s, t, true) {
      ReaderKeepsInv(s, t, true);
    } else {
      MainKeepsInv(s, t);
    }
  }

  lemma {:induction false} RunKeepsInv(run: seq<State>, n: nat)
    requires IsRun(run) && n < |run|
    ensures Inv(run[n])
  {
    if n == 0 {
      InitInv(run[0]);
    } else {
      var m: nat := n - 1;
      RunKeepsInv(run, m);
      NextKeepsInv(run[m], run[n]);
    }
  }

  // Once both readers are done, what was kept depends only on what was read: at every
  // interleaving the buffers are prefixes, the budget is used up exactly when it is short,
  // and the exceeded flag says whether anything was lost.
  lemma CaptureIsExact(run: seq<State>, n: nat)
    requires IsRun(run) && n < |run|
    requires run[n].out.pc.Finished? && run[n].err.pc.Finished?
    ensures var a, b := run[n].out, run[n].err;
      var total := |a.received| + |b.received|;
      && run[n].capturedBytes == |a.output| + |b.output| == Min(MAX_PROBE_CAPTURE_BYTES, total)
      && a.output <= a.received && b.output <= b.received
      && (run[n].outputExceeded <==> total > MAX_PROBE_CAPTURE_BYTES)
      && (total <= MAX_PROBE_CAPTURE_BYTES ==> a.output == a.received && b.output == b.received)
      && (run[n].outputExceeded ==> run[n].terminated)
  {
    RunKeepsInv(run, n);
    var a, b := run[n].out, run[n].err;
    if |a.received| + |b.received| <= MAX_PROBE_CAPTURE_BYTES {
      FullPrefix(a.output, a.received);
      FullPrefix(b.output, b.received);
    }
  }

  // At every moment of every run the budget holds, and the tree is killed at most once; a
  // returned result has lost nothing that was read.
  lemma CaptureIsSafe(run: seq<State>, n: nat)
    requires IsRun(run) && n < |run|
    ensures run[n].capturedBytes == |run[n].out.output| + |run[n].err.output| <= MAX_PROBE_CAPTURE_BYTES
    ensures run[n].kills <= 1
    ensures run[n].main.Reported? && run[n].main.outcome.Returned? ==> ReturnsAll(run[n])
  {
    RunKeepsInv(run, n);
  }

  // ---------- which outcome, and when ----------

  // What a join that ends in state s may report: only the kill, the reader positions, the wait
  // and the bytes received decide it.
  ghost predicate OutcomeFits(s: State, timedOut: bool, o: Outcome) {
    var stopped := s.out.pc == Finished && s.err.pc == Finished;
    var total := |s.out.received| + |s.err.received|;
    && (o.TerminationFailed? <==> s.killFailed)
    && (o.ReadersStuck? <==> !s.killFailed && !stopped)
    && (o.TimedOut? <==> !s.killFailed && stopped && timedOut)
    && (o.LimitExceeded? <==> !s.killFailed && stopped && !timedOut && total > 65_536)
    && (o.Returned? <==> !s.killFailed && stopped && !timedOut && total <= 65_536)
    && (o.Returned? ==> o.stdout == s.out.received && o.stderr == s.err.received)
    && (o.TimedOut? ==>
          && o.output <= s.out.received && o.errors <= s.err.received
          && |o.output| + |o.errors| == Min(65_536, total)
          && (total <= 65_536 ==> o.output == s.out.received && o.errors == s.err.received))
  }

  // The join ends in exactly one of five ways, on every run.
  lemma JoinDecides(run: seq<State>, n: nat, timedOut: bool)
    requires IsRun(run) && n < |run| && run[n].main == Joining(timedOut)
    ensures forall t | MainStep(run[n], t) :: t.main.Reported? && OutcomeFits(run[n], timedOut, t.main.outcome)
  {
    if run[n].out.pc.Finished? && run[n].err.pc.Finished? {
      CaptureIsExact(run, n);
    }
  }

  // Where the main thread has been: a report follows a join, a join follows an end, and both
  // remember how the wait ended.
  ghost predicate CameThrough(run: seq<State>, n: nat)
    requires n < |run|
  {
    match run[n].main
    case Waiting => true
    case Ending(t) => exists i: nat, j: nat :: i < j <= n && WaitEnded(run, i, j, t)
    case Joining(t) => exists i: nat, j: nat :: i < j <= n && WaitEnded(run, i, j, t)
    case Reported(o) =>
      exists j: nat, k: nat, t :: j < k <= n && JoinEnded(run, j, k, t, o) && CameThroughJoin(run, j, t)
  }

  ghost predicate WaitEnded(run: seq<State>, i: nat, j: nat, timedOut: bool) {
    j == i + 1 < |run| && run[i].main == Waiting && run[j].main == Ending(timedOut)
  }

  ghost predicate JoinEnded(run: seq<State>, j: nat, k: nat, timedOut: bool, o: Outcome) {
    k == j + 1 < |run| && run[j].main == Joining(timedOut) && run[k].main == Reported(o) && MainStep(run[j], run[k])
  }

  ghost predicate CameThroughJoin(run: seq<State>, n: nat, timedOut: bool) {
    exists i: nat, j: nat :: i < j <= n && WaitEnded(run, i, j, timedOut)
  }

  lemma ReaderLeavesMain(s: State, t: State, onErr: bool)
    requires ReaderStep(s, t, onErr)
    ensures t.main == s.main
  {
  }

  lemma {:induction false} MainPath(run: seq<State>, n: nat)
    requires IsRun(run) && n < |run|
    ensures CameThrough(run, n)
  {
    if n > 0 {
      var m: nat := n - 1;
      MainPath(run, m);
      var s, t := run[m], run[n];
      assert Next(s, t);
      if ReaderStep(s, t, false) {
        ReaderLeavesMain(s, t, false);
      } else if ReaderStep(s, t, true) {
        ReaderLeavesMain(s, t, true);
      } else {
        match s.main
        case Waiting => assert WaitEnded(run, m, n, t.main.timedOut);
        case Ending(_) =>
        case Joining(timedOut) =>
          assert CameThroughJoin(run, m, timedOut);
          assert JoinEnded(run, m, n, timedOut, t.main.outcome);
        case Reported(_) =>
      }
    }
  }

  // Every report of every run: how the wait ended, and the state at the end of the join, decide it.
  lemma {:induction false} OutcomeIsDecided(run: seq<State>, n: nat) returns (i: nat, j: nat, timedOut: bool)
    requires IsRun(run) && n < |run| && run[n].main.Reported?
    ensures i + 1 < |run| && run[i].main == Waiting && run[i + 1].main == Ending(timedOut)
    ensures i < j < n && run[j].main == Joining(timedOut) && OutcomeFits(run[j], timedOut, run[n].main.outcome)
  {
    hide IsRun, Next, ReaderStep, MainStep, OutcomeFits, Inv;
    MainPath(run, n);
    var k: nat;
    j, k, timedOut :| j < k <= n && JoinEnded(run, j, k, timedOut, run[n].main.outcome)
                      && CameThroughJoin(run, j, timedOut);
    var e: nat;
    i, e :| i < e <= j && WaitEnded(run, i, e, timedOut);
    JoinDecides(run, j, timedOut);
  }

  // ---------- every input has a run ----------

  lemma OneStep(run: seq<State>, t: State) returns (more: seq<State>)
    requires IsRun(run) && Next(run[|run| - 1], t)
    ensures IsRun(more) && more == run + [t]
  {
    hide Next, Init;
    more := run + [t];
    forall i, j | 0 <= i < |more| && j == i + 1 < |more| ensures Next(more[i], more[j]) {
      if j < |run| { assert Next(run[i], run[j]); }
    }
  }

  // A reader that waits for input: every kill so far succeeded.
  ghost predicate Idle(s: State, onErr: bool) { ReaderOf(s, onErr).pc.Reading? && !s.killFailed }

  // What one byte of one pipe leaves unchanged.
  ghost predicate OnlyReader(s: State, t: State, onErr: bool) {
    ReaderOf(t, !onErr) == ReaderOf(s, !onErr) && t.main == s.main && !t.killFailed
  }

  lemma OneByte(run: seq<State>, onErr: bool, b: Byte) returns (more: seq<State>)
    requires IsRun(run) && Idle(run[|run| - 1], onErr)
    ensures IsRun(more)
    ensures var s, t := run[|run| - 1], more[|more| - 1];
      && Idle(t, onErr) && OnlyReader(s, t, onErr)
      && ReaderOf(t, onErr).received == ReaderOf(s, onErr).received + [b]
  {
    var s := run[|run| - 1];
    hide IsRun;
    var s1 := Receive(s, onErr, [b]);
    assert Receives(s, s1, onErr, [b]);
    more := OneStep(run, s1);
    var r, n := ReaderOf(s1, onErr), Retained([b], s1.capturedBytes);
    var kept := r.output + [b][..n];
    var s2 := With(s1, onErr, Reader(if n != 1 then Exceeding else Reading, r.received, kept))
                .(capturedBytes := s1.capturedBytes + n);
    more := OneStep(more, s2);
    if n != 1 {
      var s3 := With(s2, onErr, ReaderOf(s2, onErr).(pc := Killing)).(outputExceeded := true);
      more := OneStep(more, s3);
      var s4 := Terminate(With(s3, onErr, ReaderOf(s3, onErr).(pc := Reading)), false);
      more := OneStep(more, s4);
    }
  }

  lemma {:induction false} AllBytes(run: seq<State>, onErr: bool, b: seq<Byte>) returns (more: seq<State>)
    requires IsRun(run) && Idle(run[|run| - 1], onErr)
    ensures IsRun(more)
    ensures var s, t := run[|run| - 1], more[|more| - 1];
      && ReaderOf(t, onErr).pc.Finished? && OnlyReader(s, t, onErr)
      && ReaderOf(t, onErr).received == ReaderOf(s, onErr).received + b
    decreases |b|
  {
    var s := run[|run| - 1];
    hide IsRun;
    if b == [] {
      more := OneStep(run, With(s, onErr, ReaderOf(s, onErr).(pc := Finished)));
    } else {
      more := OneByte(run, onErr, b[0]);
      more := AllBytes(more, onErr, b[1..]);
      assert b == [b[0]] + b[1..];
    }
  }

  // Whatever the two pipes deliver and however the wait ends, some run reads both pipes to their
  // ends and reports.
  lemma EveryInputIsReported(stdout: seq<Byte>, stderr: seq<Byte>, timedOut: bool) returns (run: seq<State>, n: nat)
    ensures IsRun(run) && n + 1 < |run| && run[n].main == Joining(timedOut) && run[n + 1].main.Reported?
    ensures run[n].out.received == stdout && run[n].err.received == stderr
    ensures run[n].out.pc.Finished? && run[n].err.pc.Finished? && !run[n].killFailed
    ensures MainStep(run[n], run[n + 1])
  {
    var start := State(Reader(Reading, [], []), Reader(Reading, [], []), 0, false, false, 0, false, Waiting);
    run := [start];
    hide IsRun;
    run := AllBytes(run, false, stdout);
    run := AllBytes(run, true, stderr);
    var s := run[|run| - 1];
    run := OneStep(run, s.(main := Ending(timedOut)));
    run := OneStep(run, Terminate(s.(main := Joining(timedOut)), false));
    var joined := run[|run| - 1];
    run := OneStep(run, joined.(main := Reported(Report(joined, timedOut))));
    n := |run| - 2;
  }

  // The report of a finished, timely capture whose kill succeeded.
  lemma ReportIsDecided(run: seq<State>, n: nat)
    requires IsRun(run) && n < |run| && run[n].main == Joining(false) && !run[n].killFailed
    requires run[n].out.pc.Finished? && run[n].err.pc.Finished?
    ensures var a, b := run[n].out, run[n].err;
      Report(run[n], false) == if |a.received| + |b.received| <= MAX_PROBE_CAPTURE_BYTES
                               then Returned(a.received, b.received) else LimitExceeded
  {
    CaptureIsExact(run, n);
  }

  // ---------- the critical sections as code ----------

  class SharedCapture {
    var capturedBytes: nat
    var stdout: seq<Byte>
    var stderr: seq<Byte>

    ghost predicate Valid()
      reads this
    {
      capturedBytes == |stdout| + |stderr| <= MAX_PROBE_CAPTURE_BYTES
    }

    constructor ()
      ensures Valid() && stdout == [] && stderr == []
    {
      capturedBytes, stdout, stderr := 0, [], [];
    }

    // The body under capture_lock for one chunk of one pipe.
    method Retain(chunk: seq<Byte>, toStderr: bool) returns (exceeded: bool)
      requires Valid()
      modifies this
      ensures Valid()
      ensures var n := Retained(chunk, old(capturedBytes));
        && capturedBytes == old(capturedBytes) + n
        && stdout == (if toStderr then old(stdout) else old(stdout) + chunk[..n])
        && stderr == (if toStderr then old(stderr) + chunk[..n] else old(stderr))
        && (exceeded <==> old(capturedBytes) + |chunk| > MAX_PROBE_CAPTURE_BYTES)
    {
      var remaining := MAX_PROBE_CAPTURE_BYTES - capturedBytes;
      var retained := if |chunk| <= remaining then |chunk| else remaining;
      if retained > 0 {
        if toStderr {
          stderr := stderr + chunk[..retained];
        } else {
          stdout := stdout + chunk[..retained];
        }
        capturedBytes := capturedBytes + retained;
      }
      exceeded := retained != |chunk|;
    }
  }
}
