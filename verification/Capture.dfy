/**
 The two loops that capture the output of a child process within a limit. Time
 and the pipes are a trace: for each turn of the loop, the monotonic clock before
 waiting and the events that the selector then allows. After the last turn the
 deadline has passed.
 */
module Capture {
  import opened Results
  import opened Utf8
  import opened Timestamp
  import opened Command

  datatype Stream = Stdout | Stderr

  /** An empty chunk is the end of the stream. */
  datatype ReadResult = WouldBlock | Chunk(bytes: Bytes) | Failure

  datatype Read = Read(stream: Stream, result: ReadResult)

  datatype Turn = Turn(clock: real, events: seq<Read>)

  /** The sandbox limits each stream, Git limits both together. */
  datatype Ceiling = Each(stdout: nat, stderr: nat) | Together(total: nat)

  // ------------------------------------------------------------- specification

  predicate Closed(events: seq<Read>, stream: Stream) {
    Read(stream, Chunk([])) in events
  }

  predicate BothClosed(events: seq<Read>) {
    Closed(events, Stdout) && Closed(events, Stderr)
  }

  /** The bytes of one stream, up to its end. */
  function Received(events: seq<Read>, stream: Stream): Bytes {
    if events == [] then []
    else
      var front, last := events[..|events| - 1], events[|events| - 1];
      if last.stream == stream && last.result.Chunk? && !Closed(front, stream)
      then Received(front, stream) + last.result.bytes
      else Received(front, stream)
  }

  predicate Over(events: seq<Read>, c: Ceiling) {
    match c
    case Each(stdout, stderr) => |Received(events, Stdout)| > stdout || |Received(events, Stderr)| > stderr
    case Together(total) => |Received(events, Stdout)| + |Received(events, Stderr)| > total
  }

  /** A read that raises: the sandbox tolerates one that would block. */
  predicate Raises(read: Read, c: Ceiling) {
    read.result.Failure? || (c.Together? && read.result.WouldBlock?)
  }

  predicate EndsInFailure(events: seq<Read>, c: Ceiling) {
    && events != []
    && Raises(events[|events| - 1], c)
    && !Closed(events[..|events| - 1], events[|events| - 1].stream)
  }

  predicate Stops(events: seq<Read>, c: Ceiling) {
    Over(events, c) || EndsInFailure(events, c)
  }

  /** The reads up to the first that stops the loop. */
  function Used(events: seq<Read>, c: Ceiling, from: nat := 0): (used: seq<Read>)
    requires from <= |events|
    ensures from <= |used| <= |events| && used == events[..|used|]
    ensures forall n | from < n < |used| :: !Stops(events[..n], c)
    ensures |used| < |events| ==> Stops(used, c)
    decreases |events| - from
  {
    if from == |events| then events
    else if Stops(events[..from + 1], c) then events[..from + 1]
    else Used(events, c, from + 1)
  }

  /** Whether no stream that is still registered has anything to report. */
  predicate Silent(events: seq<Read>, before: seq<Read>) {
    forall read <- events :: Closed(before, read.stream)
  }

  /** The reads offered before the deadline; an impatient loop also gives up on the first silence. */
  function Delivered(trace: seq<Turn>, deadline: real, patient: bool, before: seq<Read> := []): seq<Read>
    decreases |trace|
  {
    if trace == [] || trace[0].clock >= deadline || (!patient && Silent(trace[0].events, before)) then []
    else trace[0].events + Delivered(trace[1..], deadline, patient, before + trace[0].events)
  }

  function First(bytes: Bytes, n: nat): Bytes {
    if |bytes| <= n then bytes else bytes[..n]
  }

  // -------------------------------------------------------- lemmas about reads

  lemma ReadOne(seen: seq<Read>, read: Read, stream: Stream)
    ensures Closed(seen + [read], stream) <==> Closed(seen, stream) || read == Read(stream, Chunk([]))
    ensures Received(seen + [read], stream) ==
              if read.stream == stream && read.result.Chunk? && !Closed(seen, stream)
              then Received(seen, stream) + read.result.bytes
              else Received(seen, stream)
  {
    assert (seen + [read])[..|seen|] == seen;
  }

  lemma UsedStep(all: seq<Read>, seen: seq<Read>, read: Read, c: Ceiling)
    requires |seen| < |all| && all[..|seen|] == seen && all[|seen|] == read
    ensures all[..|seen| + 1] == seen + [read]
    ensures Used(all, c, |seen|) == if Stops(seen + [read], c) then seen + [read] else Used(all, c, |seen| + 1)
  {
  }

  /** Received bytes only grow, and each end of stream is final. */
  lemma {:induction false} ReceivedGrows(events: seq<Read>, n: nat, stream: Stream)
    requires n <= |events|
    ensures Received(events[..n], stream) <= Received(events, stream)
    ensures Closed(events[..n], stream) ==>
              Closed(events, stream) && Received(events, stream) == Received(events[..n], stream)
    decreases |events|
  {
    if n == |events| {
      assert events[..n] == events;
    } else {
      var front := events[..|events| - 1];
      assert front[..n] == events[..n] && front + [events[|events| - 1]] == events;
      ReceivedGrows(front, n, stream);
      ReadOne(front, events[|events| - 1], stream);
    }
  }

  lemma EndIsFinal(seen: seq<Read>, read: Read, c: Ceiling)
    requires BothClosed(seen) && !Stops(seen, c)
    ensures BothClosed(seen + [read]) && !Stops(seen + [read], c)
    ensures forall stream :: Received(seen + [read], stream) == Received(seen, stream)
  {
    forall stream ensures Received(seen + [read], stream) == Received(seen, stream) && Closed(seen + [read], stream) {
      ReadOne(seen, read, stream);
    }
    assert (seen + [read])[..|seen|] == seen;
  }

  /** Once both streams have ended, no further read matters. */
  lemma {:induction false} NothingAfterTheEnd(all: seq<Read>, n: nat, c: Ceiling)
    requires n <= |all| && BothClosed(all[..n]) && !Stops(all[..n], c)
    ensures Used(all, c, n) == all && BothClosed(all) && !Stops(all, c)
    ensures forall stream :: Received(all, stream) == Received(all[..n], stream)
    decreases |all| - n
  {
    if n == |all| {
      assert all[..n] == all;
    } else {
      UsedStep(all, all[..n], all[n], c);
      EndIsFinal(all[..n], all[n], c);
      NothingAfterTheEnd(all, n + 1, c);
    }
  }

  /** Without a failing read, the limit is exceeded exactly when the bytes delivered before the deadline exceed it. */
  lemma OverExact(all: seq<Read>, c: Ceiling)
    requires forall read <- all :: !Raises(read, c)
    ensures Over(Used(all, c), c) <==> Over(all, c)
  {
    var used := Used(all, c);
    ReceivedGrows(all, |used|, Stdout);
    ReceivedGrows(all, |used|, Stderr);
    assert |used| == |all| ==> used == all;
    assert !EndsInFailure(used, c) by {
      if used != [] {
        assert used[|used| - 1] == all[|used| - 1];
        assert !Raises(all[|used| - 1], c);
      }
    }
  }

  // ------------------------------------------------------------------- sandbox

  /** What `LinuxProcessSandboxBackend.execute` returns, apart from its two wall-clock times. */
  datatype Captured = Captured(termination: ExecutionTermination, exitCode: Option<int>, stdout: Bytes, stderr: Bytes)

  datatype CaptureFailure = CleanupFailed

  function Ceilings(limits: CommandLimits): Ceiling {
    Each(limits.stdoutMaxBytes, limits.stderrMaxBytes)
  }

  function Deadline(started: real, limits: CommandLimits): real {
    started + limits.timeoutMs as real / 1000.0
  }

  /** The reads that one execution of the sandbox consumes. */
  function SandboxReads(trace: seq<Turn>, started: real, limits: CommandLimits): seq<Read> {
    Used(Delivered(trace, Deadline(started, limits), true), Ceilings(limits))
  }

  /** The state of the loop: what has been read so far has stopped nothing, and the buffers hold all of it. */
  ghost predicate Capturing(all: seq<Read>, seen: seq<Read>, c: Ceiling, outOpen: bool, errOpen: bool, stdout: Bytes,
      stderr: Bytes)
  {
    && |seen| <= |all| && all[..|seen|] == seen
    && Used(all, c) == Used(all, c, |seen|)
    && !Stops(seen, c)
    && outOpen == !Closed(seen, Stdout) && errOpen == !Closed(seen, Stderr)
    && stdout == Received(seen, Stdout) && stderr == Received(seen, Stderr)
  }

  predicate IsOpen(stream: Stream, outOpen: bool, errOpen: bool) {
    if stream == Stdout then outOpen else errOpen
  }

  /** What one read does to the state of the loop. */
  lemma ReadCaptures(all: seq<Read>, seen: seq<Read>, read: Read, c: Ceiling, outOpen: bool, errOpen: bool,
      stdout: Bytes, stderr: Bytes)
    requires Capturing(all, seen, c, outOpen, errOpen, stdout, stderr)
    requires |seen| < |all| && all[|seen|] == read
    ensures var open := IsOpen(read.stream, outOpen, errOpen);
            var next := seen + [read];
            if !open || (read.result.WouldBlock? && !Raises(read, c)) then
              Capturing(all, next, c, outOpen, errOpen, stdout, stderr)
            else if Raises(read, c) then
              Used(all, c) == next && EndsInFailure(next, c)
            else if read.result.bytes == [] then
              Capturing(all, next, c, outOpen && read.stream != Stdout, errOpen && read.stream != Stderr, stdout,
                  stderr)
            else
              var out := if read.stream == Stdout then stdout + read.result.bytes else stdout;
              var err := if read.stream == Stderr then stderr + read.result.bytes else stderr;
              && Received(next, Stdout) == out && Received(next, Stderr) == err
              && (if Over(next, c) then Used(all, c) == next && !EndsInFailure(next, c)
                  else Capturing(all, next, c, outOpen, errOpen, out, err))
  {
    UsedStep(all, seen, read, c);
    ReadOne(seen, read, Stdout);
    ReadOne(seen, read, Stderr);
    assert (seen + [read])[..|seen|] == seen;
  }

  lemma EventIsNext(all: seq<Read>, before: seq<Read>, events: seq<Read>, rest: seq<Read>, i: nat)
    requires all == before + events + rest && i < |events|
    ensures |before| + i < |all| && all[|before| + i] == events[i]
    ensures before + events[..i + 1] == before + events[..i] + [events[i]]
  {
    assert events[..i + 1] == events[..i] + [events[i]];
  }

  /** How far one turn of the sandbox loop has come. */
  ghost predicate SandboxTurn(all: seq<Read>, seen: seq<Read>, limits: CommandLimits, outOpen: bool, errOpen: bool,
                              stdout: Bytes, stderr: Bytes, termination: Option<ExecutionTermination>) {
    var c := Ceilings(limits);
    match termination
    case None => Used(all, c) == seen && EndsInFailure(seen, c)
    case Some(t) =>
      if t == Exited then Capturing(all, seen, c, outOpen, errOpen, stdout, stderr)
      else
        && t == OutputLimit && Used(all, c) == seen && Over(seen, c) && !EndsInFailure(seen, c)
        && stdout == First(Received(seen, Stdout), limits.stdoutMaxBytes)
        && stderr == First(Received(seen, Stderr), limits.stderrMaxBytes)
  }

  /** The body of the inner loop of `execute`. No termination stands for a read that raised. */
  method ReadEvent(read: Read, limits: CommandLimits, outWasOpen: bool, errWasOpen: bool, out: Bytes, err: Bytes,
                   ghost all: seq<Read>, ghost seen: seq<Read>)
    returns (outOpen: bool, errOpen: bool, stdout: Bytes, stderr: Bytes, termination: Option<ExecutionTermination>)
    requires Capturing(all, seen, Ceilings(limits), outWasOpen, errWasOpen, out, err)
    requires |seen| < |all| && all[|seen|] == read
    ensures SandboxTurn(all, seen + [read], limits, outOpen, errOpen, stdout, stderr, termination)
  {
    ReadCaptures(all, seen, read, Ceilings(limits), outWasOpen, errWasOpen, out, err);
    outOpen, errOpen, stdout, stderr, termination := outWasOpen, errWasOpen, out, err, Some(Exited);
    if !IsOpen(read.stream, outOpen, errOpen) || read.result.WouldBlock? {
      return;
    }
    if read.result.Failure? {
      termination := None;
      return;
    }
    var chunk := read.result.bytes;
    if chunk == [] {
      outOpen, errOpen := outOpen && read.stream != Stdout, errOpen && read.stream != Stderr;
      return;
    }
    var target := if read.stream == Stdout then stdout else stderr;
    var ceiling: int := if read.stream == Stdout then limits.stdoutMaxBytes else limits.stderrMaxBytes;
    var available := if ceiling - |target| > 0 then ceiling - |target| else 0;
    FirstOfExtended(target, chunk, ceiling);
    target := target + First(chunk, available);
    if read.stream == Stdout { stdout := target; } else { stderr := target; }
    if |chunk| > available {
      termination := Some(OutputLimit);
    }
  }

  /** The inner loop of `execute` over the events of one selection. */
  method ReadEvents(events: seq<Read>, limits: CommandLimits, outWasOpen: bool, errWasOpen: bool, out: Bytes,
      err: Bytes,
                    ghost all: seq<Read>, ghost before: seq<Read>, ghost rest: seq<Read>)
    returns (outOpen: bool, errOpen: bool, stdout: Bytes, stderr: Bytes, termination: Option<ExecutionTermination>,
        ghost seen: seq<Read>)
    requires all == before + events + rest
    requires Capturing(all, before, Ceilings(limits), outWasOpen, errWasOpen, out, err)
    ensures SandboxTurn(all, seen, limits, outOpen, errOpen, stdout, stderr, termination)
    ensures termination == Some(Exited) ==> seen == before + events
  {
    outOpen, errOpen, stdout, stderr, termination := outWasOpen, errWasOpen, out, err, Some(Exited);
    seen := before;
    var i := 0;
    while i < |events| && termination == Some(Exited)
      invariant i <= |events| && seen == before + events[..i]
      invariant SandboxTurn(all, seen, limits, outOpen, errOpen, stdout, stderr, termination)
      decreases |events| - i
    {
      EventIsNext(all, before, events, rest, i);
      outOpen, errOpen, stdout, stderr, termination :=
          ReadEvent(events[i], limits, outOpen, errOpen, stdout, stderr, all, seen);
      seen := seen + [events[i]];
      i := i + 1;
    }
    assert i == |events| ==> events[..i] == events;
  }

  /**
   What the reads that were consumed say about the answer: each buffer is the
   first bytes of its stream, and the three terminations exclude each other.
   */
  ghost predicate SandboxOutcome(used: seq<Read>, limits: CommandLimits, exitStatus: int,
      r: Result<Captured, CaptureFailure>)
  {
    var over := Over(used, Ceilings(limits));
    match r
    case Err(_) => EndsInFailure(used, Ceilings(limits))
    case Ok(captured) =>
      && !EndsInFailure(used, Ceilings(limits))
      && captured.stdout == First(Received(used, Stdout), limits.stdoutMaxBytes)
      && captured.stderr == First(Received(used, Stderr), limits.stderrMaxBytes)
      && captured.termination == (if over then OutputLimit else if BothClosed(used) then Exited else TimedOut)
      && captured.exitCode == (if captured.termination == Exited then Some(exitStatus) else None)
  }

  lemma DeliveredStep(trace: seq<Turn>, turn: nat, deadline: real, patient: bool, seen: seq<Read>, all: seq<Read>)
    requires turn < |trace| && trace[turn].clock < deadline && (patient || !Silent(trace[turn].events, seen))
    requires all == seen + Delivered(trace[turn..], deadline, patient, seen)
    ensures all == seen + trace[turn].events
        + Delivered(trace[turn + 1..], deadline, patient, seen + trace[turn].events)
  {
    assert trace[turn..][1..] == trace[turn + 1..];
  }

  lemma DeliveredEnds(trace: seq<Turn>, turn: nat, deadline: real, patient: bool, seen: seq<Read>, all: seq<Read>,
      c: Ceiling)
    requires turn <= |trace|
    requires turn < |trace| ==> trace[turn].clock >= deadline || (!patient && Silent(trace[turn].events, seen))
    requires all == seen + Delivered(trace[turn..], deadline, patient, seen)
    requires Used(all, c) == Used(all, c, |seen|)
    ensures Used(all, c) == seen
  {
    assert all == seen;
  }

  /** Cutting a chunk to the room that is left cuts the stream at its ceiling. */
  lemma FirstOfExtended(target: Bytes, chunk: Bytes, ceiling: nat)
    requires |target| <= ceiling
    ensures First(target + chunk, ceiling) == target + First(chunk, ceiling - |target|)
  {
  }

  /** Both streams have ended within their ceilings. */
  lemma Finished(all: seq<Read>, seen: seq<Read>, limits: CommandLimits, stdout: Bytes, stderr: Bytes, exitStatus: int)
    requires Capturing(all, seen, Ceilings(limits), false, false, stdout, stderr)
    ensures SandboxOutcome(Used(all, Ceilings(limits)), limits, exitStatus,
        Ok(Captured(Exited, Some(exitStatus), stdout, stderr)))
  {
    NothingAfterTheEnd(all, |seen|, Ceilings(limits));
  }

  /** The deadline has passed with a stream still open. */
  lemma Expired(all: seq<Read>, seen: seq<Read>, limits: CommandLimits, outOpen: bool, errOpen: bool, stdout: Bytes,
      stderr: Bytes, exitStatus: int)
    requires Capturing(all, seen, Ceilings(limits), outOpen, errOpen, stdout, stderr) && (outOpen || errOpen)
    requires Used(all, Ceilings(limits)) == seen
    ensures SandboxOutcome(seen, limits, exitStatus, Ok(Captured(TimedOut, None, stdout, stderr)))
  {
  }

  method CaptureSandbox(trace: seq<Turn>, started: real, limits: CommandLimits, exitStatus: int)
    returns (r: Result<Captured, CaptureFailure>)
    ensures SandboxOutcome(SandboxReads(trace, started, limits), limits, exitStatus, r)
  {
    var deadline := Deadline(started, limits);
    ghost var all := Delivered(trace, deadline, true);
    r := RunSandboxLoop(trace, deadline, limits, exitStatus, all);
  }

  /** The loop has been left inside a turn, by a limit or by a read that raised. */
  lemma Stopped(all: seq<Read>, seen: seq<Read>, limits: CommandLimits, outOpen: bool, errOpen: bool,
                stdout: Bytes, stderr: Bytes, termination: Option<ExecutionTermination>, exitStatus: int)
    requires SandboxTurn(all, seen, limits, outOpen, errOpen, stdout, stderr, termination)
        && termination != Some(Exited)
    ensures SandboxOutcome(Used(all, Ceilings(limits)), limits, exitStatus,
                           if termination.None? then Err(CleanupFailed)
                               else Ok(Captured(termination.value, None, stdout, stderr)))
  {
  }

  /** One turn of the loop of `execute`. An answer ends the loop. */
  method SandboxStep(trace: seq<Turn>, turn: nat, deadline: real, limits: CommandLimits,
                     outWasOpen: bool, errWasOpen: bool, out: Bytes, err: Bytes,
                     ghost exitStatus: int, ghost all: seq<Read>, ghost before: seq<Read>)
    returns (outOpen: bool, errOpen: bool, stdout: Bytes, stderr: Bytes,
             answer: Option<Result<Captured, CaptureFailure>>, ghost seen: seq<Read>)
    requires turn <= |trace| && (outWasOpen || errWasOpen)
    requires all == before + Delivered(trace[turn..], deadline, true, before)
    requires Capturing(all, before, Ceilings(limits), outWasOpen, errWasOpen, out, err)
    ensures answer.Some? ==> SandboxOutcome(Used(all, Ceilings(limits)), limits, exitStatus, answer.value)
    ensures answer.None? ==>
              && turn < |trace|
              && all == seen + Delivered(trace[turn + 1..], deadline, true, seen)
              && Capturing(all, seen, Ceilings(limits), outOpen, errOpen, stdout, stderr)
  {
    outOpen, errOpen, stdout, stderr, seen := outWasOpen, errWasOpen, out, err, before;
    if turn == |trace| || trace[turn].clock >= deadline {
      DeliveredEnds(trace, turn, deadline, true, before, all, Ceilings(limits));
      Expired(all, before, limits, outOpen, errOpen, stdout, stderr, exitStatus);
      answer := Some(Ok(Captured(TimedOut, None, stdout, stderr)));
      return;
    }
    DeliveredStep(trace, turn, deadline, true, before, all);
    ghost var rest := Delivered(trace[turn + 1..], deadline, true, before + trace[turn].events);
    var termination;
    outOpen, errOpen, stdout, stderr, termination, seen :=
      ReadEvents(trace[turn].events, limits, outOpen, errOpen, stdout, stderr, all, before, rest);
    if termination == Some(Exited) {
      answer := None;
      return;
    }
    Stopped(all, seen, limits, outOpen, errOpen, stdout, stderr, termination, exitStatus);
    answer := if termination.None? then Some(Err(CleanupFailed))
              else Some(Ok(Captured(termination.value, None, stdout, stderr)));
  }

  lemma NothingReadYet(all: seq<Read>, c: Ceiling)
    ensures Capturing(all, [], c, true, true, [], [])
  {
  }

  /** The loop of `execute`, from the deadline on. */
  method RunSandboxLoop(trace: seq<Turn>, deadline: real, limits: CommandLimits, exitStatus: int, ghost all: seq<Read>)
    returns (r: Result<Captured, CaptureFailure>)
    requires all == Delivered(trace, deadline, true)
    ensures SandboxOutcome(Used(all, Ceilings(limits)), limits, exitStatus, r)
  {
    var stdout, stderr: Bytes := [], [];
    var outOpen, errOpen := true, true;
    ghost var seen: seq<Read> := [];
    var turn := 0;
    NothingReadYet(all, Ceilings(limits));
    while outOpen || errOpen
      invariant turn <= |trace|
      invariant all == seen + Delivered(trace[turn..], deadline, true, seen)
      invariant Capturing(all, seen, Ceilings(limits), outOpen, errOpen, stdout, stderr)
      decreases |trace| - turn
    {
      var answer;
      outOpen, errOpen, stdout, stderr, answer, seen :=
        SandboxStep(trace, turn, deadline, limits, outOpen, errOpen, stdout, stderr, exitStatus, all, seen);
      if answer.Some? {
        return answer.value;
      }
      turn := turn + 1;
    }
    Finished(all, seen, limits, stdout, stderr, exitStatus);
    return Ok(Captured(Exited, Some(exitStatus), stdout, stderr));
  }

  /**
   If no read raises, the output limit is reported exactly when the bytes offered before the
   deadline exceed a ceiling, and an exit exactly when both streams end below it.
   */
  lemma SandboxTerminationExact(trace: seq<Turn>, started: real, limits: CommandLimits, exitStatus: int,
      captured: Captured)
    requires SandboxOutcome(SandboxReads(trace, started, limits), limits, exitStatus, Ok(captured))
    requires forall read <- Delivered(trace, Deadline(started, limits), true) :: !Raises(read, Ceilings(limits))
    ensures var all := Delivered(trace, Deadline(started, limits), true);
            && (captured.termination == OutputLimit <==>
                  |Received(all, Stdout)| > limits.stdoutMaxBytes || |Received(all, Stderr)| > limits.stderrMaxBytes)
            && (captured.termination == Exited <==> BothClosed(all) && !Over(all, Ceilings(limits)))
            && (captured.termination == Exited ==>
                  captured.stdout == Received(all, Stdout) && captured.stderr == Received(all, Stderr))
            && captured.stdout <= Received(all, Stdout) && captured.stderr <= Received(all, Stderr)
  {
    var all, c := Delivered(trace, Deadline(started, limits), true), Ceilings(limits);
    var used := Used(all, c);
    OverExact(all, c);
    ReceivedGrows(all, |used|, Stdout);
    ReceivedGrows(all, |used|, Stderr);
    assert |used| == |all| ==> used == all;
  }

  /** The result that the command executor builds from what the sandbox returns. */
  function Assembled(request: CommandRequest, captured: Captured, startedAt: Instant, finishedAt: Instant)
    : ExecutionResult
  {
    ExecutionResult(request, captured.termination, captured.exitCode, captured.stdout, captured.stderr, startedAt,
        finishedAt)
  }

  /**
   What the sandbox captures always makes a valid execution result, provided that the wall clock
   has not gone back.
   */
  lemma CapturedFits(used: seq<Read>, request: CommandRequest, exitStatus: int, captured: Captured,
      startedAt: Instant, finishedAt: Instant)
    requires SandboxOutcome(used, request.limits, exitStatus, Ok(captured))
    ensures IsResult(Assembled(request, captured, startedAt, finishedAt)) <==> !Before(finishedAt, startedAt)
  {
  }

  // ----------------------------------------------------------------------- Git

  datatype GitFailure = GitTimeout | GitOutputLimit | GitCommandFailed

  /** The reads that one capture of Git output consumes. */
  function GitReads(trace: seq<Turn>, started: real, timeoutSeconds: real, maxOutput: nat): seq<Read> {
    Used(Delivered(trace, GitDeadline(started, timeoutSeconds), false), Together(maxOutput))
  }

  function GitDeadline(started: real, timeoutSeconds: real): real {
    started + timeoutSeconds
  }

  ghost predicate GitOutcome(used: seq<Read>, maxOutput: nat, r: Result<(Bytes, Bytes), GitFailure>) {
    match r
    case Ok((out, err)) =>
      && !Stops(used, Together(maxOutput)) && BothClosed(used)
      && out == Received(used, Stdout) && err == Received(used, Stderr)
    case Err(GitTimeout) => !Stops(used, Together(maxOutput)) && !BothClosed(used)
    case Err(GitOutputLimit) => Over(used, Together(maxOutput)) && !EndsInFailure(used, Together(maxOutput))
    case Err(GitCommandFailed) => EndsInFailure(used, Together(maxOutput))
  }

  /** How far one turn of the Git loop has come. */
  ghost predicate GitTurn(all: seq<Read>, seen: seq<Read>, maxOutput: nat, outOpen: bool, errOpen: bool,
                          stdout: Bytes, stderr: Bytes, failure: Option<GitFailure>) {
    var c := Together(maxOutput);
    match failure
    case None => Capturing(all, seen, c, outOpen, errOpen, stdout, stderr)
    case Some(f) =>
      && Used(all, c) == seen && f != GitTimeout
      && (f == GitOutputLimit ==> Over(seen, c) && !EndsInFailure(seen, c))
      && (f == GitCommandFailed ==> EndsInFailure(seen, c))
  }

  /** The body of the inner loop of `_capture_bounded`. */
  method ReadGitEvent(read: Read, maxOutput: nat, outWasOpen: bool, errWasOpen: bool, out: Bytes, err: Bytes,
                      ghost all: seq<Read>, ghost seen: seq<Read>)
    returns (outOpen: bool, errOpen: bool, stdout: Bytes, stderr: Bytes, failure: Option<GitFailure>)
    requires Capturing(all, seen, Together(maxOutput), outWasOpen, errWasOpen, out, err)
    requires |seen| < |all| && all[|seen|] == read
    ensures GitTurn(all, seen + [read], maxOutput, outOpen, errOpen, stdout, stderr, failure)
  {
    ReadCaptures(all, seen, read, Together(maxOutput), outWasOpen, errWasOpen, out, err);
    outOpen, errOpen, stdout, stderr, failure := outWasOpen, errWasOpen, out, err, None;
    if !IsOpen(read.stream, outOpen, errOpen) {
      return;
    }
    if !read.result.Chunk? {
      failure := Some(GitCommandFailed);
      return;
    }
    var chunk := read.result.bytes;
    if chunk == [] {
      outOpen, errOpen := outOpen && read.stream != Stdout, errOpen && read.stream != Stderr;
      return;
    }
    if read.stream == Stdout { stdout := stdout + chunk; } else { stderr := stderr + chunk; }
    if |stdout| + |stderr| > maxOutput {
      failure := Some(GitOutputLimit);
    }
  }

  /** The inner loop of `_capture_bounded` over the events of one selection. */
  method ReadGitEvents(events: seq<Read>, maxOutput: nat, outWasOpen: bool, errWasOpen: bool, out: Bytes, err: Bytes,
                       ghost all: seq<Read>, ghost before: seq<Read>, ghost rest: seq<Read>)
    returns (outOpen: bool, errOpen: bool, stdout: Bytes, stderr: Bytes, failure: Option<GitFailure>,
        ghost seen: seq<Read>)
    requires all == before + events + rest
    requires Capturing(all, before, Together(maxOutput), outWasOpen, errWasOpen, out, err)
    ensures GitTurn(all, seen, maxOutput, outOpen, errOpen, stdout, stderr, failure)
    ensures failure == None ==> seen == before + events
  {
    outOpen, errOpen, stdout, stderr, failure := outWasOpen, errWasOpen, out, err, None;
    seen := before;
    var i := 0;
    while i < |events| && failure == None
      invariant i <= |events| && seen == before + events[..i]
      invariant GitTurn(all, seen, maxOutput, outOpen, errOpen, stdout, stderr, failure)
      decreases |events| - i
    {
      EventIsNext(all, before, events, rest, i);
      outOpen, errOpen, stdout, stderr, failure :=
          ReadGitEvent(events[i], maxOutput, outOpen, errOpen, stdout, stderr, all, seen);
      seen := seen + [events[i]];
      i := i + 1;
    }
    assert i == |events| ==> events[..i] == events;
  }

  /** Whether the selector reports no stream that is still registered. */
  predicate NothingToRead(events: seq<Read>, outOpen: bool, errOpen: bool, ghost seen: seq<Read>)
    requires outOpen == !Closed(seen, Stdout) && errOpen == !Closed(seen, Stderr)
    ensures NothingToRead(events, outOpen, errOpen, seen) <==> Silent(events, seen)
  {
    forall event <- events :: !IsOpen(event.stream, outOpen, errOpen)
  }

  /** `_capture_bounded`. */
  method CaptureBounded(trace: seq<Turn>, started: real, timeoutSeconds: real, maxOutput: nat)
    returns (r: Result<(Bytes, Bytes), GitFailure>)
    ensures GitOutcome(GitReads(trace, started, timeoutSeconds, maxOutput), maxOutput, r)
  {
    var deadline := GitDeadline(started, timeoutSeconds);
    ghost var all := Delivered(trace, deadline, false);
    r := RunGitLoop(trace, deadline, maxOutput, all);
  }

  lemma GitStopped(all: seq<Read>, seen: seq<Read>, maxOutput: nat, outOpen: bool, errOpen: bool, stdout: Bytes,
      stderr: Bytes, failure: GitFailure)
    requires GitTurn(all, seen, maxOutput, outOpen, errOpen, stdout, stderr, Some(failure))
    ensures GitOutcome(Used(all, Together(maxOutput)), maxOutput, Err(failure))
  {
  }

  lemma GitExpired(all: seq<Read>, seen: seq<Read>, maxOutput: nat, outOpen: bool, errOpen: bool, stdout: Bytes,
      stderr: Bytes)
    requires Capturing(all, seen, Together(maxOutput), outOpen, errOpen, stdout, stderr) && (outOpen || errOpen)
    requires Used(all, Together(maxOutput)) == seen
    ensures GitOutcome(Used(all, Together(maxOutput)), maxOutput, Err(GitTimeout))
  {
  }

  /** One turn of the loop of `_capture_bounded`. A failure ends the loop. */
  method GitStep(trace: seq<Turn>, turn: nat, deadline: real, maxOutput: nat,
                 outWasOpen: bool, errWasOpen: bool, out: Bytes, err: Bytes,
                 ghost all: seq<Read>, ghost before: seq<Read>)
    returns (outOpen: bool, errOpen: bool, stdout: Bytes, stderr: Bytes, failure: Option<GitFailure>,
             ghost seen: seq<Read>)
    requires turn <= |trace| && (outWasOpen || errWasOpen)
    requires all == before + Delivered(trace[turn..], deadline, false, before)
    requires Capturing(all, before, Together(maxOutput), outWasOpen, errWasOpen, out, err)
    ensures failure.Some? ==> GitOutcome(Used(all, Together(maxOutput)), maxOutput, Err(failure.value))
    ensures failure.None? ==>
              && turn < |trace|
              && all == seen + Delivered(trace[turn + 1..], deadline, false, seen)
              && Capturing(all, seen, Together(maxOutput), outOpen, errOpen, stdout, stderr)
  {
    outOpen, errOpen, stdout, stderr, seen := outWasOpen, errWasOpen, out, err, before;
    if turn == |trace| || trace[turn].clock >= deadline
       || NothingToRead(trace[turn].events, outOpen, errOpen, before)
    {
      DeliveredEnds(trace, turn, deadline, false, before, all, Together(maxOutput));
      GitExpired(all, before, maxOutput, outOpen, errOpen, stdout, stderr);
      failure := Some(GitTimeout);
      return;
    }
    DeliveredStep(trace, turn, deadline, false, before, all);
    ghost var rest := Delivered(trace[turn + 1..], deadline, false, before + trace[turn].events);
    outOpen, errOpen, stdout, stderr, failure, seen :=
      ReadGitEvents(trace[turn].events, maxOutput, outOpen, errOpen, stdout, stderr, all, before, rest);
    if failure.Some? {
      GitStopped(all, seen, maxOutput, outOpen, errOpen, stdout, stderr, failure.value);
    }
  }

  method RunGitLoop(trace: seq<Turn>, deadline: real, maxOutput: nat, ghost all: seq<Read>)
    returns (r: Result<(Bytes, Bytes), GitFailure>)
    requires all == Delivered(trace, deadline, false)
    ensures GitOutcome(Used(all, Together(maxOutput)), maxOutput, r)
  {
    var stdout, stderr: Bytes := [], [];
    var outOpen, errOpen := true, true;
    ghost var seen: seq<Read> := [];
    var turn := 0;
    NothingReadYet(all, Together(maxOutput));
    while outOpen || errOpen
      invariant turn <= |trace|
      invariant all == seen + Delivered(trace[turn..], deadline, false, seen)
      invariant Capturing(all, seen, Together(maxOutput), outOpen, errOpen, stdout, stderr)
      decreases |trace| - turn
    {
      var failure;
      outOpen, errOpen, stdout, stderr, failure, seen :=
        GitStep(trace, turn, deadline, maxOutput, outOpen, errOpen, stdout, stderr, all, seen);
      if failure.Some? {
        return Err(failure.value);
      }
      turn := turn + 1;
    }
    GitFinished(all, seen, maxOutput, stdout, stderr);
    return Ok((stdout, stderr));
  }

  lemma GitFinished(all: seq<Read>, seen: seq<Read>, maxOutput: nat, stdout: Bytes, stderr: Bytes)
    requires Capturing(all, seen, Together(maxOutput), false, false, stdout, stderr)
    ensures GitOutcome(Used(all, Together(maxOutput)), maxOutput, Ok((stdout, stderr)))
  {
    NothingAfterTheEnd(all, |seen|, Together(maxOutput));
  }

  /**
   At every moment both buffers together hold at most the limit and one read, of 65536 bytes or
   one more than the limit.
   */
  lemma GitBuffersAreBounded(all: seq<Read>, maxOutput: nat, n: nat)
    requires forall read <- all :: read.result.Chunk? ==> |read.result.bytes| <= 65536
    requires forall read <- all :: read.result.Chunk? ==> |read.result.bytes| <= maxOutput + 1
    requires n <= |Used(all, Together(maxOutput))|
    ensures |Received(all[..n], Stdout)| + |Received(all[..n], Stderr)| <= maxOutput + 65536
    ensures |Received(all[..n], Stdout)| + |Received(all[..n], Stderr)| <= maxOutput + (maxOutput + 1)
  {
    if n > 0 {
      var used := Used(all, Together(maxOutput));
      assert used[..n - 1] == all[..n - 1];
      assert all[..n] == all[..n - 1] + [all[n - 1]];
      ReadOne(all[..n - 1], all[n - 1], Stdout);
      ReadOne(all[..n - 1], all[n - 1], Stderr);
      assert !Over(all[..n - 1], Together(maxOutput)) by {
        assert n > 1 ==> !Stops(all[..n - 1], Together(maxOutput));
      }
      assert all[n - 1] in all;
    }
  }

  /**
   A normal return holds every byte offered on both streams, within the limit;
   without a failing read the limit is reported exactly when those bytes exceed it.
   */
  lemma GitCaptureExact(trace: seq<Turn>, started: real, timeoutSeconds: real, maxOutput: nat,
                        r: Result<(Bytes, Bytes), GitFailure>)
    requires GitOutcome(GitReads(trace, started, timeoutSeconds, maxOutput), maxOutput, r)
    ensures var all := Delivered(trace, GitDeadline(started, timeoutSeconds), false);
            && (r.Ok? ==>
                  && r.value == (Received(all, Stdout), Received(all, Stderr))
                  && BothClosed(all) && |r.value.0| + |r.value.1| <= maxOutput)
            && ((forall read <- all :: !Raises(read, Together(maxOutput))) ==>
                  (r == Err(GitOutputLimit) <==> |Received(all, Stdout)| + |Received(all, Stderr)| > maxOutput))
  {
    var all, c := Delivered(trace, GitDeadline(started, timeoutSeconds), false), Together(maxOutput);
    var used := Used(all, c);
    assert |used| == |all| ==> used == all;
    if forall read <- all :: !Raises(read, c) {
      OverExact(all, c);
      assert r == Err(GitOutputLimit) ==> Over(used, c);
      assert Over(used, c) ==> r == Err(GitOutputLimit) by {
        assert r == Err(GitCommandFailed) ==> used[|used| - 1] in all;
      }
    }
  }
}
