/** When the captures end, by the clock readings of their traces and nothing else. */
module CaptureTiming {
  import opened Results
  import opened Utf8
  import opened Command
  import opened Capture

  function AllReads(trace: seq<Turn>): seq<Read> {
    if trace == [] then [] else trace[0].events + AllReads(trace[1..])
  }

  lemma {:induction false} EarlyTurnsAreDelivered(trace: seq<Turn>, deadline: real, before: seq<Read>)
    requires forall turn <- trace :: turn.clock < deadline
    ensures Delivered(trace, deadline, true, before) == AllReads(trace)
    decreases |trace|
  {
    if trace != [] {
      assert trace[0] in trace;
      EarlyTurnsAreDelivered(trace[1..], deadline, before + trace[0].events);
    }
  }

  lemma {:induction false} NothingAfterTheDeadline(trace: seq<Turn>, k: nat, deadline: real, patient: bool,
      before: seq<Read>)
    requires k < |trace| && trace[k].clock >= deadline
    ensures Delivered(trace, deadline, patient, before) == Delivered(trace[..k], deadline, patient, before)
    decreases |trace|
  {
    if k > 0 {
      assert trace[..k][1..] == trace[1..][..k - 1];
      NothingAfterTheDeadline(trace[1..], k - 1, deadline, patient, before + trace[0].events);
    }
  }

  // ------------------------------------------------------------------ sandbox

  /** Less than the time limit, in milliseconds, has passed at a turn. */
  predicate InTime(turn: Turn, started: real, limits: CommandLimits) {
    (turn.clock - started) * 1000.0 < limits.timeoutMs as real
  }

  lemma InTimeExact(turn: Turn, started: real, limits: CommandLimits)
    ensures InTime(turn, started, limits) <==> turn.clock < Deadline(started, limits)
  {
  }

  ghost predicate NoReadRaises(all: seq<Read>) {
    forall read <- all :: read.result != Failure
  }

  /**
   If every turn is in time and no read raises, everything that is read counts: more
   than a ceiling is the output limit, both ends below the ceilings are an exit with
   every byte and the exit status, and otherwise the time runs out.
   */
  lemma SandboxInTime(trace: seq<Turn>, started: real, limits: CommandLimits, exitStatus: int, r: Result<Captured,
      CaptureFailure>)
    requires SandboxOutcome(SandboxReads(trace, started, limits), limits, exitStatus, r)
    requires (forall turn <- trace :: InTime(turn, started, limits)) && NoReadRaises(AllReads(trace))
    ensures r.Ok?
    ensures var out, err := Received(AllReads(trace), Stdout), Received(AllReads(trace), Stderr);
            if |out| > limits.stdoutMaxBytes || |err| > limits.stderrMaxBytes then
              r.value.termination == OutputLimit && r.value.exitCode == None
            else if BothClosed(AllReads(trace)) then
              r.value == Captured(Exited, Some(exitStatus), out, err)
            else
              r.value == Captured(TimedOut, None, out, err)
  {
    var all, c := AllReads(trace), Ceilings(limits);
    forall turn <- trace ensures turn.clock < Deadline(started, limits) {
      InTimeExact(turn, started, limits);
    }
    EarlyTurnsAreDelivered(trace, Deadline(started, limits), []);
    assert forall read <- all :: !Raises(read, c);
    OverExact(all, c);
    var used := Used(all, c);
    assert |used| == |all| ==> used == all;
    assert !EndsInFailure(used, c) by {
      if used != [] {
        assert used[|used| - 1] == all[|used| - 1];
        assert all[|used| - 1] in all;
      }
    }
  }

  /** If the first turn comes too late, or there is none, the time has run out and nothing is captured. */
  lemma SandboxTooLate(trace: seq<Turn>, started: real, limits: CommandLimits, exitStatus: int, r: Result<Captured,
      CaptureFailure>)
    requires SandboxOutcome(SandboxReads(trace, started, limits), limits, exitStatus, r)
    requires trace == [] || !InTime(trace[0], started, limits)
    ensures r == Ok(Captured(TimedOut, None, [], []))
  {
    if trace != [] {
      InTimeExact(trace[0], started, limits);
    }
  }

  /** A turn that comes too late changes nothing, and neither does anything after it. */
  lemma LateTurnsAreIgnored(trace: seq<Turn>, k: nat, started: real, limits: CommandLimits)
    requires k < |trace| && !InTime(trace[k], started, limits)
    ensures SandboxReads(trace, started, limits) == SandboxReads(trace[..k], started, limits)
  {
    InTimeExact(trace[k], started, limits);
    NothingAfterTheDeadline(trace, k, Deadline(started, limits), true, []);
  }

  // ---------------------------------------------------------------------- Git

  /** Every turn reports something on a stream that has not ended. */
  ghost predicate NeverSilent(trace: seq<Turn>, before: seq<Read>)
    decreases |trace|
  {
    trace != [] ==>
      && (exists read <- trace[0].events :: !Closed(before, read.stream))
      && NeverSilent(trace[1..], before + trace[0].events)
  }

  lemma {:induction false} BusyTurnsAreDelivered(trace: seq<Turn>, deadline: real, before: seq<Read>)
    requires (forall turn <- trace :: turn.clock < deadline) && NeverSilent(trace, before)
    ensures Delivered(trace, deadline, false, before) == AllReads(trace)
    decreases |trace|
  {
    if trace != [] {
      assert trace[0] in trace;
      BusyTurnsAreDelivered(trace[1..], deadline, before + trace[0].events);
    }
  }

  /**
   If less than the timeout has passed at every turn, no turn is silent and no read raises,
   everything that is read counts.
   */
  lemma GitInTime(trace: seq<Turn>, started: real, timeoutSeconds: real, maxOutput: nat, r: Result<(Bytes, Bytes),
      GitFailure>)
    requires GitOutcome(GitReads(trace, started, timeoutSeconds, maxOutput), maxOutput, r)
    requires (forall turn <- trace :: turn.clock - started < timeoutSeconds) && NeverSilent(trace, [])
    requires forall read <- AllReads(trace) :: read.result.Chunk?
    ensures var out, err := Received(AllReads(trace), Stdout), Received(AllReads(trace), Stderr);
            r == if |out| + |err| > maxOutput then Err(GitOutputLimit)
                 else if BothClosed(AllReads(trace)) then Ok((out, err))
                 else Err(GitTimeout)
  {
    var all, c := AllReads(trace), Together(maxOutput);
    BusyTurnsAreDelivered(trace, GitDeadline(started, timeoutSeconds), []);
    assert forall read <- all :: !Raises(read, c);
    OverExact(all, c);
    var used := Used(all, c);
    assert |used| == |all| ==> used == all;
    assert !EndsInFailure(used, c) by {
      if used != [] {
        assert used[|used| - 1] == all[|used| - 1];
        assert all[|used| - 1] in all;
      }
    }
  }

  /** A first turn at or past the timeout ends the capture, as does a first turn that reports nothing. */
  lemma GitTooLate(trace: seq<Turn>, started: real, timeoutSeconds: real, maxOutput: nat, r: Result<(Bytes, Bytes),
      GitFailure>)
    requires GitOutcome(GitReads(trace, started, timeoutSeconds, maxOutput), maxOutput, r)
    requires trace == [] || trace[0].clock - started >= timeoutSeconds || trace[0].events == []
    ensures r == Err(GitTimeout)
  {
  }
}
