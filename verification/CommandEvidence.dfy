/** How one execution becomes a command record of the evidence, and what the record still tells. */
module CommandEvidence {
  import opened Results
  import opened Utf8
  import opened Json
  import opened JsonProofs
  import opened Numbers
  import opened Identity
  import opened Command
  import opened Elapsed
  import opened Evidence
  import opened EvidenceProofs

  function Argv(r: CommandRequest): seq<string> {
    [r.executable] + seq(|r.arguments|, i requires 0 <= i < |r.arguments| => r.arguments[i])
  }

  function Strings(texts: seq<string>): seq<Json> {
    seq(|texts|, i requires 0 <= i < |texts| => Str(texts[i]))
  }

  /** `_command_identity`: the argument vector as the text of a JSON array. */
  function CommandIdentity(r: CommandRequest): string {
    Print(Arr(Strings(Argv(r))))
  }

  function TerminationText(t: ExecutionTermination): string {
    match t
    case Exited => EXITED
    case TimedOut => TIMED_OUT
    case Cancelled => CANCELLED
    case OutputLimit => OUTPUT_LIMIT
  }

  function RecordOf(x: ExecutionResult, specification: Bytes, rt: Runtime): CommandRecord {
    CommandRecord(
      CommandIdentity(x.request),
      TerminationText(x.termination),
      x.exitCode,
      rt.sha256(x.stdout),
      rt.sha256(x.stderr),
      rt.sha256(specification),
      Fraction(rt.secondsText(Microseconds(x.startedAt, x.finishedAt))))
  }

  /** `build_command_result`, which also requires that its result can be serialized. */
  function BuildCommandResult(x: ExecutionResult, specification: Bytes, rt: Runtime): Option<CommandRecord> {
    if specification == [] || SerializeCommandRecord(RecordOf(x, specification, rt)).None? then None
    else Some(RecordOf(x, specification, rt))
  }

  /** The runtime prints a duration that is not negative as a number that is not negative. */
  ghost predicate IsRuntime(rt: Runtime) {
    forall micros: nat :: IsNumber(Fraction(rt.secondsText(micros)))
  }

  /** The reader of JSON recovers the executable, then every argument, from the command text. */
  lemma ArgvIsRecoverable(r: CommandRequest)
    ensures var document := ParseDocument(CommandIdentity(r));
            && document.Some? && document.value.Arr? && |document.value.items| == 1 + |r.arguments|
            && document.value.items[0] == Str(r.executable)
            && forall i | 0 <= i < |r.arguments| :: document.value.items[i + 1] == Str(r.arguments[i])
  {
    CommandIsParsed(r);
  }

  lemma CommandIsParsed(r: CommandRequest)
    ensures ParseDocument(CommandIdentity(r)) == Some(Arr(Strings(Argv(r))))
  {
    DocumentRoundTrip(Arr(Strings(Argv(r))));
  }

  /** Two requests have the same command text exactly when they name the same executable and arguments. */
  lemma CommandIdentityExact(r: CommandRequest, s: CommandRequest)
    ensures CommandIdentity(r) == CommandIdentity(s) <==> r.executable == s.executable && r.arguments == s.arguments
  {
    CommandIsParsed(r);
    CommandIsParsed(s);
    if CommandIdentity(r) == CommandIdentity(s) {
      StringsInjective(Argv(r), Argv(s));
      ArgvInjective(r, s);
    }
  }

  lemma StringsInjective(a: seq<string>, b: seq<string>)
    requires Strings(a) == Strings(b)
    ensures a == b
  {
    assert |a| == |Strings(a)| == |Strings(b)| == |b|;
    forall i | 0 <= i < |a| ensures a[i] == b[i] {
      assert Strings(a)[i] == Strings(b)[i];
    }
  }

  lemma ArgvInjective(r: CommandRequest, s: CommandRequest)
    requires Argv(r) == Argv(s)
    ensures r.executable == s.executable && r.arguments == s.arguments
  {
    assert Argv(r)[0] == Argv(s)[0];
    forall i | 0 <= i < |r.arguments| ensures r.arguments[i] == s.arguments[i] {
      assert Argv(r)[i + 1] == Argv(s)[i + 1];
    }
  }

  lemma CommandIdentityIsText(r: CommandRequest)
    ensures CommandIdentity(r) != ""
  {
    PrintStartsAValue(Arr(Strings(Argv(r))));
  }

  /** A result is valid exactly when it exits with a code or neither, keeps its ceilings and takes no negative time. */
  lemma ResultExact(x: ExecutionResult)
    ensures IsResult(x) <==>
              && (x.termination == Exited) == (x.exitCode != None)
              && |x.stdout| <= x.request.limits.stdoutMaxBytes && |x.stderr| <= x.request.limits.stderrMaxBytes
              && Microseconds(x.startedAt, x.finishedAt) >= 0
  {
    ElapsedExact(x.startedAt, x.finishedAt);
  }

  /** Every valid execution result becomes evidence, unless its specification is empty. */
  lemma BuildExact(x: ExecutionResult, specification: Bytes, rt: Runtime)
    requires IsResult(x) && IsRuntime(rt)
    ensures BuildCommandResult(x, specification, rt).Some? <==> specification != []
  {
    ElapsedExact(x.startedAt, x.finishedAt);
    CommandIdentityIsText(x.request);
    var micros: nat := Microseconds(x.startedAt, x.finishedAt);
    assert IsNumber(Fraction(rt.secondsText(micros)));
  }

  /**
   The bytes of a command record tell the executable, the arguments, the termination, the exit
   code and the three digests.
   */
  lemma CommandBytesTell(x: ExecutionResult, y: ExecutionResult, spec: Bytes, spec': Bytes, rt: Runtime)
    requires BuildCommandResult(x, spec, rt).Some? && BuildCommandResult(y, spec', rt).Some?
    requires SerializeCommandRecord(RecordOf(x, spec, rt)) == SerializeCommandRecord(RecordOf(y, spec', rt))
    ensures x.request.executable == y.request.executable && x.request.arguments == y.request.arguments
    ensures x.termination == y.termination && x.exitCode == y.exitCode
    ensures rt.sha256(x.stdout) == rt.sha256(y.stdout) && rt.sha256(x.stderr) == rt.sha256(y.stderr)
    ensures rt.sha256(spec) == rt.sha256(spec')
  {
    CommandBytesExact(RecordOf(x, spec, rt), RecordOf(y, spec', rt));
    CommandIdentityExact(x.request, y.request);
  }

  /**
   A run may be bound to a baseline of 40 or of 64 digits, but evidence accepts at
   most 40: a run on a longer object identifier can never have evidence.
   */
  lemma EvidenceNeedsShortBaseline(identity: RunIdentity, e: EvidenceDocument, rt: Runtime)
    requires e.baselineSha == identity.baselineSha
    ensures IsObjectId(e.baselineSha) <==> |identity.baselineSha| == 40
    ensures SerializeEvidence(e, rt).Some? ==> |identity.baselineSha| == 40
  {
  }

  /** A concrete run on 64 digits: whatever evidence is valid for another baseline is refused for its own. */
  lemma LongBaselineHasNoEvidence(e: EvidenceDocument, rt: Runtime)
    requires SerializeEvidence(e, rt).Some?
    ensures var identity := SampleIdentity(2026, 64);
            |identity.baselineSha| == 64 && SerializeEvidence(e.(baselineSha := identity.baselineSha), rt) == None
  {
    EvidenceNeedsShortBaseline(SampleIdentity(2026, 64), e.(baselineSha := SampleIdentity(2026, 64).baselineSha), rt);
  }
}
