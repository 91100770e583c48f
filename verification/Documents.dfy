/**
 The documents as a reader of the bytes meets them: every member name, every value and the order,
 spelled out. What else is stored or hashed follows from the codecs.
 */
module Documents {
  import opened Results
  import opened Order
  import opened Utf8
  import opened Json
  import opened JsonProofs
  import opened Numbers
  import opened Timestamp
  import opened Identity
  import opened Lifecycle
  import opened State
  import opened StateSerialization
  import opened Command
  import opened Elapsed
  import opened Evidence
  import opened EvidenceProofs
  import opened CommandEvidence
  import opened Names

  function IdentityLayout(id: RunIdentity): Json {
    Obj([Field("baseline_sha", Str(id.baselineSha)),
         Field("contract_hash", Str(id.contractHash)),
         Field("contract_id", Str(id.contractId)),
         Field("contract_version", Str(id.contractVersion)),
         Field("created_at", Str(PrintTimestamp(id.createdAt))),
         Field("format", Str("alicerce.run_identity")),
         Field("policy_hash", Str(id.policyHash)),
         Field("run_id", Str(id.runId)),
         Field("version", Int(1))])
  }

  function CheckpointLayout(c: RunCheckpoint): Json {
    Obj([Field("final_state", FinalPayload(c.lifecycle.finalState)),
         Field("format", Str("alicerce.run_checkpoint")),
         Field("identity", IdentityLayout(c.identity)),
         Field("revision", Int(c.lifecycle.revision)),
         Field("state", Str(StateValue(c.lifecycle.state))),
         Field("updated_at", Str(PrintTimestamp(c.lifecycle.updatedAt))),
         Field("version", Int(1))])
  }

  function TransitionLayout(t: LifecycleTransition): Json {
    Obj([Field("actor", Str(t.actor)),
         Field("final_state", FinalPayload(t.finalState)),
         Field("format", Str("alicerce.lifecycle_transition")),
         Field("from_state", Str(StateValue(t.fromState))),
         Field("occurred_at", Str(PrintTimestamp(t.occurredAt))),
         Field("revision", Int(t.revision)),
         Field("run_id", Str(t.runId)),
         Field("to_state", Str(StateValue(t.toState))),
         Field("version", Int(1))])
  }

  lemma IdentityIsSpelled(id: RunIdentity)
    ensures IdentityPayload(id) == IdentityLayout(id)
  {
    assert IdentityPayload(id).fields == IdentityLayout(id).fields;
  }

  lemma CheckpointIsSpelled(c: RunCheckpoint)
    ensures CheckpointPayload(c) == CheckpointLayout(c)
  {
    IdentityIsSpelled(c.identity);
    assert CheckpointPayload(c).fields == CheckpointLayout(c).fields;
  }

  lemma TransitionIsSpelled(t: LifecycleTransition)
    ensures TransitionPayload(t) == TransitionLayout(t)
  {
    assert TransitionPayload(t).fields == TransitionLayout(t).fields;
  }

  lemma CanonicalIsLoaded(v: Json)
    requires v.Obj? && Canonical(v)
    ensures Load(Dump(v)) == Some(v)
  {
    NormalizeCanonical(v);
    LoadExact(Dump(v), v);
  }

  /** Identity bytes load as exactly the nine members of the identity document. */
  lemma IdentityBytesAre(id: RunIdentity)
    ensures Load(SerializeRunIdentity(id)) == Some(IdentityLayout(id))
  {
    IdentityPayloadIsCanonical(id);
    CanonicalIsLoaded(IdentityPayload(id));
    IdentityIsSpelled(id);
  }

  lemma CheckpointPayloadIsCanonical(c: RunCheckpoint)
    ensures Canonical(CheckpointPayload(c))
  {
    IdentityPayloadIsCanonical(c.identity);
    CheckpointFieldsSorted();
    NamedIsCanonical(CHECKPOINT_FIELDS, CheckpointValues(c));
  }

  /** Checkpoint bytes load as exactly seven members, with the identity document inside. */
  lemma CheckpointBytesAre(c: RunCheckpoint)
    ensures Load(SerializeCheckpoint(c)) == Some(CheckpointLayout(c))
  {
    CheckpointPayloadIsCanonical(c);
    CanonicalIsLoaded(CheckpointPayload(c));
    CheckpointIsSpelled(c);
  }

  lemma TransitionPayloadIsCanonical(t: LifecycleTransition)
    ensures Canonical(TransitionPayload(t))
  {
    TransitionFieldsSorted();
    NamedIsCanonical(TRANSITION_FIELDS, TransitionValues(t));
  }

  /** Transition bytes load as exactly nine members. */
  lemma TransitionBytesAre(t: LifecycleTransition)
    ensures Load(SerializeTransition(t)) == Some(TransitionLayout(t))
  {
    TransitionPayloadIsCanonical(t);
    CanonicalIsLoaded(TransitionPayload(t));
    TransitionIsSpelled(t);
  }

  // ---------------------------------------------------------------- evidence

  lemma NamedIsNormalized(names: seq<string>, values: seq<Json>, document: seq<Field>)
    requires |names| == |values| == |document| && StrictlySorted(names, Text)
    requires forall i | 0 <= i < |names| :: document[i] == Field(names[i], Normalize(values[i]))
    ensures Normalize(Obj(Named(names, values))) == Obj(document)
  {
    NormalizeMembersAt(Named(names, values));
    assert NormalizeMembers(Named(names, values)) == document;
    forall i, j | 0 <= i < j < |document| ensures Less(FieldKey(document[i]), FieldKey(document[j])) {
      assert Less(Text(names[i]), Text(names[j]));
    }
    SortSorted(document);
  }

  function EnvironmentLayout(e: EnvironmentInfo): Json {
    Obj([Field("python", Str(e.python)),
         Field("tool_versions",
               Normalize(Obj(seq(|e.toolVersions|, i requires 0 <= i < |e.toolVersions| =>
                                   Field(e.toolVersions[i].name, Str(e.toolVersions[i].version)))))),
         Field("uv_lock_sha256", Str(e.uvLockSha256))])
  }

  function CommandLayout(c: CommandRecord): Json {
    Obj([Field("command", Str(c.command)),
         Field("duration_s", NumberJson(c.duration)),
         Field("exit_code", if c.exitCode.Some? then Int(c.exitCode.value) else Null),
         Field("specification_sha256", Str(c.specificationSha256)),
         Field("stderr_sha256", Str(c.stderrSha256)),
         Field("stdout_sha256", Str(c.stdoutSha256)),
         Field("termination", Str(c.termination))])
  }

  function TokensLayout(u: Usage): Json {
    Obj([Field("input", Int(u.inputTokens)), Field("output", Int(u.outputTokens))])
  }

  /** The cost stands first, where it sorts, and is absent when it is not known. */
  function UsageLayout(u: Usage): Json {
    Obj((if u.estimatedCost.Some? then [Field("estimated_cost_usd", NumberJson(u.estimatedCost.value))] else [])
        + [Field("model", Str(u.model)), Field("provider", Str(u.provider)), Field("tokens", TokensLayout(u))])
  }

  lemma EnvironmentIsSpelled(e: EnvironmentInfo)
    ensures Normalize(EnvironmentJson(e)) == EnvironmentLayout(e)
  {
    EnvironmentFieldsSorted();
    var versions := seq(|e.toolVersions|, i requires 0 <= i < |e.toolVersions| =>
                          Field(e.toolVersions[i].name, Str(e.toolVersions[i].version)));
    assert VersionFields(e.toolVersions) == versions;
    NamedIsNormalized(ENVIRONMENT_FIELDS, EnvironmentValues(e), EnvironmentLayout(e).fields);
  }

  lemma CommandIsSpelled(c: CommandRecord)
    ensures Normalize(CommandJson(c)) == CommandLayout(c)
  {
    CommandFieldsSorted();
    CommandValuesAreAtoms(c);
    NamedIsNormalized(COMMAND_FIELDS, CommandValues(c), CommandLayout(c).fields);
  }

  lemma TokensAreSpelled(u: Usage)
    ensures Normalize(Obj(Named(TOKEN_FIELDS, TokenValues(u)))) == TokensLayout(u)
  {
    TokenFieldsSorted();
    NamedIsNormalized(TOKEN_FIELDS, TokenValues(u), TokensLayout(u).fields);
  }

  lemma CostSortsFirst()
    ensures Less(Text(COST_FIELD), Text(USAGE_FIELDS[0]))
  {
    TextLessAt(COST_FIELD, USAGE_FIELDS[0], 0);
  }

  lemma PrependedIsSorted(name: string, value: Json, names: seq<string>, values: seq<Json>)
    requires 0 < |names| == |values| && StrictlySorted(names, Text) && Less(Text(name), Text(names[0]))
    ensures StrictlySorted([Field(name, value)] + Named(names, values), FieldKey)
  {
    NamedIsSorted(names, values);
    var f := [Field(name, value)] + Named(names, values);
    forall i | 0 <= i < |f| - 1 ensures Less(FieldKey(f[i]), FieldKey(f[i + 1])) {
      if i > 0 {
        assert f[i] == Named(names, values)[i - 1] && f[i + 1] == Named(names, values)[i];
      }
    }
    SortedFromNeighbours(f, FieldKey);
  }

  lemma UsageLayoutIs(u: Usage)
    ensures UsageLayout(u).fields ==
            (if u.estimatedCost.Some? then [Field(COST_FIELD, NumberJson(u.estimatedCost.value))] else [])
            + Named(USAGE_FIELDS, UsageValues(u)[2 := TokensLayout(u)])
  {
  }

  lemma UsageLayoutIsSorted(u: Usage)
    ensures StrictlySorted(UsageLayout(u).fields, FieldKey)
  {
    UsageLayoutIs(u);
    UsageFieldsSorted();
    CostSortsFirst();
    var values := UsageValues(u)[2 := TokensLayout(u)];
    if u.estimatedCost.Some? {
      PrependedIsSorted(COST_FIELD, NumberJson(u.estimatedCost.value), USAGE_FIELDS, values);
    } else {
      NamedIsSorted(USAGE_FIELDS, values);
      assert [] + Named(USAGE_FIELDS, values) == Named(USAGE_FIELDS, values);
    }
  }

  lemma UsageMembersAre(u: Usage)
    ensures NormalizeMembers(UsageJson(u).fields) ==
            [Field("model", Str(u.model)), Field("provider", Str(u.provider)), Field("tokens", TokensLayout(u))]
            + if u.estimatedCost.Some? then [Field("estimated_cost_usd", NumberJson(u.estimatedCost.value))] else []
  {
    var fields := UsageJson(u).fields;
    NormalizeMembersAt(fields);
    TokensAreSpelled(u);
    assert fields[2] == Field("tokens", Obj(Named(TOKEN_FIELDS, TokenValues(u))));
  }

  lemma UsageIsSpelled(u: Usage)
    ensures Normalize(UsageJson(u)) == UsageLayout(u)
  {
    var members, layout := NormalizeMembers(UsageJson(u).fields), UsageLayout(u).fields;
    UsageMembersAre(u);
    UsageLayoutIsSorted(u);
    SortedHasDistinctKeys(layout);
    UsageKeysDiffer(u);
    NormalizeMembersAt(UsageJson(u).fields);
    assert DistinctKeys(members);
    forall x ensures x in members <==> x in layout {
    }
    SortDependsOnTheSet(members, layout);
    SortSorted(layout);
  }

  function FilesLayout(files: seq<string>): Json {
    Arr(seq(|files|, i requires 0 <= i < |files| => Str(files[i])))
  }

  function CommandsLayout(commands: seq<CommandRecord>): Json {
    Arr(seq(|commands|, i requires 0 <= i < |commands| => CommandLayout(commands[i])))
  }

  function EvidenceLayout(e: EvidenceDocument): Json {
    Obj([Field("baseline_sha", Str(e.baselineSha)),
         Field("candidate_sha", Str(e.candidateSha)),
         Field("changed_files", FilesLayout(e.changedFiles)),
         Field("commands", CommandsLayout(e.commands)),
         Field("contract_id", Str(e.contractId)),
         Field("environment", EnvironmentLayout(e.environment)),
         Field("finished_at", Str(e.finishedAt)),
         Field("run_id", Str(e.runId)),
         Field("started_at", Str(e.startedAt)),
         Field("usage", UsageLayout(e.usage)),
         Field("version", Str(e.version))])
  }

  lemma FilesAreSpelled(files: seq<string>)
    ensures Normalize(Arr(FileList(files))) == FilesLayout(files)
  {
    NormalizeItemsAt(FileList(files));
    assert NormalizeItems(FileList(files)) == FilesLayout(files).items;
  }

  lemma CommandsAreSpelled(commands: seq<CommandRecord>)
    ensures Normalize(Arr(CommandList(commands))) == CommandsLayout(commands)
  {
    NormalizeItemsAt(CommandList(commands));
    forall i | 0 <= i < |commands| ensures NormalizeItems(CommandList(commands))[i] == CommandLayout(commands[i]) {
      CommandIsSpelled(commands[i]);
    }
    assert NormalizeItems(CommandList(commands)) == CommandsLayout(commands).items;
  }

  lemma EvidenceIsSpelled(e: EvidenceDocument)
    ensures Normalize(EvidenceJson(e)) == EvidenceLayout(e)
  {
    FilesAreSpelled(e.changedFiles);
    CommandsAreSpelled(e.commands);
    EnvironmentIsSpelled(e.environment);
    UsageIsSpelled(e.usage);
    EvidenceFieldsSorted();
    NamedIsNormalized(EVIDENCE_FIELDS, EvidenceValues(e), EvidenceLayout(e).fields);
  }

  lemma EnvironmentBytesAre(e: EnvironmentInfo)
    requires IsEnvironment(e)
    ensures SerializeEnvironment(e).Some? && Load(SerializeEnvironment(e).value) == Some(EnvironmentLayout(e))
  {
    EnvironmentIsWellFormed(e);
    EnvironmentPrintsFloats(e);
    EnvironmentIsSpelled(e);
    LoadDump(EnvironmentJson(e));
  }

  lemma CommandBytesAre(c: CommandRecord)
    requires IsCommandRecord(c)
    ensures SerializeCommandRecord(c).Some? && Load(SerializeCommandRecord(c).value) == Some(CommandLayout(c))
  {
    CommandIsWellFormed(c);
    CommandPrintsFloats(c);
    CommandIsSpelled(c);
    LoadDump(CommandJson(c));
  }

  lemma EvidenceBytesAre(e: EvidenceDocument, rt: Runtime)
    requires IsEvidence(e, rt)
    ensures SerializeEvidence(e, rt).Some? && Load(SerializeEvidence(e, rt).value) == Some(EvidenceLayout(e))
  {
    EvidenceIsWellFormed(e, rt);
    EvidencePrintsFloats(e, rt);
    EvidenceIsSpelled(e);
    LoadDump(EvidenceJson(e));
  }

  /** The bytes of a built record name each digest, the duration and the termination by what they were computed from. */
  lemma BuiltRecordBytesAre(x: ExecutionResult, specification: Bytes, rt: Runtime)
    requires BuildCommandResult(x, specification, rt).Some?
    ensures Load(SerializeCommandRecord(BuildCommandResult(x, specification, rt).value).value) ==
            Some(Obj([Field("command", Str(CommandIdentity(x.request))),
                      Field("duration_s", Real(rt.secondsText(Microseconds(x.startedAt, x.finishedAt)))),
                      Field("exit_code", if x.exitCode.Some? then Int(x.exitCode.value) else Null),
                      Field("specification_sha256", Str(rt.sha256(specification))),
                      Field("stderr_sha256", Str(rt.sha256(x.stderr))),
                      Field("stdout_sha256", Str(rt.sha256(x.stdout))),
                      Field("termination", Str(if x.termination == Exited then "EXITED"
                                               else if x.termination == TimedOut then "TIMED_OUT"
                                               else if x.termination == Cancelled then "CANCELLED"
                                               else "OUTPUT_LIMIT"))]))
  {
    CommandBytesAre(RecordOf(x, specification, rt));
  }

  // ------------------------------------------------------- accepted evidence

  predicate AcceptedDigest(s: string) {
    |s| == 64 && Hexadecimal(s)
  }

  predicate AcceptedCommand(c: CommandRecord) {
    && c.command != ""
    && (if c.exitCode.Some? then c.termination == "EXITED"
        else c.termination in ["TIMED_OUT", "CANCELLED", "OUTPUT_LIMIT"])
    && AcceptedDigest(c.specificationSha256) && AcceptedDigest(c.stderrSha256) && AcceptedDigest(c.stdoutSha256)
    && IsNumber(c.duration)
  }

  /** Serialization of a command record is refused exactly for one of these. */
  lemma CommandAcceptedExact(c: CommandRecord)
    ensures SerializeCommandRecord(c).Some? <==> AcceptedCommand(c)
  {
    HexTextExact(c.specificationSha256, 64);
    HexTextExact(c.stderrSha256, 64);
    HexTextExact(c.stdoutSha256, 64);
  }

  predicate AcceptedEnvironment(e: EnvironmentInfo) {
    && e.python != "" && AcceptedDigest(e.uvLockSha256)
    && forall i | 0 <= i < |e.toolVersions| :: e.toolVersions[i].name != "" && e.toolVersions[i].version != ""
  }

  lemma EnvironmentAcceptedExact(e: EnvironmentInfo)
    ensures SerializeEnvironment(e).Some? <==> AcceptedEnvironment(e)
  {
    HexTextExact(e.uvLockSha256, 64);
  }

  predicate AcceptedUsage(u: Usage) {
    && u.model != "" && u.provider != "" && 0 <= u.inputTokens && 0 <= u.outputTokens
    && (u.estimatedCost == None || IsNumber(u.estimatedCost.value))
  }

  predicate AcceptedObjectId(s: string) {
    |s| >= 7 && |s| <= 40 && Hexadecimal(s)
  }

  predicate AcceptedTime(s: string, rt: Runtime) {
    s != "" && rt.isTimestamp(s)
  }

  /** Three numbers joined by dots. */
  ghost predicate AcceptedVersion(s: string, rt: Runtime) {
    exists parts :: |parts| == 3 && IsNumberList(parts, rt) && s == Dotted(parts)
  }

  lemma CommandListAccepted(commands: seq<CommandRecord>)
    ensures (forall c <- commands :: IsCommandRecord(c)) <==>
            forall i | 0 <= i < |commands| :: AcceptedCommand(commands[i])
  {
    forall i | 0 <= i < |commands| ensures IsCommandRecord(commands[i]) <==> AcceptedCommand(commands[i]) {
      CommandAcceptedExact(commands[i]);
    }
  }

  lemma EvidencePartsAccepted(e: EvidenceDocument, rt: Runtime)
    requires !rt.isDigit('.')
    ensures IsObjectId(e.baselineSha) <==> AcceptedObjectId(e.baselineSha)
    ensures IsObjectId(e.candidateSha) <==> AcceptedObjectId(e.candidateSha)
    ensures IsEnvironment(e.environment) <==> AcceptedEnvironment(e.environment)
    ensures IsUsage(e.usage) <==> AcceptedUsage(e.usage)
    ensures IsVersionTail(e.version, rt, 2) <==> AcceptedVersion(e.version, rt)
  {
    ObjectIdExact(e.baselineSha);
    ObjectIdExact(e.candidateSha);
    EnvironmentAcceptedExact(e.environment);
    VersionExact(e.version, rt);
  }

  /** A whole document is refused exactly for a refused part, an identifier, an instant, the version or no command. */
  lemma EvidenceAcceptedExact(e: EvidenceDocument, rt: Runtime)
    requires !rt.isDigit('.')
    ensures SerializeEvidence(e, rt).Some? <==>
              && AcceptedObjectId(e.baselineSha) && AcceptedObjectId(e.candidateSha)
              && |e.commands| > 0 && (forall i | 0 <= i < |e.commands| :: AcceptedCommand(e.commands[i]))
              && e.contractId != "" && e.runId != ""
              && AcceptedEnvironment(e.environment) && AcceptedUsage(e.usage)
              && AcceptedTime(e.startedAt, rt) && AcceptedTime(e.finishedAt, rt)
              && AcceptedVersion(e.version, rt)
  {
    EvidencePartsAccepted(e, rt);
    CommandListAccepted(e.commands);
  }
}
