/** Canonical evidence values and the deterministic bytes that are hashed in their place. */
module Evidence {
  import opened Results
  import opened Order
  import opened Utf8
  import opened Json
  import opened JsonProofs
  import opened Numbers
  import opened Identity
  import opened StateSerialization

  /**
   What the Python runtime supplies: which texts `datetime.fromisoformat` reads
   with a time zone, which characters are decimal digits, the shortest text of a
   duration in seconds given in microseconds, and SHA-256.
   */
  datatype Runtime = Runtime(
    isTimestamp: string -> bool,
    isDigit: char -> bool,
    secondsText: int -> string,
    sha256: Bytes -> Sha256Hex)

  datatype ToolVersion = ToolVersion(name: string, version: string)

  predicate NamesDiffer(versions: seq<ToolVersion>, i: nat, j: nat)
    requires i < |versions| && j < |versions|
  {
    versions[i].name != versions[j].name
  }

  /** A Python dictionary, in insertion order. */
  type ToolVersions = versions: seq<ToolVersion> |
    forall i, j | 0 <= i < j < |versions| :: NamesDiffer(versions, i, j)

  datatype EnvironmentInfo = EnvironmentInfo(python: string, toolVersions: ToolVersions, uvLockSha256: string)

  datatype CommandRecord = CommandRecord(
    command: string,
    termination: string,
    exitCode: Option<int>,
    stdoutSha256: string,
    stderrSha256: string,
    specificationSha256: string,
    duration: Number)

  datatype Usage = Usage(provider: string, model: string, inputTokens: int, outputTokens: int,
      estimatedCost: Option<Number>)

  datatype EvidenceDocument = EvidenceDocument(
    version: string,
    runId: string,
    contractId: string,
    baselineSha: string,
    candidateSha: string,
    commands: seq<CommandRecord>,
    changedFiles: seq<string>,
    environment: EnvironmentInfo,
    usage: Usage,
    startedAt: string,
    finishedAt: string)

  // ------------------------------------------------------------------- checks

  predicate IsObjectId(s: string) {
    7 <= |s| <= 40 && forall c <- s :: IsHex(c)
  }

  function DigitsAhead(s: string, rt: Runtime): (n: nat)
    ensures n <= |s|
  {
    if s != "" && rt.isDigit(s[0]) then 1 + DigitsAhead(s[1..], rt) else 0
  }

  /** `\d+\.\d+\.\d+`, for the number of dots that are still to come. */
  predicate IsVersionTail(s: string, rt: Runtime, dots: nat) {
    var n := DigitsAhead(s, rt);
    && n > 0
    && if dots == 0 then n == |s| else n < |s| && s[n] == '.' && IsVersionTail(s[n + 1..], rt, dots - 1)
  }

  predicate IsEnvironment(e: EnvironmentInfo) {
    && e.python != ""
    && (forall v <- e.toolVersions :: v.name != "" && v.version != "")
    && IsHexOf(e.uvLockSha256, 64)
  }

  const EXITED := "EXITED"
  const TIMED_OUT := "TIMED_OUT"
  const CANCELLED := "CANCELLED"
  const OUTPUT_LIMIT := "OUTPUT_LIMIT"

  predicate IsCommandRecord(c: CommandRecord) {
    && (c.termination == EXITED || c.termination == TIMED_OUT || c.termination == CANCELLED
        || c.termination == OUTPUT_LIMIT)
    && (c.termination == EXITED <==> c.exitCode.Some?)
    && c.command != "" && IsNumber(c.duration)
    && IsHexOf(c.specificationSha256, 64) && IsHexOf(c.stderrSha256, 64) && IsHexOf(c.stdoutSha256, 64)
  }

  predicate IsUsage(u: Usage) {
    && u.model != "" && u.provider != "" && u.inputTokens >= 0 && u.outputTokens >= 0
    && (u.estimatedCost.Some? ==> IsNumber(u.estimatedCost.value))
  }

  predicate IsEvidence(e: EvidenceDocument, rt: Runtime) {
    && IsObjectId(e.baselineSha) && IsObjectId(e.candidateSha)
    && e.commands != [] && (forall c <- e.commands :: IsCommandRecord(c))
    && e.contractId != "" && e.runId != ""
    && IsEnvironment(e.environment) && IsUsage(e.usage)
    && e.startedAt != "" && rt.isTimestamp(e.startedAt)
    && e.finishedAt != "" && rt.isTimestamp(e.finishedAt)
    && IsVersionTail(e.version, rt, 2)
  }

  // ----------------------------------------------------------------- payloads

  const ENVIRONMENT_FIELDS := ["python", "tool_versions", "uv_lock_sha256"]
  const COMMAND_FIELDS := ["command", "duration_s", "exit_code", "specification_sha256", "stderr_sha256",
                           "stdout_sha256", "termination"]
  const TOKEN_FIELDS := ["input", "output"]
  const USAGE_FIELDS := ["model", "provider", "tokens"]
  const COST_FIELD := "estimated_cost_usd"
  const EVIDENCE_FIELDS := ["baseline_sha", "candidate_sha", "changed_files", "commands", "contract_id", "environment",
                            "finished_at", "run_id", "started_at", "usage", "version"]

  function VersionFields(versions: seq<ToolVersion>): seq<Field> {
    seq(|versions|, i requires 0 <= i < |versions| => Field(versions[i].name, Str(versions[i].version)))
  }

  function EnvironmentValues(e: EnvironmentInfo): (values: seq<Json>)
    ensures |values| == |ENVIRONMENT_FIELDS|
  {
    [Str(e.python), Obj(VersionFields(e.toolVersions)), Str(e.uvLockSha256)]
  }

  function EnvironmentJson(e: EnvironmentInfo): Json {
    Obj(Named(ENVIRONMENT_FIELDS, EnvironmentValues(e)))
  }

  function ExitJson(exitCode: Option<int>): Json {
    if exitCode.Some? then Int(exitCode.value) else Null
  }

  function CommandValues(c: CommandRecord): (values: seq<Json>)
    ensures |values| == |COMMAND_FIELDS|
  {
    [Str(c.command), NumberJson(c.duration), ExitJson(c.exitCode), Str(c.specificationSha256),
     Str(c.stderrSha256), Str(c.stdoutSha256), Str(c.termination)]
  }

  function CommandJson(c: CommandRecord): Json {
    Obj(Named(COMMAND_FIELDS, CommandValues(c)))
  }

  function TokenValues(u: Usage): (values: seq<Json>)
    ensures |values| == |TOKEN_FIELDS|
  {
    [Int(u.inputTokens), Int(u.outputTokens)]
  }

  function UsageValues(u: Usage): (values: seq<Json>)
    ensures |values| == |USAGE_FIELDS|
  {
    [Str(u.model), Str(u.provider), Obj(Named(TOKEN_FIELDS, TokenValues(u)))]
  }

  /** The cost is appended only when it is known. */
  function UsageJson(u: Usage): Json {
    Obj(Named(USAGE_FIELDS, UsageValues(u))
        + if u.estimatedCost.Some? then [Field(COST_FIELD, NumberJson(u.estimatedCost.value))] else [])
  }

  function FileList(files: seq<string>): seq<Json> {
    seq(|files|, i requires 0 <= i < |files| => Str(files[i]))
  }

  function CommandList(commands: seq<CommandRecord>): seq<Json> {
    seq(|commands|, i requires 0 <= i < |commands| => CommandJson(commands[i]))
  }

  function EvidenceValues(e: EvidenceDocument): (values: seq<Json>)
    ensures |values| == |EVIDENCE_FIELDS|
  {
    [Str(e.baselineSha), Str(e.candidateSha),
     Arr(FileList(e.changedFiles)), Arr(CommandList(e.commands)),
     Str(e.contractId), EnvironmentJson(e.environment), Str(e.finishedAt), Str(e.runId), Str(e.startedAt),
     UsageJson(e.usage), Str(e.version)]
  }

  function EvidenceJson(e: EvidenceDocument): Json {
    Obj(Named(EVIDENCE_FIELDS, EvidenceValues(e)))
  }

  function SerializeEnvironment(e: EnvironmentInfo): Option<Bytes> {
    if IsEnvironment(e) then Some(Dump(EnvironmentJson(e))) else None
  }

  function SerializeCommandRecord(c: CommandRecord): Option<Bytes> {
    if IsCommandRecord(c) then Some(Dump(CommandJson(c))) else None
  }

  function SerializeEvidence(e: EvidenceDocument, rt: Runtime): Option<Bytes> {
    if IsEvidence(e, rt) then Some(Dump(EvidenceJson(e))) else None
  }

  /** `_environment_payload`: the versions are checked and copied one by one. */
  method EnvironmentPayload(e: EnvironmentInfo) returns (r: Option<Json>)
    ensures r == if IsEnvironment(e) then Some(EnvironmentJson(e)) else None
  {
    var versions: seq<Field> := [];
    var i := 0;
    while i < |e.toolVersions|
      invariant 0 <= i <= |e.toolVersions|
      invariant versions == VersionFields(e.toolVersions)[..i]
      invariant forall k | 0 <= k < i :: e.toolVersions[k].name != "" && e.toolVersions[k].version != ""
    {
      var entry := e.toolVersions[i];
      if entry.name == "" || entry.version == "" {
        assert entry in e.toolVersions;
        return None;
      }
      versions := versions + [Field(entry.name, Str(entry.version))];
      i := i + 1;
    }
    assert VersionFields(e.toolVersions)[..i] == VersionFields(e.toolVersions);
    if e.python == "" || !IsHexOf(e.uvLockSha256, 64) {
      return None;
    }
    return Some(Obj(Named(ENVIRONMENT_FIELDS, [Str(e.python), Obj(versions), Str(e.uvLockSha256)])));
  }

  // ---------------------------------------------------------- sorted payloads

  lemma SortedNamesAreDistinct(names: seq<string>, values: seq<Json>)
    requires |names| == |values| && StrictlySorted(names, Text)
    ensures DistinctKeys(Named(names, values))
  {
    NamedIsSorted(names, values);
    SortedHasDistinctKeys(Named(names, values));
  }

  /** Two dictionaries have the same sorted form exactly when they have the same members, each in sorted form. */
  lemma ObjectsAgree(f: seq<Field>, g: seq<Field>)
    requires DistinctKeys(f) && DistinctKeys(g)
    ensures Normalize(Obj(f)) == Normalize(Obj(g)) <==>
            forall x :: x in NormalizeMembers(f) <==> x in NormalizeMembers(g)
  {
    var a, b := NormalizeMembers(f), NormalizeMembers(g);
    NormalizeMembersAt(f);
    NormalizeMembersAt(g);
    assert DistinctKeys(a) && DistinctKeys(b);
    SortFieldsKeeps(a);
    SortFieldsKeeps(b);
    if forall x :: x in a <==> x in b {
      SortDependsOnTheSet(a, b);
    }
    if SortFields(a) == SortFields(b) {
      forall x ensures x in a <==> x in b {
        assert x in SortFields(a) <==> x in a;
        assert x in SortFields(b) <==> x in b;
      }
    }
  }

  ghost predicate Agree(v: seq<Json>, w: seq<Json>)
    requires |v| == |w|
  {
    forall i | 0 <= i < |v| :: Normalize(v[i]) == Normalize(w[i])
  }

  /** With the same names, that is the same as agreeing value by value. */
  lemma NamedAgree(names: seq<string>, v: seq<Json>, w: seq<Json>)
    requires |v| == |names| && |w| == |names| && StrictlySorted(names, Text)
    ensures Normalize(Obj(Named(names, v))) == Normalize(Obj(Named(names, w))) <==> Agree(v, w)
  {
    var f, g := Named(names, v), Named(names, w);
    SortedNamesAreDistinct(names, v);
    SortedNamesAreDistinct(names, w);
    NormalizeMembersAt(f);
    NormalizeMembersAt(g);
    ObjectsAgree(f, g);
    var a, b := NormalizeMembers(f), NormalizeMembers(g);
    if Agree(v, w) {
      assert a == b;
    }
    if forall x :: x in a <==> x in b {
      forall i | 0 <= i < |names| ensures Normalize(v[i]) == Normalize(w[i]) {
        assert a[i] in b;
        var j :| 0 <= j < |b| && b[j] == a[i];
        assert f[i].key == f[j].key;
        assert i == j;
      }
    }
  }

  lemma EnvironmentFieldsSorted()
    ensures StrictlySorted(ENVIRONMENT_FIELDS, Text)
  {
    SortedByFirstDifference(ENVIRONMENT_FIELDS, [0, 0]);
  }

  lemma CommandFieldsSorted()
    ensures StrictlySorted(COMMAND_FIELDS, Text)
  {
    SortedByFirstDifference(COMMAND_FIELDS, [0, 0, 0, 1, 3, 0]);
  }

  lemma TokenFieldsSorted()
    ensures StrictlySorted(TOKEN_FIELDS, Text)
  {
    SortedByFirstDifference(TOKEN_FIELDS, [0]);
  }

  lemma UsageFieldsSorted()
    ensures StrictlySorted(USAGE_FIELDS, Text)
  {
    SortedByFirstDifference(USAGE_FIELDS, [0, 0]);
  }

  lemma EvidenceFieldsSorted()
    ensures StrictlySorted(EVIDENCE_FIELDS, Text)
  {
    SortedByFirstDifference(EVIDENCE_FIELDS, [0, 1, 1, 2, 0, 0, 0, 0, 0, 0]);
  }
}
