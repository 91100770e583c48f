/** Evidence bytes determine the evidence, and hold the documents that are also hashed on their own. */
module EvidenceProofs {
  import opened Results
  import opened Order
  import opened Utf8
  import opened Json
  import opened JsonProofs
  import opened Numbers
  import opened StateSerialization
  import opened Evidence

  // --------------------------------------------------- the payloads are objects

  lemma NamedIsWellFormed(names: seq<string>, values: seq<Json>)
    requires |names| == |values| && StrictlySorted(names, Text)
    requires forall i | 0 <= i < |values| :: WellFormed(values[i])
    ensures WellFormed(Obj(Named(names, values)))
  {
    SortedNamesAreDistinct(names, values);
  }

  lemma VersionNamesDiffer(versions: ToolVersions)
    ensures DistinctKeys(VersionFields(versions))
  {
    forall i, j | 0 <= i < j < |versions| ensures versions[i].name != versions[j].name {
      assert NamesDiffer(versions, i, j);
    }
  }

  lemma EnvironmentIsWellFormed(e: EnvironmentInfo)
    ensures WellFormed(EnvironmentJson(e))
  {
    VersionNamesDiffer(e.toolVersions);
    EnvironmentFieldsSorted();
    NamedIsWellFormed(ENVIRONMENT_FIELDS, EnvironmentValues(e));
  }

  lemma CommandIsWellFormed(c: CommandRecord)
    requires IsCommandRecord(c)
    ensures WellFormed(CommandJson(c))
  {
    CommandFieldsSorted();
    NamedIsWellFormed(COMMAND_FIELDS, CommandValues(c));
  }

  lemma UsageKeysDiffer(u: Usage)
    ensures DistinctKeys(UsageJson(u).fields)
    ensures WellFormed(Obj(Named(TOKEN_FIELDS, TokenValues(u))))
  {
    UsageFieldsSorted();
    TokenFieldsSorted();
    SortedNamesAreDistinct(USAGE_FIELDS, UsageValues(u));
    NamedIsWellFormed(TOKEN_FIELDS, TokenValues(u));
  }

  lemma UsageIsWellFormed(u: Usage)
    requires IsUsage(u)
    ensures WellFormed(UsageJson(u))
  {
    UsageKeysDiffer(u);
    var fields := UsageJson(u).fields;
    forall i | 0 <= i < |fields| ensures WellFormed(fields[i].value) {
      if i < |USAGE_FIELDS| {
        assert fields[i].value == UsageValues(u)[i];
      }
    }
  }

  lemma EvidenceIsWellFormed(e: EvidenceDocument, rt: Runtime)
    requires IsEvidence(e, rt)
    ensures WellFormed(EvidenceJson(e))
  {
    EvidenceFieldsSorted();
    EnvironmentIsWellFormed(e.environment);
    UsageIsWellFormed(e.usage);
    var commands := EvidenceValues(e)[3];
    forall i | 0 <= i < |commands.items| ensures WellFormed(commands.items[i]) {
      CommandIsWellFormed(e.commands[i]);
    }
    NamedIsWellFormed(EVIDENCE_FIELDS, EvidenceValues(e));
  }

  lemma NamedPrintsFloats(names: seq<string>, values: seq<Json>)
    requires |names| == |values| && forall i | 0 <= i < |values| :: PrintsFloats(values[i])
    ensures PrintsFloats(Obj(Named(names, values)))
  {
  }

  lemma EnvironmentPrintsFloats(e: EnvironmentInfo)
    ensures PrintsFloats(EnvironmentJson(e))
  {
    NamedPrintsFloats(ENVIRONMENT_FIELDS, EnvironmentValues(e));
  }

  lemma CommandPrintsFloats(c: CommandRecord)
    requires IsCommandRecord(c)
    ensures PrintsFloats(CommandJson(c))
  {
    NamedPrintsFloats(COMMAND_FIELDS, CommandValues(c));
  }

  lemma UsagePrintsFloats(u: Usage)
    requires IsUsage(u)
    ensures PrintsFloats(UsageJson(u))
  {
    NamedPrintsFloats(TOKEN_FIELDS, TokenValues(u));
    var fields := UsageJson(u).fields;
    forall i | 0 <= i < |fields| ensures PrintsFloats(fields[i].value) {
      if i < |USAGE_FIELDS| {
        assert fields[i].value == UsageValues(u)[i];
      }
    }
  }

  lemma EvidencePrintsFloats(e: EvidenceDocument, rt: Runtime)
    requires IsEvidence(e, rt)
    ensures PrintsFloats(EvidenceJson(e))
  {
    EnvironmentPrintsFloats(e.environment);
    UsagePrintsFloats(e.usage);
    var commands := CommandList(e.commands);
    forall i | 0 <= i < |commands| ensures PrintsFloats(commands[i]) {
      CommandPrintsFloats(e.commands[i]);
    }
    NamedPrintsFloats(EVIDENCE_FIELDS, EvidenceValues(e));
  }

  // ------------------------------------------- sorted payloads determine values

  /** Equal as dictionaries: the same pairs, in any order. */
  ghost predicate SameVersions(a: ToolVersions, b: ToolVersions) {
    forall v :: v in a <==> v in b
  }

  ghost predicate SameEnvironment(a: EnvironmentInfo, b: EnvironmentInfo) {
    a.python == b.python && a.uvLockSha256 == b.uvLockSha256 && SameVersions(a.toolVersions, b.toolVersions)
  }

  /** Equal in every field, with tool versions compared as dictionaries and numbers by their text. */
  ghost predicate Identical(a: EvidenceDocument, b: EvidenceDocument) {
    && b == a.(environment := b.environment)
    && SameEnvironment(a.environment, b.environment)
  }

  // ------------------------------------------------------- equality in Python

  /** Python's `==` on command results: their durations are compared as numbers. */
  predicate EqualCommands(a: CommandRecord, b: CommandRecord) {
    b == a.(duration := b.duration) && SameNumber(a.duration, b.duration)
  }

  predicate EqualUsage(a: Usage, b: Usage) {
    && b == a.(estimatedCost := b.estimatedCost)
    && match (a.estimatedCost, b.estimatedCost)
       case (Some(m), Some(n)) => SameNumber(m, n)
       case (None, None) => true
       case _ => false
  }

  /** Python's `==` on evidence. */
  ghost predicate EqualEvidence(a: EvidenceDocument, b: EvidenceDocument) {
    && b == a.(commands := b.commands, environment := b.environment, usage := b.usage)
    && |a.commands| == |b.commands| && (forall i | 0 <= i < |a.commands| :: EqualCommands(a.commands[i], b.commands[i]))
    && SameEnvironment(a.environment, b.environment) && EqualUsage(a.usage, b.usage)
  }

  /** Every number of the one has the text of the same number of the other. */
  ghost predicate SpelledAlike(a: EvidenceDocument, b: EvidenceDocument) {
    && |a.commands| == |b.commands|
        && (forall i | 0 <= i < |a.commands| :: a.commands[i].duration == b.commands[i].duration)
    && a.usage.estimatedCost == b.usage.estimatedCost
  }

  lemma IdenticalExact(a: EvidenceDocument, b: EvidenceDocument)
    ensures Identical(a, b) <==> EqualEvidence(a, b) && SpelledAlike(a, b)
  {
    if EqualEvidence(a, b) && SpelledAlike(a, b) {
      forall i | 0 <= i < |a.commands| ensures a.commands[i] == b.commands[i] {
        assert EqualCommands(a.commands[i], b.commands[i]);
      }
      assert a.commands == b.commands;
    }
  }

  lemma VersionMember(versions: seq<ToolVersion>, x: Field)
    ensures x in NormalizeMembers(VersionFields(versions)) <==>
              x.value.Str? && ToolVersion(x.key, x.value.s) in versions
  {
    var fields := VersionFields(versions);
    NormalizeMembersAt(fields);
    if x.value.Str? && ToolVersion(x.key, x.value.s) in versions {
      var i :| 0 <= i < |versions| && versions[i] == ToolVersion(x.key, x.value.s);
      assert NormalizeMembers(fields)[i] == x;
    }
    if x in NormalizeMembers(fields) {
      var i :| 0 <= i < |fields| && NormalizeMembers(fields)[i] == x;
      assert versions[i] in versions;
    }
  }

  lemma SameVersionsSameMembers(a: seq<ToolVersion>, b: seq<ToolVersion>)
    requires forall v :: v in a <==> v in b
    ensures forall x :: x in NormalizeMembers(VersionFields(a)) <==> x in NormalizeMembers(VersionFields(b))
  {
    forall x ensures x in NormalizeMembers(VersionFields(a)) <==> x in NormalizeMembers(VersionFields(b)) {
      VersionMember(a, x);
      VersionMember(b, x);
    }
  }

  lemma SameMembersSameVersions(a: seq<ToolVersion>, b: seq<ToolVersion>)
    requires forall x :: x in NormalizeMembers(VersionFields(a)) <==> x in NormalizeMembers(VersionFields(b))
    ensures forall v :: v in a <==> v in b
  {
    forall v ensures v in a <==> v in b {
      var x := Field(v.name, Str(v.version));
      VersionMember(a, x);
      VersionMember(b, x);
    }
  }

  lemma VersionsAgree(a: ToolVersions, b: ToolVersions)
    ensures Normalize(Obj(VersionFields(a))) == Normalize(Obj(VersionFields(b))) <==> SameVersions(a, b)
  {
    VersionNamesDiffer(a);
    VersionNamesDiffer(b);
    ObjectsAgree(VersionFields(a), VersionFields(b));
    if SameVersions(a, b) {
      SameVersionsSameMembers(a, b);
    } else if Normalize(Obj(VersionFields(a))) == Normalize(Obj(VersionFields(b))) {
      SameMembersSameVersions(a, b);
    }
  }

  lemma EnvironmentsAgree(a: EnvironmentInfo, b: EnvironmentInfo)
    ensures Normalize(EnvironmentJson(a)) == Normalize(EnvironmentJson(b)) <==> SameEnvironment(a, b)
  {
    var v, w := EnvironmentValues(a), EnvironmentValues(b);
    EnvironmentFieldsSorted();
    NamedAgree(ENVIRONMENT_FIELDS, v, w);
    VersionsAgree(a.toolVersions, b.toolVersions);
    ThreeAgree(v, w);
  }

  lemma ThreeAgree(v: seq<Json>, w: seq<Json>)
    requires |v| == |w| == 3
    ensures Agree(v, w) <==>
              Normalize(v[0]) == Normalize(w[0]) && Normalize(v[1]) == Normalize(w[1])
                  && Normalize(v[2]) == Normalize(w[2])
  {
  }

  predicate IsAtom(v: Json) { !v.Arr? && !v.Obj? }

  lemma AtomsAgree(v: seq<Json>, w: seq<Json>)
    requires |v| == |w| && forall i | 0 <= i < |v| :: IsAtom(v[i]) && IsAtom(w[i])
    ensures Agree(v, w) <==> v == w
  {
    forall i | 0 <= i < |v| ensures Normalize(v[i]) == v[i] && Normalize(w[i]) == w[i] {
      assert IsAtom(v[i]) && IsAtom(w[i]);
    }
  }

  lemma CommandsAgree(a: CommandRecord, b: CommandRecord)
    ensures Normalize(CommandJson(a)) == Normalize(CommandJson(b)) <==> a == b
  {
    CommandFieldsSorted();
    NamedAgree(COMMAND_FIELDS, CommandValues(a), CommandValues(b));
    CommandValuesAgree(a, b);
  }

  lemma CommandValuesAreAtoms(c: CommandRecord)
    ensures forall i | 0 <= i < |COMMAND_FIELDS| :: IsAtom(CommandValues(c)[i])
  {
  }

  lemma CommandValuesAgree(a: CommandRecord, b: CommandRecord)
    ensures Agree(CommandValues(a), CommandValues(b)) <==> a == b
  {
    CommandValuesAreAtoms(a);
    CommandValuesAreAtoms(b);
    AtomsAgree(CommandValues(a), CommandValues(b));
    if CommandValues(a) == CommandValues(b) {
      CommandValuesDetermine(a, b);
    }
  }

  lemma CommandValuesDetermine(a: CommandRecord, b: CommandRecord)
    requires CommandValues(a) == CommandValues(b)
    ensures a == b
  {
    var v, w := CommandValues(a), CommandValues(b);
    assert v[0] == w[0] && v[1] == w[1] && v[2] == w[2] && v[3] == w[3] && v[4] == w[4] && v[5] == w[5] && v[6] == w[6];
  }

  lemma ListsAgree(v: seq<Json>, w: seq<Json>)
    ensures Normalize(Arr(v)) == Normalize(Arr(w)) <==> |v| == |w| && Agree(v, w)
  {
    NormalizeItemsAt(v);
    NormalizeItemsAt(w);
    if |v| == |w| && Agree(v, w) {
      assert NormalizeItems(v) == NormalizeItems(w);
    }
    if NormalizeItems(v) == NormalizeItems(w) {
      assert |v| == |w|;
      forall i | 0 <= i < |v| ensures Normalize(v[i]) == Normalize(w[i]) {
        assert NormalizeItems(v)[i] == NormalizeItems(w)[i];
      }
    }
  }

  lemma TokensAgree(a: Usage, b: Usage)
    ensures var v, w := Obj(Named(TOKEN_FIELDS, TokenValues(a))), Obj(Named(TOKEN_FIELDS, TokenValues(b)));
            Normalize(v) == Normalize(w) <==> a.inputTokens == b.inputTokens && a.outputTokens == b.outputTokens
  {
    TokenFieldsSorted();
    NamedAgree(TOKEN_FIELDS, TokenValues(a), TokenValues(b));
    AtomsAgree(TokenValues(a), TokenValues(b));
    if TokenValues(a) == TokenValues(b) {
      assert TokenValues(a)[0] == TokenValues(b)[0] && TokenValues(a)[1] == TokenValues(b)[1];
    }
  }

  lemma UsageMember(u: Usage, x: Field)
    ensures x in NormalizeMembers(UsageJson(u).fields) <==>
              || (exists i :: 0 <= i < |USAGE_FIELDS| && x == Field(USAGE_FIELDS[i], Normalize(UsageValues(u)[i])))
              || (u.estimatedCost.Some? && x == Field(COST_FIELD, NumberJson(u.estimatedCost.value)))
  {
    var fields := UsageJson(u).fields;
    NormalizeMembersAt(fields);
    var members := NormalizeMembers(fields);
    assert forall i | 0 <= i < |USAGE_FIELDS| :: members[i] == Field(USAGE_FIELDS[i], Normalize(UsageValues(u)[i]));
    if u.estimatedCost.Some? {
      assert members[|USAGE_FIELDS|] == Field(COST_FIELD, NumberJson(u.estimatedCost.value));
    }
  }

  /** Whether and which cost is recorded shows in the payload, since no other member has its name. */
  lemma UsageAgrees(a: Usage, b: Usage)
    ensures Normalize(UsageJson(a)) == Normalize(UsageJson(b)) <==> a == b
  {
    if Normalize(UsageJson(a)) == Normalize(UsageJson(b)) {
      UsageKeysDiffer(a);
      UsageKeysDiffer(b);
      ObjectsAgree(UsageJson(a).fields, UsageJson(b).fields);
      CostsAgree(a, b);
      CostsAgree(b, a);
      UsageValueAgrees(a, b, 0);
      UsageValueAgrees(a, b, 1);
      UsageValueAgrees(a, b, 2);
      TokensAgree(a, b);
    }
  }

  lemma CostsAgree(a: Usage, b: Usage)
    requires forall x :: x in NormalizeMembers(UsageJson(a).fields) <==> x in NormalizeMembers(UsageJson(b).fields)
    ensures a.estimatedCost.Some? ==> b.estimatedCost == a.estimatedCost
  {
    if a.estimatedCost.Some? {
      var x := Field(COST_FIELD, NumberJson(a.estimatedCost.value));
      UsageMember(a, x);
      UsageMember(b, x);
    }
  }

  lemma UsageValueAgrees(a: Usage, b: Usage, i: nat)
    requires forall x :: x in NormalizeMembers(UsageJson(a).fields) <==> x in NormalizeMembers(UsageJson(b).fields)
    requires i < |USAGE_FIELDS|
    ensures Normalize(UsageValues(a)[i]) == Normalize(UsageValues(b)[i])
  {
    var x := Field(USAGE_FIELDS[i], Normalize(UsageValues(a)[i]));
    UsageMember(a, x);
    UsageMember(b, x);
    var j :| 0 <= j < |USAGE_FIELDS| && x == Field(USAGE_FIELDS[j], Normalize(UsageValues(b)[j]));
    assert USAGE_FIELDS[i] == USAGE_FIELDS[j];
  }

  // ------------------------------------------------------------- main theorems

  lemma ChangedFilesAgree(a: seq<string>, b: seq<string>)
    ensures Normalize(Arr(FileList(a))) == Normalize(Arr(FileList(b))) <==> a == b
  {
    var v, w := FileList(a), FileList(b);
    ListsAgree(v, w);
    if |v| == |w| && Agree(v, w) {
      forall i | 0 <= i < |a| ensures a[i] == b[i] {
        assert Normalize(v[i]) == Normalize(w[i]);
      }
    }
  }

  lemma CommandListsAgree(a: seq<CommandRecord>, b: seq<CommandRecord>)
    ensures Normalize(Arr(CommandList(a))) == Normalize(Arr(CommandList(b))) <==> a == b
  {
    var v, w := CommandList(a), CommandList(b);
    ListsAgree(v, w);
    if |v| == |w| && Agree(v, w) {
      forall i | 0 <= i < |a| ensures a[i] == b[i] {
        assert Normalize(v[i]) == Normalize(w[i]);
        CommandsAgree(a[i], b[i]);
      }
    }
  }

  lemma AgreeingScalars(a: EvidenceDocument, b: EvidenceDocument)
    requires Agree(EvidenceValues(a), EvidenceValues(b))
    ensures a.baselineSha == b.baselineSha && a.candidateSha == b.candidateSha && a.contractId == b.contractId
    ensures a.finishedAt == b.finishedAt && a.runId == b.runId && a.startedAt == b.startedAt && a.version == b.version
  {
    var v, w := EvidenceValues(a), EvidenceValues(b);
    assert Normalize(v[0]) == Normalize(w[0]) && Normalize(v[1]) == Normalize(w[1])
        && Normalize(v[4]) == Normalize(w[4]);
    assert Normalize(v[6]) == Normalize(w[6]) && Normalize(v[7]) == Normalize(w[7])
        && Normalize(v[8]) == Normalize(w[8]);
    assert Normalize(v[10]) == Normalize(w[10]);
  }

  lemma AgreeingFiles(a: EvidenceDocument, b: EvidenceDocument)
    requires Agree(EvidenceValues(a), EvidenceValues(b))
    ensures a.changedFiles == b.changedFiles
  {
    assert Normalize(EvidenceValues(a)[2]) == Normalize(EvidenceValues(b)[2]);
    ChangedFilesAgree(a.changedFiles, b.changedFiles);
  }

  lemma AgreeingCommands(a: EvidenceDocument, b: EvidenceDocument)
    requires Agree(EvidenceValues(a), EvidenceValues(b))
    ensures a.commands == b.commands
  {
    assert Normalize(EvidenceValues(a)[3]) == Normalize(EvidenceValues(b)[3]);
    CommandListsAgree(a.commands, b.commands);
  }

  lemma AgreeingEnvironments(a: EvidenceDocument, b: EvidenceDocument)
    requires Agree(EvidenceValues(a), EvidenceValues(b))
    ensures SameEnvironment(a.environment, b.environment)
  {
    assert Normalize(EvidenceValues(a)[5]) == Normalize(EvidenceValues(b)[5]);
    EnvironmentsAgree(a.environment, b.environment);
  }

  lemma AgreeingUsage(a: EvidenceDocument, b: EvidenceDocument)
    requires Agree(EvidenceValues(a), EvidenceValues(b))
    ensures a.usage == b.usage
  {
    assert Normalize(EvidenceValues(a)[9]) == Normalize(EvidenceValues(b)[9]);
    UsageAgrees(a.usage, b.usage);
  }

  lemma IdenticalValues(a: EvidenceDocument, b: EvidenceDocument)
    requires b == a.(environment := b.environment)
    ensures EvidenceValues(b) == EvidenceValues(a)[5 := EnvironmentJson(b.environment)]
  {
  }

  lemma IdenticalAgrees(a: EvidenceDocument, b: EvidenceDocument)
    requires Identical(a, b)
    ensures Agree(EvidenceValues(a), EvidenceValues(b))
  {
    IdenticalValues(a, b);
    IdenticalValues(a, a);
    EnvironmentsAgree(a.environment, b.environment);
    AgreeExceptOne(EvidenceValues(a), 5, EnvironmentJson(b.environment));
  }

  lemma AgreeExceptOne(v: seq<Json>, k: nat, value: Json)
    requires k < |v| && Normalize(v[k]) == Normalize(value)
    ensures Agree(v, v[k := value])
  {
  }

  lemma EvidenceValuesAgree(a: EvidenceDocument, b: EvidenceDocument)
    ensures Agree(EvidenceValues(a), EvidenceValues(b)) <==> Identical(a, b)
  {
    if Agree(EvidenceValues(a), EvidenceValues(b)) {
      AgreeingScalars(a, b);
      AgreeingFiles(a, b);
      AgreeingCommands(a, b);
      AgreeingEnvironments(a, b);
      AgreeingUsage(a, b);
    }
    if Identical(a, b) {
      IdenticalAgrees(a, b);
    }
  }

  /**
   Two pieces of evidence have the same bytes exactly when they are equal in Python
   and every number is spelled alike: the insertion order of tool versions is not
   seen, but an integer and the float with its value are told apart.
   */
  lemma EvidenceBytesExact(a: EvidenceDocument, b: EvidenceDocument, rt: Runtime)
    requires IsEvidence(a, rt) && IsEvidence(b, rt)
    ensures SerializeEvidence(a, rt) == SerializeEvidence(b, rt) <==> EqualEvidence(a, b) && SpelledAlike(a, b)
  {
    IdenticalExact(a, b);
    var v, w := EvidenceJson(a), EvidenceJson(b);
    EvidenceIsWellFormed(a, rt);
    EvidenceIsWellFormed(b, rt);
    if Dump(v) == Dump(w) {
      DumpInjective(v, w);
    }
    EvidenceFieldsSorted();
    NamedAgree(EVIDENCE_FIELDS, EvidenceValues(a), EvidenceValues(b));
    EvidenceValuesAgree(a, b);
  }

  /** The same for the bytes of one command result. */
  lemma CommandBytesExact(a: CommandRecord, b: CommandRecord)
    requires IsCommandRecord(a) && IsCommandRecord(b)
    ensures SerializeCommandRecord(a) == SerializeCommandRecord(b) <==> EqualCommands(a, b) && a.duration == b.duration
  {
    CommandIsWellFormed(a);
    CommandIsWellFormed(b);
    if Dump(CommandJson(a)) == Dump(CommandJson(b)) {
      DumpInjective(CommandJson(a), CommandJson(b));
      CommandsAgree(a, b);
    }
  }

  /**
   For every duration in whole seconds, a command result with the integer equals the one with the
   float, and their bytes differ.
   */
  lemma EqualCommandsCanDiffer(c: CommandRecord, seconds: nat)
    requires IsCommandRecord(c) && seconds < EXACT_INTEGERS
    ensures var a, b := c.(duration := Whole(seconds)), c.(duration := Fraction(PlainFloat("", seconds)));
            && IsCommandRecord(a) && IsCommandRecord(b) && EqualCommands(a, b)
            && SerializeCommandRecord(a) != SerializeCommandRecord(b)
  {
    WholeEqualsFloat(seconds);
    CommandBytesExact(c.(duration := Whole(seconds)), c.(duration := Fraction(PlainFloat("", seconds))));
  }

  const ZERO := "0.0"
  const MINUS_ZERO := "-0.0"

  function WithCost(e: EvidenceDocument, cost: Number): EvidenceDocument {
    e.(usage := e.usage.(estimatedCost := Some(cost)))
  }

  lemma CostsCanDiffer(e: EvidenceDocument, rt: Runtime, m: Number, n: Number)
    requires IsEvidence(e, rt) && IsNumber(m) && IsNumber(n) && SameNumber(m, n) && m != n
    ensures IsEvidence(WithCost(e, m), rt) && IsEvidence(WithCost(e, n), rt)
    ensures EqualEvidence(WithCost(e, m), WithCost(e, n))
    ensures SerializeEvidence(WithCost(e, m), rt) != SerializeEvidence(WithCost(e, n), rt)
  {
    forall i | 0 <= i < |e.commands| ensures EqualCommands(e.commands[i], e.commands[i]) {
    }
    assert !SpelledAlike(WithCost(e, m), WithCost(e, n));
    EvidenceBytesExact(WithCost(e, m), WithCost(e, n), rt);
  }

  /** For any evidence, a cost of zero and a cost of minus zero make equal evidence, and the bytes differ. */
  lemma EqualEvidenceCanDiffer(e: EvidenceDocument, rt: Runtime)
    requires IsEvidence(e, rt)
    ensures var a, b := WithCost(e, Fraction(ZERO)), WithCost(e, Fraction(MINUS_ZERO));
            && IsEvidence(a, rt) && IsEvidence(b, rt) && EqualEvidence(a, b)
            && SerializeEvidence(a, rt) != SerializeEvidence(b, rt)
  {
    var zero: nat := 0;
    ZeroTexts();
    ZerosAreEqual(zero);
    CostsCanDiffer(e, rt, Fraction(PlainFloat("", zero)), Fraction(PlainFloat("-", zero)));
  }

  /** Every value of a dictionary is found, in sorted form, under its name in the loaded bytes. */
  lemma LoadedMember(names: seq<string>, values: seq<Json>, i: nat)
    requires |names| == |values| && StrictlySorted(names, Text) && i < |names|
    requires WellFormed(Obj(Named(names, values))) && PrintsFloats(Obj(Named(names, values)))
    ensures var document := Load(Dump(Obj(Named(names, values))));
            document.Some? && document.value.Obj? && Field(names[i], Normalize(values[i])) in document.value.fields
  {
    var fields := Named(names, values);
    LoadDump(Obj(fields));
    NormalizeMembersAt(fields);
    SortFieldsKeeps(NormalizeMembers(fields));
    assert NormalizeMembers(fields)[i] == Field(names[i], Normalize(values[i]));
  }

  /** The loaded document has the sorted form of the part under the name. */
  ghost predicate HasPart(document: Option<Json>, name: string, part: Json) {
    document.Some? && document.value.Obj? && Field(name, Normalize(part)) in document.value.fields
  }

  lemma EvidencePart(e: EvidenceDocument, rt: Runtime, i: nat, part: Json)
    requires IsEvidence(e, rt) && i < |EVIDENCE_FIELDS| && EvidenceValues(e)[i] == part
    ensures HasPart(Load(SerializeEvidence(e, rt).value), EVIDENCE_FIELDS[i], part)
  {
    EvidenceIsWellFormed(e, rt);
    EvidencePrintsFloats(e, rt);
    EvidenceFieldsSorted();
    LoadedMember(EVIDENCE_FIELDS, EvidenceValues(e), i);
  }

  /** The stand-alone environment bytes are the text of the environment in the evidence bytes. */
  lemma EnvironmentIsEmbedded(e: EvidenceDocument, rt: Runtime)
    requires IsEvidence(e, rt)
    ensures HasPart(Load(SerializeEvidence(e, rt).value), EVIDENCE_FIELDS[5], EnvironmentJson(e.environment))
    ensures SerializeEnvironment(e.environment) == Some(Encode(Print(Normalize(EnvironmentJson(e.environment)))))
  {
    EvidencePart(e, rt, 5, EnvironmentJson(e.environment));
  }

  /** The stand-alone bytes of each command are the text of that command in the evidence bytes. */
  lemma CommandsAreEmbedded(e: EvidenceDocument, rt: Runtime, k: nat)
    requires IsEvidence(e, rt) && k < |e.commands|
    ensures HasPart(Load(SerializeEvidence(e, rt).value), EVIDENCE_FIELDS[3], Arr(CommandList(e.commands)))
    ensures var items := NormalizeItems(CommandList(e.commands));
            && Normalize(Arr(CommandList(e.commands))) == Arr(items) && k < |items|
            && SerializeCommandRecord(e.commands[k]) == Some(Encode(Print(items[k])))
  {
    EvidencePart(e, rt, 3, Arr(CommandList(e.commands)));
    NormalizeItemsAt(CommandList(e.commands));
    CommandBytes(e.commands, k);
  }

  lemma CommandBytes(commands: seq<CommandRecord>, k: nat)
    requires k < |commands| && forall c <- commands :: IsCommandRecord(c)
    ensures SerializeCommandRecord(commands[k]) == Some(Encode(Print(Normalize(CommandList(commands)[k]))))
  {
    assert commands[k] in commands;
  }
}
