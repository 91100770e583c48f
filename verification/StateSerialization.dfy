/** Canonical versioned bytes for identities, checkpoints and transitions. */
module StateSerialization {
  import opened Results
  import opened Order
  import opened Utf8
  import opened Json
  import opened JsonProofs
  import opened Timestamp
  import opened Identity
  import opened Lifecycle
  import opened State

  const STATE_FORMAT_VERSION := 1
  const IDENTITY_FORMAT := "alicerce.run_identity"
  const CHECKPOINT_FORMAT := "alicerce.run_checkpoint"
  const TRANSITION_FORMAT := "alicerce.lifecycle_transition"

  function StateValue(s: LifecycleState): string {
    match s
    case ContractBound => "contract_bound"
    case WorkspacePrepared => "workspace_prepared"
    case Building => "building"
    case Verifying => "verifying"
    case Deciding => "deciding"
    case ReviewPending => "review_pending"
    case Completed => "completed"
  }

  function ReadState(s: string): Option<LifecycleState> {
    if s == "contract_bound" then Some(ContractBound)
    else if s == "workspace_prepared" then Some(WorkspacePrepared)
    else if s == "building" then Some(Building)
    else if s == "verifying" then Some(Verifying)
    else if s == "deciding" then Some(Deciding)
    else if s == "review_pending" then Some(ReviewPending)
    else if s == "completed" then Some(Completed)
    else None
  }

  function FinalValue(f: FinalState): string {
    match f
    case Succeeded => "SUCCEEDED"
    case NoOp => "NO_OP"
    case NoProgress => "NO_PROGRESS"
    case VerifyFailed => "VERIFY_FAILED"
    case PolicyBlocked => "POLICY_BLOCKED"
    case BudgetExceeded => "BUDGET_EXCEEDED"
    case Escalated => "ESCALATED"
    case InfraFailed => "INFRA_FAILED"
  }

  function ReadFinal(s: string): Option<FinalState> {
    if s == "SUCCEEDED" then Some(Succeeded)
    else if s == "NO_OP" then Some(NoOp)
    else if s == "NO_PROGRESS" then Some(NoProgress)
    else if s == "VERIFY_FAILED" then Some(VerifyFailed)
    else if s == "POLICY_BLOCKED" then Some(PolicyBlocked)
    else if s == "BUDGET_EXCEEDED" then Some(BudgetExceeded)
    else if s == "ESCALATED" then Some(Escalated)
    else if s == "INFRA_FAILED" then Some(InfraFailed)
    else None
  }

  lemma ReadStateExact(s: string, state: LifecycleState)
    ensures ReadState(s) == Some(state) <==> s == StateValue(state)
  {
  }

  lemma ReadFinalExact(s: string, final: FinalState)
    ensures ReadFinal(s) == Some(final) <==> s == FinalValue(final)
  {
  }

  // ---------------------------------------------------------------- payloads

  const IDENTITY_FIELDS := ["baseline_sha", "contract_hash", "contract_id", "contract_version", "created_at", "format",
                            "policy_hash", "run_id", "version"]
  const CHECKPOINT_FIELDS := ["final_state", "format", "identity", "revision", "state", "updated_at", "version"]
  const TRANSITION_FIELDS := ["actor", "final_state", "format", "from_state", "occurred_at", "revision", "run_id",
                              "to_state", "version"]

  /** The dictionary that gives each name the value at the same position. */
  function Named(names: seq<string>, values: seq<Json>): (fields: seq<Field>)
    requires |names| == |values|
  {
    seq(|names|, i requires 0 <= i < |names| => Field(names[i], values[i]))
  }

  function FinalPayload(final: Option<FinalState>): Json {
    match final
    case None => Null
    case Some(f) => Str(FinalValue(f))
  }

  /** In the order of IDENTITY_FIELDS. */
  function IdentityValues(id: RunIdentity): (values: seq<Json>)
    ensures |values| == |IDENTITY_FIELDS|
  {
    [Str(id.baselineSha), Str(id.contractHash), Str(id.contractId), Str(id.contractVersion),
     Str(PrintTimestamp(id.createdAt)), Str(IDENTITY_FORMAT), Str(id.policyHash), Str(id.runId),
     Int(STATE_FORMAT_VERSION)]
  }

  function IdentityPayload(id: RunIdentity): Json {
    Obj(Named(IDENTITY_FIELDS, IdentityValues(id)))
  }

  /** In the order of CHECKPOINT_FIELDS. */
  function CheckpointValues(c: RunCheckpoint): (values: seq<Json>)
    ensures |values| == |CHECKPOINT_FIELDS|
  {
    [FinalPayload(c.lifecycle.finalState), Str(CHECKPOINT_FORMAT), IdentityPayload(c.identity),
        Int(c.lifecycle.revision),
     Str(StateValue(c.lifecycle.state)), Str(PrintTimestamp(c.lifecycle.updatedAt)), Int(STATE_FORMAT_VERSION)]
  }

  function CheckpointPayload(c: RunCheckpoint): Json {
    Obj(Named(CHECKPOINT_FIELDS, CheckpointValues(c)))
  }

  /** In the order of TRANSITION_FIELDS. */
  function TransitionValues(t: LifecycleTransition): (values: seq<Json>)
    ensures |values| == |TRANSITION_FIELDS|
  {
    [Str(t.actor), FinalPayload(t.finalState), Str(TRANSITION_FORMAT), Str(StateValue(t.fromState)),
     Str(PrintTimestamp(t.occurredAt)), Int(t.revision), Str(t.runId), Str(StateValue(t.toState)),
     Int(STATE_FORMAT_VERSION)]
  }

  function TransitionPayload(t: LifecycleTransition): Json {
    Obj(Named(TRANSITION_FIELDS, TransitionValues(t)))
  }

  // ------------------------------------------------------------------ reading

  ghost predicate HasName(fields: seq<Field>, name: string) {
    exists i | 0 <= i < |fields| :: fields[i].key == name
  }

  /** The names in a dictionary. */
  function Keys(fields: seq<Field>): (keys: set<string>)
    ensures forall name :: name in keys <==> HasName(fields, name)
  {
    set i | 0 <= i < |fields| :: fields[i].key
  }

  function Get(fields: seq<Field>, name: string): (v: Json)
    requires HasName(fields, name)
    ensures Field(name, v) in fields
  {
    if fields[0].key == name then fields[0].value
    else
      assert HasName(fields[1..], name) by {
        var i :| 0 <= i < |fields| && fields[i].key == name;
        assert fields[1..][i - 1].key == name;
      }
      Get(fields[1..], name)
  }

  /**
   `_object` and the lookups after it: the dictionary must have exactly the named
   members, and is read name by name, in the order of the names.
   */
  function ReadFields(v: Json, names: seq<string>): (r: Option<seq<Json>>)
    ensures r.Some? ==> |r.value| == |names|
  {
    if !v.Obj? || Keys(v.fields) != (set n <- names) then None
    else
      assert forall i | 0 <= i < |names| :: names[i] in Keys(v.fields);
      Some(seq(|names|, i requires 0 <= i < |names| => Get(v.fields, names[i])))
  }

  function InstantOf(v: Json): Option<Instant> {
    if v.Str? then ParseTimestamp(v.s) else None
  }

  function StateOf(v: Json): Option<LifecycleState> {
    if v.Str? then ReadState(v.s) else None
  }

  /** The optional final state: null, or the text of a canonical one. */
  function FinalOf(v: Json): Option<Option<FinalState>> {
    match v
    case Null => Some(None)
    case Str(s) => (match ReadFinal(s) case None => None case Some(f) => Some(Some(f)))
    case _ => None
  }

  predicate HasHeader(format: Json, version: Json, expected: string) {
    format == Str(expected) && version == Int(STATE_FORMAT_VERSION)
  }

  function IdentityFromValues(x: seq<Json>): Option<RunIdentity>
    requires |x| == |IDENTITY_FIELDS|
  {
    var baseline, hash, contract, version := x[0], x[1], x[2], x[3];
    var created, policy, run := x[4], x[6], x[7];
    if !HasHeader(x[5], x[8], IDENTITY_FORMAT) then None
    else
      match InstantOf(created)
      case None => None
      case Some(instant) =>
        if && run.Str? && IsSafeId(run.s)
           && contract.Str? && IsTrimmedText(contract.s)
           && version.Str? && IsTrimmedText(version.s)
           && hash.Str? && IsHexOf(hash.s, 64)
           && baseline.Str? && (IsHexOf(baseline.s, 40) || IsHexOf(baseline.s, 64))
           && policy.Str? && IsHexOf(policy.s, 64)
        then Some(RunIdentity(run.s, contract.s, version.s, hash.s, baseline.s, policy.s, instant))
        else None
  }

  function IdentityFromPayload(v: Json): Option<RunIdentity> {
    match ReadFields(v, IDENTITY_FIELDS)
    case None => None
    case Some(x) => IdentityFromValues(x)
  }

  function CheckpointFromValues(x: seq<Json>): Option<RunCheckpoint>
    requires |x| == |CHECKPOINT_FIELDS|
  {
    if !HasHeader(x[1], x[6], CHECKPOINT_FORMAT) then None
    else CheckpointOf(FinalOf(x[0]), IdentityFromPayload(x[2]), StateOf(x[4]), x[3], InstantOf(x[5]))
  }

  /** The lifecycle and the checkpoint that are built from the decoded parts, if their constructors accept them. */
  function CheckpointOf(
    final: Option<Option<FinalState>>, identity: Option<RunIdentity>, state: Option<LifecycleState>, revision: Json,
    updated: Option<Instant>)
    : Option<RunCheckpoint>
  {
    match (final, identity, state, updated)
    case (Some(f), Some(id), Some(s), Some(t)) =>
      if revision.Int? && revision.n >= 0 && FinalStateFits(s, f) then
        match MakeCheckpoint(id, LifecycleFields(id.runId, s, revision.n, t, f))
        case Err(_) => None
        case Ok(c) => Some(c)
      else None
    case _ => None
  }

  function TransitionFromValues(x: seq<Json>): Option<LifecycleTransition>
    requires |x| == |TRANSITION_FIELDS|
  {
    var actor, revision, run := x[0], x[5], x[6];
    if !HasHeader(x[2], x[8], TRANSITION_FORMAT) then None
    else
      match (FinalOf(x[1]), StateOf(x[3]), InstantOf(x[4]), StateOf(x[7]))
      case (Some(final), Some(from), Some(occurred), Some(to)) =>
        if && run.Str? && IsSafeId(run.s)
           && revision.Int? && revision.n >= 0
           && actor.Str? && IsComponentName(actor.s)
           && FinalStateFits(to, final)
        then Some(TransitionFields(run.s, revision.n, from, to, occurred, actor.s, final))
        else None
      case _ => None
  }

  function SerializeRunIdentity(id: RunIdentity): Bytes { Dump(IdentityPayload(id)) }

  function SerializeCheckpoint(c: RunCheckpoint): Bytes { Dump(CheckpointPayload(c)) }

  function SerializeTransition(t: LifecycleTransition): Bytes { Dump(TransitionPayload(t)) }

  function LoadFields(data: Bytes, names: seq<string>): (r: Option<seq<Json>>)
    ensures r.Some? ==> |r.value| == |names|
  {
    match Load(data)
    case None => None
    case Some(v) => ReadFields(v, names)
  }

  function DeserializeRunIdentity(data: Bytes): Option<RunIdentity> {
    match LoadFields(data, IDENTITY_FIELDS)
    case None => None
    case Some(x) => IdentityFromValues(x)
  }

  function DeserializeCheckpoint(data: Bytes): Option<RunCheckpoint> {
    match LoadFields(data, CHECKPOINT_FIELDS)
    case None => None
    case Some(x) => CheckpointFromValues(x)
  }

  function DeserializeTransition(data: Bytes): Option<LifecycleTransition> {
    match LoadFields(data, TRANSITION_FIELDS)
    case None => None
    case Some(x) => TransitionFromValues(x)
  }

  // ------------------------------------------------- members and their order

  lemma IdentityFieldsSorted()
    ensures StrictlySorted(IDENTITY_FIELDS, Text)
  {
    SortedByFirstDifference(IDENTITY_FIELDS, [0, 9, 9, 1, 0, 0, 0, 0]);
  }

  lemma CheckpointFieldsSorted()
    ensures StrictlySorted(CHECKPOINT_FIELDS, Text)
  {
    SortedByFirstDifference(CHECKPOINT_FIELDS, [1, 0, 0, 0, 0, 0]);
  }

  lemma TransitionFieldsSorted()
    ensures StrictlySorted(TRANSITION_FIELDS, Text)
  {
    SortedByFirstDifference(TRANSITION_FIELDS, [0, 1, 1, 0, 0, 1, 0, 0]);
  }

  lemma GetAt(fields: seq<Field>, i: nat)
    requires DistinctKeys(fields) && i < |fields|
    ensures HasName(fields, fields[i].key) && Get(fields, fields[i].key) == fields[i].value
  {
    var f := Field(fields[i].key, Get(fields, fields[i].key));
    var j :| 0 <= j < |fields| && fields[j] == f;
    assert i == j;
  }

  lemma NamedIsSorted(names: seq<string>, values: seq<Json>)
    requires |names| == |values| && StrictlySorted(names, Text)
    ensures StrictlySorted(Named(names, values), FieldKey)
  {
    forall i, j | 0 <= i < j < |names|
      ensures Less(FieldKey(Named(names, values)[i]), FieldKey(Named(names, values)[j]))
    {
      assert Less(Text(names[i]), Text(names[j]));
    }
  }

  /** Reading a dictionary that was written with the same names gives its values. */
  lemma ReadNamed(names: seq<string>, values: seq<Json>)
    requires |names| == |values| && StrictlySorted(names, Text)
    ensures ReadFields(Obj(Named(names, values)), names) == Some(values)
  {
    var fields := Named(names, values);
    NamedIsSorted(names, values);
    SortedHasDistinctKeys(fields);
    forall i | 0 <= i < |names| ensures HasName(fields, names[i]) && Get(fields, names[i]) == values[i] {
      GetAt(fields, i);
      assert fields[i] == Field(names[i], values[i]);
    }
    assert Keys(fields) == (set n <- names);
    assert ReadFields(Obj(fields), names).value == values;
  }

  function KeyList(fields: seq<Field>): seq<string> {
    seq(|fields|, i requires 0 <= i < |fields| => fields[i].key)
  }

  lemma SortedKeysAreNames(fields: seq<Field>, names: seq<string>)
    requires StrictlySorted(fields, FieldKey) && StrictlySorted(names, Text) && Keys(fields) == (set n <- names)
    ensures KeyList(fields) == names
  {
    var keys := KeyList(fields);
    forall k ensures k in keys <==> k in names {
      if k in keys {
        var i :| 0 <= i < |keys| && keys[i] == k;
        assert HasName(fields, k) by { assert fields[i].key == k; }
        assert k in Keys(fields);
        assert k in (set n <- names);
      }
      if k in names {
        assert k in (set n <- names);
        assert HasName(fields, k);
        var i :| 0 <= i < |fields| && fields[i].key == k;
        assert keys[i] == k;
      }
    }
    forall i, j | 0 <= i < j < |keys| ensures Less(Text(keys[i]), Text(keys[j])) {
      assert Less(FieldKey(fields[i]), FieldKey(fields[j]));
    }
    SortedIsUnique(keys, names, Text);
  }

  /** A sorted dictionary with exactly the given names was written with them. */
  lemma ReadSorted(v: Json, names: seq<string>)
    requires Canonical(v) && StrictlySorted(names, Text) && ReadFields(v, names).Some?
    ensures v == Obj(Named(names, ReadFields(v, names).value))
  {
    SortedKeysAreNames(v.fields, names);
    SortedHasDistinctKeys(v.fields);
    var values := ReadFields(v, names).value;
    assert |v.fields| == |KeyList(v.fields)| == |names|;
    forall i | 0 <= i < |names| ensures v.fields[i] == Named(names, values)[i] {
      assert names[i] == KeyList(v.fields)[i] == v.fields[i].key;
      GetAt(v.fields, i);
    }
    assert v.fields == Named(names, values);
  }

  /** The two together: a canonical dictionary is read as a list of values exactly when it was written from it. */
  lemma FieldsExact(v: Json, names: seq<string>, values: seq<Json>)
    requires Canonical(v) && |names| == |values| && StrictlySorted(names, Text)
    ensures ReadFields(v, names) == Some(values) <==> v == Obj(Named(names, values))
  {
    ReadNamed(names, values);
    if ReadFields(v, names) == Some(values) {
      ReadSorted(v, names);
    }
  }

  lemma NamedIsCanonical(names: seq<string>, values: seq<Json>)
    requires |names| == |values| && StrictlySorted(names, Text)
    requires forall i | 0 <= i < |values| :: Canonical(values[i])
    ensures Canonical(Obj(Named(names, values)))
  {
    NamedIsSorted(names, values);
  }

  /** The same for bytes, through the canonical JSON text. */
  lemma LoadFieldsExact(data: Bytes, names: seq<string>, values: seq<Json>)
    requires |names| == |values| && StrictlySorted(names, Text)
    requires forall i | 0 <= i < |values| :: Canonical(values[i])
    ensures LoadFields(data, names) == Some(values) <==> data == Dump(Obj(Named(names, values)))
  {
    var v := Obj(Named(names, values));
    NamedIsCanonical(names, values);
    NormalizeCanonical(v);
    LoadExact(data, v);
    ReadNamed(names, values);
    if LoadFields(data, names) == Some(values) {
      LoadExact(data, Load(data).value);
      FieldsExact(Load(data).value, names, values);
    }
  }

  lemma LoadedFieldsAreCanonical(data: Bytes, names: seq<string>)
    requires LoadFields(data, names).Some?
    ensures forall i | 0 <= i < |names| :: Canonical(LoadFields(data, names).value[i])
  {
    var v := Load(data).value;
    LoadExact(data, v);
    ReadFieldsAreCanonical(v, names);
  }

  lemma ReadFieldsAreCanonical(v: Json, names: seq<string>)
    requires Canonical(v) && ReadFields(v, names).Some?
    ensures forall i | 0 <= i < |names| :: Canonical(ReadFields(v, names).value[i])
  {
    forall i | 0 <= i < |names| ensures Canonical(ReadFields(v, names).value[i]) {
      var f := Field(names[i], Get(v.fields, names[i]));
      var j :| 0 <= j < |v.fields| && v.fields[j] == f;
    }
  }

  // ------------------------------------------------------------- exact codecs

  lemma InstantOfExact(v: Json, t: Instant)
    ensures InstantOf(v) == Some(t) <==> v == Str(PrintTimestamp(t)) && YearSurvives(t)
  {
    if v.Str? {
      TimestampExact(v.s, t);
    }
  }

  lemma StateOfExact(v: Json, s: LifecycleState)
    ensures StateOf(v) == Some(s) <==> v == Str(StateValue(s))
  {
    if v.Str? {
      ReadStateExact(v.s, s);
    }
  }

  lemma FinalOfExact(v: Json, final: Option<FinalState>)
    ensures FinalOf(v) == Some(final) <==> v == FinalPayload(final)
  {
    if v.Str? && final.Some? {
      ReadFinalExact(v.s, final.value);
    }
  }

  lemma IdentityFromValuesParts(x: seq<Json>, id: RunIdentity)
    requires |x| == |IDENTITY_FIELDS|
    ensures IdentityFromValues(x) == Some(id) <==>
            && HasHeader(x[5], x[8], IDENTITY_FORMAT)
            && x[0] == Str(id.baselineSha) && x[1] == Str(id.contractHash) && x[2] == Str(id.contractId)
            && x[3] == Str(id.contractVersion) && x[6] == Str(id.policyHash) && x[7] == Str(id.runId)
            && InstantOf(x[4]) == Some(id.createdAt)
  {
  }

  lemma IdentityValuesParts(x: seq<Json>, id: RunIdentity)
    requires |x| == |IDENTITY_FIELDS|
    ensures x == IdentityValues(id) <==>
            && HasHeader(x[5], x[8], IDENTITY_FORMAT)
            && x[0] == Str(id.baselineSha) && x[1] == Str(id.contractHash) && x[2] == Str(id.contractId)
            && x[3] == Str(id.contractVersion) && x[6] == Str(id.policyHash) && x[7] == Str(id.runId)
            && x[4] == Str(PrintTimestamp(id.createdAt))
  {
    var v := IdentityValues(id);
    assert x == v <==> x[0] == v[0] && x[1] == v[1] && x[2] == v[2] && x[3] == v[3] && x[4] == v[4] && x[5] == v[5]
                       && x[6] == v[6] && x[7] == v[7] && x[8] == v[8];
  }

  lemma IdentityValuesExact(x: seq<Json>, id: RunIdentity)
    requires |x| == |IDENTITY_FIELDS|
    ensures IdentityFromValues(x) == Some(id) <==> x == IdentityValues(id) && YearSurvives(id.createdAt)
  {
    InstantOfExact(x[4], id.createdAt);
    IdentityFromValuesParts(x, id);
    IdentityValuesParts(x, id);
  }

  lemma IdentityPayloadExact(v: Json, id: RunIdentity)
    requires Canonical(v)
    ensures IdentityFromPayload(v) == Some(id) <==> v == IdentityPayload(id) && YearSurvives(id.createdAt)
  {
    IdentityFieldsSorted();
    FieldsExact(v, IDENTITY_FIELDS, IdentityValues(id));
    if ReadFields(v, IDENTITY_FIELDS).Some? {
      IdentityValuesExact(ReadFields(v, IDENTITY_FIELDS).value, id);
    }
  }

  lemma IdentityPayloadIsCanonical(id: RunIdentity)
    ensures Canonical(IdentityPayload(id))
  {
    IdentityFieldsSorted();
    NamedIsCanonical(IDENTITY_FIELDS, IdentityValues(id));
  }

  lemma CheckpointOfExact(
    final: Option<Option<FinalState>>, identity: Option<RunIdentity>, state: Option<LifecycleState>, revision: Json,
    updated: Option<Instant>, c: RunCheckpoint)
    ensures CheckpointOf(final, identity, state, revision, updated) == Some(c) <==>
              && final == Some(c.lifecycle.finalState) && identity == Some(c.identity)
              && state == Some(c.lifecycle.state) && revision == Int(c.lifecycle.revision)
              && updated == Some(c.lifecycle.updatedAt)
  {
  }

  lemma CheckpointFromValuesParts(x: seq<Json>, c: RunCheckpoint)
    requires |x| == |CHECKPOINT_FIELDS|
    ensures CheckpointFromValues(x) == Some(c) <==>
            && HasHeader(x[1], x[6], CHECKPOINT_FORMAT)
            && FinalOf(x[0]) == Some(c.lifecycle.finalState)
            && IdentityFromPayload(x[2]) == Some(c.identity)
            && x[3] == Int(c.lifecycle.revision)
            && StateOf(x[4]) == Some(c.lifecycle.state)
            && InstantOf(x[5]) == Some(c.lifecycle.updatedAt)
  {
    CheckpointOfExact(FinalOf(x[0]), IdentityFromPayload(x[2]), StateOf(x[4]), x[3], InstantOf(x[5]), c);
  }

  lemma CheckpointValuesParts(x: seq<Json>, c: RunCheckpoint)
    requires |x| == |CHECKPOINT_FIELDS|
    ensures x == CheckpointValues(c) <==>
            && HasHeader(x[1], x[6], CHECKPOINT_FORMAT)
            && x[0] == FinalPayload(c.lifecycle.finalState)
            && x[2] == IdentityPayload(c.identity)
            && x[3] == Int(c.lifecycle.revision)
            && x[4] == Str(StateValue(c.lifecycle.state))
            && x[5] == Str(PrintTimestamp(c.lifecycle.updatedAt))
  {
    var v := CheckpointValues(c);
    assert x == v <==> x[0] == v[0] && x[1] == v[1] && x[2] == v[2] && x[3] == v[3] && x[4] == v[4] && x[5] == v[5]
                       && x[6] == v[6];
  }

  lemma CheckpointValuesExact(x: seq<Json>, c: RunCheckpoint)
    requires |x| == |CHECKPOINT_FIELDS| && Canonical(x[2])
    ensures CheckpointFromValues(x) == Some(c) <==> x == CheckpointValues(c) && YearSurvives(c.identity.createdAt)
  {
    FinalOfExact(x[0], c.lifecycle.finalState);
    IdentityPayloadExact(x[2], c.identity);
    StateOfExact(x[4], c.lifecycle.state);
    InstantOfExact(x[5], c.lifecycle.updatedAt);
    YearsAgree(c.identity.createdAt, c.lifecycle.updatedAt);
    CheckpointFromValuesParts(x, c);
    CheckpointValuesParts(x, c);
  }

  lemma TransitionFromValuesParts(x: seq<Json>, t: LifecycleTransition)
    requires |x| == |TRANSITION_FIELDS|
    ensures TransitionFromValues(x) == Some(t) <==>
            && HasHeader(x[2], x[8], TRANSITION_FORMAT)
            && x[0] == Str(t.actor) && x[5] == Int(t.revision) && x[6] == Str(t.runId)
            && FinalOf(x[1]) == Some(t.finalState) && StateOf(x[3]) == Some(t.fromState)
            && InstantOf(x[4]) == Some(t.occurredAt) && StateOf(x[7]) == Some(t.toState)
  {
  }

  lemma TransitionValuesParts(x: seq<Json>, t: LifecycleTransition)
    requires |x| == |TRANSITION_FIELDS|
    ensures x == TransitionValues(t) <==>
            && HasHeader(x[2], x[8], TRANSITION_FORMAT)
            && x[0] == Str(t.actor) && x[5] == Int(t.revision) && x[6] == Str(t.runId)
            && x[1] == FinalPayload(t.finalState) && x[3] == Str(StateValue(t.fromState))
            && x[4] == Str(PrintTimestamp(t.occurredAt)) && x[7] == Str(StateValue(t.toState))
  {
    var v := TransitionValues(t);
    assert x == v <==> x[0] == v[0] && x[1] == v[1] && x[2] == v[2] && x[3] == v[3] && x[4] == v[4] && x[5] == v[5]
                       && x[6] == v[6] && x[7] == v[7] && x[8] == v[8];
  }

  lemma TransitionValuesExact(x: seq<Json>, t: LifecycleTransition)
    requires |x| == |TRANSITION_FIELDS|
    ensures TransitionFromValues(x) == Some(t) <==> x == TransitionValues(t) && YearSurvives(t.occurredAt)
  {
    FinalOfExact(x[1], t.finalState);
    StateOfExact(x[3], t.fromState);
    InstantOfExact(x[4], t.occurredAt);
    StateOfExact(x[7], t.toState);
    TransitionFromValuesParts(x, t);
    TransitionValuesParts(x, t);
  }

  /**
   Bytes decode to an identity exactly when they are that identity's bytes and its
   year prints with four digits: decoding inverts encoding on both sides.
   */
  lemma IdentityCodecExact(data: Bytes, id: RunIdentity)
    ensures DeserializeRunIdentity(data) == Some(id) <==> data == SerializeRunIdentity(id) && YearSurvives(id.createdAt)
  {
    IdentityFieldsSorted();
    LoadFieldsExact(data, IDENTITY_FIELDS, IdentityValues(id));
    if LoadFields(data, IDENTITY_FIELDS).Some? {
      IdentityValuesExact(LoadFields(data, IDENTITY_FIELDS).value, id);
    }
  }

  /** The run id of the lifecycle is not written; the checkpoint's own invariant restores it. */
  lemma CheckpointCodecExact(data: Bytes, c: RunCheckpoint)
    ensures DeserializeCheckpoint(data) == Some(c) <==>
        data == SerializeCheckpoint(c) && YearSurvives(c.identity.createdAt)
  {
    CheckpointFieldsSorted();
    IdentityPayloadIsCanonical(c.identity);
    LoadFieldsExact(data, CHECKPOINT_FIELDS, CheckpointValues(c));
    if LoadFields(data, CHECKPOINT_FIELDS).Some? {
      LoadedFieldsAreCanonical(data, CHECKPOINT_FIELDS);
      CheckpointValuesExact(LoadFields(data, CHECKPOINT_FIELDS).value, c);
    }
  }

  lemma TransitionCodecExact(data: Bytes, t: LifecycleTransition)
    ensures DeserializeTransition(data) == Some(t) <==> data == SerializeTransition(t) && YearSurvives(t.occurredAt)
  {
    TransitionFieldsSorted();
    LoadFieldsExact(data, TRANSITION_FIELDS, TransitionValues(t));
    if LoadFields(data, TRANSITION_FIELDS).Some? {
      TransitionValuesExact(LoadFields(data, TRANSITION_FIELDS).value, t);
    }
  }

  // -------------------- what bytes mean, without the writer's and reader's steps

  // The store's theorems need only that the bytes of a value are those of every
  // arrangement of its payload, and which bytes hold which value; so they speak of
  // the functions below, and the lemmas *BytesSerialized and *ReaderExact tie these
  // to what the codec computes.

  /** The bytes that every arrangement of an identity's payload is dumped to. */
  ghost function IdentityBytes(id: RunIdentity): (data: Bytes)
    ensures forall v | Normalize(v) == IdentityPayload(id) :: data == Dump(v)
  {
    IdentityPayloadIsCanonical(id);
    assert forall v | Normalize(v) == IdentityPayload(id) :: Dump(v) == Encode(Print(IdentityPayload(id)));
    var data: Bytes :| forall v | Normalize(v) == IdentityPayload(id) :: data == Dump(v);
    data
  }

  ghost function CheckpointBytes(c: RunCheckpoint): (data: Bytes)
    ensures forall v | Normalize(v) == CheckpointPayload(c) :: data == Dump(v)
  {
    assert forall v | Normalize(v) == CheckpointPayload(c) :: Dump(v) == Encode(Print(CheckpointPayload(c)));
    var data: Bytes :| forall v | Normalize(v) == CheckpointPayload(c) :: data == Dump(v);
    data
  }

  ghost function TransitionBytes(t: LifecycleTransition): (data: Bytes)
    ensures forall v | Normalize(v) == TransitionPayload(t) :: data == Dump(v)
  {
    assert forall v | Normalize(v) == TransitionPayload(t) :: Dump(v) == Encode(Print(TransitionPayload(t)));
    var data: Bytes :| forall v | Normalize(v) == TransitionPayload(t) :: data == Dump(v);
    data
  }

  lemma IdentityBytesSerialized(id: RunIdentity)
    ensures SerializeRunIdentity(id) == IdentityBytes(id)
  {
    IdentityPayloadIsCanonical(id);
    NormalizeCanonical(IdentityPayload(id));
  }

  lemma CheckpointBytesSerialized(c: RunCheckpoint)
    ensures SerializeCheckpoint(c) == CheckpointBytes(c)
  {
    CheckpointFieldsSorted();
    IdentityPayloadIsCanonical(c.identity);
    NamedIsCanonical(CHECKPOINT_FIELDS, CheckpointValues(c));
    NormalizeCanonical(CheckpointPayload(c));
  }

  lemma TransitionBytesSerialized(t: LifecycleTransition)
    ensures SerializeTransition(t) == TransitionBytes(t)
  {
    TransitionFieldsSorted();
    NamedIsCanonical(TRANSITION_FIELDS, TransitionValues(t));
    NormalizeCanonical(TransitionPayload(t));
  }

  method EncodeRunIdentity(id: RunIdentity) returns (data: Bytes)
    ensures data == IdentityBytes(id)
  {
    IdentityBytesSerialized(id);
    data := SerializeRunIdentity(id);
  }

  method EncodeCheckpoint(c: RunCheckpoint) returns (data: Bytes)
    ensures data == CheckpointBytes(c)
  {
    CheckpointBytesSerialized(c);
    data := SerializeCheckpoint(c);
  }

  method EncodeTransition(t: LifecycleTransition) returns (data: Bytes)
    ensures data == TransitionBytes(t)
  {
    TransitionBytesSerialized(t);
    data := SerializeTransition(t);
  }

  /** The identity that the bytes encode, if they do. */
  ghost function IdentityIn(data: Bytes): (r: Option<RunIdentity>)
    ensures forall id :: r == Some(id) <==> data == IdentityBytes(id) && YearSurvives(id.createdAt)
  {
    forall id
      ensures DeserializeRunIdentity(data) == Some(id) <==> data == IdentityBytes(id) && YearSurvives(id.createdAt)
    {
      IdentityCodecExact(data, id);
      IdentityBytesSerialized(id);
    }
    var r: Option<RunIdentity> :| forall id :: r == Some(id) <==>
        data == IdentityBytes(id) && YearSurvives(id.createdAt);
    r
  }

  ghost function CheckpointIn(data: Bytes): (r: Option<RunCheckpoint>)
    ensures forall c: RunCheckpoint :: r == Some(c) <==>
        data == CheckpointBytes(c) && YearSurvives(c.identity.createdAt)
  {
    forall c: RunCheckpoint
      ensures DeserializeCheckpoint(data) == Some(c) <==>
          data == CheckpointBytes(c) && YearSurvives(c.identity.createdAt)
    {
      CheckpointCodecExact(data, c);
      CheckpointBytesSerialized(c);
    }
    var r: Option<RunCheckpoint> :|
      forall c: RunCheckpoint :: r == Some(c) <==> data == CheckpointBytes(c) && YearSurvives(c.identity.createdAt);
    r
  }

  ghost function TransitionIn(data: Bytes): (r: Option<LifecycleTransition>)
    ensures forall t: LifecycleTransition :: r == Some(t) <==> data == TransitionBytes(t) && YearSurvives(t.occurredAt)
  {
    forall t: LifecycleTransition
      ensures DeserializeTransition(data) == Some(t) <==> data == TransitionBytes(t) && YearSurvives(t.occurredAt)
    {
      TransitionCodecExact(data, t);
      TransitionBytesSerialized(t);
    }
    var r: Option<LifecycleTransition> :|
      forall t: LifecycleTransition :: r == Some(t) <==> data == TransitionBytes(t) && YearSurvives(t.occurredAt);
    r
  }

  lemma IdentityReaderExact(data: Bytes)
    ensures DeserializeRunIdentity(data) == IdentityIn(data)
  {
    var d, i := DeserializeRunIdentity(data), IdentityIn(data);
    if d.Some? {
      IdentityCodecExact(data, d.value);
      IdentityBytesSerialized(d.value);
    }
    if i.Some? {
      IdentityCodecExact(data, i.value);
      IdentityBytesSerialized(i.value);
    }
  }

  lemma CheckpointReaderExact(data: Bytes)
    ensures DeserializeCheckpoint(data) == CheckpointIn(data)
  {
    var d, i := DeserializeCheckpoint(data), CheckpointIn(data);
    if d.Some? {
      CheckpointCodecExact(data, d.value);
      CheckpointBytesSerialized(d.value);
    }
    if i.Some? {
      CheckpointCodecExact(data, i.value);
      CheckpointBytesSerialized(i.value);
    }
  }

  lemma TransitionReaderExact(data: Bytes)
    ensures DeserializeTransition(data) == TransitionIn(data)
  {
    var d, i := DeserializeTransition(data), TransitionIn(data);
    if d.Some? {
      TransitionCodecExact(data, d.value);
      TransitionBytesSerialized(d.value);
    }
    if i.Some? {
      TransitionCodecExact(data, i.value);
      TransitionBytesSerialized(i.value);
    }
  }

  lemma EqualBytesEqualPayload(id: RunIdentity, id': RunIdentity)
    requires IdentityBytes(id) == IdentityBytes(id')
    ensures IdentityPayload(id) == IdentityPayload(id')
  {
    var p, p' := IdentityPayload(id), IdentityPayload(id');
    IdentityBytesSerialized(id);
    IdentityBytesSerialized(id');
    IdentityPayloadIsCanonical(id);
    IdentityPayloadIsCanonical(id');
    CanonicalIsWellFormed(p);
    CanonicalIsWellFormed(p');
    DumpInjective(p, p');
    NormalizeCanonical(p);
    NormalizeCanonical(p');
  }

  lemma EqualPayloadEqualTimestamp(id: RunIdentity, id': RunIdentity)
    requires IdentityPayload(id) == IdentityPayload(id')
    ensures PrintTimestamp(id.createdAt) == PrintTimestamp(id'.createdAt)
  {
    var f, f' := Named(IDENTITY_FIELDS, IdentityValues(id)), Named(IDENTITY_FIELDS, IdentityValues(id'));
    assert f[4].value == IdentityValues(id)[4] && f'[4].value == IdentityValues(id')[4];
  }

  /** The bytes of an identity tell whether its year prints with four digits. */
  lemma IdentityBytesTellYear(id: RunIdentity, id': RunIdentity)
    requires IdentityBytes(id) == IdentityBytes(id') && YearSurvives(id'.createdAt)
    ensures id == id'
  {
    EqualBytesEqualPayload(id, id');
    EqualPayloadEqualTimestamp(id, id');
    TimestampTellsYear(id.createdAt, id'.createdAt);
    assert IdentityIn(IdentityBytes(id)) == Some(id) && IdentityIn(IdentityBytes(id')) == Some(id');
  }
}
