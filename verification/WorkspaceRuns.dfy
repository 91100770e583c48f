/** What holds of workspace capabilities over every sequence of operations, failures and candidate interference. */
module WorkspaceRuns {
  import opened Results
  import opened Identity
  import opened Command
  import opened Workspace

  datatype Op =
    | Prepare(identity: RunIdentity, id: WorkspaceId, host: Host)
    | Load(id: WorkspaceId, host: Host)
    | Release(workspace: WorkspaceIdentity, host: Host)
    | Interfere(path: Path, entry: Option<Entry>)

  function Step(roots: Roots, t: Table, op: Op): Table {
    match op
    case Prepare(identity, id, host) => PrepareStep(roots, t, identity, id, host).0
    case Load(_, _) => t
    case Release(workspace, host) => ReleaseStep(roots, t, workspace, host).0
    case Interfere(path, entry) => t.(entries := Put(t.entries, path, entry))
  }

  function Execute(roots: Roots, t: Table, ops: seq<Op>): Table
    decreases |ops|
  {
    if ops == [] then t else Execute(roots, Step(roots, t, ops[0]), ops[1..])
  }

  /** Interference may strike anywhere but at a quarantine path. */
  ghost predicate SparesQuarantines(roots: Roots, op: Op) {
    op.Interfere? ==> forall id: WorkspaceId :: op.path != Quarantine(roots.root, id)
  }

  function Started(entries: Entries): Table {
    Table(map[], map[], entries)
  }

  /** The tables and the host after some operations on a new adapter. */
  function Reached(roots: Roots, entries: Entries, ops: seq<Op>): Table {
    Execute(roots, Started(entries), ops)
  }

  lemma {:induction false} ExecuteAppend(roots: Roots, t: Table, before: seq<Op>, later: seq<Op>)
    ensures Execute(roots, t, before + later) == Execute(roots, Execute(roots, t, before), later)
    decreases |before|
  {
    if before == [] {
      assert before + later == later;
    } else {
      assert (before + later)[1..] == before[1..] + later;
      ExecuteAppend(roots, Step(roots, t, before[0]), before[1..], later);
    }
  }

  ghost predicate IsStart(roots: Roots, entries: Entries) {
    Disjoint(roots) && forall id: WorkspaceId :: Quarantine(roots.root, id) !in entries
  }

  lemma StepKeepsSound(roots: Roots, t: Table, op: Op)
    requires Sound(roots, t)
    ensures Sound(roots, Step(roots, t, op))
    ensures Valid(roots, t) && SparesQuarantines(roots, op) ==> Valid(roots, Step(roots, t, op))
  {
    match op
    case Prepare(identity, id, host) => PrepareKeepsValid(roots, t, identity, id, host);
    case Release(workspace, host) => ReleaseKeepsValid(roots, t, workspace, host);
    case Load(_, _) =>
    case Interfere(_, _) =>
  }

  lemma {:induction false} ExecutionKeepsSound(roots: Roots, t: Table, ops: seq<Op>)
    requires Sound(roots, t)
    ensures Sound(roots, Execute(roots, t, ops))
    ensures Valid(roots, t) && (forall op <- ops :: SparesQuarantines(roots, op)) ==>
        Valid(roots, Execute(roots, t, ops))
    decreases |ops|
  {
    if ops != [] {
      StepKeepsSound(roots, t, ops[0]);
      ExecutionKeepsSound(roots, Step(roots, t, ops[0]), ops[1..]);
    }
  }

  /**
   Over every run with any failures and any interference on the host, given only
   that the root was disjoint from the protected roots at the start: the records and
   the run index stay mutual inverses, and each record has its own path, directly
   below the root and outside every protected root.
   */
  lemma EveryRunIsSound(roots: Roots, entries: Entries, ops: seq<Op>)
    requires Disjoint(roots)
    ensures var t := Reached(roots, entries, ops);
            && Inverse(roots, t)
            && (forall id <- t.records :: t.records[id].path == roots.root + [id])
            && (forall id <- t.records ::
                  forall p <- roots.protectedRoots :: !(p <= t.records[id].path) && !(t.records[id].path <= p))
  {
    var t := Reached(roots, entries, ops);
    ExecutionKeepsSound(roots, Started(entries), ops);
    forall id | id in t.records
      ensures forall p <- roots.protectedRoots :: !(p <= t.records[id].path) && !(t.records[id].path <= p)
    {
      BelowIsUnprotected(roots.root, id, roots.protectedRoots);
      ProtectedExact(t.records[id].path, roots.protectedRoots);
    }
  }

  /** Where nobody else writes to quarantine paths, a quarantined entry exists only while its handle is recorded. */
  lemma EveryQuarantineIsOwned(roots: Roots, entries: Entries, ops: seq<Op>, id: WorkspaceId)
    requires IsStart(roots, entries) && forall op <- ops :: SparesQuarantines(roots, op)
    ensures var t := Reached(roots, entries, ops);
            Quarantine(roots.root, id) in t.entries ==> id in t.records
  {
    ExecutionKeepsSound(roots, Started(entries), ops);
  }

  /** Over every run, no two handles are ever recorded for the same run id. */
  lemma OneWorkspacePerRun(roots: Roots, entries: Entries, ops: seq<Op>, a: WorkspaceId, b: WorkspaceId)
    requires Disjoint(roots)
    requires var t := Reached(roots, entries, ops);
             a in t.records && b in t.records && t.records[a].identity.runId == t.records[b].identity.runId
    ensures a == b
  {
    var t := Reached(roots, entries, ops);
    ExecutionKeepsSound(roots, Started(entries), ops);
    assert t.runIndex[t.records[a].identity.runId] == a;
    assert t.runIndex[t.records[b].identity.runId] == b;
  }

  // ------------------------------------------------------ what an operation touches

  function HandleOf(op: Op): WorkspaceId
    requires !op.Interfere?
  {
    match op
    case Prepare(_, id, _) => id
    case Load(id, _) => id
    case Release(workspace, _) => workspace.workspaceId
  }

  /** An operation changes the host only at the home and the quarantine of its own handle. */
  lemma OnlyOwnPathsChange(roots: Roots, t: Table, op: Op, path: Path)
    requires !op.Interfere?
    requires path != Home(roots.root, HandleOf(op)) && path != Quarantine(roots.root, HandleOf(op))
    ensures At(Step(roots, t, op).entries, path) == At(t.entries, path)
  {
  }

  lemma ProtectedStep(roots: Roots, t: Table, op: Op, path: Path)
    requires Disjoint(roots) && IsProtected(path, roots.protectedRoots)
    requires op.Interfere? ==> op.path != path
    ensures At(Step(roots, t, op).entries, path) == At(t.entries, path)
  {
    if !op.Interfere? {
      BelowIsUnprotected(roots.root, HandleOf(op), roots.protectedRoots);
      BelowIsUnprotected(roots.root, RELEASE_PREFIX + HandleOf(op), roots.protectedRoots);
      OnlyOwnPathsChange(roots, t, op, path);
    }
  }

  lemma {:induction false} ProtectedRun(roots: Roots, t: Table, ops: seq<Op>, path: Path)
    requires Disjoint(roots) && IsProtected(path, roots.protectedRoots)
    requires forall op <- ops :: op.Interfere? ==> op.path != path
    ensures At(Execute(roots, t, ops).entries, path) == At(t.entries, path)
    decreases |ops|
  {
    if ops != [] {
      ProtectedStep(roots, t, ops[0], path);
      ProtectedRun(roots, Step(roots, t, ops[0]), ops[1..], path);
    }
  }

  /** No run of operations creates, renames or removes anything at, above or below a protected root. */
  lemma ProtectedPathsAreUntouched(roots: Roots, t: Table, ops: seq<Op>, path: Path, p: Path)
    requires forall q <- roots.protectedRoots :: !(q <= roots.root) && !(roots.root <= q)
    requires p in roots.protectedRoots && (p <= path || path <= p)
    requires forall op <- ops :: op.Interfere? ==> op.path != path
    ensures At(Execute(roots, t, ops).entries, path) == At(t.entries, path)
  {
    ProtectedExact(roots.root, roots.protectedRoots);
    ProtectedExact(path, roots.protectedRoots);
    ProtectedRun(roots, t, ops, path);
  }

  lemma OtherRecordsStay(roots: Roots, t: Table, op: Op, other: WorkspaceId)
    requires !op.Interfere? && HandleOf(op) != other
    ensures other in Step(roots, t, op).records <==> other in t.records
    ensures other in t.records ==> Step(roots, t, op).records[other] == t.records[other]
  {
  }

  /** An operation on one handle does not change what loading another handle answers. */
  lemma OtherHandlesAreUnaffected(roots: Roots, t: Table, op: Op, other: WorkspaceId, host: Host)
    requires Sound(roots, t) && !op.Interfere? && HandleOf(op) != other
    ensures LoadStep(Step(roots, t, op), other, host) == LoadStep(t, other, host)
  {
    OtherRecordsStay(roots, t, op, other);
    PathsAreApart(roots.root, HandleOf(op), other);
    PathsAreApart(roots.root, other, HandleOf(op));
    OnlyOwnPathsChange(roots, t, op, Home(roots.root, other));
  }

  // ------------------------------------------------------------------- release

  /** A release that forgets its handle leaves nothing at either path; one that does not keeps both tables. */
  lemma ReleaseForgetsAll(roots: Roots, t: Table, workspace: WorkspaceIdentity, host: Host)
    requires Sound(roots, t) && workspace.workspaceId in t.records
    ensures var (after, answer) := ReleaseStep(roots, t, workspace, host);
            var gone := workspace.workspaceId !in after.records;
            && (answer == Ok(()) ==> gone)
            && (gone ==> Absent(roots, after, workspace.workspaceId) && workspace.runId !in after.runIndex)
            && (!gone ==> after.records == t.records && after.runIndex == t.runIndex)
  {
    PathsAreApart(roots.root, workspace.workspaceId, workspace.workspaceId);
  }

  /** Nothing is recorded under the handle, and nothing is at its two paths. */
  ghost predicate Absent(roots: Roots, t: Table, id: WorkspaceId) {
    id !in t.records && Home(roots.root, id) !in t.entries && Quarantine(roots.root, id) !in t.entries
  }

  predicate IsPreparing(op: Op, id: WorkspaceId) {
    op.Prepare? && op.id == id
  }

  /** The operation does not prepare the handle, and does not interfere at its paths. */
  ghost predicate LeavesAlone(roots: Roots, op: Op, id: WorkspaceId) {
    && !IsPreparing(op, id)
    && (op.Interfere? ==> op.path != Home(roots.root, id) && op.path != Quarantine(roots.root, id))
  }

  lemma OthersKeepAbsent(roots: Roots, t: Table, op: Op, id: WorkspaceId)
    requires Absent(roots, t, id) && LeavesAlone(roots, op, id)
    ensures Absent(roots, Step(roots, t, op), id)
  {
    if !op.Interfere? && HandleOf(op) != id {
      OtherRecordsStay(roots, t, op, id);
      PathsAreApart(roots.root, HandleOf(op), id);
      PathsAreApart(roots.root, id, HandleOf(op));
      OnlyOwnPathsChange(roots, t, op, Home(roots.root, id));
      OnlyOwnPathsChange(roots, t, op, Quarantine(roots.root, id));
    }
  }

  lemma {:induction false} AbsentStaysAbsent(roots: Roots, t: Table, ops: seq<Op>, id: WorkspaceId)
    requires Absent(roots, t, id) && forall op <- ops :: LeavesAlone(roots, op, id)
    ensures Absent(roots, Execute(roots, t, ops), id)
    decreases |ops|
  {
    if ops != [] {
      assert ops[0] in ops;
      OthersKeepAbsent(roots, t, ops[0], id);
      AbsentStaysAbsent(roots, Step(roots, t, ops[0]), ops[1..], id);
    }
  }

  /**
   A successful release is final: over any later operations that do not prepare the
   handle again, with any failures, nothing is recorded or left at its paths, and
   releasing it again succeeds and changes nothing.
   */
  lemma ReleaseIsFinal(roots: Roots, entries: Entries, before: seq<Op>, workspace: WorkspaceIdentity, host: Host,
      later: seq<Op>, again: Host)
    requires Disjoint(roots) && workspace.workspaceId in Reached(roots, entries, before).records
    requires ReleaseStep(roots, Reached(roots, entries, before), workspace, host).1 == Ok(())
    requires forall op <- later :: LeavesAlone(roots, op, workspace.workspaceId)
    ensures var t := Reached(roots, entries, before + [Release(workspace, host)] + later);
            && Absent(roots, t, workspace.workspaceId)
            && ReleaseStep(roots, t, workspace, again) == (t, Ok(()))
  {
    var t := Reached(roots, entries, before);
    var ops := before + [Release(workspace, host)];
    ExecutionKeepsSound(roots, Started(entries), before);
    ReleaseForgetsAll(roots, t, workspace, host);
    ExecuteAppend(roots, Started(entries), before, [Release(workspace, host)]);
    ExecuteAppend(roots, Started(entries), ops, later);
    ExecuteOne(roots, t, Release(workspace, host));
    AbsentStaysAbsent(roots, Reached(roots, entries, ops), later, workspace.workspaceId);
  }

  lemma ExecuteOne(roots: Roots, t: Table, op: Op)
    ensures Execute(roots, t, [op]) == Step(roots, t, op)
  {
    assert Execute(roots, Step(roots, t, op), []) == Step(roots, t, op);
    assert [op][1..] == [];
  }

  ghost predicate BothOccupied(roots: Roots, t: Table, id: WorkspaceId) {
    Home(roots.root, id) in t.entries && Quarantine(roots.root, id) in t.entries
  }

  lemma FaultFreeRelease(roots: Roots, t: Table, workspace: WorkspaceIdentity, host: Host)
    requires Sound(roots, t) && host.faults == map[]
    requires workspace.workspaceId in t.records && t.records[workspace.workspaceId].identity == workspace
    ensures var (after, answer) := ReleaseStep(roots, t, workspace, host);
            if BothOccupied(roots, t, workspace.workspaceId) then answer == Err(StorageFailure)
                && after.records == t.records
            else Absent(roots, after, workspace.workspaceId) && workspace.runId !in after.runIndex
  {
    PathsAreApart(roots.root, workspace.workspaceId, workspace.workspaceId);
  }

  /**
   After any run, with any failures and any interference, a release in which nothing
   fails removes a recorded workspace completely, unless home and quarantine are both
   occupied; then it answers a storage failure and keeps the record.
   */
  lemma FaultFreeReleaseExact(roots: Roots, entries: Entries, ops: seq<Op>, workspace: WorkspaceIdentity, host: Host)
    requires Disjoint(roots) && host.faults == map[]
    requires var t := Reached(roots, entries, ops);
             workspace.workspaceId in t.records && t.records[workspace.workspaceId].identity == workspace
    ensures var t := Reached(roots, entries, ops);
            var (after, answer) := ReleaseStep(roots, t, workspace, host);
            if BothOccupied(roots, t, workspace.workspaceId) then answer == Err(StorageFailure)
                && after.records == t.records
            else Absent(roots, after, workspace.workspaceId) && workspace.runId !in after.runIndex
  {
    ExecutionKeepsSound(roots, Started(entries), ops);
    FaultFreeRelease(roots, Reached(roots, entries, ops), workspace, host);
  }

  ghost predicate NeverBoth(roots: Roots, t: Table) {
    forall id: WorkspaceId :: !BothOccupied(roots, t, id)
  }

  lemma StepKeepsApart(roots: Roots, t: Table, op: Op)
    requires Valid(roots, t) && NeverBoth(roots, t) && !op.Interfere?
    ensures NeverBoth(roots, Step(roots, t, op))
  {
    var own := HandleOf(op);
    PathsAreApart(roots.root, own, own);
    forall id: WorkspaceId ensures !BothOccupied(roots, Step(roots, t, op), id) {
      if id != own {
        PathsAreApart(roots.root, id, own);
        PathsAreApart(roots.root, own, id);
        OnlyOwnPathsChange(roots, t, op, Home(roots.root, id));
        OnlyOwnPathsChange(roots, t, op, Quarantine(roots.root, id));
      }
      assert !BothOccupied(roots, t, id);
    }
  }

  lemma {:induction false} ExecutionKeepsApart(roots: Roots, t: Table, ops: seq<Op>)
    requires Valid(roots, t) && NeverBoth(roots, t) && forall op <- ops :: !op.Interfere?
    ensures Valid(roots, Execute(roots, t, ops)) && NeverBoth(roots, Execute(roots, t, ops))
    decreases |ops|
  {
    if ops != [] {
      StepKeepsApart(roots, t, ops[0]);
      StepKeepsSound(roots, t, ops[0]);
      ExecutionKeepsApart(roots, Step(roots, t, ops[0]), ops[1..]);
    }
  }

  /**
   After any run of operations with any failures, one fault-free release of a recorded workspace
   removes it completely.
   */
  lemma RetryReleases(roots: Roots, entries: Entries, ops: seq<Op>, workspace: WorkspaceIdentity, host: Host)
    requires IsStart(roots, entries) && (forall op <- ops :: !op.Interfere?) && host.faults == map[]
    requires var t := Reached(roots, entries, ops);
             workspace.workspaceId in t.records && t.records[workspace.workspaceId].identity == workspace
    ensures var after := ReleaseStep(roots, Reached(roots, entries, ops), workspace, host).0;
            Absent(roots, after, workspace.workspaceId) && workspace.runId !in after.runIndex
  {
    ExecutionKeepsApart(roots, Started(entries), ops);
    assert !BothOccupied(roots, Reached(roots, entries, ops), workspace.workspaceId);
    FaultFreeReleaseExact(roots, entries, ops, workspace, host);
  }

  lemma FailedReleaseStep(roots: Roots, t: Table, workspace: WorkspaceIdentity, host: Host)
    requires Sound(roots, t) && workspace.workspaceId in t.records && !BothOccupied(roots, t, workspace.workspaceId)
    ensures var (after, answer) := ReleaseStep(roots, t, workspace, host);
            answer == Err(StorageFailure) ==>
              && after.records == t.records && after.runIndex == t.runIndex
              && !BothOccupied(roots, after, workspace.workspaceId)
              && KeepsWhatIsLeft(roots, t, after, workspace.workspaceId, host)
  {
    PathsAreApart(roots.root, workspace.workspaceId, workspace.workspaceId);
  }

  /**
   A directory that could not be moved stays; one that was moved is where it was or in
   quarantine, as the host left it.
   */
  ghost predicate KeepsWhatIsLeft(roots: Roots, t: Table, after: Table, id: WorkspaceId, host: Host) {
    var home, quarantine := Home(roots.root, id), Quarantine(roots.root, id);
    home in t.entries ==>
      && (Rename in host.faults ==> after.entries == t.entries)
      && (t.entries[home].Directory? && home !in after.entries ==> host.remains == At(after.entries, quarantine))
  }

  /**
   After any run of operations, a release that fails in storage keeps its record, and what is
   left is in one place only.
   */
  lemma FailedReleaseKeepsOneCopy(roots: Roots, entries: Entries, ops: seq<Op>, workspace: WorkspaceIdentity,
      host: Host)
    requires IsStart(roots, entries) && (forall op <- ops :: !op.Interfere?)
    requires workspace.workspaceId in Reached(roots, entries, ops).records
    requires ReleaseStep(roots, Reached(roots, entries, ops), workspace, host).1 == Err(StorageFailure)
    ensures var t := Reached(roots, entries, ops);
            var after := ReleaseStep(roots, t, workspace, host).0;
            && after.records == t.records && after.runIndex == t.runIndex
            && NeverBoth(roots, after) && KeepsWhatIsLeft(roots, t, after, workspace.workspaceId, host)
  {
    var t := Reached(roots, entries, ops);
    ExecutionKeepsApart(roots, Started(entries), ops);
    assert !BothOccupied(roots, t, workspace.workspaceId);
    FailedReleaseStep(roots, t, workspace, host);
    StepKeepsApart(roots, t, Release(workspace, host));
  }

  // ---------------------------------------------------- preparing, loading, releasing

  lemma RejectedPrepareStep(roots: Roots, t: Table, identity: RunIdentity, id: WorkspaceId, host: Host)
    requires PrepareStep(roots, t, identity, id, host).1.Err?
    ensures var after := PrepareStep(roots, t, identity, id, host).0;
            && after.records == t.records && after.runIndex == t.runIndex
            && (RemoveTree !in host.faults && Unlink !in host.faults ==> after == t)
  {
  }

  /** A rejected preparation whose clean-up works leaves no trace: the run goes on as if it had never been tried. */
  lemma RejectedPreparationsErase(
    roots: Roots, entries: Entries, before: seq<Op>, identity: RunIdentity, id: WorkspaceId, host: Host, later: seq<Op>)
    requires RemoveTree !in host.faults && Unlink !in host.faults
    requires PrepareStep(roots, Reached(roots, entries, before), identity, id, host).1.Err?
    ensures Reached(roots, entries, before + [Prepare(identity, id, host)] + later) ==
        Reached(roots, entries, before + later)
  {
    var t, op := Reached(roots, entries, before), Prepare(identity, id, host);
    RejectedPrepareStep(roots, t, identity, id, host);
    ExecuteOne(roots, t, op);
    ExecuteAppend(roots, Started(entries), before, [op]);
    ExecuteAppend(roots, Started(entries), before + [op], later);
    ExecuteAppend(roots, Started(entries), before, later);
  }

  /**
   A successful preparation followed by a fault-free release restores every table
   and every entry, exactly unless the quarantine path was occupied before: an entry
   left there by an earlier process blocks the release.
   */
  lemma PrepareThenReleaseExact(roots: Roots, t: Table, identity: RunIdentity, id: WorkspaceId, host: Host, later: Host)
    requires Sound(roots, t) && later.faults == map[] && PrepareStep(roots, t, identity, id, host).1.Ok?
    ensures var (after, answer) := PrepareStep(roots, t, identity, id, host);
            if Quarantine(roots.root, id) in t.entries
            then ReleaseStep(roots, after, answer.value, later) == (after, Err(StorageFailure))
            else ReleaseStep(roots, after, answer.value, later) == (t, Ok(()))
  {
    PathsAreApart(roots.root, id, id);
    var after := PrepareStep(roots, t, identity, id, host).0;
    var home, quarantine := Home(roots.root, id), Quarantine(roots.root, id);
    if quarantine in t.entries {
      assert Put(Put(after.entries, home, At(after.entries, home)), quarantine, At(after.entries, quarantine)) ==
          after.entries;
    } else {
      assert Put(Put(after.entries, home, None), quarantine, None) == t.entries;
      assert after.records - {id} == t.records;
      assert after.runIndex - {identity.runId} == t.runIndex;
    }
  }

  ghost predicate IsIntact(roots: Roots, t: Table, id: WorkspaceId)
    requires id in t.records
  {
    var home := Home(roots.root, id);
    && home in t.entries && t.entries[home].Directory?
    && t.entries[home].content.linksStayInside
    && t.entries[home].content.config == Some(t.records[id].configDigest)
  }

  predicate InspectionWorks(host: Host) {
    ResolveRoot !in host.faults && InspectLinks !in host.faults && ReadConfig !in host.faults
        && VerifyBaseline !in host.faults
  }

  lemma LoadStepExact(roots: Roots, t: Table, id: WorkspaceId, host: Host)
    requires Sound(roots, t) && id in t.records
    ensures LoadStep(t, id, host).Ok? <==> IsIntact(roots, t, id) && InspectionWorks(host)
    ensures LoadStep(t, id, host).Ok? ==> LoadStep(t, id, host).value == Some(t.records[id].identity)
  {
  }

  /**
   After any run with any interference, loading a recorded handle answers its identity
   exactly when no step of the inspection fails and the directory still has its links
   inside and the configuration that was recorded; otherwise it is an error.
   */
  lemma LoadExact(roots: Roots, entries: Entries, ops: seq<Op>, id: WorkspaceId, host: Host)
    requires Disjoint(roots) && id in Reached(roots, entries, ops).records
    ensures var t := Reached(roots, entries, ops);
            if IsIntact(roots, t, id) && InspectionWorks(host)
                then LoadStep(t, id, host) == Ok(Some(t.records[id].identity))
            else LoadStep(t, id, host).Err?
  {
    ExecutionKeepsSound(roots, Started(entries), ops);
    LoadStepExact(roots, Reached(roots, entries, ops), id, host);
  }

  lemma {:induction false} LoadableStaysLoadable(roots: Roots, t: Table, id: WorkspaceId,
      workspace: WorkspaceIdentity, ops: seq<Op>, host: Host)
    requires Sound(roots, t) && LoadStep(t, id, host) == Ok(Some(workspace))
    requires forall op <- ops :: !op.Interfere? && HandleOf(op) != id
    ensures LoadStep(Execute(roots, t, ops), id, host) == Ok(Some(workspace))
    decreases |ops|
  {
    if ops != [] {
      OtherHandlesAreUnaffected(roots, t, ops[0], id, host);
      StepKeepsSound(roots, t, ops[0]);
      LoadableStaysLoadable(roots, Step(roots, t, ops[0]), id, workspace, ops[1..], host);
    }
  }

  /** What has been prepared can be loaded when nothing fails, after any operations on other handles. */
  lemma PreparedWorkspaceLoads(roots: Roots, t: Table, identity: RunIdentity, id: WorkspaceId, host: Host,
      ops: seq<Op>, later: Host)
    requires Sound(roots, t) && later.faults == map[] && PrepareStep(roots, t, identity, id, host).1.Ok?
    requires forall op <- ops :: !op.Interfere? && HandleOf(op) != id
    ensures var (after, answer) := PrepareStep(roots, t, identity, id, host);
            LoadStep(Execute(roots, after, ops), id, later) == Ok(Some(answer.value))
  {
    var (after, answer) := PrepareStep(roots, t, identity, id, host);
    PrepareKeepsValid(roots, t, identity, id, host);
    PreparedLoadsAtOnce(roots, t, identity, id, host, later);
    LoadableStaysLoadable(roots, after, id, answer.value, ops, later);
  }

  lemma PreparedLoadsAtOnce(roots: Roots, t: Table, identity: RunIdentity, id: WorkspaceId, host: Host, later: Host)
    requires Sound(roots, t) && later.faults == map[]
    ensures var (after, answer) := PrepareStep(roots, t, identity, id, host);
            answer.Ok? ==> LoadStep(after, id, later) == Ok(Some(answer.value))
  {
  }

  // ----------------------------------------------------- two ways to get stuck

  const ROOTS := Roots(["srv", "workspaces"], [["srv", "source"]])
  const BASELINE := Content({".git"}, Some(0), true)
  const CALM := Host(map[], BASELINE, None, None)

  /**
   A concrete start: an earlier process left an entry in quarantine, and the handle that is
   prepared over it cannot be released.
   */
  lemma LeftoverQuarantineBlocksRelease()
    ensures Disjoint(ROOTS)
    ensures var entries := map[Quarantine(ROOTS.root, "w") := Directory(BASELINE)];
            var (t, prepared) := PrepareStep(ROOTS, Started(entries), SampleIdentity(2026), "w", CALM);
            && prepared.Ok?
            && ReleaseStep(ROOTS, t, prepared.value, CALM) == (t, Err(StorageFailure)) && "w" in t.records
  {
    RootsAreDisjoint();
    PathsAreApart(ROOTS.root, "w", "w");
    var entries := map[Quarantine(ROOTS.root, "w") := Directory(BASELINE)];
    assert PrepareStep(ROOTS, Started(entries), SampleIdentity(2026), "w", CALM).1.Ok?;
    PrepareThenReleaseExact(ROOTS, Started(entries), SampleIdentity(2026), "w", CALM, CALM);
  }

  lemma RootsAreDisjoint()
    ensures Disjoint(ROOTS)
  {
    assert ROOTS.root[1] != ROOTS.protectedRoots[0][1];
  }

  /** A removal that fails and cannot be rolled back. */
  const STUCK := Host(map[RemoveTree := Storage, RenameBack := Storage], BASELINE, None, Some(Directory(BASELINE)))

  /**
   A concrete run: after a failed release something takes the home of the handle, and no fault-
   free release succeeds.
   */
  lemma InterferenceBlocksRelease(calm: Host)
    requires calm.faults == map[]
    ensures var identity := SampleIdentity(2026);
            var workspace := WorkspaceIdentity("w", identity.runId, identity.baselineSha);
            var taken := Interfere(Home(ROOTS.root, "w"), Some(File));
            var t := Reached(ROOTS, map[], [Prepare(identity, "w", CALM), Release(workspace, STUCK), taken]);
            && SparesQuarantines(ROOTS, taken) && BothOccupied(ROOTS, t, "w") && "w" in t.records
            && ReleaseStep(ROOTS, t, workspace, calm).1 == Err(StorageFailure)
  {
    var identity := SampleIdentity(2026);
    var workspace := WorkspaceIdentity("w", identity.runId, identity.baselineSha);
    var ops := [Prepare(identity, "w", CALM), Release(workspace, STUCK), Interfere(Home(ROOTS.root, "w"), Some(File))];
    RootsAreDisjoint();
    forall id: WorkspaceId ensures Home(ROOTS.root, "w") != Quarantine(ROOTS.root, id) {
      PathsAreApart(ROOTS.root, "w", id);
    }
    var t1 := Step(ROOTS, Started(map[]), ops[0]);
    CalmPrepare(ROOTS, Started(map[]), identity, "w");
    StuckRelease(ROOTS, t1, workspace);
    ThreeSteps(ROOTS, Started(map[]), ops);
    ExecutionKeepsSound(ROOTS, Started(map[]), ops);
    FaultFreeRelease(ROOTS, Reached(ROOTS, map[], ops), workspace, calm);
  }

  /** Nothing stands in the way of preparing a new handle for a new run. */
  lemma CalmPrepare(roots: Roots, t: Table, identity: RunIdentity, id: WorkspaceId)
    requires identity.runId !in t.runIndex && id !in t.records && Home(roots.root, id) !in t.entries
    ensures var workspace := WorkspaceIdentity(id, identity.runId, identity.baselineSha);
            PrepareStep(roots, t, identity, id, CALM) == (Published(roots, t, workspace, BASELINE, 0), Ok(workspace))
  {
  }

  /** A removal that fails and is not rolled back leaves the directory in quarantine, and the record. */
  lemma StuckRelease(roots: Roots, t: Table, workspace: WorkspaceIdentity)
    requires workspace.workspaceId in t.records && t.records[workspace.workspaceId].identity == workspace
    requires At(t.entries, Home(roots.root, workspace.workspaceId)) == Some(Directory(BASELINE))
    requires Quarantine(roots.root, workspace.workspaceId) !in t.entries
    ensures var (after, answer) := ReleaseStep(roots, t, workspace, STUCK);
            && answer == Err(StorageFailure) && after.records == t.records
            && Quarantine(roots.root, workspace.workspaceId) in after.entries
  {
    PathsAreApart(roots.root, workspace.workspaceId, workspace.workspaceId);
  }

  lemma ThreeSteps(roots: Roots, t: Table, ops: seq<Op>)
    requires |ops| == 3
    ensures Execute(roots, t, ops) == Step(roots, Step(roots, Step(roots, t, ops[0]), ops[1]), ops[2])
  {
    ExecuteAppend(roots, t, ops[..1], ops[1..]);
    ExecuteAppend(roots, Execute(roots, t, ops[..1]), ops[1..2], ops[2..]);
    assert ops == ops[..1] + ops[1..] && ops[1..] == ops[1..2] + ops[2..];
    assert ops[..1] == [ops[0]] && ops[1..2] == [ops[1]] && ops[2..] == [ops[2]];
    ExecuteOne(roots, t, ops[0]);
    ExecuteOne(roots, Step(roots, t, ops[0]), ops[1]);
    ExecuteOne(roots, Step(roots, Step(roots, t, ops[0]), ops[1]), ops[2]);
  }

  // ------------------------------------------------------------------ answers

  /**
   A run gets a workspace exactly when nothing is in its way, every step works, and the clone
   passes every inspection.
   */
  lemma PreparedExact(roots: Roots, t: Table, identity: RunIdentity, id: WorkspaceId, host: Host)
    ensures PrepareStep(roots, t, identity, id, host).1.Ok? <==>
              && identity.runId !in t.runIndex && id !in t.records && roots.root + [id] !in t.entries
              && ResolveRoot !in host.faults && Materialize !in host.faults && InspectLinks !in host.faults
              && ReadConfig !in host.faults && VerifyBaseline !in host.faults
              && host.baseline.linksStayInside && host.baseline.config.Some?
    ensures PrepareStep(roots, t, identity, id, host).1.Ok? ==>
              PrepareStep(roots, t, identity, id, host).1.value
              == WorkspaceIdentity(id, identity.runId, identity.baselineSha)
  {
  }

  /**
   A Git failure is a breach of isolation when the configuration, a path or the baseline is not
   as it must be, and a storage failure otherwise.
   */
  lemma GitFailuresAnswer(roots: Roots, t: Table, identity: RunIdentity, id: WorkspaceId, host: Host,
      cause: GitErrorCause)
    requires identity.runId !in t.runIndex && id !in t.records && roots.root + [id] !in t.entries
    requires ResolveRoot !in host.faults && Materialize in host.faults && host.faults[Materialize] == Git(cause)
    ensures PrepareStep(roots, t, identity, id, host).1 ==
            match cause
            case InvalidConfiguration => Err(IsolationFailure)
            case InvalidPath => Err(IsolationFailure)
            case DestinationExists => Err(IsolationFailure)
            case BaselineMismatch => Err(IsolationFailure)
            case Timeout => Err(StorageFailure)
            case OutputLimitExceeded => Err(StorageFailure)
            case CommandFailed => Err(StorageFailure)
  {
  }

  /**
   A host that fails to resolve the root, or finds another directory there, stops every operation
   with that answer.
   */
  lemma RootFailuresAnswer(roots: Roots, t: Table, identity: RunIdentity, id: WorkspaceId, host: Host)
    requires ResolveRoot in host.faults && !host.faults[ResolveRoot].Git?
    ensures var cause := if host.faults[ResolveRoot] == Isolation then IsolationFailure else StorageFailure;
            && PrepareStep(roots, t, identity, id, host) == (t, Err(cause))
            && (id in t.records ==> LoadStep(t, id, host) == Err(cause))
            && (id in t.records && t.records[id].identity.workspaceId == id ==>
                  ReleaseStep(roots, t, t.records[id].identity, host) == (t, Err(cause)))
  {
  }

  /**
   Releasing what is no longer a directory removes it and reports the replacement; a directory is
   removed in silence.
   */
  lemma ReplacedEntriesAreReported(roots: Roots, t: Table, workspace: WorkspaceIdentity, host: Host)
    requires Sound(roots, t) && host.faults == map[]
    requires workspace.workspaceId in t.records && t.records[workspace.workspaceId].identity == workspace
    requires Quarantine(roots.root, workspace.workspaceId) !in t.entries
    ensures ReleaseStep(roots, t, workspace, host).1 ==
            match At(t.entries, roots.root + [workspace.workspaceId])
            case None => Ok(())
            case Some(Directory(_)) => Ok(())
            case Some(_) => Err(IsolationFailure)
    ensures Absent(roots, ReleaseStep(roots, t, workspace, host).0, workspace.workspaceId)
  {
    PathsAreApart(roots.root, workspace.workspaceId, workspace.workspaceId);
  }

  /** The paths of one handle. */
  lemma PathsOfAHandle()
    ensures Home(["srv"], "w") == ["srv", "w"] && Quarantine(["srv"], "w") == ["srv", ".release-w"]
  {
    assert RELEASE_PREFIX + "w" == ".release-w";
  }
}
