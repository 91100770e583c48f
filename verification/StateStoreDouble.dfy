/**
 The durable store against the in-memory reference store of the port's contract
 tests, and the exact conditions under which what it accepts can be read back.
 */
module StateStoreDouble {
  import opened Results
  import opened Timestamp
  import opened Identity
  import opened Lifecycle
  import opened State
  import opened StateStore
  import opened StateStoreRuns
  import opened StateStoreTheorems

  // ------------------------------------------------- when a run can be read back

  lemma ExtendedHealth(h: RunHistory, u: StateUpdate)
    requires Current(h) == u.expected && Healthy(h)
    ensures Healthy(Extended(h, u)) <==> Permitted(u.advance.transition)
  {
    ExtendedFields(h, u);
    AllPermittedAppend(h.events, u.advance.transition);
  }

  /** What an accepted update leaves in the abstract store, and whether that can be read back. */
  lemma AcceptedHealth(r: Run, k: nat, run: RunId)
    requires IsRun(r) && k < |r.calls| && AcceptedOn(r, k, run)
    ensures run in r.specs[k + 1] && Current(r.specs[k + 1][run]) == NextCheckpoint(r.calls[k].op.update)
    ensures Healthy(r.specs[k + 1][run]) <==> Permitted(r.calls[k].op.update.advance.transition)
  {
    EveryCallIsAtomic(r, k);
    AcceptedAdvances(r, k, run);
    OnlyHealthyRunsAccept(r.specs[k], r.calls[k].op);
    AppendEffect(r.specs[k], r.calls[k].op, run);
    ExtendedHealth(r.specs[k][run], r.calls[k].op.update);
  }

  /**
   `compare_and_append` accepts any update that its constructor accepts, but the run
   can be read back directly afterwards exactly when the transition table allows the
   update; otherwise the read reports corruption.
   */
  lemma AppendedRunLoadsIffPermitted(r: Run, k: nat, run: RunId)
    requires IsRun(r) && k < |r.calls| && AcceptedOn(r, k, run)
    ensures var db, u := r.dbs[k + 1], r.calls[k].op.update;
            LoadStep(db, run, {}) ==
            if Permitted(u.advance.transition) then Ok(Some(NextCheckpoint(u))) else Err(Corrupt)
  {
    AcceptedHealth(r, k, run);
    TablesRepresentSpec(r, k + 1);
    LoadOfSpec(r.dbs[k + 1], r.specs[k + 1], run);
  }

  lemma OnlyHealthyRunsAccept(a: Spec, op: Op)
    requires SpecStep(a, op).1.Accepted?
    ensures op.Append? && op.update.expected.identity.runId in a && Healthy(a[op.update.expected.identity.runId])
  {
  }

  lemma LoadOfSpec(db: Rows, a: Spec, run: RunId)
    requires Represents(db, a)
    ensures LoadStep(db, run, {}) == LoadFrom(SpecValidate(a, run))
  {
    ValidateRepresented(db, a, run);
  }

  lemma InitializeEffect(a: Spec, c: RunCheckpoint)
    requires SpecStep(a, Initialize(c)).1.Initialized?
    ensures c == CreateInitialCheckpoint(c.identity)
    ensures SpecStep(a, Initialize(c)).0 == a[c.identity.runId := HistoryFields(c.identity, [])]
  {
  }

  lemma FreshHealth(identity: RunIdentity)
    ensures Fold(identity, []) == Some(CreateInitialCheckpoint(identity))
    ensures Healthy(HistoryFields(identity, [])) <==> YearSurvives(identity.createdAt)
  {
    assert AllPermitted([]);
  }

  /** An initialized run can be read back exactly when its creation year prints with four digits. */
  lemma InitializedRunLoadsIffYearSurvives(r: Run, k: nat)
    requires IsRun(r) && k < |r.calls| && r.replies[k].Initialized? && r.calls[k].op.Initialize?
    ensures var c := r.calls[k].op.checkpoint;
            LoadStep(r.dbs[k + 1], c.identity.runId, {}) ==
            if YearSurvives(c.identity.createdAt) then Ok(Some(c)) else Err(Corrupt)
  {
    var c := r.calls[k].op.checkpoint;
    EveryCallIsAtomic(r, k);
    InitializeEffect(r.specs[k], c);
    FreshHealth(c.identity);
    TablesRepresentSpec(r, k + 1);
    LoadOfSpec(r.dbs[k + 1], r.specs[k + 1], c.identity.runId);
  }

  /** Once a run cannot be read back it never can be again, whatever is called: every later read reports corruption. */
  lemma UnhealthyForever(r: Run, i: nat, j: nat, run: RunId)
    requires IsRun(r) && i <= j <= |r.calls| && run in r.specs[i] && !Healthy(r.specs[i][run])
    ensures LoadStep(r.dbs[j], run, {}) == Err(Corrupt) && HistoryStep(r.dbs[j], run, {}) == Err(Corrupt)
  {
    HistoriesOnlyGrow(r, i, j, run);
    TablesRepresentSpec(r, j);
    StaysUnhealthy(r.specs[i][run], r.specs[j][run]);
    ValidateRepresented(r.dbs[j], r.specs[j], run);
  }

  lemma StaysUnhealthy(h: RunHistory, h': RunHistory)
    requires h'.identity == h.identity && h.events <= h'.events && !Healthy(h)
    ensures !Healthy(h')
  {
    if AllPermitted(h'.events) {
      forall e | e in h.events ensures e in h'.events {
        var k :| 0 <= k < |h.events| && h.events[k] == e;
        assert h'.events[k] == e;
      }
    }
  }

  /** After an accepted update that the table does not allow, every later read of the run reports corruption. */
  lemma SkippedUpdateCorruptsForever(r: Run, k: nat, j: nat, run: RunId)
    requires IsRun(r) && k < j <= |r.calls| && AcceptedOn(r, k, run)
    requires !Permitted(r.calls[k].op.update.advance.transition)
    ensures LoadStep(r.dbs[j], run, {}) == Err(Corrupt) && HistoryStep(r.dbs[j], run, {}) == Err(Corrupt)
  {
    AcceptedHealth(r, k, run);
    UnhealthyForever(r, k + 1, j, run);
  }

  /** A run that is initialized in a year that prints short can never be read. */
  lemma ShortYearCorruptsForever(r: Run, k: nat, j: nat)
    requires IsRun(r) && k < j <= |r.calls| && r.replies[k].Initialized? && r.calls[k].op.Initialize?
    requires !YearSurvives(r.calls[k].op.checkpoint.identity.createdAt)
    ensures var run := r.calls[k].op.checkpoint.identity.runId;
            LoadStep(r.dbs[j], run, {}) == Err(Corrupt) && HistoryStep(r.dbs[j], run, {}) == Err(Corrupt)
  {
    var c := r.calls[k].op.checkpoint;
    EveryCallIsAtomic(r, k);
    InitializeEffect(r.specs[k], c);
    FreshHealth(c.identity);
    UnhealthyForever(r, k + 1, j, c.identity.runId);
  }

  /** From contract binding straight to verifying, which the table does not allow. */
  ghost function SkippingUpdate(): (u: StateUpdate)
    ensures u.expected == CreateInitialCheckpoint(SampleIdentity(2026)) && !Permitted(u.advance.transition)
  {
    var c := CreateInitialCheckpoint(SampleIdentity(2026));
    var t := c.lifecycle.updatedAt;
    UpdateFields(c, LifecycleAdvance(
                      LifecycleFields("run", Verifying, 1, t, None),
                      TransitionFields("run", 1, ContractBound, Verifying, t, "actor", None)))
  }

  lemma FirstInitializeSucceeds(r: Run, identity: RunIdentity)
    requires IsRun(r) && r.calls != [] && r.calls[0] == Call(Initialize(CreateInitialCheckpoint(identity)), {})
    ensures r.replies[0] == Initialized
    ensures r.specs[1] == map[identity.runId := HistoryFields(identity, [])]
  {
    EveryCallIsAtomic(r, 0);
  }

  /** Concrete histories: the store accepts a skipping update, and from then on no read of the run succeeds. */
  lemma SkippingUpdateIsAcceptedAndCorrupts(r: Run, j: nat)
    requires IsRun(r) && 2 <= j <= |r.calls|
    requires r.calls[0] == Call(Initialize(SkippingUpdate().expected), {})
        && r.calls[1] == Call(Append(SkippingUpdate()), {})
    ensures r.replies[1].Accepted?
    ensures LoadStep(r.dbs[j], "run", {}) == Err(Corrupt) && HistoryStep(r.dbs[j], "run", {}) == Err(Corrupt)
  {
    var u := SkippingUpdate();
    FirstInitializeSucceeds(r, u.expected.identity);
    FreshHealth(u.expected.identity);
    EveryCallIsAtomic(r, 1);
    SkippedUpdateCorruptsForever(r, 1, j, "run");
  }

  /** Concrete histories: a run of the year 999 is initialized, and without padded years it can never be loaded. */
  lemma EarlyRunIsInitializedAndCorrupt(r: Run, j: nat)
    requires IsRun(r) && 1 <= j <= |r.calls|
    requires r.calls[0] == Call(Initialize(CreateInitialCheckpoint(SampleIdentity(999))), {})
    ensures r.replies[0] == Initialized
    ensures LoadStep(r.dbs[1], "run", {}) ==
            if PADS_YEARS then Ok(Some(CreateInitialCheckpoint(SampleIdentity(999)))) else Err(Corrupt)
    ensures !PADS_YEARS ==> LoadStep(r.dbs[j], "run", {}) == Err(Corrupt)
  {
    FirstInitializeSucceeds(r, SampleIdentity(999));
    InitializedRunLoadsIffYearSurvives(r, 0);
    if !PADS_YEARS {
      ShortYearCorruptsForever(r, 0, j);
    }
  }

  // -------------------------------------------------------- the in-memory store

  datatype Memory = Memory(current: map<RunId, RunCheckpoint>, history: map<RunId, seq<LifecycleTransition>>)

  /** The reference store keeps checkpoints and events as they are given, and validates nothing on a read. */
  function MemoryStep(m: Memory, op: Op): (Memory, Reply)
    requires m.current.Keys == m.history.Keys
  {
    match op
    case Initialize(c) =>
      var run := c.identity.runId;
      if run in m.current then (m, Failed(AlreadyExists))
      else if c != CreateInitialCheckpoint(c.identity) then (m, Failed(Conflict))
      else (Memory(m.current[run := c], m.history[run := []]), Initialized)
    case Load(run) => (m, Loaded(if run in m.current then Some(m.current[run]) else None))
    case Append(u) =>
      var run := u.expected.identity.runId;
      if run !in m.current then (m, Failed(NotFound))
      else if m.current[run] != u.expected then (m, Failed(Conflict))
      else
        (Memory(m.current[run := NextCheckpoint(u)], m.history[run := m.history[run] + [u.advance.transition]]),
         Accepted(NextCheckpoint(u)))
    case History(run) => (m, if run in m.history then Listed(m.history[run]) else Failed(NotFound))
  }

  /** Callers prepare their updates, and start runs in years that print with four digits. */
  predicate Prepared(op: Op) {
    match op
    case Initialize(c) => YearSurvives(c.identity.createdAt)
    case Append(u) => Permitted(u.advance.transition)
    case _ => true
  }

  ghost predicate Mirrors(a: Spec, m: Memory) {
    && a.Keys == m.current.Keys == m.history.Keys
    && forall run | run in a :: Mirrored(a[run], m.current[run], m.history[run])
  }

  ghost predicate Mirrored(h: RunHistory, current: RunCheckpoint, events: seq<LifecycleTransition>) {
    Healthy(h) && Current(h) == current && h.events == events
  }

  /** Both refuse, or both give the same answer; only which of two refusals of `initialize` is reported may differ. */
  predicate SameAnswer(op: Op, r: Reply, r': Reply) {
    r == r' || (op.Initialize? && r.Failed? && r'.Failed?)
  }

  lemma UpdateMirrors(a: Spec, m: Memory, run: RunId, h: RunHistory, current: RunCheckpoint,
      events: seq<LifecycleTransition>)
    requires Mirrors(a, m) && Mirrored(h, current, events)
    ensures Mirrors(a[run := h], Memory(m.current[run := current], m.history[run := events]))
  {
  }

  lemma InitializeMirrors(a: Spec, m: Memory, c: RunCheckpoint)
    requires Mirrors(a, m) && Prepared(Initialize(c))
    ensures Mirrors(SpecStep(a, Initialize(c)).0, MemoryStep(m, Initialize(c)).0)
    ensures SameAnswer(Initialize(c), SpecStep(a, Initialize(c)).1, MemoryStep(m, Initialize(c)).1)
  {
    if c == CreateInitialCheckpoint(c.identity) && c.identity.runId !in a {
      FreshHealth(c.identity);
      UpdateMirrors(a, m, c.identity.runId, HistoryFields(c.identity, []), c, []);
    }
  }

  lemma ReadsMirror(a: Spec, m: Memory, run: RunId)
    requires Mirrors(a, m)
    ensures SpecStep(a, Load(run)) == (a, MemoryStep(m, Load(run)).1) && MemoryStep(m, Load(run)).0 == m
    ensures SpecStep(a, History(run)) == (a, MemoryStep(m, History(run)).1) && MemoryStep(m, History(run)).0 == m
  {
    if run in a {
      assert Mirrored(a[run], m.current[run], m.history[run]);
    }
  }

  lemma AppendMirrors(a: Spec, m: Memory, u: StateUpdate)
    requires Mirrors(a, m) && Prepared(Append(u))
    ensures Mirrors(SpecStep(a, Append(u)).0, MemoryStep(m, Append(u)).0)
    ensures SpecStep(a, Append(u)).1 == MemoryStep(m, Append(u)).1
  {
    var run := u.expected.identity.runId;
    if run in a {
      assert Mirrored(a[run], m.current[run], m.history[run]);
      if Current(a[run]) == u.expected {
        ExtendedHealth(a[run], u);
        ExtendedFields(a[run], u);
        UpdateMirrors(a, m, run, Extended(a[run], u), NextCheckpoint(u), m.history[run] + [u.advance.transition]);
      }
    }
  }

  lemma StepMirrors(a: Spec, m: Memory, op: Op)
    requires Mirrors(a, m) && Prepared(op)
    ensures Mirrors(SpecStep(a, op).0, MemoryStep(m, op).0)
    ensures SameAnswer(op, SpecStep(a, op).1, MemoryStep(m, op).1)
  {
    match op
    case Initialize(c) => InitializeMirrors(a, m, c);
    case Load(run) => ReadsMirror(a, m, run);
    case Append(u) => AppendMirrors(a, m, u);
    case History(run) => ReadsMirror(a, m, run);
  }

  /** The reference store, given the calls that did not fail in storage. */
  ghost function MemoryAt(r: Run, k: nat): (m: Memory)
    requires IsRun(r) && k <= |r.calls|
    ensures m.current.Keys == m.history.Keys
  {
    if k == 0 then Memory(map[], map[]) else MemoryAfter(MemoryAt(r, k - 1), r.calls[k - 1].op, r.replies[k - 1])
  }

  ghost function MemoryAfter(m: Memory, op: Op, reply: Reply): (m': Memory)
    requires m.current.Keys == m.history.Keys
    ensures m'.current.Keys == m'.history.Keys
  {
    if reply == Failed(StorageFailure) then m else MemoryStep(m, op).0
  }

  ghost predicate AllPrepared(r: Run) {
    forall call | call in r.calls :: Prepared(call.op)
  }

  lemma AtomicMirrors(before: Spec, call: Call, reply: Reply, after: Spec, m: Memory)
    requires Mirrors(before, m) && Prepared(call.op) && Atomic(before, call, reply, after)
    ensures Mirrors(after, MemoryAfter(m, call.op, reply))
  {
    SpecNeverFailsInStorage(before, call.op);
    StepMirrors(before, m, call.op);
  }

  lemma MemoryMirrorsNext(r: Run, k: nat, m: Memory)
    requires IsRun(r) && k < |r.calls| && AllPrepared(r) && Mirrors(r.specs[k], m)
    ensures Mirrors(r.specs[k + 1], MemoryAfter(m, r.calls[k].op, r.replies[k]))
  {
    EveryCallIsAtomic(r, k);
    assert r.calls[k] in r.calls;
    AtomicMirrors(r.specs[k], r.calls[k], r.replies[k], r.specs[k + 1], m);
  }

  ghost predicate KeepsMirroring(a: Spec, m: Memory, a': Spec, m': Memory) {
    Mirrors(a, m) ==> Mirrors(a', m')
  }

  lemma {:induction false} MirrorsAlong(specs: seq<Spec>, memories: seq<Memory>, n: nat)
    requires n < |specs| == |memories| && Mirrors(specs[0], memories[0])
    requires forall i | 0 <= i < n :: KeepsMirroring(specs[i], memories[i], specs[i + 1], memories[i + 1])
    ensures Mirrors(specs[n], memories[n])
  {
    if n > 0 {
      MirrorsAlong(specs, memories, n - 1);
      assert KeepsMirroring(specs[n - 1], memories[n - 1], specs[n - 1 + 1], memories[n - 1 + 1]);
    }
  }

  lemma MemoryKeepsMirroring(r: Run, k: nat, m: Memory, m': Memory)
    requires IsRun(r) && k < |r.calls| && AllPrepared(r)
    requires m.current.Keys == m.history.Keys && m' == MemoryAfter(m, r.calls[k].op, r.replies[k])
    ensures KeepsMirroring(r.specs[k], m, r.specs[k + 1], m')
  {
    if Mirrors(r.specs[k], m) {
      MemoryMirrorsNext(r, k, m);
    }
  }

  ghost function Memories(r: Run): seq<Memory>
    requires IsRun(r)
  {
    seq(|r.calls| + 1, k requires 0 <= k <= |r.calls| => MemoryAt(r, k))
  }

  lemma MemoriesStart(r: Run)
    requires IsRun(r)
    ensures |Memories(r)| == |r.specs| && Mirrors(r.specs[0], Memories(r)[0])
  {
  }

  lemma MemoryFollows(r: Run, i: nat, m: Memory, m': Memory)
    requires IsRun(r) && i < |r.calls| && m == MemoryAt(r, i) && m' == MemoryAt(r, i + 1)
    ensures m.current.Keys == m.history.Keys && m' == MemoryAfter(m, r.calls[i].op, r.replies[i])
  {
  }

  lemma MemoriesFollow(r: Run, i: nat)
    requires IsRun(r) && i < |r.calls|
    ensures Memories(r)[i].current.Keys == Memories(r)[i].history.Keys
    ensures Memories(r)[i + 1] == MemoryAfter(Memories(r)[i], r.calls[i].op, r.replies[i])
  {
    MemoryFollows(r, i, Memories(r)[i], Memories(r)[i + 1]);
  }

  lemma MemoriesMirror(r: Run, ms: seq<Memory>, k: nat)
    requires IsRun(r) && k <= |r.calls| && AllPrepared(r) && ms == Memories(r)
    ensures |ms| == |r.specs| && Mirrors(r.specs[k], ms[k])
  {
    MemoriesStart(r);
    forall i | 0 <= i < k ensures KeepsMirroring(r.specs[i], ms[i], r.specs[i + 1], ms[i + 1]) {
      MemoriesFollow(r, i);
      MemoryKeepsMirroring(r, i, ms[i], ms[i + 1]);
    }
    MirrorsAlong(r.specs, ms, k);
  }

  lemma MemoryMirrorsStore(r: Run, k: nat)
    requires IsRun(r) && k <= |r.calls| && AllPrepared(r)
    ensures Mirrors(r.specs[k], MemoryAt(r, k))
  {
    MemoriesMirror(r, Memories(r), k);
  }

  /**
   The refinement: for every sequence of prepared calls, with any statements
   failing, each answer is the reference store's or a storage failure that changed
   nothing, and a run is never reported corrupt.
   */
  lemma StoreRefinesReference(r: Run, k: nat)
    requires IsRun(r) && k < |r.calls| && AllPrepared(r)
    ensures || SameAnswer(r.calls[k].op, r.replies[k], MemoryStep(MemoryAt(r, k), r.calls[k].op).1)
            || (r.replies[k] == Failed(StorageFailure) && r.calls[k].faults != {} && r.dbs[k + 1] == r.dbs[k])
    ensures r.replies[k] != Failed(Corrupt)
  {
    MemoryMirrorsStore(r, k);
    EveryCallIsAtomic(r, k);
    assert r.calls[k] in r.calls;
    StepMirrors(r.specs[k], MemoryAt(r, k), r.calls[k].op);
    NeverCorrupt(r.specs[k], MemoryAt(r, k), r.calls[k].op);
  }

  lemma NeverCorrupt(a: Spec, m: Memory, op: Op)
    requires Mirrors(a, m)
    ensures SpecStep(a, op).1 != Failed(Corrupt)
  {
    match op
    case Initialize(c) =>
    case Load(run) => ReadsAreNotCorrupt(a, m, run);
    case Append(u) => AppendIsNotCorrupt(a, m, u);
    case History(run) => ReadsAreNotCorrupt(a, m, run);
  }

  lemma MirroredIsHealthy(a: Spec, m: Memory, run: RunId)
    requires Mirrors(a, m) && run in a
    ensures Healthy(a[run])
  {
    assert Mirrored(a[run], m.current[run], m.history[run]);
  }

  lemma ReadsAreNotCorrupt(a: Spec, m: Memory, run: RunId)
    requires Mirrors(a, m)
    ensures SpecLoad(a, run) != Failed(Corrupt) && SpecHistory(a, run) != Failed(Corrupt)
  {
    if run in a {
      MirroredIsHealthy(a, m, run);
    }
  }

  lemma AppendIsNotCorrupt(a: Spec, m: Memory, u: StateUpdate)
    requires Mirrors(a, m)
    ensures SpecAppend(a, u).1 != Failed(Corrupt)
  {
    if u.expected.identity.runId in a {
      MirroredIsHealthy(a, m, u.expected.identity.runId);
    }
  }
}
