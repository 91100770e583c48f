/**
 What holds over whole runs of the state store: it simulates a map from run ids to
 event lists, whatever statement fails; interleaved readers are never misled; and
 one expected checkpoint is consumed once.
 */
module StateStoreRuns {
  import opened Results
  import opened Utf8
  import opened Timestamp
  import opened Identity
  import opened Lifecycle
  import opened State
  import opened StateSerialization
  import opened StateStore

  // ------------------------------------------------------- the abstract store

  datatype HistoryFields = HistoryFields(identity: RunIdentity, events: seq<LifecycleTransition>)

  /** One run: its identity and the chain of accepted events. */
  type RunHistory = h: HistoryFields | Fold(h.identity, h.events).Some?
    ghost witness HistoryFields(AnInitial().identity, [])

  type Spec = map<RunId, RunHistory>

  ghost function Current(h: RunHistory): RunCheckpoint {
    Fold(h.identity, h.events).value
  }

  /** The histories that can be read back: every step is permitted, and the year prints with four digits. */
  ghost predicate Healthy(h: RunHistory) {
    AllPermitted(h.events) && YearSurvives(h.identity.createdAt)
  }

  datatype Op =
    | Initialize(checkpoint: RunCheckpoint)
    | Load(run: RunId)
    | Append(update: StateUpdate)
    | History(run: RunId)

  datatype Reply =
    | Initialized
    | Loaded(current: Option<RunCheckpoint>)
    | Accepted(next: RunCheckpoint)
    | Listed(events: seq<LifecycleTransition>)
    | Failed(cause: StateStoreErrorCause)

  /** What a call means on the abstract store. */
  ghost function SpecStep(a: Spec, op: Op): (Spec, Reply) {
    match op
    case Initialize(c) => SpecInitialize(a, c)
    case Load(run) => (a, SpecLoad(a, run))
    case Append(u) => SpecAppend(a, u)
    case History(run) => (a, SpecHistory(a, run))
  }

  ghost function SpecInitialize(a: Spec, c: RunCheckpoint): (Spec, Reply) {
    if c != CreateInitialCheckpoint(c.identity) then (a, Failed(Conflict))
    else if c.identity.runId in a then (a, Failed(AlreadyExists))
    else (a[c.identity.runId := HistoryFields(c.identity, [])], Initialized)
  }

  ghost function SpecLoad(a: Spec, run: RunId): Reply {
    if run !in a then Loaded(None)
    else if !Healthy(a[run]) then Failed(Corrupt)
    else Loaded(Some(Current(a[run])))
  }

  ghost function SpecAppend(a: Spec, u: StateUpdate): (Spec, Reply) {
    var run := u.expected.identity.runId;
    if run !in a then (a, Failed(NotFound))
    else if !Healthy(a[run]) then (a, Failed(Corrupt))
    else if Current(a[run]) != u.expected then (a, Failed(Conflict))
    else (a[run := Extended(a[run], u)], Accepted(NextCheckpoint(u)))
  }

  ghost function SpecHistory(a: Spec, run: RunId): Reply {
    if run !in a then Failed(NotFound)
    else if !Healthy(a[run]) then Failed(Corrupt)
    else Listed(a[run].events)
  }

  lemma UpdateExtendsFold(h: RunHistory, u: StateUpdate)
    requires Current(h) == u.expected
    ensures Fold(h.identity, h.events + [u.advance.transition]) == Some(NextCheckpoint(u))
  {
    FoldCounts(h.identity, h.events);
    FoldAppend(h.identity, h.events, u.advance.transition);
  }

  ghost function Extended(h: RunHistory, u: StateUpdate): (h': RunHistory)
    requires Current(h) == u.expected
    ensures Current(h') == NextCheckpoint(u)
  {
    UpdateExtendsFold(h, u);
    HistoryFields(h.identity, h.events + [u.advance.transition])
  }

  /** One call on the tables, with the statements that fail if they are reached. */
  datatype Call = Call(op: Op, faults: Faults)

  ghost function Exec(db: Rows, call: Call): (Rows, Reply) {
    match call.op
    case Initialize(c) =>
      (match InitializeStep(db, c, call.faults)
       case (db', Ok(_)) => (db', Initialized)
       case (db', Err(cause)) => (db', Failed(cause)))
    case Load(run) =>
      (match LoadStep(db, run, call.faults)
       case Ok(c) => (db, Loaded(c))
       case Err(cause) => (db, Failed(cause)))
    case Append(u) =>
      (match AppendStep(db, u, call.faults)
       case (db', Ok(c)) => (db', Accepted(c))
       case (db', Err(cause)) => (db', Failed(cause)))
    case History(run) =>
      (match HistoryStep(db, run, call.faults)
       case Ok(events) => (db, Listed(events))
       case Err(cause) => (db, Failed(cause)))
  }

  ghost predicate RunRepresented(db: Rows, run: RunId, h: RunHistory) {
    run in db.runs && Encodes(db.runs[run], db.journal, run, h.identity, h.events)
  }

  ghost predicate Represents(db: Rows, a: Spec) {
    && db.runs.Keys == a.Keys
    && (forall run | run in a :: RunRepresented(db, run, a[run]))
    && (forall key | key in db.journal :: key.0 in a)
  }

  // ---------------------------------------------- reading represented rows back

  lemma OneToInjective(m: nat, n: nat)
    requires OneTo(m) == OneTo(n)
    ensures m == n
  {
    assert m > 0 ==> m in OneTo(m);
    assert n > 0 ==> n in OneTo(n);
  }

  /** Journal rows determine the events they encode. */
  lemma JournalDeterminesEvents(
    journal: Journal, run: RunId, identity: RunIdentity, events: seq<LifecycleTransition>,
        events': seq<LifecycleTransition>)
    requires Fold(identity, events).Some? && Fold(identity, events').Some? && YearSurvives(identity.createdAt)
    requires EncodesJournal(journal, run, events) && EncodesJournal(journal, run, events')
    ensures events == events'
  {
    OneToInjective(|events|, |events'|);
    forall k | 0 <= k < |events| ensures events[k] == events'[k] {
      FoldYear(identity, events, k);
      FoldYear(identity, events', k);
      var data := journal[(run, k + 1)];
      assert TransitionIn(data) == Some(events[k]);
      assert TransitionIn(data) == Some(events'[k]);
    }
  }

  /** The outcome of validating rows that encode a known history. */
  lemma ValidateEncoded(runs: Runs, journal: Journal, run: RunId, h: RunHistory)
    requires run in runs && Encodes(runs[run], journal, run, h.identity, h.events)
    ensures Validate(runs, journal, run, {}) == if Healthy(h) then Ok(Some(ValidRun(Current(h), h.events)))
        else Err(Corrupt)
  {
    FoldCounts(h.identity, h.events);
    ValidationOutcomes(runs, journal, run);
    if Healthy(h) {
      ValidationExact(runs, journal, run, ValidRun(Current(h), h.events));
    } else if Validate(runs, journal, run, {}) != Err(Corrupt) {
      var v :| Validate(runs, journal, run, {}) == Ok(Some(v));
      ValidationExact(runs, journal, run, v);
      FoldCounts(v.checkpoint.identity, v.events);
      IdentityBytesTellYear(h.identity, v.checkpoint.identity);
      JournalDeterminesEvents(journal, run, h.identity, h.events, v.events);
      assert false;
    }
  }

  ghost function SpecValidate(a: Spec, run: RunId): Validated {
    if run !in a then Ok(None)
    else if Healthy(a[run]) then Ok(Some(ValidRun(Current(a[run]), a[run].events)))
    else Err(Corrupt)
  }

  lemma ValidateRepresented(db: Rows, a: Spec, run: RunId)
    requires Represents(db, a)
    ensures Validate(db.runs, db.journal, run, {}) == SpecValidate(a, run)
  {
    if run in a {
      assert RunRepresented(db, run, a[run]);
      ValidateEncoded(db.runs, db.journal, run, a[run]);
    }
  }

  lemma FaultsOnlyAddFailures(runs: Runs, journal: Journal, run: RunId, faults: Faults)
    ensures Validate(runs, journal, run, faults) == Validate(runs, journal, run, {})
            || Validate(runs, journal, run, faults) == Err(StorageFailure)
  {
  }

  // ------------------------------------------------------------ one call at a time

  lemma NewRunEncodes(journal: Journal, c: RunCheckpoint)
    requires c == CreateInitialCheckpoint(c.identity)
    requires forall key | key in journal :: key.0 != c.identity.runId
    ensures Encodes(RunRow(IdentityBytes(c.identity), CheckpointBytes(c)), journal, c.identity.runId, c.identity, [])
  {
    var run := c.identity.runId;
    forall x ensures x in Revisions(journal, run) <==> x in OneTo(0) {
      assert (run, x).0 == run;
    }
  }

  lemma UntouchedRun(db: Rows, a: Spec, run: RunId, row: RunRow, r: RunId)
    requires Represents(db, a) && run !in a && r in a
    ensures RunRepresented(db.(runs := db.runs[run := row]), r, a[r])
  {
    assert RunRepresented(db, r, a[r]);
  }

  lemma InitializeRepresents(db: Rows, a: Spec, h: RunHistory, row: RunRow)
    requires Represents(db, a) && h.identity.runId !in a && h.events == []
    requires Encodes(row, db.journal, h.identity.runId, h.identity, h.events)
    ensures Represents(db.(runs := db.runs[h.identity.runId := row]), a[h.identity.runId := h])
  {
    var run := h.identity.runId;
    var db' := db.(runs := db.runs[run := row]);
    var a' := a[run := h];
    forall r | r in a' ensures RunRepresented(db', r, a'[r]) {
      if r == run {
        assert a'[r] == h && db'.runs[run] == row;
      } else {
        UntouchedRun(db, a, run, row, r);
        assert a'[r] == a[r];
      }
    }
  }

  lemma JournalAppend(journal: Journal, run: RunId, events: seq<LifecycleTransition>, e: LifecycleTransition)
    requires EncodesJournal(journal, run, events)
    ensures EncodesJournal(journal[(run, |events| + 1) := TransitionBytes(e)], run, events + [e])
  {
    var journal' := journal[(run, |events| + 1) := TransitionBytes(e)];
    forall x ensures x in Revisions(journal', run) <==> x in OneTo(|events| + 1) {
      assert x in Revisions(journal, run) <==> x in OneTo(|events|);
    }
    forall k | 0 <= k < |events| + 1
      ensures (run, k + 1) in journal' && journal'[(run, k + 1)] == TransitionBytes((events + [e])[k])
    {
    }
  }

  lemma OtherRunEncodes(row: RunRow, journal: Journal, run: RunId, h: RunHistory, key: (RunId, int), data: Bytes)
    requires Encodes(row, journal, run, h.identity, h.events) && key.0 != run
    ensures Encodes(row, journal[key := data], run, h.identity, h.events)
  {
    var journal' := journal[key := data];
    forall x ensures x in Revisions(journal', run) <==> x in Revisions(journal, run) {
    }
    assert Revisions(journal', run) == Revisions(journal, run);
  }

  lemma AppendEncodes(row: RunRow, journal: Journal, h: RunHistory, u: StateUpdate)
    requires Encodes(row, journal, u.expected.identity.runId, h.identity, h.events) && Current(h) == u.expected
    ensures u.advance.transition.revision == |h.events| + 1
    ensures var h' := Extended(h, u);
            Encodes(row.(checkpoint := CheckpointBytes(Current(h'))),
                    journal[(h.identity.runId, |h.events| + 1) := TransitionBytes(u.advance.transition)],
                    h.identity.runId, h'.identity, h'.events)
  {
    FoldCounts(h.identity, h.events);
    JournalAppend(journal, h.identity.runId, h.events, u.advance.transition);
  }

  lemma OtherRunRepresented(db: Rows, a: Spec, run: RunId, row: RunRow, revision: int, data: Bytes, r: RunId)
    requires Represents(db, a) && r in a && r != run
    ensures RunRepresented(Rows(db.runs[run := row], db.journal[(run, revision) := data]), r, a[r])
  {
    assert RunRepresented(db, r, a[r]);
    OtherRunEncodes(db.runs[r], db.journal, r, a[r], (run, revision), data);
  }

  /** Changing one run's row and adding one of its journal rows leaves what the other runs encode. */
  lemma ReplaceRepresents(db: Rows, a: Spec, h: RunHistory, row: RunRow, revision: int, data: Bytes)
    requires Represents(db, a) && h.identity.runId in a
    requires Encodes(row, db.journal[(h.identity.runId, revision) := data], h.identity.runId, h.identity, h.events)
    ensures Represents(Rows(db.runs[h.identity.runId := row], db.journal[(h.identity.runId, revision) := data]),
                       a[h.identity.runId := h])
  {
    var run := h.identity.runId;
    var db' := Rows(db.runs[run := row], db.journal[(run, revision) := data]);
    forall r | r in a && r != run ensures RunRepresented(db', r, a[r]) {
      OtherRunRepresented(db, a, run, row, revision, data, r);
    }
    assert RunRepresented(db', run, h);
  }

  lemma AppendRepresents(db: Rows, a: Spec, u: StateUpdate)
    requires Represents(db, a) && u.expected.identity.runId in a && Current(a[u.expected.identity.runId]) == u.expected
    ensures Represents(Appended(db, u), a[u.expected.identity.runId := Extended(a[u.expected.identity.runId], u)])
  {
    var run := u.expected.identity.runId;
    var h' := Extended(a[run], u);
    assert RunRepresented(db, run, a[run]);
    AppendEncodes(db.runs[run], db.journal, a[run], u);
    ReplaceRepresents(db, a, h', db.runs[run].(checkpoint := CheckpointBytes(Current(h'))),
                      u.advance.transition.revision, TransitionBytes(u.advance.transition));
  }

  /**
   The call committed the abstract step and gave the abstract answer, or changed nothing because
   a statement failed.
   */
  ghost predicate Simulates(db: Rows, a: Spec, call: Call) {
    var (db', reply) := Exec(db, call);
    var (a', expected) := SpecStep(a, call.op);
    || (reply == expected && Represents(db', a'))
    || (reply == Failed(StorageFailure) && db' == db && call.faults != {})
  }

  lemma InitializeInserts(db: Rows, a: Spec, c: RunCheckpoint)
    requires Represents(db, a) && c == CreateInitialCheckpoint(c.identity) && c.identity.runId !in a
    ensures var row := RunRow(IdentityBytes(c.identity), CheckpointBytes(c));
            Represents(db.(runs := db.runs[c.identity.runId := row]), SpecInitialize(a, c).0)
  {
    NewRunEncodes(db.journal, c);
    InitializeRepresents(db, a, HistoryFields(c.identity, []), RunRow(IdentityBytes(c.identity), CheckpointBytes(c)));
  }

  lemma InitializeReply(db: Rows, a: Spec, c: RunCheckpoint, faults: Faults)
    requires Represents(db, a)
    ensures match InitializeStep(db, c, faults)
            case (db', Ok(_)) => Represents(db', SpecInitialize(a, c).0) && SpecInitialize(a, c).1 == Initialized
            case (db', Err(cause)) =>
              db' == db && (SpecInitialize(a, c) == (a, Failed(cause)) || (cause == StorageFailure && faults != {}))
  {
    if c == CreateInitialCheckpoint(c.identity) && c.identity.runId !in a {
      InitializeInserts(db, a, c);
    }
  }

  lemma InitializeSimulates(db: Rows, a: Spec, c: RunCheckpoint, faults: Faults)
    requires Represents(db, a)
    ensures Simulates(db, a, Call(Initialize(c), faults))
  {
    InitializeReply(db, a, c, faults);
  }

  ghost predicate Validates(validated: Validated, a: Spec, run: RunId, faults: Faults) {
    validated == SpecValidate(a, run) || (validated == Err(StorageFailure) && faults != {})
  }

  lemma ValidatesRepresented(db: Rows, a: Spec, run: RunId, faults: Faults)
    requires Represents(db, a)
    ensures Validates(Validate(db.runs, db.journal, run, faults), a, run, faults)
  {
    ValidateRepresented(db, a, run);
    FaultsOnlyAddFailures(db.runs, db.journal, run, faults);
  }

  lemma LoadReply(validated: Validated, a: Spec, run: RunId, faults: Faults)
    requires Validates(validated, a, run, faults)
    ensures match LoadFrom(validated)
            case Ok(c) => SpecStep(a, Load(run)) == (a, Loaded(c))
            case Err(cause) => SpecStep(a, Load(run)) == (a, Failed(cause)) || (cause == StorageFailure && faults != {})
  {
  }

  lemma HistoryReply(validated: Validated, a: Spec, run: RunId, faults: Faults)
    requires Validates(validated, a, run, faults)
    ensures match HistoryFrom(validated)
            case Ok(events) => SpecStep(a, History(run)) == (a, Listed(events))
            case Err(cause) =>
              SpecStep(a, History(run)) == (a, Failed(cause)) || (cause == StorageFailure && faults != {})
  {
  }

  lemma AppendReply(db: Rows, validated: Validated, a: Spec, u: StateUpdate, faults: Faults)
    requires db.runs.Keys == a.Keys && Validates(validated, a, u.expected.identity.runId, faults)
    ensures var run := u.expected.identity.runId;
            match AppendTo(db, validated, u, faults)
            case (db', Ok(c)) =>
              && run in a && Current(a[run]) == u.expected && db' == Appended(db, u)
              && SpecStep(a, Append(u)) == (a[run := Extended(a[run], u)], Accepted(c))
            case (db', Err(cause)) =>
              db' == db && (SpecStep(a, Append(u)) == (a, Failed(cause)) || (cause == StorageFailure && faults != {}))
  {
  }

  lemma LoadSimulates(db: Rows, a: Spec, run: RunId, faults: Faults)
    requires Represents(db, a)
    ensures Simulates(db, a, Call(Load(run), faults))
  {
    ValidatesRepresented(db, a, run, faults);
    LoadReply(Validate(db.runs, db.journal, run, faults), a, run, faults);
  }

  lemma HistorySimulates(db: Rows, a: Spec, run: RunId, faults: Faults)
    requires Represents(db, a)
    ensures Simulates(db, a, Call(History(run), faults))
  {
    ValidatesRepresented(db, a, run, faults);
    HistoryReply(Validate(db.runs, db.journal, run, faults), a, run, faults);
  }

  lemma AppendSimulates(db: Rows, a: Spec, u: StateUpdate, faults: Faults)
    requires Represents(db, a)
    ensures Simulates(db, a, Call(Append(u), faults))
  {
    if !(Connect in faults || Begin in faults) {
      var run := u.expected.identity.runId;
      var validated := Validate(db.runs, db.journal, run, faults);
      ValidatesRepresented(db, a, run, faults);
      AppendReply(db, validated, a, u, faults);
      if AppendTo(db, validated, u, faults).1.Ok? {
        AppendRepresents(db, a, u);
      }
    }
  }

  /**
   Every call on tables that represent an abstract store simulates the abstract call; without
   faults it cannot fail.
   */
  lemma StepSimulates(db: Rows, a: Spec, call: Call)
    requires Represents(db, a)
    ensures Simulates(db, a, call)
  {
    match call.op
    case Initialize(c) => InitializeSimulates(db, a, c, call.faults);
    case Load(run) => LoadSimulates(db, a, run, call.faults);
    case Append(u) => AppendSimulates(db, a, u, call.faults);
    case History(run) => HistorySimulates(db, a, run, call.faults);
  }
}
