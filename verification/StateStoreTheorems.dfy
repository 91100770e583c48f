/** The store's guarantees over every sequence of calls and every interleaving of readers. */
module StateStoreTheorems {
  import opened Results
  import opened Identity
  import opened Lifecycle
  import opened State
  import opened StateSerialization
  import opened StateStore
  import opened StateStoreRuns

  // ------------------------------------------------------------- runs of calls

  /**
   A run of the store on an empty database: the calls in the order in which they
   take effect (writers exclude each other), with the tables, the abstract store
   beside them, and the answers. The abstract store follows every call that did not
   fail in storage.
   */
  datatype Run = Run(calls: seq<Call>, dbs: seq<Rows>, specs: seq<Spec>, replies: seq<Reply>)

  ghost predicate IsRun(r: Run) {
    && |r.dbs| == |r.specs| == |r.calls| + 1 && |r.replies| == |r.calls|
    && r.dbs[0] == Rows(map[], map[]) && r.specs[0] == map[]
    && forall k | 0 <= k < |r.calls| :: CallAt(r, k)
  }

  ghost predicate CallAt(r: Run, k: nat)
    requires |r.dbs| == |r.specs| == |r.calls| + 1 && |r.replies| == |r.calls| && k < |r.calls|
  {
    && Exec(r.dbs[k], r.calls[k]) == (r.dbs[k + 1], r.replies[k])
    && r.specs[k + 1] == Follow(r.specs[k], r.calls[k].op, r.replies[k])
  }

  ghost function Follow(a: Spec, op: Op, reply: Reply): Spec {
    if reply == Failed(StorageFailure) then a else SpecStep(a, op).0
  }

  /** Every sequence of calls, with any statements failing, has a run. */
  lemma {:induction false} EveryCallSequenceRuns(calls: seq<Call>) returns (r: Run)
    ensures IsRun(r) && r.calls == calls
  {
    if calls == [] {
      r := Run([], [Rows(map[], map[])], [map[]], []);
    } else {
      var n := |calls| - 1;
      var q := EveryCallSequenceRuns(calls[..n]);
      var (db, reply) := Exec(q.dbs[n], calls[n]);
      r := Run(calls, q.dbs + [db], q.specs + [Follow(q.specs[n], calls[n].op, reply)], q.replies + [reply]);
      forall k | 0 <= k < |calls| ensures CallAt(r, k) {
        if k < n {
          assert CallAt(q, k);
        }
      }
    }
  }

  lemma SpecNeverFailsInStorage(a: Spec, op: Op)
    ensures SpecStep(a, op).1 != Failed(StorageFailure)
  {
  }

  /** What one call does to the abstract store. */
  ghost predicate Atomic(before: Spec, call: Call, reply: Reply, after: Spec) {
    || (reply == SpecStep(before, call.op).1 && after == SpecStep(before, call.op).0)
    || (reply == Failed(StorageFailure) && after == before && call.faults != {})
  }

  lemma CallIsAtomic(db: Rows, a: Spec, call: Call)
    requires Represents(db, a)
    ensures var (db', reply) := Exec(db, call);
            && Represents(db', Follow(a, call.op, reply)) && Atomic(a, call, reply, Follow(a, call.op, reply))
            && (reply == Failed(StorageFailure) ==> db' == db)
  {
    StepSimulates(db, a, call);
    SpecNeverFailsInStorage(a, call.op);
  }

  lemma NextTablesRepresentSpec(r: Run, k: nat)
    requires IsRun(r) && k < |r.calls| && Represents(r.dbs[k], r.specs[k])
    ensures Represents(r.dbs[k + 1], r.specs[k + 1])
  {
    assert CallAt(r, k);
    CallIsAtomic(r.dbs[k], r.specs[k], r.calls[k]);
  }

  /**
   Refinement over whole runs: after any calls, with any statements failing, the
   tables are the bytes of the abstract store.
   */
  lemma {:induction false} TablesRepresentSpec(r: Run, k: nat)
    requires IsRun(r) && k <= |r.calls|
    ensures Represents(r.dbs[k], r.specs[k])
  {
    if k > 0 {
      TablesRepresentSpec(r, k - 1);
      NextTablesRepresentSpec(r, k - 1);
    }
  }

  /** Every answer in a run is the abstract one with the abstract effect, or a storage failure with no effect. */
  lemma EveryCallIsAtomic(r: Run, k: nat)
    requires IsRun(r) && k < |r.calls|
    ensures Atomic(r.specs[k], r.calls[k], r.replies[k], r.specs[k + 1])
    ensures r.replies[k] == Failed(StorageFailure) ==> r.dbs[k + 1] == r.dbs[k]
  {
    TablesRepresentSpec(r, k);
    assert CallAt(r, k);
    CallIsAtomic(r.dbs[k], r.specs[k], r.calls[k]);
  }

  // ------------------------------------------------------ histories only grow

  /** What the abstract store holds about one run after k calls. */
  ghost function HistoryAt(r: Run, k: nat, run: RunId): Option<HistoryFields>
    requires IsRun(r) && k <= |r.calls|
  {
    var a := r.specs[k];
    if run in a then Some(a[run]) else None
  }

  /** The k-th call appended to the run. */
  ghost predicate AcceptedOn(r: Run, k: nat, run: RunId)
    requires IsRun(r) && k < |r.calls|
  {
    r.replies[k].Accepted? && r.calls[k].op.Append? && r.calls[k].op.update.expected.identity.runId == run
  }

  /** The effect of an answered call on one run of the abstract store. */
  lemma AppendEffect(a: Spec, op: Op, run: RunId)
    requires run in a
    ensures var (a', reply) := SpecStep(a, op);
            if op.Append? && reply.Accepted? && op.update.expected.identity.runId == run
            then Current(a[run]) == op.update.expected && a' == a[run := Extended(a[run], op.update)]
                 && reply == Accepted(NextCheckpoint(op.update))
            else run in a' && a'[run] == a[run]
  {
    match op
    case Append(u) => AppendElsewhere(a, u, run);
    case Initialize(c) => InitializeElsewhere(a, c, run);
    case _ =>
  }

  lemma InitializeElsewhere(a: Spec, c: RunCheckpoint, run: RunId)
    requires run in a
    ensures run in SpecInitialize(a, c).0 && SpecInitialize(a, c).0[run] == a[run] && !SpecInitialize(a, c).1.Accepted?
  {
  }

  lemma AppendElsewhere(a: Spec, u: StateUpdate, run: RunId)
    requires run in a
    ensures var (a', reply) := SpecAppend(a, u);
            if reply.Accepted? && u.expected.identity.runId == run
            then Current(a[run]) == u.expected && a' == a[run := Extended(a[run], u)]
                && reply == Accepted(NextCheckpoint(u))
            else run in a' && a'[run] == a[run]
  {
  }

  lemma NewRunStartsEmpty(a: Spec, op: Op, run: RunId)
    requires run !in a
    ensures run in SpecStep(a, op).0 ==> SpecStep(a, op).0[run].events == []
    ensures !(op.Append? && SpecStep(a, op).1.Accepted? && op.update.expected.identity.runId == run)
  {
  }

  lemma ExtendedFields(h: RunHistory, u: StateUpdate)
    requires Current(h) == u.expected
    ensures Extended(h, u) == HistoryFields(h.identity, h.events + [u.advance.transition])
  {
  }

  /** The effect of one call on one run. */
  lemma CallOnRun(r: Run, k: nat, run: RunId)
    requires IsRun(r) && k < |r.calls|
    ensures AcceptedOn(r, k, run) ==>
              && HistoryAt(r, k, run).Some?
              && HistoryAt(r, k + 1, run) == Some(HistoryFields(
                   HistoryAt(r, k, run).value.identity,
                   HistoryAt(r, k, run).value.events + [r.calls[k].op.update.advance.transition]))
    ensures !AcceptedOn(r, k, run) ==>
              if HistoryAt(r, k, run).Some? then HistoryAt(r, k + 1, run) == HistoryAt(r, k, run)
              else HistoryAt(r, k + 1, run).None? || HistoryAt(r, k + 1, run).value.events == []
  {
    var a, op := r.specs[k], r.calls[k].op;
    EveryCallIsAtomic(r, k);
    SpecNeverFailsInStorage(a, op);
    if run in a {
      AppendEffect(a, op, run);
      if AcceptedOn(r, k, run) {
        ExtendedFields(a[run], op.update);
      }
    } else {
      NewRunStartsEmpty(a, op, run);
    }
  }

  /** One run along a sequence of calls, by its history before and after each and whether the call appended to it. */
  ghost predicate IsTrack(hs: seq<Option<HistoryFields>>, accepted: seq<bool>) {
    |hs| == |accepted| + 1 && forall k | 0 <= k < |accepted| :: TrackStep(hs[k], hs[k + 1], accepted[k])
  }

  ghost predicate TrackStep(before: Option<HistoryFields>, after: Option<HistoryFields>, accepted: bool) {
    before.Some? ==>
      && after.Some? && after.value.identity == before.value.identity
      && (if accepted then before.value.events < after.value.events else after == before)
  }

  lemma CallIsTrackStep(r: Run, k: nat, run: RunId)
    requires IsRun(r) && k < |r.calls|
    ensures TrackStep(HistoryAt(r, k, run), HistoryAt(r, k + 1, run), AcceptedOn(r, k, run))
  {
    CallOnRun(r, k, run);
  }

  lemma {:induction false} TrackGrows(hs: seq<Option<HistoryFields>>, accepted: seq<bool>, i: nat, j: nat)
    requires IsTrack(hs, accepted) && i <= j < |hs| && hs[i].Some?
    ensures hs[j].Some? && hs[j].value.identity == hs[i].value.identity && hs[i].value.events <= hs[j].value.events
    ensures if exists k | i <= k < j :: accepted[k] then |hs[j].value.events| > |hs[i].value.events| else hs[j] == hs[i]
    decreases j - i
  {
    if i < j {
      TrackGrows(hs, accepted, i, j - 1);
      assert TrackStep(hs[j - 1], hs[j], accepted[j - 1]);
      if (exists k | i <= k < j :: accepted[k]) && !accepted[j - 1] {
        var k :| i <= k < j && accepted[k];
        assert k < j - 1;
      }
    }
  }

  ghost function Track(r: Run, run: RunId): seq<Option<HistoryFields>>
    requires IsRun(r)
  {
    seq(|r.calls| + 1, k requires 0 <= k <= |r.calls| => HistoryAt(r, k, run))
  }

  ghost function Accepts(r: Run, run: RunId): seq<bool>
    requires IsRun(r)
  {
    seq(|r.calls|, k requires 0 <= k < |r.calls| => AcceptedOn(r, k, run))
  }

  lemma TrackOfCalls(r: Run, run: RunId)
    requires IsRun(r)
    ensures IsTrack(Track(r, run), Accepts(r, run))
  {
    var hs, accepted := Track(r, run), Accepts(r, run);
    forall k | 0 <= k < |accepted| ensures TrackStep(hs[k], hs[k + 1], accepted[k]) {
      CallIsTrackStep(r, k, run);
      assert hs[k] == HistoryAt(r, k, run) && hs[k + 1] == HistoryAt(r, k + 1, run)
          && accepted[k] == AcceptedOn(r, k, run);
    }
  }

  /** A history only grows, keeps its identity, and stays as it is unless a call appends to that very run. */
  lemma HistoriesOnlyGrow(r: Run, i: nat, j: nat, run: RunId)
    requires IsRun(r) && i <= j <= |r.calls| && HistoryAt(r, i, run).Some?
    ensures HistoryAt(r, j, run).Some?
    ensures HistoryAt(r, j, run).value.identity == HistoryAt(r, i, run).value.identity
    ensures HistoryAt(r, i, run).value.events <= HistoryAt(r, j, run).value.events
    ensures if exists k | i <= k < j :: AcceptedOn(r, k, run)
            then |HistoryAt(r, j, run).value.events| > |HistoryAt(r, i, run).value.events|
            else HistoryAt(r, j, run) == HistoryAt(r, i, run)
  {
    TrackOfCalls(r, run);
    TrackGrows(Track(r, run), Accepts(r, run), i, j);
    if exists k | i <= k < j :: AcceptedOn(r, k, run) {
      var k :| i <= k < j && AcceptedOn(r, k, run);
      assert Accepts(r, run)[k];
    } else {
      assert forall k | i <= k < j :: !Accepts(r, run)[k];
    }
  }

  // ------------------------------------------------------------ one winner ever

  /** An accepted update found its expected checkpoint current, and made the next one current. */
  lemma AcceptedAdvances(r: Run, k: nat, run: RunId)
    requires IsRun(r) && k < |r.calls| && AcceptedOn(r, k, run)
    ensures run in r.specs[k] && Current(r.specs[k][run]) == r.calls[k].op.update.expected
    ensures run in r.specs[k + 1] && Current(r.specs[k + 1][run]) == NextCheckpoint(r.calls[k].op.update)
    ensures r.replies[k] == Accepted(NextCheckpoint(r.calls[k].op.update))
  {
    EveryCallIsAtomic(r, k);
    CallOnRun(r, k, run);
    AppendEffect(r.specs[k], r.calls[k].op, run);
  }

  lemma RevisionCountsEvents(h: RunHistory)
    ensures Current(h).lifecycle.revision == |h.events| && Current(h).identity == h.identity
  {
    FoldCounts(h.identity, h.events);
  }

  lemma RevisionAt(r: Run, k: nat, run: RunId)
    requires IsRun(r) && k <= |r.calls| && run in r.specs[k]
    ensures HistoryAt(r, k, run).Some?
    ensures Current(r.specs[k][run]).lifecycle.revision == |HistoryAt(r, k, run).value.events|
  {
    RevisionCountsEvents(r.specs[k][run]);
  }

  /** Once an update is accepted, the checkpoint it expected is never current again. */
  lemma SupersededForever(r: Run, i: nat, j: nat, run: RunId)
    requires IsRun(r) && i < j <= |r.calls| && AcceptedOn(r, i, run)
    ensures run in r.specs[j]
    ensures Current(r.specs[j][run]).lifecycle.revision > r.calls[i].op.update.expected.lifecycle.revision
  {
    AcceptedAdvances(r, i, run);
    RevisionAt(r, i, run);
    HistoriesOnlyGrow(r, i, j, run);
    RevisionAt(r, j, run);
  }

  /** Of all updates that expect one checkpoint, over any number of clients, at most one is ever accepted. */
  lemma OneWinnerEver(r: Run, i: nat, j: nat, run: RunId)
    requires IsRun(r) && i < |r.calls| && j < |r.calls| && AcceptedOn(r, i, run) && AcceptedOn(r, j, run)
    requires r.calls[i].op.update.expected == r.calls[j].op.update.expected
    ensures i == j
  {
    AcceptedAdvances(r, i, run);
    AcceptedAdvances(r, j, run);
    if i < j {
      SupersededForever(r, i, j, run);
    } else if j < i {
      SupersededForever(r, j, i, run);
    }
  }

  /** The events that calls appended to one run, in order. */
  ghost function AcceptedEvents(r: Run, k: nat, run: RunId): seq<LifecycleTransition>
    requires IsRun(r) && k <= |r.calls|
  {
    if k == 0 then []
    else if AcceptedOn(r, k - 1, run) then AcceptedEvents(r, k - 1, run) + [r.calls[k - 1].op.update.advance.transition]
    else AcceptedEvents(r, k - 1, run)
  }

  /** The journal of a run is exactly the accepted updates, in the order in which they were accepted. */
  lemma {:induction false} AcceptedUpdatesFormTheJournal(r: Run, k: nat, run: RunId)
    requires IsRun(r) && k <= |r.calls|
    ensures AcceptedEvents(r, k, run) ==
            if HistoryAt(r, k, run).Some? then HistoryAt(r, k, run).value.events else []
  {
    if k > 0 {
      AcceptedUpdatesFormTheJournal(r, k - 1, run);
      CallOnRun(r, k - 1, run);
    }
  }

  // ---------------------------------------------------------------- torn reads

  /** The journal of a longer history never passes for that of the row that was read before it. */
  lemma LongerJournalIsCorrupt(row: RunRow, runs: Runs, journal: Journal, run: RunId, h: RunHistory, h': RunHistory)
    requires run in runs && runs[run] == row && h.identity.runId == run && h'.identity == h.identity
    requires row == RunRow(IdentityBytes(h.identity), CheckpointBytes(Current(h)))
    requires EncodesJournal(journal, run, h'.events) && |h'.events| > |h.events|
    ensures Validate(runs, journal, run, {}) == Err(Corrupt)
  {
    ValidationOutcomes(runs, journal, run);
    if Validate(runs, journal, run, {}) != Err(Corrupt) {
      var v :| Validate(runs, journal, run, {}) == Ok(Some(v));
      ValidationExact(runs, journal, run, v);
      FoldCounts(v.checkpoint.identity, v.events);
      OneToInjective(|v.events|, |h'.events|);
      RevisionCountsEvents(h);
      IdentityBytesTellYear(h.identity, v.checkpoint.identity);
      assert false;
    }
  }

  lemma TornValidation(first: Rows, second: Rows, run: RunId, h: RunHistory, h': RunHistory)
    requires RunRepresented(first, run, h) && RunRepresented(second, run, h')
    requires h == h' || (h.identity == h'.identity && |h'.events| > |h.events|)
    ensures Validate(first.runs, second.journal, run, {}) ==
            if h != h' then Err(Corrupt) else if Healthy(h) then Ok(Some(ValidRun(Current(h), h.events)))
                else Err(Corrupt)
  {
    if h == h' {
      ValidateEncoded(first.runs, second.journal, run, h);
    } else {
      LongerJournalIsCorrupt(first.runs[run], first.runs, second.journal, run, h, h');
    }
  }

  /**
   `load` runs two SELECTs, and calls may commit between them. What it returns is
   the checkpoint that was current at the first SELECT; a healthy run is reported as
   corrupt exactly when an append to it was committed in between.
   */
  lemma TornReadIsCaught(r: Run, i: nat, j: nat, run: RunId)
    requires IsRun(r) && i <= j <= |r.calls|
    ensures Validate(r.dbs[i].runs, r.dbs[j].journal, run, {}) ==
            if run in r.specs[i] && exists k | i <= k < j :: AcceptedOn(r, k, run) then Err(Corrupt)
            else SpecValidate(r.specs[i], run)
  {
    TablesRepresentSpec(r, i);
    TablesRepresentSpec(r, j);
    if run in r.specs[i] {
      HistoriesOnlyGrow(r, i, j, run);
      assert RunRepresented(r.dbs[i], run, r.specs[i][run]) && RunRepresented(r.dbs[j], run, r.specs[j][run]);
      TornValidation(r.dbs[i], r.dbs[j], run, r.specs[i][run], r.specs[j][run]);
    }
  }
}
