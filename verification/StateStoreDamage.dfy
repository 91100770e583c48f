/** What validation notices when stored rows are changed behind the store's back, and exactly what it cannot notice. */
module StateStoreDamage {
  import opened Results
  import opened Utf8
  import opened Timestamp
  import opened Identity
  import opened Lifecycle
  import opened State
  import opened StateSerialization
  import opened StateStore
  import opened StateStoreRuns
  import opened StateStoreTheorems
  import opened StateStoreDouble

  /** Rows that validate, and what they validate as. */
  ghost predicate Stored(runs: Runs, journal: Journal, run: RunId, v: ValidRun) {
    Validate(runs, journal, run, {}) == Ok(Some(v))
  }

  /** After any prepared calls, with any statements failing, every run that exists is such rows. */
  lemma ReachableRowsAreStored(r: Run, k: nat, run: RunId)
    requires IsRun(r) && k <= |r.calls| && AllPrepared(r) && run in r.dbs[k].runs
    ensures run in r.specs[k]
    ensures Stored(r.dbs[k].runs, r.dbs[k].journal, run, ValidRun(Current(r.specs[k][run]), r.specs[k][run].events))
  {
    TablesRepresentSpec(r, k);
    MemoryMirrorsStore(r, k);
    ValidateRepresented(r.dbs[k], r.specs[k], run);
    assert run in r.specs[k] && Healthy(r.specs[k][run]);
  }

  lemma CorruptUnlessStored(runs: Runs, journal: Journal, run: RunId)
    requires run in runs && forall w :: !Stored(runs, journal, run, w)
    ensures Validate(runs, journal, run, {}) == Err(Corrupt)
  {
    ValidationOutcomes(runs, journal, run);
    if Validate(runs, journal, run, {}) != Err(Corrupt) {
      var w :| Validate(runs, journal, run, {}) == Ok(Some(w));
      assert Stored(runs, journal, run, w);
    }
  }

  /** Either blob of a row determines what the other must be. */
  lemma SameCheckpointBlob(row: RunRow, row': RunRow, journal: Journal, journal': Journal, runs: Runs, runs': Runs,
      run: RunId,
                           v: ValidRun, w: ValidRun)
    requires run in runs && run in runs' && runs[run] == row && runs'[run] == row'
    requires Stored(runs, journal, run, v) && Stored(runs', journal', run, w)
    ensures row.checkpoint == row'.checkpoint ==> v.checkpoint == w.checkpoint
    ensures row.identity == row'.identity ==> v.checkpoint.identity == w.checkpoint.identity
    ensures row == RunRow(IdentityBytes(v.checkpoint.identity), CheckpointBytes(v.checkpoint))
    ensures row' == RunRow(IdentityBytes(w.checkpoint.identity), CheckpointBytes(w.checkpoint))
  {
    ValidationExact(runs, journal, run, v);
    ValidationExact(runs', journal', run, w);
    assert CheckpointIn(row.checkpoint) == Some(v.checkpoint) && CheckpointIn(row'.checkpoint) == Some(w.checkpoint);
    assert IdentityIn(row.identity) == Some(v.checkpoint.identity)
        && IdentityIn(row'.identity) == Some(w.checkpoint.identity);
  }

  /** Replacing only the identity bytes is always noticed. */
  lemma IdentityDamageIsNoticed(runs: Runs, journal: Journal, run: RunId, v: ValidRun, data: Bytes)
    requires Stored(runs, journal, run, v) && data != runs[run].identity
    ensures Validate(runs[run := runs[run].(identity := data)], journal, run, {}) == Err(Corrupt)
  {
    var runs' := runs[run := runs[run].(identity := data)];
    forall w ensures !Stored(runs', journal, run, w) {
      if Stored(runs', journal, run, w) {
        SameCheckpointBlob(runs[run], runs'[run], journal, journal, runs, runs', run, v, w);
      }
    }
    CorruptUnlessStored(runs', journal, run);
  }

  lemma SameJournalSameEvents(runs: Runs, runs': Runs, journal: Journal, run: RunId, v: ValidRun, w: ValidRun)
    requires Stored(runs, journal, run, v) && Stored(runs', journal, run, w)
    requires v.checkpoint.identity == w.checkpoint.identity
    ensures v == w
  {
    ValidationExact(runs, journal, run, v);
    ValidationExact(runs', journal, run, w);
    JournalDeterminesEvents(journal, run, v.checkpoint.identity, v.events, w.events);
  }

  /** Replacing only the checkpoint bytes is always noticed. */
  lemma CheckpointDamageIsNoticed(runs: Runs, journal: Journal, run: RunId, v: ValidRun, data: Bytes)
    requires Stored(runs, journal, run, v) && data != runs[run].checkpoint
    ensures Validate(runs[run := runs[run].(checkpoint := data)], journal, run, {}) == Err(Corrupt)
  {
    var runs' := runs[run := runs[run].(checkpoint := data)];
    forall w ensures !Stored(runs', journal, run, w) {
      if Stored(runs', journal, run, w) {
        SameCheckpointBlob(runs[run], runs'[run], journal, journal, runs, runs', run, v, w);
        SameJournalSameEvents(runs, runs', journal, run, v, w);
      }
    }
    CorruptUnlessStored(runs', journal, run);
  }

  lemma StoredRevisions(runs: Runs, journal: Journal, run: RunId, v: ValidRun)
    requires Stored(runs, journal, run, v)
    ensures Revisions(journal, run) == OneTo(v.checkpoint.lifecycle.revision)
    ensures v.checkpoint.lifecycle.revision == |v.events|
  {
    ValidationExact(runs, journal, run, v);
    FoldCounts(v.checkpoint.identity, v.events);
  }

  /** Any change of the set of journal revisions is noticed, whatever the rows then hold. */
  lemma RevisionDamageIsNoticed(runs: Runs, journal: Journal, run: RunId, v: ValidRun, journal': Journal)
    requires Stored(runs, journal, run, v) && Revisions(journal', run) != Revisions(journal, run)
    ensures Validate(runs, journal', run, {}) == Err(Corrupt)
  {
    forall w ensures !Stored(runs, journal', run, w) {
      if Stored(runs, journal', run, w) {
        SameCheckpointBlob(runs[run], runs[run], journal, journal', runs, runs, run, v, w);
        StoredRevisions(runs, journal, run, v);
        StoredRevisions(runs, journal', run, w);
      }
    }
    CorruptUnlessStored(runs, journal', run);
  }

  /** Deleting any non-empty set of a run's journal rows is noticed. */
  lemma DeletionIsNoticed(runs: Runs, journal: Journal, run: RunId, v: ValidRun, deleted: set<(RunId, int)>,
      revision: int)
    requires Stored(runs, journal, run, v)
    requires (run, revision) in deleted && (run, revision) in journal
    ensures Validate(runs, journal - deleted, run, {}) == Err(Corrupt)
  {
    assert revision in Revisions(journal, run) && revision !in Revisions(journal - deleted, run);
    RevisionDamageIsNoticed(runs, journal, run, v, journal - deleted);
  }

  /** Adding a row at an unused revision is noticed, whatever its bytes. */
  lemma AdditionIsNoticed(runs: Runs, journal: Journal, run: RunId, v: ValidRun, revision: int, data: Bytes)
    requires Stored(runs, journal, run, v) && (run, revision) !in journal
    ensures Validate(runs, journal[(run, revision) := data], run, {}) == Err(Corrupt)
  {
    var journal' := journal[(run, revision) := data];
    assert revision !in Revisions(journal, run) && revision in Revisions(journal', run);
    RevisionDamageIsNoticed(runs, journal, run, v, journal');
  }

  // ------------------------------------------------- replacing one journal row

  /**
   An event that can stand in for the k-th one unnoticed: the same step of the
   same run, at a time between its neighbours. Its actor is free.
   */
  ghost predicate StandsIn(v: ValidRun, k: nat, e: LifecycleTransition)
    requires k < |v.events| && Fold(v.checkpoint.identity, v.events).Some?
  {
    var original := v.events[k];
    && e == original.(actor := e.actor, occurredAt := e.occurredAt)
    && !Before(e.occurredAt, At(v.checkpoint.identity, v.events, k).lifecycle.updatedAt)
    && (if k + 1 < |v.events| then !Before(v.events[k + 1].occurredAt, e.occurredAt)
        else e.occurredAt == original.occurredAt)
  }

  lemma AtDependsOnPrefix(identity: RunIdentity, xs: seq<LifecycleTransition>, ys: seq<LifecycleTransition>, k: nat)
    requires Fold(identity, xs).Some? && Fold(identity, ys).Some? && k <= |xs| && k <= |ys| && xs[..k] == ys[..k]
    ensures At(identity, xs, k) == At(identity, ys, k)
  {
  }

  lemma AtEnd(identity: RunIdentity, events: seq<LifecycleTransition>)
    requires Fold(identity, events).Some?
    ensures At(identity, events, |events|) == Fold(identity, events).value
  {
    assert events[..|events|] == events;
  }

  lemma StandInContinues(v: ValidRun, k: nat, e: LifecycleTransition)
    requires k < |v.events| && Fold(v.checkpoint.identity, v.events).Some? && StandsIn(v, k, e)
    ensures Continues(At(v.checkpoint.identity, v.events, k), e)
    ensures Permitted(v.events[k]) ==> Permitted(e)
  {
    AtStep(v.checkpoint.identity, v.events, k);
  }

  /** The checkpoint after j events, when e stands in for the k-th. */
  ghost function ForgedAt(v: ValidRun, k: nat, e: LifecycleTransition, j: nat): RunCheckpoint
    requires k < |v.events| && Fold(v.checkpoint.identity, v.events).Some? && StandsIn(v, k, e) && k < j <= |v.events|
  {
    StandInContinues(v, k, e);
    var identity := v.checkpoint.identity;
    if j == k + 1 then After(At(identity, v.events, k), e) else At(identity, v.events, j)
  }

  lemma ForgedStep(v: ValidRun, k: nat, e: LifecycleTransition, j: nat)
    requires k < |v.events| && Fold(v.checkpoint.identity, v.events).Some? && StandsIn(v, k, e) && k < j < |v.events|
    ensures Continues(ForgedAt(v, k, e, j), v.events[j])
    ensures After(ForgedAt(v, k, e, j), v.events[j]) == ForgedAt(v, k, e, j + 1)
  {
    StandInContinues(v, k, e);
    AtStep(v.checkpoint.identity, v.events, j);
    AtStep(v.checkpoint.identity, v.events, k);
  }

  ghost predicate IsStandIn(v: ValidRun, k: nat, e: LifecycleTransition) {
    k < |v.events| && Fold(v.checkpoint.identity, v.events).Some? && StandsIn(v, k, e)
  }

  /** The checkpoints along a history with a stand-in. */
  ghost function ForgedChain(v: ValidRun, k: nat, e: LifecycleTransition): seq<RunCheckpoint>
    requires IsStandIn(v, k, e)
  {
    seq(|v.events| + 1, j requires 0 <= j <= |v.events| =>
      if j <= k then At(v.checkpoint.identity, v.events, j) else ForgedAt(v, k, e, j))
  }

  lemma LinksBefore(v: ValidRun, k: nat, e: LifecycleTransition, j: nat)
    requires IsStandIn(v, k, e) && j < k
    ensures Links(At(v.checkpoint.identity, v.events, j), v.events[j], At(v.checkpoint.identity, v.events, j + 1))
  {
    AtStep(v.checkpoint.identity, v.events, j);
  }

  lemma LinksHere(v: ValidRun, k: nat, e: LifecycleTransition)
    requires IsStandIn(v, k, e)
    ensures Links(At(v.checkpoint.identity, v.events, k), e, ForgedAt(v, k, e, k + 1))
  {
    StandInContinues(v, k, e);
  }

  lemma LinksAfter(v: ValidRun, k: nat, e: LifecycleTransition, j: nat)
    requires IsStandIn(v, k, e) && k < j < |v.events|
    ensures Links(ForgedAt(v, k, e, j), v.events[j], ForgedAt(v, k, e, j + 1))
  {
    ForgedStep(v, k, e, j);
  }

  lemma ForgedLinks(v: ValidRun, k: nat, e: LifecycleTransition, j: nat)
    requires IsStandIn(v, k, e) && j < |v.events|
    ensures Links(ForgedChain(v, k, e)[j], v.events[k := e][j], ForgedChain(v, k, e)[j + 1])
  {
    if j < k {
      LinksBefore(v, k, e, j);
    } else if j == k {
      LinksHere(v, k, e);
    } else {
      LinksAfter(v, k, e, j);
    }
  }

  /** With the stand-in the history folds as if the original were there, but for one moment's time. */
  lemma StandInFolds(v: ValidRun, k: nat, e: LifecycleTransition)
    requires IsStandIn(v, k, e)
    ensures Fold(v.checkpoint.identity, v.events[k := e]) == Some(ForgedAt(v, k, e, |v.events|))
  {
    forall j | 0 <= j < |v.events|
      ensures Links(ForgedChain(v, k, e)[j], v.events[k := e][j], ForgedChain(v, k, e)[j + 1])
    {
      ForgedLinks(v, k, e, j);
    }
    assert v.events[..0] == [];
    FoldByChain(v.checkpoint.identity, v.events[k := e], ForgedChain(v, k, e));
  }

  lemma StandInEnd(v: ValidRun, k: nat, e: LifecycleTransition)
    requires k < |v.events| && Fold(v.checkpoint.identity, v.events) == Some(v.checkpoint) && StandsIn(v, k, e)
    ensures Fold(v.checkpoint.identity, v.events[k := e]) == Some(v.checkpoint)
  {
    StandInFolds(v, k, e);
    AtEnd(v.checkpoint.identity, v.events);
    AtStep(v.checkpoint.identity, v.events, k);
    StandInContinues(v, k, e);
  }

  lemma StandInPermitted(v: ValidRun, k: nat, e: LifecycleTransition)
    requires k < |v.events| && Fold(v.checkpoint.identity, v.events).Some? && StandsIn(v, k, e)
        && AllPermitted(v.events)
    ensures AllPermitted(v.events[k := e])
  {
    StandInContinues(v, k, e);
    var forged := v.events[k := e];
    forall x | x in forged ensures Permitted(x) {
      var i :| 0 <= i < |forged| && forged[i] == x;
      assert v.events[i] in v.events;
    }
  }

  lemma ForgedJournalEncodes(journal: Journal, run: RunId, events: seq<LifecycleTransition>, k: nat,
      e: LifecycleTransition)
    requires EncodesJournal(journal, run, events) && k < |events|
    ensures EncodesJournal(journal[(run, k + 1) := TransitionBytes(e)], run, events[k := e])
  {
    var journal' := journal[(run, k + 1) := TransitionBytes(e)];
    assert k + 1 in Revisions(journal, run);
    assert Revisions(journal', run) == Revisions(journal, run);
  }

  lemma StandInIsUnnoticed(runs: Runs, journal: Journal, run: RunId, v: ValidRun, k: nat, e: LifecycleTransition)
    requires Stored(runs, journal, run, v) && k < |v.events|
    requires Fold(v.checkpoint.identity, v.events) == Some(v.checkpoint) && StandsIn(v, k, e)
    ensures Stored(runs, journal[(run, k + 1) := TransitionBytes(e)], run, ValidRun(v.checkpoint, v.events[k := e]))
  {
    var identity := v.checkpoint.identity;
    var w := ValidRun(v.checkpoint, v.events[k := e]);
    ValidationExact(runs, journal, run, v);
    StandInEnd(v, k, e);
    StandInPermitted(v, k, e);
    ForgedJournalEncodes(journal, run, v.events, k, e);
    ValidationExact(runs, journal[(run, k + 1) := TransitionBytes(e)], run, w);
  }

  /** After a change of one row that goes unnoticed, the other events are the same. */
  lemma OtherEventsStay(runs: Runs, journal: Journal, run: RunId, v: ValidRun, w: ValidRun, k: nat, data: Bytes)
    requires Stored(runs, journal, run, v) && k < |v.events|
    requires Stored(runs, journal[(run, k + 1) := data], run, w)
    ensures w.checkpoint == v.checkpoint && |w.events| == |v.events|
    ensures data == TransitionBytes(w.events[k]) && w.events == v.events[k := w.events[k]]
  {
    var journal' := journal[(run, k + 1) := data];
    SameCheckpointBlob(runs[run], runs[run], journal, journal', runs, runs, run, v, w);
    StoredRevisions(runs, journal, run, v);
    StoredRevisions(runs, journal', run, w);
    ValidationExact(runs, journal, run, v);
    ValidationExact(runs, journal', run, w);
    forall i | 0 <= i < |v.events| && i != k ensures w.events[i] == v.events[i] {
      FoldYear(v.checkpoint.identity, v.events, i);
      FoldYear(w.checkpoint.identity, w.events, i);
      assert journal'[(run, i + 1)] == journal[(run, i + 1)];
      assert TransitionIn(journal[(run, i + 1)]) == Some(v.events[i]);
      assert TransitionIn(journal[(run, i + 1)]) == Some(w.events[i]);
    }
    assert journal'[(run, k + 1)] == data;
  }

  lemma UnnoticedStandsIn(v: ValidRun, k: nat, e: LifecycleTransition)
    requires k < |v.events| && Fold(v.checkpoint.identity, v.events) == Some(v.checkpoint) && AllPermitted(v.events)
    requires Fold(v.checkpoint.identity, v.events[k := e]) == Some(v.checkpoint)
    ensures StandsIn(v, k, e)
  {
    var identity := v.checkpoint.identity;
    var forged := v.events[k := e];
    assert forged[..k] == v.events[..k];
    AtDependsOnPrefix(identity, v.events, forged, k);
    AtStep(identity, v.events, k);
    AtStep(identity, forged, k);
    if k + 1 < |v.events| {
      AtStep(identity, v.events, k + 1);
      AtStep(identity, forged, k + 1);
      assert v.events[k + 1] in v.events;
      assert Permitted(v.events[k + 1]);
    } else {
      AtEnd(identity, v.events);
      AtEnd(identity, forged);
    }
  }

  /**
   Exactly which replacement of one journal row goes unnoticed: the bytes of an
   event that stands in for the original. So no change of states, revisions, run or
   final state survives, but the recorded actor can be changed freely, and the time
   of an event that is not the last can be moved between its neighbours.
   */
  lemma ReplacementIsNoticedUnlessStandIn(runs: Runs, journal: Journal, run: RunId, v: ValidRun, k: nat, data: Bytes)
    requires Stored(runs, journal, run, v) && k < |v.events|
    ensures Fold(v.checkpoint.identity, v.events) == Some(v.checkpoint)
    ensures Validate(runs, journal[(run, k + 1) := data], run, {}) != Err(Corrupt) <==>
            exists e :: data == TransitionBytes(e) && StandsIn(v, k, e)
  {
    var journal' := journal[(run, k + 1) := data];
    ValidationExact(runs, journal, run, v);
    if Validate(runs, journal', run, {}) != Err(Corrupt) {
      ValidationOutcomes(runs, journal', run);
      var w :| Validate(runs, journal', run, {}) == Ok(Some(w));
      OtherEventsStay(runs, journal, run, v, w, k, data);
      ValidationExact(runs, journal', run, w);
      UnnoticedStandsIn(v, k, w.events[k]);
    }
    if e :| data == TransitionBytes(e) && StandsIn(v, k, e) {
      StandInIsUnnoticed(runs, journal, run, v, k, e);
    }
  }

  function OtherActor(actor: LifecycleActor): (other: LifecycleActor)
    ensures other != actor
  {
    if actor == "a" then "b" else "a"
  }

  /**
   Every journal row can be replaced unnoticed: by the bytes of the same event with another
   actor, which are different bytes.
   */
  lemma ForgedActorIsUnnoticed(runs: Runs, journal: Journal, run: RunId, v: ValidRun, k: nat)
    requires Stored(runs, journal, run, v) && k < |v.events|
    ensures var forged := v.events[k].(actor := OtherActor(v.events[k].actor));
            && (run, k + 1) in journal && TransitionBytes(forged) != journal[(run, k + 1)]
            && Stored(runs, journal[(run, k + 1) := TransitionBytes(forged)], run,
                ValidRun(v.checkpoint, v.events[k := forged]))
  {
    var forged := v.events[k].(actor := OtherActor(v.events[k].actor));
    ValidationExact(runs, journal, run, v);
    AtStep(v.checkpoint.identity, v.events, k);
    FoldYear(v.checkpoint.identity, v.events, k);
    assert k + 1 in Revisions(journal, run);
    assert TransitionIn(journal[(run, k + 1)]) == Some(v.events[k])
        && TransitionIn(TransitionBytes(forged)) == Some(forged);
    if k + 1 < |v.events| {
      AtStep(v.checkpoint.identity, v.events, k + 1);
    }
    StandInIsUnnoticed(runs, journal, run, v, k, forged);
  }
}
