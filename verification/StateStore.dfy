/**
 The durable state store: two tables, whole-checkpoint compare-and-swap, and a
 validation that replays the journal on every read. `BEGIN IMMEDIATE` excludes
 other writers and commit is atomic, so a transaction is a working copy of the
 committed tables that is published or dropped. Any statement may fail.
 */
module StateStore {
  import opened Results
  import opened Utf8
  import opened Timestamp
  import opened Identity
  import opened Lifecycle
  import opened State
  import opened StateSerialization

  datatype StateStoreErrorCause = AlreadyExists | NotFound | Conflict | Corrupt | StorageFailure

  /** A row of `alicerce_runs`. */
  datatype RunRow = RunRow(identity: Bytes, checkpoint: Bytes)

  type Runs = map<RunId, RunRow>

  /** `alicerce_transitions`, by its primary key. */
  type Journal = map<(RunId, int), Bytes>

  datatype Rows = Rows(runs: Runs, journal: Journal)

  datatype Statement =
    | Connect | Begin | SelectRun | SelectTransitions | InsertRun | InsertTransition | UpdateCheckpoint | Commit

  /** The statements that raise an SQLite error if they are reached. */
  type Faults = set<Statement>

  datatype ValidRun = ValidRun(checkpoint: RunCheckpoint, events: seq<LifecycleTransition>)

  type Validated = Result<Option<ValidRun>, StateStoreErrorCause>

  // ------------------------------------------------------ selecting the journal

  function Revisions(journal: Journal, run: RunId): (revisions: set<int>)
    ensures forall x :: x in revisions <==> (run, x) in journal
  {
    set k | k in journal.Keys && k.0 == run :: k.1
  }

  lemma AnElement<T>(s: set<T>) returns (x: T)
    requires s != {}
    ensures x in s
  {
    x :| x in s;
  }

  lemma {:induction false} MinimumExists(s: set<int>)
    requires s != {}
    ensures exists m :: m in s && forall x | x in s :: m <= x
  {
    var x := AnElement(s);
    if s != {x} {
      assert s - {x} != {};
      MinimumExists(s - {x});
      var m :| m in s - {x} && forall y | y in s - {x} :: m <= y;
      var least := if x < m then x else m;
      assert least in s && forall y | y in s :: least <= y by {
        assert forall y | y in s :: y == x || y in s - {x};
      }
    }
  }

  ghost function Minimum(s: set<int>): (m: int)
    requires s != {}
    ensures m in s && forall x | x in s :: m <= x
  {
    MinimumExists(s);
    var m :| m in s && forall x | x in s :: m <= x;
    m
  }

  ghost function Ascending(s: set<int>): seq<int> {
    if s == {} then [] else [Minimum(s)] + Ascending(s - {Minimum(s)})
  }

  lemma {:induction false} AscendingElements(s: set<int>)
    ensures forall x :: x in Ascending(s) <==> x in s
  {
    if s != {} {
      AscendingElements(s - {Minimum(s)});
    }
  }

  lemma {:induction false} AscendingAt(s: set<int>, i: nat)
    requires i < |Ascending(s)|
    ensures Ascending(s)[i] in s
  {
    if i > 0 {
      AscendingAt(s - {Minimum(s)}, i - 1);
    }
  }

  /** The result of `SELECT revision, transition ... ORDER BY revision`. */
  ghost function JournalRows(journal: Journal, run: RunId): (rows: seq<(int, Bytes)>)
    ensures |rows| == |Ascending(Revisions(journal, run))|
    ensures forall i | 0 <= i < |rows| ::
              && rows[i].0 == Ascending(Revisions(journal, run))[i]
              && (run, rows[i].0) in journal && rows[i].1 == journal[(run, rows[i].0)]
  {
    var revisions := Ascending(Revisions(journal, run));
    assert forall i | 0 <= i < |revisions| :: (run, revisions[i]) in journal by {
      forall i | 0 <= i < |revisions| ensures (run, revisions[i]) in journal {
        AscendingAt(Revisions(journal, run), i);
      }
    }
    seq(|revisions|, i requires 0 <= i < |revisions| => (revisions[i], journal[(run, revisions[i])]))
  }

  lemma AscendingStep(all: seq<int>, n: nat, left: set<int>)
    requires n <= |all| && left != {} && all[n..] == Ascending(left)
    ensures n < |all| && all[n] == Minimum(left) && all[n + 1..] == Ascending(left - {Minimum(left)})
  {
    var m := Minimum(left);
    assert Ascending(left) == [m] + Ascending(left - {m});
    assert all[n + 1..] == all[n..][1..];
  }

  method SelectJournal(journal: Journal, run: RunId) returns (rows: seq<(int, Bytes)>)
    ensures rows == JournalRows(journal, run)
  {
    var left := Revisions(journal, run);
    rows := [];
    ghost var all := Ascending(left);
    ghost var selected := JournalRows(journal, run);
    while left != {}
      invariant left <= Revisions(journal, run)
      invariant |rows| <= |all| && all[|rows|..] == Ascending(left)
      invariant rows == selected[..|rows|]
      decreases left
    {
      MinimumExists(left);
      var m :| m in left && forall x | x in left :: m <= x;
      AscendingStep(all, |rows|, left);
      assert |rows| < |selected| && selected[|rows|].0 == m;
      rows := rows + [(m, journal[(run, m)])];
      left := left - {m};
    }
  }

  // ---------------------------------------------------------------- validation

  /** One step of the journal loop: the row must carry the next revision and the event that the policy regenerates. */
  ghost function ReplayRow(v: ValidRun, expected: int, row: (int, Bytes)): (r: Option<ValidRun>)
    ensures r.Some? ==> r.value.checkpoint.identity == v.checkpoint.identity
  {
    if row.0 != expected then None
    else
      match TransitionIn(row.1)
      case None => None
      case Some(e) => ReplayEvent(v, e)
  }

  function ReplayEvent(v: ValidRun, e: LifecycleTransition): (r: Option<ValidRun>)
    ensures r.Some? ==> r.value.checkpoint.identity == v.checkpoint.identity
  {
    match AdvanceLifecycle(v.checkpoint.lifecycle, e.toState, e.occurredAt, e.actor, e.finalState)
    case Err(_) => None
    case Ok(generated) =>
      if generated.transition != e then None
      else
        match MakeCheckpoint(v.checkpoint.identity, generated.lifecycle)
        case Err(_) => None
        case Ok(c) => Some(ValidRun(c, v.events + [e]))
  }

  /** The whole journal loop. */
  ghost function Replay(identity: RunIdentity, rows: seq<(int, Bytes)>): (r: Option<ValidRun>)
    ensures r.Some? ==> r.value.checkpoint.identity == identity
  {
    if rows == [] then Some(ValidRun(CreateInitialCheckpoint(identity), []))
    else
      match Replay(identity, rows[..|rows| - 1])
      case None => None
      case Some(v) => ReplayRow(v, |rows|, rows[|rows| - 1])
  }

  /** `_validated_run`, with the tables as the two SELECTs see them; they may be two different snapshots. */
  ghost function Validate(runs: Runs, journal: Journal, run: RunId, faults: Faults): (r: Validated)
    ensures r.Ok? && r.value.Some? ==> run in runs
  {
    if SelectRun in faults then Err(StorageFailure)
    else if run !in runs then Ok(None)
    else
      match (IdentityIn(runs[run].identity), CheckpointIn(runs[run].checkpoint))
      case (Some(identity), Some(stored)) =>
        if identity != stored.identity || identity.runId != run then Err(Corrupt)
        else if SelectTransitions in faults then Err(StorageFailure)
        else
          (match Replay(identity, JournalRows(journal, run))
           case None => Err(Corrupt)
           case Some(v) => if v.checkpoint != stored then Err(Corrupt) else Ok(Some(v)))
      case _ => Err(Corrupt)
  }

  lemma ReplayPrefix(identity: RunIdentity, rows: seq<(int, Bytes)>, k: nat)
    requires k < |rows|
    ensures Replay(identity, rows[..k + 1]) ==
            match Replay(identity, rows[..k])
            case None => None
            case Some(v) => ReplayRow(v, k + 1, rows[k])
  {
    assert rows[..k + 1][..k] == rows[..k];
  }

  lemma ReplayStaysNone(identity: RunIdentity, rows: seq<(int, Bytes)>)
    requires rows != [] && Replay(identity, rows[..|rows| - 1]).None?
    ensures Replay(identity, rows).None?
  {
  }

  ghost predicate Fails(identity: RunIdentity, rows: seq<(int, Bytes)>) {
    Replay(identity, rows).None?
  }

  lemma {:induction false} ReplayFailsFromPrefix(identity: RunIdentity, rows: seq<(int, Bytes)>, k: nat)
    requires k <= |rows| && Fails(identity, rows[..k])
    ensures Fails(identity, rows)
  {
    if k == |rows| {
      assert rows[..k] == rows;
    } else {
      var init := rows[..|rows| - 1];
      assert init[..k] == rows[..k];
      ReplayFailsFromPrefix(identity, init, k);
      ReplayStaysNone(identity, rows);
    }
  }

  method CheckRow(identity: RunIdentity, checkpoint: RunCheckpoint, expected: int, row: (int, Bytes))
    returns (r: Option<(RunCheckpoint, LifecycleTransition)>)
    requires checkpoint.identity == identity
    ensures forall events ::
              ReplayRow(ValidRun(checkpoint, events), expected, row)
              == if r.None? then None else Some(ValidRun(r.value.0, events + [r.value.1]))
    ensures r.Some? ==> r.value.0.identity == identity
  {
    if row.0 != expected {
      return None;
    }
    var decoded := DeserializeTransition(row.1);
    TransitionReaderExact(row.1);
    if decoded.None? {
      return None;
    }
    var event := decoded.value;
    var generated := AdvanceLifecycle(
      checkpoint.lifecycle, event.toState, event.occurredAt, event.actor, event.finalState);
    if generated.Err? || generated.value.transition != event {
      return None;
    }
    var made := MakeCheckpoint(identity, generated.value.lifecycle);
    if made.Err? {
      return None;
    }
    return Some((made.value, event));
  }

  method ValidatedRun(runs: Runs, journal: Journal, run: RunId, faults: Faults) returns (r: Validated)
    ensures r == Validate(runs, journal, run, faults)
  {
    if SelectRun in faults {
      return Err(StorageFailure);
    }
    if run !in runs {
      return Ok(None);
    }
    var row := runs[run];
    var decodedIdentity := DeserializeRunIdentity(row.identity);
    var decodedCheckpoint := DeserializeCheckpoint(row.checkpoint);
    IdentityReaderExact(row.identity);
    CheckpointReaderExact(row.checkpoint);
    if decodedIdentity.None? || decodedCheckpoint.None? {
      return Err(Corrupt);
    }
    var identity, stored := decodedIdentity.value, decodedCheckpoint.value;
    if identity != stored.identity || identity.runId != run {
      return Err(Corrupt);
    }
    if SelectTransitions in faults {
      return Err(StorageFailure);
    }
    var rows := SelectJournal(journal, run);
    var replayed := ReplayJournal(identity, rows);
    if replayed.None? || replayed.value.checkpoint != stored {
      return Err(Corrupt);
    }
    return Ok(replayed);
  }

  /** The loop of `_validated_run`, which rebinds `checkpoint` and appends to `events`. */
  method ReplayJournal(identity: RunIdentity, rows: seq<(int, Bytes)>) returns (r: Option<ValidRun>)
    ensures r == Replay(identity, rows)
  {
    var checkpoint := CreateInitialCheckpoint(identity);
    var events: seq<LifecycleTransition> := [];
    var i := 0;
    while i < |rows|
      invariant 0 <= i <= |rows|
      invariant checkpoint.identity == identity
      invariant Replay(identity, rows[..i]) == Some(ValidRun(checkpoint, events))
    {
      ReplayPrefix(identity, rows, i);
      var checked := CheckRow(identity, checkpoint, i + 1, rows[i]);
      if checked.None? {
        ReplayFailsFromPrefix(identity, rows, i + 1);
        return None;
      }
      checkpoint := checked.value.0;
      events := events + [checked.value.1];
      i := i + 1;
    }
    assert rows[..i] == rows;
    return Some(ValidRun(checkpoint, events));
  }

  // ------------------------------------------------------ validation is exact

  function OneTo(n: nat): (s: set<int>)
    ensures forall k :: k in s <==> 1 <= k <= n
  {
    if n == 0 then {} else OneTo(n - 1) + {n}
  }

  /** The rows of one run are, byte for byte, an identity, a chain of events and its last checkpoint. */
  ghost predicate Encodes(row: RunRow, journal: Journal, run: RunId, identity: RunIdentity,
      events: seq<LifecycleTransition>)
  {
    && identity.runId == run
    && Fold(identity, events).Some?
    && row == RunRow(IdentityBytes(identity), CheckpointBytes(Fold(identity, events).value))
    && EncodesJournal(journal, run, events)
  }

  ghost predicate EncodesJournal(journal: Journal, run: RunId, events: seq<LifecycleTransition>) {
    && Revisions(journal, run) == OneTo(|events|)
    && forall k | 0 <= k < |events| ::
         (run, k + 1) in journal && journal[(run, k + 1)] == TransitionBytes(events[k])
  }

  ghost predicate RowsEncode(rows: seq<(int, Bytes)>, events: seq<LifecycleTransition>) {
    |rows| == |events| && forall k | 0 <= k < |events| :: rows[k] == (k + 1, TransitionBytes(events[k]))
  }

  lemma {:induction false} AscendingFrom(s: set<int>, from: int, n: nat)
    requires forall k :: k in s <==> from <= k < from + n
    ensures |Ascending(s)| == n && forall i | 0 <= i < n :: Ascending(s)[i] == from + i
  {
    if n == 0 {
      assert forall k :: k !in s;
    } else {
      assert from in s;
      assert Minimum(s) == from;
      AscendingFrom(s - {from}, from + 1, n - 1);
    }
  }

  lemma EncodedJournalIsSelected(journal: Journal, run: RunId, events: seq<LifecycleTransition>)
    requires EncodesJournal(journal, run, events)
    ensures RowsEncode(JournalRows(journal, run), events)
  {
    AscendingFrom(Revisions(journal, run), 1, |events|);
    var rows := JournalRows(journal, run);
    forall k | 0 <= k < |events| ensures rows[k] == (k + 1, TransitionBytes(events[k])) {
      assert rows[k].0 == k + 1;
    }
  }

  lemma RevisionsFromRows(journal: Journal, run: RunId, n: nat)
    requires |JournalRows(journal, run)| == n
    requires forall k | 0 <= k < n :: JournalRows(journal, run)[k].0 == k + 1
    ensures Revisions(journal, run) == OneTo(n)
  {
    var revisions := Revisions(journal, run);
    var ascending := Ascending(revisions);
    AscendingElements(revisions);
    assert forall k | 0 <= k < n :: ascending[k] == k + 1;
    forall x ensures x in revisions <==> x in OneTo(n) {
      if x in revisions {
        var i :| 0 <= i < |ascending| && ascending[i] == x;
      }
      if x in OneTo(n) {
        assert ascending[x - 1] == x;
      }
    }
  }

  lemma SelectedJournalIsEncoded(journal: Journal, run: RunId, events: seq<LifecycleTransition>)
    requires RowsEncode(JournalRows(journal, run), events)
    ensures EncodesJournal(journal, run, events)
  {
    RevisionsFromRows(journal, run, |events|);
    var rows := JournalRows(journal, run);
    forall k | 0 <= k < |events|
      ensures (run, k + 1) in journal && journal[(run, k + 1)] == TransitionBytes(events[k])
    {
      assert rows[k] == (k + 1, TransitionBytes(events[k]));
    }
  }

  /** The ordered SELECT returns consecutive encoded events exactly when the table holds them. */
  lemma JournalRowsExact(journal: Journal, run: RunId, events: seq<LifecycleTransition>)
    ensures RowsEncode(JournalRows(journal, run), events) <==> EncodesJournal(journal, run, events)
  {
    if EncodesJournal(journal, run, events) {
      EncodedJournalIsSelected(journal, run, events);
    }
    if RowsEncode(JournalRows(journal, run), events) {
      SelectedJournalIsEncoded(journal, run, events);
    }
  }

  lemma ReplayEventExact(v: ValidRun, e: LifecycleTransition)
    ensures ReplayEvent(v, e) ==
            if Continues(v.checkpoint, e) && Permitted(e) then Some(ValidRun(After(v.checkpoint, e), v.events + [e]))
                else None
  {
    ReplayStep(v.checkpoint, e);
  }

  lemma FoldYear(identity: RunIdentity, events: seq<LifecycleTransition>, k: nat)
    requires Fold(identity, events).Some? && k < |events| && YearSurvives(identity.createdAt)
    ensures YearSurvives(events[k].occurredAt)
  {
    AtStep(identity, events, k);
    AtCounts(identity, events, k + 1);
    YearsAgree(identity.createdAt, At(identity, events, k + 1).lifecycle.updatedAt);
  }

  lemma AllPermittedAppend(events: seq<LifecycleTransition>, e: LifecycleTransition)
    ensures AllPermitted(events + [e]) <==> AllPermitted(events) && Permitted(e)
  {
    assert e in events + [e];
    assert forall x | x in events :: x in events + [e];
  }

  lemma ReplayRowSound(v: ValidRun, expected: nat, row: (int, Bytes), w: ValidRun)
    requires ReplayRow(v, expected, row) == Some(w)
    ensures |w.events| > 0 && w.events[..|w.events| - 1] == v.events
    ensures var e := w.events[|w.events| - 1];
            && Continues(v.checkpoint, e) && Permitted(e) && w.checkpoint == After(v.checkpoint, e)
            && row == (expected, TransitionBytes(e))
  {
    var e := TransitionIn(row.1).value;
    ReplayEventExact(v, e);
  }

  lemma ReplayRowComplete(v: ValidRun, expected: nat, e: LifecycleTransition)
    requires Continues(v.checkpoint, e) && Permitted(e) && YearSurvives(e.occurredAt)
    ensures ReplayRow(v, expected, (expected, TransitionBytes(e))) ==
        Some(ValidRun(After(v.checkpoint, e), v.events + [e]))
  {
    assert TransitionIn(TransitionBytes(e)) == Some(e);
    ReplayEventExact(v, e);
  }

  ghost predicate LegalRun(identity: RunIdentity, v: ValidRun) {
    Fold(identity, v.events) == Some(v.checkpoint) && AllPermitted(v.events)
  }

  lemma LegalRunStep(identity: RunIdentity, v: ValidRun, w: ValidRun, e: LifecycleTransition)
    requires LegalRun(identity, v) && Continues(v.checkpoint, e) && Permitted(e)
    requires w == ValidRun(After(v.checkpoint, e), v.events + [e])
    ensures LegalRun(identity, w)
  {
    FoldAppend(identity, v.events, e);
    AllPermittedAppend(v.events, e);
  }

  lemma RowsEncodeStep(rows: seq<(int, Bytes)>, events: seq<LifecycleTransition>, e: LifecycleTransition)
    requires rows != [] && RowsEncode(rows[..|rows| - 1], events) && rows[|rows| - 1] == (|rows|, TransitionBytes(e))
    ensures RowsEncode(rows, events + [e])
  {
    forall k | 0 <= k < |rows| ensures rows[k] == (k + 1, TransitionBytes((events + [e])[k])) {
      if k < |rows| - 1 {
        assert rows[..|rows| - 1][k] == rows[k];
      }
    }
  }

  lemma {:induction false} ReplaySound(identity: RunIdentity, rows: seq<(int, Bytes)>, v: ValidRun)
    requires Replay(identity, rows) == Some(v)
    ensures LegalRun(identity, v) && RowsEncode(rows, v.events)
  {
    if rows != [] {
      var n := |rows| - 1;
      var w := Replay(identity, rows[..n]).value;
      ReplaySound(identity, rows[..n], w);
      ReplayRowSound(w, |rows|, rows[n], v);
      var e := v.events[|v.events| - 1];
      assert v.events == w.events + [e];
      LegalRunStep(identity, w, v, e);
      RowsEncodeStep(rows, w.events, e);
    }
  }

  lemma LegalRunUnstep(identity: RunIdentity, v: ValidRun) returns (w: ValidRun, e: LifecycleTransition)
    requires LegalRun(identity, v) && v.events != [] && YearSurvives(identity.createdAt)
    ensures LegalRun(identity, w) && Continues(w.checkpoint, e) && Permitted(e) && YearSurvives(e.occurredAt)
    ensures v == ValidRun(After(w.checkpoint, e), w.events + [e])
  {
    var m := |v.events| - 1;
    e := v.events[m];
    w := ValidRun(Fold(identity, v.events[..m]).value, v.events[..m]);
    assert v.events == w.events + [e];
    AllPermittedAppend(w.events, e);
    FoldYear(identity, v.events, m);
  }

  lemma {:induction false} ReplayComplete(identity: RunIdentity, rows: seq<(int, Bytes)>, v: ValidRun)
    requires YearSurvives(identity.createdAt) && LegalRun(identity, v) && RowsEncode(rows, v.events)
    ensures Replay(identity, rows) == Some(v)
  {
    if rows != [] {
      var n := |rows| - 1;
      var w, e := LegalRunUnstep(identity, v);
      assert RowsEncode(rows[..n], w.events);
      ReplayComplete(identity, rows[..n], w);
      ReplayRowComplete(w, |rows|, e);
    }
  }

  /** Replaying rows succeeds exactly on the encoding of a legal history, with its checkpoint and events. */
  lemma ReplayExact(identity: RunIdentity, rows: seq<(int, Bytes)>, v: ValidRun)
    requires YearSurvives(identity.createdAt)
    ensures Replay(identity, rows) == Some(v) <==> LegalRun(identity, v) && RowsEncode(rows, v.events)
  {
    if Replay(identity, rows) == Some(v) {
      ReplaySound(identity, rows, v);
    }
    if LegalRun(identity, v) && RowsEncode(rows, v.events) {
      ReplayComplete(identity, rows, v);
    }
  }

  /** The two blobs of a row decode, and agree, exactly when they encode one identity and one checkpoint of it. */
  ghost predicate RowDecodes(row: RunRow, run: RunId, stored: RunCheckpoint) {
    && IdentityIn(row.identity) == Some(stored.identity)
    && CheckpointIn(row.checkpoint) == Some(stored)
    && stored.identity.runId == run
  }

  lemma RowDecodesExact(row: RunRow, run: RunId, stored: RunCheckpoint)
    ensures RowDecodes(row, run, stored) <==>
            && row == RunRow(IdentityBytes(stored.identity), CheckpointBytes(stored))
            && YearSurvives(stored.identity.createdAt) && stored.identity.runId == run
  {
  }

  lemma ValidatedHasParts(runs: Runs, journal: Journal, run: RunId, v: ValidRun)
    requires Validate(runs, journal, run, {}) == Ok(Some(v))
    ensures run in runs && RowDecodes(runs[run], run, v.checkpoint)
    ensures Replay(v.checkpoint.identity, JournalRows(journal, run)) == Some(v)
  {
  }

  lemma PartsValidate(runs: Runs, journal: Journal, run: RunId, v: ValidRun)
    requires run in runs && RowDecodes(runs[run], run, v.checkpoint)
    requires Replay(v.checkpoint.identity, JournalRows(journal, run)) == Some(v)
    ensures Validate(runs, journal, run, {}) == Ok(Some(v))
  {
  }

  /**
   A stored run validates as (checkpoint, events) exactly when its rows are the
   bytes of an identity with this run id and a year that prints with four digits, of a legal list of
   events at revisions 1..n, and of the checkpoint that the events fold to.
   */
  lemma ValidationExact(runs: Runs, journal: Journal, run: RunId, v: ValidRun)
    ensures Validate(runs, journal, run, {}) == Ok(Some(v)) <==>
            && run in runs
            && YearSurvives(v.checkpoint.identity.createdAt)
            && Fold(v.checkpoint.identity, v.events) == Some(v.checkpoint)
            && AllPermitted(v.events)
            && Encodes(runs[run], journal, run, v.checkpoint.identity, v.events)
  {
    if run in runs {
      RowDecodesExact(runs[run], run, v.checkpoint);
      JournalRowsExact(journal, run, v.events);
      if YearSurvives(v.checkpoint.identity.createdAt) {
        ReplayExact(v.checkpoint.identity, JournalRows(journal, run), v);
        if RowDecodes(runs[run], run, v.checkpoint)
            && Replay(v.checkpoint.identity, JournalRows(journal, run)) == Some(v) {
          PartsValidate(runs, journal, run, v);
        }
      }
    }
    if Validate(runs, journal, run, {}) == Ok(Some(v)) {
      ValidatedHasParts(runs, journal, run, v);
    }
  }

  /** A present run that is anything else is reported as corrupt, and only an absent one as absent. */
  lemma ValidationOutcomes(runs: Runs, journal: Journal, run: RunId)
    ensures Validate(runs, journal, run, {}) == Ok(None) <==> run !in runs
    ensures run in runs ==>
              Validate(runs, journal, run, {}) == Err(Corrupt)
              || exists v :: Validate(runs, journal, run, {}) == Ok(Some(v))
  {
  }

  // -------------------------------------------------------------- transactions

  /** What one `initialize` does to the committed rows, and what it answers. */
  ghost function InitializeStep(db: Rows, checkpoint: RunCheckpoint, faults: Faults)
    : (Rows, Result<(), StateStoreErrorCause>)
  {
    var identity := checkpoint.identity;
    if checkpoint != CreateInitialCheckpoint(identity) then (db, Err(Conflict))
    else if Connect in faults || Begin in faults || SelectRun in faults then (db, Err(StorageFailure))
    else if identity.runId in db.runs then (db, Err(AlreadyExists))
    else if InsertRun in faults || Commit in faults then (db, Err(StorageFailure))
    else
      var row := RunRow(IdentityBytes(identity), CheckpointBytes(checkpoint));
      (db.(runs := db.runs[identity.runId := row]), Ok(()))
  }

  /** The rows after an accepted update: one more event, and the checkpoint that follows it. */
  ghost function Appended(db: Rows, u: StateUpdate): Rows
    requires u.expected.identity.runId in db.runs
  {
    var run := u.expected.identity.runId;
    var e := u.advance.transition;
    Rows(db.runs[run := db.runs[run].(checkpoint := CheckpointBytes(NextCheckpoint(u)))],
         db.journal[(run, e.revision as int) := TransitionBytes(e)])
  }

  /**
   The decision of `compare_and_append` on a validated run: both writes or neither, and only on
   the expected checkpoint.
   */
  ghost function AppendTo(db: Rows, validated: Validated, u: StateUpdate, faults: Faults)
    : (Rows, Result<RunCheckpoint, StateStoreErrorCause>)
    requires validated.Ok? && validated.value.Some? ==> u.expected.identity.runId in db.runs
  {
    match validated
    case Err(cause) => (db, Err(cause))
    case Ok(None) => (db, Err(NotFound))
    case Ok(Some(v)) =>
      if v.checkpoint != u.expected then (db, Err(Conflict))
      else if InsertTransition in faults || UpdateCheckpoint in faults || Commit in faults
          then (db, Err(StorageFailure))
      else (Appended(db, u), Ok(NextCheckpoint(u)))
  }

  ghost function AppendStep(db: Rows, u: StateUpdate, faults: Faults)
    : (Rows, Result<RunCheckpoint, StateStoreErrorCause>)
  {
    if Connect in faults || Begin in faults then (db, Err(StorageFailure))
    else AppendTo(db, Validate(db.runs, db.journal, u.expected.identity.runId, faults), u, faults)
  }

  ghost function LoadFrom(validated: Validated): Result<Option<RunCheckpoint>, StateStoreErrorCause> {
    match validated
    case Err(cause) => Err(cause)
    case Ok(None) => Ok(None)
    case Ok(Some(v)) => Ok(Some(v.checkpoint))
  }

  ghost function LoadStep(db: Rows, run: RunId, faults: Faults): Result<Option<RunCheckpoint>, StateStoreErrorCause> {
    if Connect in faults then Err(StorageFailure) else LoadFrom(Validate(db.runs, db.journal, run, faults))
  }

  ghost function HistoryFrom(validated: Validated): Result<seq<LifecycleTransition>, StateStoreErrorCause> {
    match validated
    case Err(cause) => Err(cause)
    case Ok(None) => Err(NotFound)
    case Ok(Some(v)) => Ok(v.events)
  }

  ghost function HistoryStep(db: Rows, run: RunId, faults: Faults)
    : Result<seq<LifecycleTransition>, StateStoreErrorCause>
  {
    if Connect in faults then Err(StorageFailure) else HistoryFrom(Validate(db.runs, db.journal, run, faults))
  }

  lemma ValidateIgnoresUnreachedFaults(runs: Runs, journal: Journal, run: RunId, faults: Faults, v: ValidRun)
    requires Validate(runs, journal, run, faults) == Ok(Some(v))
    ensures Validate(runs, journal, run, {}) == Ok(Some(v))
  {
  }

  /**
   Once the validated checkpoint equals the expected one, the byte comparison of
   the UPDATE must match and the journal key of the INSERT must be free.
   */
  lemma ByteCasAgrees(db: Rows, u: StateUpdate, faults: Faults, v: ValidRun)
    requires Validate(db.runs, db.journal, u.expected.identity.runId, faults) == Ok(Some(v))
        && v.checkpoint == u.expected
    ensures u.expected.identity.runId in db.runs
    ensures db.runs[u.expected.identity.runId].checkpoint == CheckpointBytes(u.expected)
    ensures (u.expected.identity.runId, u.advance.transition.revision as int) !in db.journal
  {
    var run := u.expected.identity.runId;
    ValidateIgnoresUnreachedFaults(db.runs, db.journal, run, faults, v);
    ValidationExact(db.runs, db.journal, run, v);
    FoldCounts(v.checkpoint.identity, v.events);
    assert u.advance.transition.revision == |v.events| + 1;
    assert u.advance.transition.revision !in OneTo(|v.events|);
  }

  class SQLiteStateStore {
    /** The committed rows of the two tables. */
    var runs: Runs
    var journal: Journal

    ghost function Committed(): Rows
      reads this
    {
      Rows(runs, journal)
    }

    constructor ()
      ensures Committed() == Rows(map[], map[])
    {
      runs, journal := map[], map[];
    }

    method Initialize(checkpoint: RunCheckpoint, faults: Faults) returns (r: Result<(), StateStoreErrorCause>)
      modifies this
      ensures (Committed(), r) == InitializeStep(old(Committed()), checkpoint, faults)
    {
      var identity := checkpoint.identity;
      if checkpoint != CreateInitialCheckpoint(identity) {
        return Err(Conflict);
      }
      if Connect in faults || Begin in faults || SelectRun in faults {
        return Err(StorageFailure);
      }
      var working := runs;
      if identity.runId in working {
        return Err(AlreadyExists);
      }
      if InsertRun in faults {
        return Err(StorageFailure);
      }
      var identityBlob := EncodeRunIdentity(identity);
      var checkpointBlob := EncodeCheckpoint(checkpoint);
      working := working[identity.runId := RunRow(identityBlob, checkpointBlob)];
      if Commit in faults {
        return Err(StorageFailure);
      }
      runs := working;
      return Ok(());
    }

    method Load(run: RunId, faults: Faults) returns (r: Result<Option<RunCheckpoint>, StateStoreErrorCause>)
      ensures r == LoadStep(Committed(), run, faults)
    {
      if Connect in faults {
        return Err(StorageFailure);
      }
      var validated := ValidatedRun(runs, journal, run, faults);
      match validated {
        case Err(cause) => return Err(cause);
        case Ok(None) => return Ok(None);
        case Ok(Some(v)) => return Ok(Some(v.checkpoint));
      }
    }

    method CompareAndAppend(u: StateUpdate, faults: Faults) returns (r: Result<RunCheckpoint, StateStoreErrorCause>)
      modifies this
      ensures (Committed(), r) == AppendStep(old(Committed()), u, faults)
    {
      if Connect in faults || Begin in faults {
        return Err(StorageFailure);
      }
      var validated := ValidatedRun(runs, journal, u.expected.identity.runId, faults);
      if validated.Err? {
        return Err(validated.error);
      }
      if validated.value.None? {
        return Err(NotFound);
      }
      var current := validated.value.value.checkpoint;
      if current != u.expected {
        return Err(Conflict);
      }
      r := WriteBoth(u, faults, validated.value.value);
    }

    /** The two writes of `compare_and_append` and its commit, once the current checkpoint is the expected one. */
    method WriteBoth(u: StateUpdate, faults: Faults, ghost v: ValidRun)
      returns (r: Result<RunCheckpoint, StateStoreErrorCause>)
      requires Validate(runs, journal, u.expected.identity.runId, faults) == Ok(Some(v)) && v.checkpoint == u.expected
      modifies this
      ensures u.expected.identity.runId in old(runs)
      ensures (Committed(), r) == AppendTo(old(Committed()), Ok(Some(v)), u, faults)
    {
      var workingRuns, workingJournal := runs, journal;
      var run := u.expected.identity.runId;
      ByteCasAgrees(Committed(), u, faults, v);
      var expectedBytes := EncodeCheckpoint(u.expected);
      var next := NextCheckpoint(u);
      var key := (run, u.advance.transition.revision as int);
      if InsertTransition in faults || key in workingJournal || run !in workingRuns {
        return Err(StorageFailure);
      }
      var event := EncodeTransition(u.advance.transition);
      workingJournal := workingJournal[key := event];
      if UpdateCheckpoint in faults {
        return Err(StorageFailure);
      }
      var rowcount := 0;
      if workingRuns[run].checkpoint == expectedBytes {
        var nextBytes := EncodeCheckpoint(next);
        workingRuns := workingRuns[run := workingRuns[run].(checkpoint := nextBytes)];
        rowcount := 1;
      }
      if rowcount != 1 {
        return Err(Conflict);
      }
      if Commit in faults {
        return Err(StorageFailure);
      }
      runs, journal := workingRuns, workingJournal;
      return Ok(next);
    }

    method History(run: RunId, faults: Faults) returns (r: Result<seq<LifecycleTransition>, StateStoreErrorCause>)
      ensures r == HistoryStep(Committed(), run, faults)
    {
      if Connect in faults {
        return Err(StorageFailure);
      }
      var validated := ValidatedRun(runs, journal, run, faults);
      match validated {
        case Err(cause) => return Err(cause);
        case Ok(None) => return Err(NotFound);
        case Ok(Some(v)) => return Ok(v.events);
      }
    }
  }
}
