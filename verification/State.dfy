/** Checkpoints, compare-and-swap updates, and the histories they form. */
module State {
  import opened Results
  import opened Timestamp
  import opened Identity
  import opened Lifecycle

  datatype StateInvariantCause = RunMismatch | TimeRegression | RevisionMismatch | StateMismatch | EventMismatch

  datatype CheckpointFields = CheckpointFields(identity: RunIdentity, lifecycle: RunLifecycle)

  predicate CheckpointFits(c: CheckpointFields) {
    c.identity.runId == c.lifecycle.runId && !Before(c.lifecycle.updatedAt, c.identity.createdAt)
  }

  /** `RunCheckpoint.__post_init__`. */
  function MakeCheckpoint(identity: RunIdentity, lifecycle: RunLifecycle): Result<RunCheckpoint, StateInvariantCause> {
    if identity.runId != lifecycle.runId then Err(RunMismatch)
    else if Before(lifecycle.updatedAt, identity.createdAt) then Err(StateInvariantCause.TimeRegression)
    else Ok(CheckpointFields(identity, lifecycle))
  }

  function Initial(identity: RunIdentity): (c: CheckpointFields)
    ensures CheckpointFits(c)
  {
    CheckpointFields(identity, StartLifecycle(identity))
  }

  /** The identity and the current snapshot of one run. */
  type RunCheckpoint = c: CheckpointFields | CheckpointFits(c) ghost witness AnInitial()

  ghost function AnInitial(): (c: CheckpointFields)
    ensures CheckpointFits(c)
  {
    Initial(RunIdentity("r", "c", "v", seq(64, _ => '0'), seq(40, _ => '0'), seq(64, _ => '0'),
                        InstantFields(1, 1, 1, 0, 0, 0, 0)))
  }

  function CreateInitialCheckpoint(identity: RunIdentity): RunCheckpoint {
    Initial(identity)
  }

  datatype UpdateFields = UpdateFields(expected: RunCheckpoint, advance: LifecycleAdvance)

  /** The checks of `StateUpdate.__post_init__`, in the order in which they are made. */
  function UpdateCause(expected: RunCheckpoint, advance: LifecycleAdvance): Option<StateInvariantCause> {
    var current := expected.lifecycle;
    var updated := advance.lifecycle;
    var event := advance.transition;
    if current.runId != updated.runId || current.runId != event.runId then Some(RunMismatch)
    else if updated.revision != current.revision + 1 || event.revision != updated.revision then Some(RevisionMismatch)
    else if event.fromState != current.state || event.toState != updated.state then Some(StateMismatch)
    else if Before(event.occurredAt, current.updatedAt) then Some(StateInvariantCause.TimeRegression)
    else if event.occurredAt != updated.updatedAt || event.finalState != updated.finalState then Some(EventMismatch)
    else None
  }

  /** A compare-and-swap update that its constructor accepts. It need not be an allowed transition. */
  type StateUpdate = u: UpdateFields | UpdateCause(u.expected, u.advance).None? ghost witness AnUpdate()

  ghost function AnUpdate(): (u: UpdateFields)
    ensures UpdateCause(u.expected, u.advance).None?
  {
    var c := AnInitial();
    var t := c.lifecycle.updatedAt;
    UpdateFields(c, LifecycleAdvance(
                      LifecycleFields("r", WorkspacePrepared, 1, t, None),
                      TransitionFields("r", 1, ContractBound, WorkspacePrepared, t, "a", None)))
  }

  function NextCheckpoint(u: StateUpdate): (c: RunCheckpoint) {
    CheckpointFields(u.expected.identity, u.advance.lifecycle)
  }

  datatype PrepareError = Refused(cause: LifecycleErrorCause) | Inconsistent(why: StateInvariantCause)

  function PrepareStateUpdate(
    checkpoint: RunCheckpoint, target: LifecycleState, instant: Instant, actor: LifecycleActor,
        final: Option<FinalState>)
    : Result<StateUpdate, PrepareError>
  {
    match AdvanceLifecycle(checkpoint.lifecycle, target, instant, actor, final)
    case Err(cause) => Err(Refused(cause))
    case Ok(advance) =>
      match UpdateCause(checkpoint, advance)
      case Some(cause) => Err(Inconsistent(cause))
      case None => Ok(UpdateFields(checkpoint, advance))
  }

  /** The transition table's verdict on an event, which `StateUpdate` does not ask for. */
  predicate Permitted(e: LifecycleTransition) {
    e.toState in AllowedNext(e.fromState)
  }

  /** `prepare_state_update` applied to the fields of the update's own event. */
  function Reprepare(u: StateUpdate): Result<StateUpdate, PrepareError> {
    var e := u.advance.transition;
    PrepareStateUpdate(u.expected, e.toState, e.occurredAt, e.actor, e.finalState)
  }

  /**
   An update is what `prepare_state_update` makes of its own event exactly when
   its transition is in the table; otherwise preparing it fails, and why.
   */
  lemma UpdateCharacterization(u: StateUpdate)
    ensures Permitted(u.advance.transition) <==> Reprepare(u) == Ok(u)
    ensures !Permitted(u.advance.transition) ==>
              Reprepare(u) == Err(Refused(
                if u.expected.lifecycle.state.Completed? then TerminalState else InvalidTransition))
  {
  }

  /** What the table allows always passes the constructor, so preparation never fails there. */
  lemma PreparedPassesConstructor(
    c: RunCheckpoint, target: LifecycleState, instant: Instant, actor: LifecycleActor, final: Option<FinalState>)
    ensures !PrepareStateUpdate(c, target, instant, actor, final).Err?
            || PrepareStateUpdate(c, target, instant, actor, final).error.Refused?
    ensures forall u: StateUpdate | PrepareStateUpdate(c, target, instant, actor, final) == Ok(u) ::
              u.expected == c && Permitted(u.advance.transition)
              && u.advance.transition.toState == target && u.advance.transition.occurredAt == instant
              && u.advance.transition.actor == actor && u.advance.transition.finalState == final
  {
  }

  // ------------------------------------------------------ refused components

  /** What each cause means, each read on its own. */
  predicate Violates(c: RunCheckpoint, advance: LifecycleAdvance, cause: StateInvariantCause) {
    var (current, updated, event) := (c.lifecycle, advance.lifecycle, advance.transition);
    match cause
    case RunMismatch => !(current.runId == updated.runId == event.runId)
    case RevisionMismatch => !(current.revision + 1 == updated.revision == event.revision)
    case StateMismatch => (event.fromState, event.toState) != (current.state, updated.state)
    case TimeRegression => Before(event.occurredAt, current.updatedAt)
    case EventMismatch => (event.occurredAt, event.finalState) != (updated.updatedAt, updated.finalState)
  }

  const CAUSES := [RunMismatch, RevisionMismatch, StateMismatch, StateInvariantCause.TimeRegression, EventMismatch]

  /** A refused update is refused for the first cause that it violates, in the order of the checks. */
  lemma FirstViolationIsReported(c: RunCheckpoint, advance: LifecycleAdvance, k: nat)
    requires k < |CAUSES|
    ensures UpdateCause(c, advance) == Some(CAUSES[k]) <==>
              Violates(c, advance, CAUSES[k]) && forall j | 0 <= j < k :: !Violates(c, advance, CAUSES[j])
  {
    var cause := CAUSES[k];
    assert forall j | 0 <= j < k :: CAUSES[j] in CAUSES[..k];
    if (forall j | 0 <= j < k :: !Violates(c, advance, CAUSES[j])) && k > 0 {
      assert !Violates(c, advance, CAUSES[0]) && !Violates(c, advance, CAUSES[k - 1]);
      assert k > 1 ==> !Violates(c, advance, CAUSES[1]);
      assert k > 2 ==> !Violates(c, advance, CAUSES[2]);
    }
  }

  // --------------------------------------------------------------- histories

  /** The event starts where the checkpoint stands; nothing is said about the transition table. */
  predicate Continues(c: RunCheckpoint, e: LifecycleTransition) {
    && e.runId == c.identity.runId
    && e.revision == c.lifecycle.revision + 1
    && e.fromState == c.lifecycle.state
    && !Before(e.occurredAt, c.lifecycle.updatedAt)
  }

  function After(c: RunCheckpoint, e: LifecycleTransition): RunCheckpoint
    requires Continues(c, e)
  {
    CheckpointFields(c.identity, LifecycleFields(e.runId, e.toState, e.revision, e.occurredAt, e.finalState))
  }

  /** The checkpoint that a chain of events leads to, if it is a chain. */
  function Fold(identity: RunIdentity, events: seq<LifecycleTransition>): Option<RunCheckpoint> {
    if events == [] then Some(CreateInitialCheckpoint(identity))
    else
      var n := |events| - 1;
      match Fold(identity, events[..n])
      case None => None
      case Some(c) => if Continues(c, events[n]) then Some(After(c, events[n])) else None
  }

  /** The constructor accepts exactly an event that continues the checkpoint, with the snapshot it leads to. */
  lemma AcceptedUpdateExact(c: RunCheckpoint, advance: LifecycleAdvance)
    ensures UpdateCause(c, advance).None? <==>
              Continues(c, advance.transition) && advance.lifecycle == After(c, advance.transition).lifecycle
  {
  }

  /** A checkpoint is refused for a foreign run first, then for a time before the creation. */
  lemma CheckpointRefusals(identity: RunIdentity, lifecycle: RunLifecycle)
    ensures MakeCheckpoint(identity, lifecycle) == Err(RunMismatch) <==> identity.runId != lifecycle.runId
    ensures MakeCheckpoint(identity, lifecycle) == Err(StateInvariantCause.TimeRegression) <==>
              identity.runId == lifecycle.runId && Before(lifecycle.updatedAt, identity.createdAt)
    ensures MakeCheckpoint(identity, lifecycle).Ok? ==> MakeCheckpoint(identity, lifecycle).value.lifecycle == lifecycle
  {
  }

  ghost predicate AllPermitted(events: seq<LifecycleTransition>) {
    forall e | e in events :: Permitted(e)
  }

  /** A chain every step of which the transition table allows. */
  ghost predicate Legal(identity: RunIdentity, events: seq<LifecycleTransition>) {
    Fold(identity, events).Some? && AllPermitted(events)
  }

  ghost predicate Links(c: RunCheckpoint, e: LifecycleTransition, next: RunCheckpoint) {
    Continues(c, e) && After(c, e) == next
  }

  /** Events fold to the last checkpoint of a chain that they link, from the initial one on. */
  lemma {:induction false} FoldByChain(identity: RunIdentity, events: seq<LifecycleTransition>,
      chain: seq<RunCheckpoint>)
    requires |chain| == |events| + 1 && chain[0] == CreateInitialCheckpoint(identity)
    requires forall i | 0 <= i < |events| :: Links(chain[i], events[i], chain[i + 1])
    ensures Fold(identity, events) == Some(chain[|events|])
  {
    if events != [] {
      var n := |events| - 1;
      FoldByChain(identity, events[..n], chain[..n + 1]);
      assert Links(chain[n], events[n], chain[n + 1]);
    }
  }

  lemma FoldAppend(identity: RunIdentity, events: seq<LifecycleTransition>, e: LifecycleTransition)
    requires Fold(identity, events).Some?
    ensures Fold(identity, events + [e]) ==
            if Continues(Fold(identity, events).value, e) then Some(After(Fold(identity, events).value, e)) else None
  {
    assert (events + [e])[..|events|] == events;
  }

  lemma {:induction false} FoldPrefix(identity: RunIdentity, events: seq<LifecycleTransition>, k: nat)
    requires Fold(identity, events).Some? && k <= |events|
    ensures Fold(identity, events[..k]).Some?
  {
    if k == |events| {
      assert events[..k] == events;
    } else {
      var n := |events| - 1;
      FoldPrefix(identity, events[..n], k);
      assert events[..n][..k] == events[..k];
    }
  }

  /** The identity never changes and the revision counts the events. */
  lemma {:induction false} FoldCounts(identity: RunIdentity, events: seq<LifecycleTransition>)
    requires Fold(identity, events).Some?
    ensures Fold(identity, events).value.identity == identity
    ensures Fold(identity, events).value.lifecycle.revision == |events|
    ensures Fold(identity, events).value.lifecycle.runId == identity.runId
  {
    if events != [] {
      FoldCounts(identity, events[..|events| - 1]);
    }
  }

  /** The checkpoint after the first k events. */
  ghost function At(identity: RunIdentity, events: seq<LifecycleTransition>, k: nat): RunCheckpoint
    requires Fold(identity, events).Some? && k <= |events|
  {
    FoldPrefix(identity, events, k);
    Fold(identity, events[..k]).value
  }

  /** Each event is the step between the checkpoints before and after it. */
  lemma AtStep(identity: RunIdentity, events: seq<LifecycleTransition>, k: nat)
    requires Fold(identity, events).Some? && k < |events|
    ensures Continues(At(identity, events, k), events[k])
    ensures At(identity, events, k + 1) == After(At(identity, events, k), events[k])
  {
    FoldPrefix(identity, events, k + 1);
    assert events[..k + 1][..k] == events[..k];
  }

  lemma AtCounts(identity: RunIdentity, events: seq<LifecycleTransition>, k: nat)
    requires Fold(identity, events).Some? && k <= |events|
    ensures At(identity, events, k).identity == identity
    ensures At(identity, events, k).lifecycle.revision == k
  {
    FoldPrefix(identity, events, k);
    FoldCounts(identity, events[..k]);
  }

  ghost function TimeAt(identity: RunIdentity, events: seq<LifecycleTransition>, k: nat): Instant
    requires Fold(identity, events).Some? && k <= |events|
  {
    At(identity, events, k).lifecycle.updatedAt
  }

  lemma TimeStep(identity: RunIdentity, events: seq<LifecycleTransition>, k: nat)
    requires Fold(identity, events).Some? && k < |events|
    ensures !Before(TimeAt(identity, events, k + 1), TimeAt(identity, events, k))
  {
    AtStep(identity, events, k);
  }

  lemma NotBeforeIsTransitive(a: Instant, b: Instant, c: Instant)
    requires !Before(b, a) && !Before(c, b)
    ensures !Before(c, a)
  {
  }

  lemma {:induction false} TimesNeverFall(identity: RunIdentity, events: seq<LifecycleTransition>, i: nat, j: nat)
    requires Fold(identity, events).Some? && i <= j <= |events|
    ensures !Before(TimeAt(identity, events, j), TimeAt(identity, events, i))
    decreases j - i
  {
    if i < j {
      TimesNeverFall(identity, events, i, j - 1);
      TimeStep(identity, events, j - 1);
      NotBeforeIsTransitive(TimeAt(identity, events, i), TimeAt(identity, events, j - 1), TimeAt(identity, events, j));
    }
  }

  lemma PermittedClimbs(e: LifecycleTransition)
    requires Permitted(e)
    ensures Rank(e.fromState) < Rank(e.toState)
  {
  }

  lemma {:induction false} RanksClimb(identity: RunIdentity, events: seq<LifecycleTransition>, k: nat)
    requires Legal(identity, events) && k <= |events|
    ensures k <= Rank(At(identity, events, k).lifecycle.state)
  {
    if k > 0 {
      RanksClimb(identity, events, k - 1);
      AtStep(identity, events, k - 1);
      assert events[k - 1] in events;
      PermittedClimbs(events[k - 1]);
    }
  }

  lemma EventShape(identity: RunIdentity, events: seq<LifecycleTransition>, k: nat)
    requires Legal(identity, events) && k < |events|
    ensures events[k].revision == k + 1 && events[k].runId == identity.runId
    ensures Rank(events[k].fromState) < Rank(events[k].toState)
    ensures !Before(events[k].occurredAt, identity.createdAt)
    ensures At(identity, events, k).lifecycle.state == events[k].fromState
    ensures At(identity, events, k + 1).lifecycle.state == events[k].toState
    ensures At(identity, events, k + 1).lifecycle.updatedAt == events[k].occurredAt
  {
    AtStep(identity, events, k);
    AtCounts(identity, events, k);
    AtCounts(identity, events, k + 1);
    assert events[k] in events;
    PermittedClimbs(events[k]);
  }

  /** Every legal history climbs: revisions count up from one, states rise, and six transitions are the most. */
  lemma HistoryClimbs(identity: RunIdentity, events: seq<LifecycleTransition>)
    requires Legal(identity, events)
    ensures |events| <= 6
    ensures forall k | 0 <= k < |events| :: events[k].revision == k + 1 && events[k].runId == identity.runId
    ensures forall k | 0 <= k < |events| :: Rank(events[k].fromState) < Rank(events[k].toState)
  {
    RanksClimb(identity, events, |events|);
    forall k | 0 <= k < |events|
      ensures events[k].revision == k + 1 && events[k].runId == identity.runId
      ensures Rank(events[k].fromState) < Rank(events[k].toState)
    {
      EventShape(identity, events, k);
    }
  }

  /** Times along a legal history never fall below the creation time or an earlier event. */
  lemma HistoryTimes(identity: RunIdentity, events: seq<LifecycleTransition>, i: nat, k: nat)
    requires Legal(identity, events) && i <= k < |events|
    ensures !Before(events[k].occurredAt, events[i].occurredAt)
    ensures !Before(events[k].occurredAt, identity.createdAt)
  {
    EventShape(identity, events, i);
    EventShape(identity, events, k);
    TimesNeverFall(identity, events, i + 1, k + 1);
  }

  /** A final state is carried by the last event or by none, and then the run is completed for good. */
  lemma FinalStateIsLast(identity: RunIdentity, events: seq<LifecycleTransition>, k: nat)
    requires Legal(identity, events) && k < |events|
    ensures events[k].finalState.Some? ==> k == |events| - 1
    ensures events[k].finalState.Some? <==> At(identity, events, k + 1).lifecycle.state.Completed?
  {
    EventShape(identity, events, k);
    if k + 1 < |events| {
      EventShape(identity, events, k + 1);
    }
  }

  /** Replaying an event through the policy reproduces it exactly when it continues the chain and is permitted. */
  lemma ReplayStep(c: RunCheckpoint, e: LifecycleTransition)
    ensures
      var advanced := AdvanceLifecycle(c.lifecycle, e.toState, e.occurredAt, e.actor, e.finalState);
      && ((advanced.Ok? && advanced.value.transition == e) <==> (Continues(c, e) && Permitted(e)))
      && (Continues(c, e) && Permitted(e) ==> advanced.value.lifecycle == After(c, e).lifecycle)
  {
  }
}
