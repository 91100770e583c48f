/** The monotonic lifecycle policy of a run. */
module Lifecycle {
  import opened Results
  import opened Timestamp
  import opened Identity

  datatype LifecycleState =
    | ContractBound | WorkspacePrepared | Building | Verifying | Deciding | ReviewPending | Completed

  datatype FinalState =
    | Succeeded | NoOp | NoProgress | VerifyFailed | PolicyBlocked | BudgetExceeded | Escalated | InfraFailed

  datatype LifecycleErrorCause =
    | InvalidTransition | TerminalState | TimeRegression | FinalStateRequired | FinalStateForbidden

  type LifecycleActor = s: string | IsComponentName(s) witness "a"

  function AllowedNext(s: LifecycleState): set<LifecycleState> {
    match s
    case ContractBound => {WorkspacePrepared, Completed}
    case WorkspacePrepared => {Building, Completed}
    case Building => {Verifying, Completed}
    case Verifying => {Deciding, Completed}
    case Deciding => {ReviewPending, Completed}
    case ReviewPending => {Completed}
    case Completed => {}
  }

  /** Exactly the completed state carries a final state. */
  predicate FinalStateFits(state: LifecycleState, final: Option<FinalState>) {
    state.Completed? <==> final.Some?
  }

  datatype LifecycleFields = LifecycleFields(
    runId: RunId, state: LifecycleState, revision: nat, updatedAt: Instant, finalState: Option<FinalState>)

  /** One lifecycle snapshot. */
  type RunLifecycle = l: LifecycleFields | FinalStateFits(l.state, l.finalState)
    witness LifecycleFields("r", ContractBound, 0, InstantFields(1, 1, 1, 0, 0, 0, 0), None)

  datatype TransitionFields = TransitionFields(
    runId: RunId, revision: nat, fromState: LifecycleState, toState: LifecycleState, occurredAt: Instant,
    actor: LifecycleActor, finalState: Option<FinalState>)

  /** One attributed journal event. */
  type LifecycleTransition = t: TransitionFields | FinalStateFits(t.toState, t.finalState)
    witness TransitionFields("r", 0, ContractBound, ContractBound, InstantFields(1, 1, 1, 0, 0, 0, 0), "a", None)

  datatype LifecycleAdvance = LifecycleAdvance(lifecycle: RunLifecycle, transition: LifecycleTransition)

  function StartLifecycle(identity: RunIdentity): RunLifecycle {
    LifecycleFields(identity.runId, ContractBound, 0, identity.createdAt, None)
  }

  /** Apply one allowed transition; every refusal has its typed cause. */
  function AdvanceLifecycle(
    current: RunLifecycle, target: LifecycleState, instant: Instant, actor: LifecycleActor, final: Option<FinalState>)
    : Result<LifecycleAdvance, LifecycleErrorCause>
  {
    if current.state.Completed? then Err(TerminalState)
    else if target !in AllowedNext(current.state) then Err(InvalidTransition)
    else if Before(instant, current.updatedAt) then Err(TimeRegression)
    else if target.Completed? && final.None? then Err(FinalStateRequired)
    else if !target.Completed? && final.Some? then Err(FinalStateForbidden)
    else
      var revision := current.revision + 1;
      Ok(LifecycleAdvance(
           LifecycleFields(current.runId, target, revision, instant, final),
           TransitionFields(current.runId, revision, current.state, target, instant, actor, final)))
  }

  /** Position on the normal path. */
  function Rank(s: LifecycleState): nat {
    match s
    case ContractBound => 0
    case WorkspacePrepared => 1
    case Building => 2
    case Verifying => 3
    case Deciding => 4
    case ReviewPending => 5
    case Completed => 6
  }
}
