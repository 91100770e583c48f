/**
 The lifecycle policy read off its histories: one path of working states, which
 completion may leave at any point. Nothing in these statements goes through the
 transition table.
 */
module StatePaths {
  import opened Results
  import opened Timestamp
  import opened Identity
  import opened Lifecycle
  import opened State

  /** The working states in their order. */
  const PATH: seq<LifecycleState> := [WorkspacePrepared, Building, Verifying, Deciding, ReviewPending]

  /** The state from which the event at a position starts, as long as the run is not completed. */
  function Waypoint(k: nat): LifecycleState
    requires k <= 5
  {
    if k == 0 then ContractBound else PATH[k - 1]
  }

  function Targets(events: seq<LifecycleTransition>): seq<LifecycleState> {
    seq(|events|, k requires 0 <= k < |events| => events[k].toState)
  }

  /** The first states of the path, and then completion or nothing. */
  predicate IsPath(targets: seq<LifecycleState>) {
    || targets <= PATH
    || (targets != [] && targets[|targets| - 1] == Completed && targets[..|targets| - 1] <= PATH)
  }

  /** One event of a history, by its position: what it repeats of the run, and a time that does not fall. */
  predicate IsInPlace(identity: RunIdentity, events: seq<LifecycleTransition>, k: nat)
    requires k < |events|
  {
    && events[k].runId == identity.runId
    && events[k].revision == k + 1
    && events[k].fromState == (if k == 0 then ContractBound else events[k - 1].toState)
    && !Before(events[k].occurredAt, if k == 0 then identity.createdAt else events[k - 1].occurredAt)
  }

  ghost predicate IsHistory(identity: RunIdentity, events: seq<LifecycleTransition>) {
    IsPath(Targets(events)) && forall k | 0 <= k < |events| :: IsInPlace(identity, events, k)
  }

  lemma TableAtWaypoint(k: nat, target: LifecycleState)
    requires k <= 5
    ensures target in AllowedNext(Waypoint(k)) <==> target == Completed || (k < 5 && target == PATH[k])
  {
  }

  lemma EndOf(identity: RunIdentity, events: seq<LifecycleTransition>)
    requires Fold(identity, events).Some?
    ensures var c := Fold(identity, events).value;
            && c.identity == identity && c.lifecycle.revision == |events|
            && c.lifecycle.state == (if events == [] then ContractBound else events[|events| - 1].toState)
            && c.lifecycle.updatedAt == (if events == [] then identity.createdAt else events[|events| - 1].occurredAt)
  {
    FoldCounts(identity, events);
  }

  lemma PathStep(targets: seq<LifecycleState>, target: LifecycleState)
    ensures IsPath(targets + [target]) <==>
              targets <= PATH && (target == Completed || (|targets| < 5 && target == PATH[|targets|]))
  {
    var all := targets + [target];
    assert all[..|targets|] == targets && all[|targets|] == target;
    if all <= PATH {
      assert targets == PATH[..|targets|];
    }
    if targets <= PATH && |targets| < 5 && target == PATH[|targets|] {
      assert all == PATH[..|targets| + 1];
    }
  }

  lemma PathEnd(targets: seq<LifecycleState>)
    requires IsPath(targets) && targets != []
    ensures targets[|targets| - 1] == Completed || (targets <= PATH && targets[|targets| - 1] == Waypoint(|targets|))
    ensures targets <= PATH ==> targets[|targets| - 1] != Completed
  {
  }

  lemma HistoryStep(identity: RunIdentity, events: seq<LifecycleTransition>, e: LifecycleTransition)
    ensures IsHistory(identity, events + [e]) <==>
              IsHistory(identity, events) && IsInPlace(identity, events + [e], |events|)
              && IsPath(Targets(events) + [e.toState])
  {
    var all := events + [e];
    assert Targets(all) == Targets(events) + [e.toState];
    forall k | 0 <= k < |events| ensures IsInPlace(identity, all, k) <==> IsInPlace(identity, events, k) {
    }
    PathStep(Targets(events), e.toState);
  }

  lemma LegalStep(identity: RunIdentity, events: seq<LifecycleTransition>, e: LifecycleTransition)
    ensures Legal(identity, events + [e]) <==>
              Legal(identity, events) && Continues(Fold(identity, events).value, e) && Permitted(e)
  {
    var all := events + [e];
    assert all[..|events|] == events;
    assert forall x :: x in all <==> x in events || x == e;
  }

  lemma ContinuesInPlace(identity: RunIdentity, events: seq<LifecycleTransition>, e: LifecycleTransition)
    requires Fold(identity, events).Some?
    ensures Continues(Fold(identity, events).value, e) <==> IsInPlace(identity, events + [e], |events|)
  {
    EndOf(identity, events);
  }

  /** Where a path stands. */
  function Standing(targets: seq<LifecycleState>): LifecycleState {
    if targets == [] then ContractBound else targets[|targets| - 1]
  }

  lemma TableFollowsPath(targets: seq<LifecycleState>, target: LifecycleState)
    requires IsPath(targets)
    ensures target in AllowedNext(Standing(targets)) <==> IsPath(targets + [target])
  {
    PathStep(targets, target);
    if targets == [] {
      TableAtWaypoint(0, target);
    } else {
      PathEnd(targets);
      if targets <= PATH {
        TableAtWaypoint(|targets|, target);
      }
    }
  }

  lemma StepsAgree(identity: RunIdentity, events: seq<LifecycleTransition>, e: LifecycleTransition)
    requires Legal(identity, events) && IsPath(Targets(events))
    ensures Continues(Fold(identity, events).value, e) && Permitted(e) <==>
              IsInPlace(identity, events + [e], |events|) && IsPath(Targets(events) + [e.toState])
  {
    ContinuesInPlace(identity, events, e);
    TableFollowsPath(Targets(events), e.toState);
    if IsInPlace(identity, events + [e], |events|) {
      assert e.fromState == Standing(Targets(events));
    }
  }

  /**
   A list of events is legal exactly when its targets are the first states of the path,
   followed at most by completion, and every event is in its place: of this run, at its
   revision, from the state before it, and not before the event before it.
   */
  lemma {:induction false} LegalExact(identity: RunIdentity, events: seq<LifecycleTransition>)
    ensures Legal(identity, events) <==> IsHistory(identity, events)
  {
    if events == [] {
      assert Targets(events) == [];
    } else {
      var n := |events| - 1;
      var before, e := events[..n], events[n];
      assert events == before + [e];
      LegalExact(identity, before);
      LegalStep(identity, before, e);
      HistoryStep(identity, before, e);
      if Legal(identity, before) {
        StepsAgree(identity, before, e);
      }
    }
  }

  /** The event that the path, an actor and a final state make of a position. */
  function EventAt(identity: RunIdentity, k: nat, target: LifecycleState, time: Instant, actor: LifecycleActor,
      final: FinalState)
    : LifecycleTransition
    requires k <= 5
  {
    TransitionFields(identity.runId, k + 1, Waypoint(k), target, time, actor, if target.Completed? then Some(final)
        else None)
  }

  function TimeBefore(identity: RunIdentity, times: seq<Instant>, k: nat): Instant
    requires k <= |times|
  {
    if k == 0 then identity.createdAt else times[k - 1]
  }

  /** A way along the path, with a time and an actor for each step. */
  datatype Journey = Journey(
    targets: seq<LifecycleState>, times: seq<Instant>, actors: seq<LifecycleActor>, final: FinalState)

  predicate IsJourney(identity: RunIdentity, j: Journey) {
    && IsPath(j.targets) && |j.times| == |j.actors| == |j.targets| <= 6
    && forall k | 0 <= k < |j.times| :: !Before(j.times[k], TimeBefore(identity, j.times, k))
  }

  function Events(identity: RunIdentity, j: Journey): (events: seq<LifecycleTransition>)
    requires IsJourney(identity, j)
    ensures |events| == |j.targets|
  {
    seq(|j.targets|, k requires 0 <= k < |j.targets| =>
      EventAt(identity, k, j.targets[k], j.times[k], j.actors[k], j.final))
  }

  lemma EventIsInPlace(identity: RunIdentity, j: Journey, k: nat)
    requires IsJourney(identity, j) && k < |j.targets|
    ensures IsInPlace(identity, Events(identity, j), k)
  {
    assert !Before(j.times[k], TimeBefore(identity, j.times, k));
    if k > 0 {
      assert j.targets[k - 1] == PATH[k - 1];
      assert Events(identity, j)[k - 1].occurredAt == j.times[k - 1];
    }
  }

  /** Any way along the path, at any times that do not fall, with any actors, is a legal history. */
  lemma EveryJourneyIsLegal(identity: RunIdentity, j: Journey)
    requires IsJourney(identity, j)
    ensures Legal(identity, Events(identity, j)) && Targets(Events(identity, j)) == j.targets
  {
    forall k | 0 <= k < |j.targets| ensures IsInPlace(identity, Events(identity, j), k) {
      EventIsInPlace(identity, j, k);
    }
    assert Targets(Events(identity, j)) == j.targets;
    LegalExact(identity, Events(identity, j));
  }

  /** Where a state leads: along the path, or to completion. */
  predicate LeadsTo(from: LifecycleState, to: LifecycleState) {
    || (from != Completed && to == Completed)
    || (exists k: nat | k < 5 :: from == Waypoint(k) && to == PATH[k])
  }

  lemma TableExact(from: LifecycleState, to: LifecycleState)
    ensures to in AllowedNext(from) <==> LeadsTo(from, to)
  {
    if from != Completed {
      assert || from == Waypoint(0) || from == Waypoint(1) || from == Waypoint(2)
             || from == Waypoint(3) || from == Waypoint(4) || from == Waypoint(5);
      var k: nat :| k <= 5 && from == Waypoint(k);
      TableAtWaypoint(k, to);
      assert forall j: nat | j <= 5 && Waypoint(j) == from :: j == k;
    }
  }

  /** An advance is refused for the first reason that applies, and otherwise yields the event and the snapshot. */
  lemma AdvanceExact(
    current: RunLifecycle, target: LifecycleState, instant: Instant, actor: LifecycleActor, final: Option<FinalState>)
    ensures AdvanceLifecycle(current, target, instant, actor, final) ==
            if current.state == Completed then Err(TerminalState)
            else if !LeadsTo(current.state, target) then Err(InvalidTransition)
            else if Before(instant, current.updatedAt) then Err(LifecycleErrorCause.TimeRegression)
            else if target == Completed && final == None then Err(FinalStateRequired)
            else if target != Completed && final != None then Err(FinalStateForbidden)
            else Ok(LifecycleAdvance(
                      LifecycleFields(current.runId, target, current.revision + 1, instant, final),
                      TransitionFields(current.runId, current.revision + 1, current.state, target, instant, actor,
                          final)))
  {
    TableExact(current.state, target);
  }
}
