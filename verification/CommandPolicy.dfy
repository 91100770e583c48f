/** Trusted policy that authorizes a command before any executor can observe it. */
module CommandPolicy {
  import opened Results
  import opened Order
  import opened Identity
  import opened Command

  datatype CommandRule = CommandRule(
    action: CommandAction,
    executable: ExecutableId,
    arguments: seq<Argument>,
    workingDirectory: WorkingDirectory,
    environmentNames: seq<VariableName>,
    networkPolicy: NetworkPolicy,
    maxLimits: CommandLimits)

  datatype Actions = Actions(allowed: seq<string>, denied: seq<string>)

  datatype Policy = Policy(policyHash: PolicyHash, actions: Actions, rules: seq<CommandRule>)

  datatype Denial =
    | PolicyHashMismatch
    | ActionDenied
    | ExecutableDenied
    | ArgumentsDenied
    | WorkingDirectoryDenied
    | EnvironmentDenied
    | LimitExceeded

  type Decision = Result<CommandRule, Denial>

  const DENY_ALL := "deny_all"

  /** `_rule_key`. */
  function RuleKey(rule: CommandRule): Key {
    Cons(Text(rule.action), Cons(Text(rule.executable), Cons(Texts(rule.arguments),
    Cons(Text(rule.workingDirectory), Cons(Texts(rule.environmentNames), Cons(Text(DENY_ALL),
    LimitsKey(rule.maxLimits)))))))
  }

  function LimitsKey(l: CommandLimits): Key {
    Cons(Num(l.timeoutMs), Cons(Num(l.terminationGraceMs),
    Cons(Num(l.stdoutMaxBytes), Cons(Num(l.stderrMaxBytes), Nil))))
  }

  /** `CommandRule.__post_init__`. */
  ghost predicate IsRule(rule: CommandRule) {
    StrictlySorted(rule.environmentNames, Text)
  }

  predicate Allows(actions: Actions, action: string) {
    action in actions.allowed && action !in actions.denied
  }

  /** `CommandPolicy.__post_init__`. */
  ghost predicate IsPolicy(p: Policy) {
    && StrictlySorted(p.rules, RuleKey)
    && forall rule <- p.rules :: IsRule(rule) && Allows(p.actions, rule.action)
  }

  /** The two sorting checks as they are written in the constructors of rules and policies. */
  lemma PolicyChecksExact(rule: CommandRule, p: Policy)
    ensures UniqueAndSorted(KeysOf(rule.environmentNames, Text)) <==> IsRule(rule)
    ensures var rulesFit := forall r <- p.rules :: IsRule(r) && Allows(p.actions, r.action);
            UniqueAndSorted(KeysOf(p.rules, RuleKey)) && rulesFit <==> IsPolicy(p)
  {
    SortedByKeyExact(rule.environmentNames, Text);
    SortedByKeyExact(p.rules, RuleKey);
  }

  // ------------------------------------------------------------- specification

  const STAGES: nat := 6

  /** The checks of one rule against one request, in the order in which a denial is attributed. */
  predicate Passes(rule: CommandRule, request: CommandRequest, stage: nat) {
    match stage
    case 0 => rule.action == request.action
    case 1 => rule.executable == request.executable
    case 2 => rule.arguments == request.arguments
    case 3 => rule.workingDirectory == request.workingDirectory
    case 4 =>
      && (forall name <- Names(request.environment) :: name in rule.environmentNames)
      && rule.networkPolicy == request.networkPolicy
    case _ => Within(request.limits, rule.maxLimits)
  }

  predicate Within(requested: CommandLimits, maximum: CommandLimits) {
    && requested.timeoutMs <= maximum.timeoutMs
    && requested.terminationGraceMs <= maximum.terminationGraceMs
    && requested.stdoutMaxBytes <= maximum.stdoutMaxBytes
    && requested.stderrMaxBytes <= maximum.stderrMaxBytes
  }

  predicate Reaches(rule: CommandRule, request: CommandRequest, stages: nat) {
    forall stage | 0 <= stage < stages :: Passes(rule, request, stage)
  }

  predicate Permits(rule: CommandRule, request: CommandRequest) {
    Reaches(rule, request, STAGES)
  }

  function Cause(stage: nat): Denial
    requires stage < STAGES
  {
    match stage
    case 0 => ActionDenied
    case 1 => ExecutableDenied
    case 2 => ArgumentsDenied
    case 3 => WorkingDirectoryDenied
    case 4 => EnvironmentDenied
    case _ => LimitExceeded
  }

  predicate Considers(request: CommandRequest, policy: Policy) {
    request.runIdentity.policyHash == policy.policyHash && Allows(policy.actions, request.action)
  }

  ghost predicate SomeReaches(rules: set<CommandRule>, request: CommandRequest, stages: nat) {
    exists rule :: rule in rules && Reaches(rule, request, stages)
  }

  ghost predicate IsLeastPermitting(rule: CommandRule, rules: set<CommandRule>, request: CommandRequest) {
    && rule in rules && Permits(rule, request)
    && forall other | other in rules && other != rule && Permits(other, request) :: Less(RuleKey(rule), RuleKey(other))
  }

  ghost function RuleSet(policy: Policy): set<CommandRule> {
    set rule <- policy.rules
  }

  /**
   What a decision means. It speaks of the rules only as a set: a success
   names the least rule that permits the request, and a denial names the first
   stage that no rule passes together with every earlier one.
   */
  ghost predicate IsDecision(request: CommandRequest, policy: Policy, decision: Decision) {
    if request.runIdentity.policyHash != policy.policyHash then
      decision == Err(PolicyHashMismatch)
    else if !Allows(policy.actions, request.action) then
      decision == Err(ActionDenied)
    else match decision
      case Ok(rule) => IsLeastPermitting(rule, RuleSet(policy), request)
      case Err(denial) =>
        exists stage: nat :: FirstEmpty(RuleSet(policy), request, stage) && denial == Cause(stage)
  }

  /** Some rule passes every stage before this one, and none passes this one as well. */
  ghost predicate FirstEmpty(rules: set<CommandRule>, request: CommandRequest, stage: nat) {
    && stage < STAGES
    && (stage > 0 ==> SomeReaches(rules, request, stage))
    && !SomeReaches(rules, request, stage + 1)
  }

  /** The number of leading stages that a rule passes. */
  function Depth(rule: CommandRule, request: CommandRequest, from: nat := 0): (depth: nat)
    requires from <= STAGES && Reaches(rule, request, from)
    ensures from <= depth <= STAGES
    ensures Reaches(rule, request, depth) && (depth < STAGES ==> !Passes(rule, request, depth))
    decreases STAGES - from
  {
    if from < STAGES && Passes(rule, request, from) then Depth(rule, request, from + 1) else from
  }

  /** The first rule of greatest depth, which is the one a denial blames or a success names. */
  function Deepest(rules: seq<CommandRule>, request: CommandRequest): (best: CommandRule)
    requires rules != []
    ensures best in rules
    ensures forall rule <- rules :: Depth(rule, request) <= Depth(best, request)
  {
    if |rules| == 1 then rules[0]
    else
      var best := Deepest(rules[1..], request);
      assert rules == [rules[0]] + rules[1..];
      if Depth(rules[0], request) >= Depth(best, request) then rules[0] else best
  }

  function Decide(request: CommandRequest, policy: Policy): Decision {
    if request.runIdentity.policyHash != policy.policyHash then Err(PolicyHashMismatch)
    else if !Allows(policy.actions, request.action) || policy.rules == [] then Err(ActionDenied)
    else
      var best := Deepest(policy.rules, request);
      if Depth(best, request) == STAGES then Ok(best) else Err(Cause(Depth(best, request)))
  }

  // -------------------------------------------------- what a decision is about

  lemma RuleKeyInjective(a: CommandRule, b: CommandRule)
    requires RuleKey(a) == RuleKey(b)
    ensures a == b
  {
    TextInjective(a.action, b.action);
    TextInjective(a.executable, b.executable);
    TextsInjective(a.arguments, b.arguments);
    TextInjective(a.workingDirectory, b.workingDirectory);
    TextsInjective(a.environmentNames, b.environmentNames);
  }

  /** The depth of a rule tells which prefixes of the stages it passes. */
  lemma DepthTells(rule: CommandRule, request: CommandRequest, stages: nat)
    requires stages <= STAGES
    ensures Reaches(rule, request, stages) <==> stages <= Depth(rule, request)
  {
    if Depth(rule, request) < stages {
      assert !Passes(rule, request, Depth(rule, request));
    }
  }

  lemma {:induction false} DeepestIsFirst(rules: seq<CommandRule>, request: CommandRequest, rule: CommandRule,
      key: CommandRule -> Key)
    requires rule in rules && StrictlySorted(rules, key)
    requires Depth(rule, request) == Depth(Deepest(rules, request), request)
    ensures rule == Deepest(rules, request) || Less(key(Deepest(rules, request)), key(rule))
  {
    var best := Deepest(rules, request);
    if best == rules[0] {
      var i :| 0 <= i < |rules| && rules[i] == rule;
    } else {
      assert rule in rules[1..];
      DeepestIsFirst(rules[1..], request, rule, key);
    }
  }

  /** The stage at which the best rule fails. */
  ghost function DenialStage(request: CommandRequest, policy: Policy): nat {
    if policy.rules == [] then 0 else Depth(Deepest(policy.rules, request), request)
  }

  lemma DenialIsFirstEmpty(request: CommandRequest, policy: Policy)
    requires !SomeReaches(RuleSet(policy), request, STAGES)
    ensures FirstEmpty(RuleSet(policy), request, DenialStage(request, policy))
    ensures Considers(request, policy) ==> Decide(request, policy) == Err(Cause(DenialStage(request, policy)))
  {
    if policy.rules != [] {
      var best := Deepest(policy.rules, request);
      assert best in RuleSet(policy);
      DepthTells(best, request, STAGES);
      forall rule | rule in RuleSet(policy) ensures !Reaches(rule, request, DenialStage(request, policy) + 1) {
        DepthTells(rule, request, STAGES);
        DepthTells(rule, request, DenialStage(request, policy) + 1);
      }
    }
  }

  lemma SuccessIsLeastPermitting(request: CommandRequest, policy: Policy)
    requires IsPolicy(policy) && Considers(request, policy)
    requires SomeReaches(RuleSet(policy), request, STAGES)
    ensures Decide(request, policy).Ok?
    ensures IsLeastPermitting(Decide(request, policy).value, RuleSet(policy), request)
  {
    var rule :| rule in RuleSet(policy) && Permits(rule, request);
    var best := Deepest(policy.rules, request);
    DepthTells(rule, request, STAGES);
    forall other | other in RuleSet(policy) && other != best && Permits(other, request)
      ensures Less(RuleKey(best), RuleKey(other))
    {
      DepthTells(other, request, STAGES);
      DeepestIsFirst(policy.rules, request, other, RuleKey);
    }
  }

  lemma DecideDecides(request: CommandRequest, policy: Policy)
    requires IsPolicy(policy)
    ensures IsDecision(request, policy, Decide(request, policy))
  {
    if Considers(request, policy) {
      if SomeReaches(RuleSet(policy), request, STAGES) {
        SuccessIsLeastPermitting(request, policy);
      } else {
        DenialIsFirstEmpty(request, policy);
      }
    }
  }

  lemma PermittedIsNotDenied(rules: set<CommandRule>, rule: CommandRule, request: CommandRequest)
    requires rule in rules && Permits(rule, request)
    ensures forall stage :: !FirstEmpty(rules, request, stage)
  {
    forall stage: nat ensures !FirstEmpty(rules, request, stage) {
      if stage < STAGES {
        assert Reaches(rule, request, stage + 1);
      }
    }
  }

  lemma FewerStagesAreReached(rules: set<CommandRule>, request: CommandRequest, low: nat, high: nat)
    ensures low <= high && SomeReaches(rules, request, high) ==> SomeReaches(rules, request, low)
  {
    if low <= high && SomeReaches(rules, request, high) {
      var rule :| rule in rules && Reaches(rule, request, high);
      assert Reaches(rule, request, low);
    }
  }

  lemma FirstEmptyIsUnique(rules: set<CommandRule>, request: CommandRequest, a: nat, b: nat)
    ensures FirstEmpty(rules, request, a) && FirstEmpty(rules, request, b) ==> a == b
  {
    FewerStagesAreReached(rules, request, a + 1, b);
    FewerStagesAreReached(rules, request, b + 1, a);
  }

  /** A decision is determined by the request, the policy hash, the actions and the set of rules. */
  lemma DecisionIsUnique(request: CommandRequest, p: Policy, d: Decision, p': Policy, d': Decision)
    requires p.policyHash == p'.policyHash && RuleSet(p) == RuleSet(p')
    requires forall action :: Allows(p.actions, action) <==> Allows(p'.actions, action)
    requires IsDecision(request, p, d) && IsDecision(request, p', d')
    ensures d == d'
  {
    if Considers(request, p) {
      var rules := RuleSet(p);
      match (d, d') {
        case (Ok(rule), Ok(rule')) =>
          if rule != rule' {
            LessAsymmetric(RuleKey(rule), RuleKey(rule'));
            assert false;
          }
        case (Ok(rule), Err(_)) => PermittedIsNotDenied(rules, rule, request);
        case (Err(_), Ok(rule)) => PermittedIsNotDenied(rules, rule, request);
        case (Err(a), Err(b)) =>
          var stage: nat :| FirstEmpty(rules, request, stage) && a == Cause(stage);
          var stage': nat :| FirstEmpty(rules, request, stage') && b == Cause(stage');
          FirstEmptyIsUnique(rules, request, stage, stage');
      }
    }
  }

  // ------------------------------------------------------------ staged matching

  /** `[x for x in xs if p(x)]`. */
  function Filter<T>(xs: seq<T>, p: T -> bool): seq<T> {
    if xs == [] then []
    else if p(xs[0]) then [xs[0]] + Filter(xs[1..], p)
    else Filter(xs[1..], p)
  }

  lemma {:induction false} FilterMembers<T>(xs: seq<T>, p: T -> bool, x: T)
    ensures x in Filter(xs, p) <==> x in xs && p(x)
  {
    if xs != [] {
      FilterMembers(xs[1..], p, x);
      assert xs == [xs[0]] + xs[1..];
    }
  }

  /** The rules that pass the given number of stages, in their original order. */
  function Survivors(rules: seq<CommandRule>, request: CommandRequest, stages: nat): seq<CommandRule> {
    Filter(rules, Reaching(request, stages))
  }

  function Reaching(request: CommandRequest, stages: nat): CommandRule -> bool {
    (rule: CommandRule) => Reaches(rule, request, stages)
  }

  lemma {:induction false} FilterAll<T>(xs: seq<T>, p: T -> bool)
    requires forall x <- xs :: p(x)
    ensures Filter(xs, p) == xs
  {
    if xs != [] {
      FilterAll(xs[1..], p);
    }
  }

  lemma {:induction false} FilterNone<T>(xs: seq<T>, p: T -> bool)
    requires forall x <- xs :: !p(x)
    ensures Filter(xs, p) == []
  {
    if xs != [] {
      FilterNone(xs[1..], p);
    }
  }

  lemma {:induction false} FilterTwice<T>(xs: seq<T>, p: T -> bool, q: T -> bool, both: T -> bool)
    requires forall x <- xs :: both(x) <==> p(x) && q(x)
    ensures Filter(Filter(xs, p), q) == Filter(xs, both)
  {
    if xs != [] {
      FilterTwice(xs[1..], p, q, both);
      assert xs[0] in xs;
      if p(xs[0]) {
        assert ([xs[0]] + Filter(xs[1..], p))[1..] == Filter(xs[1..], p);
      }
    }
  }

  lemma AllSurviveNoStage(rules: seq<CommandRule>, request: CommandRequest)
    ensures Survivors(rules, request, 0) == rules
  {
    FilterAll(rules, Reaching(request, 0));
  }

  /** One stage of filtering. */
  lemma StageFilters(rules: seq<CommandRule>, request: CommandRequest, stage: nat, p: CommandRule -> bool)
    requires forall rule :: p(rule) == Passes(rule, request, stage)
    ensures Filter(Survivors(rules, request, stage), p) == Survivors(rules, request, stage + 1)
  {
    var before := Reaching(request, stage);
    var after := Reaching(request, stage + 1);
    forall rule ensures after(rule) <==> before(rule) && p(rule) {
      ReachesNext(rule, request, stage);
    }
    FilterTwice(rules, before, p, after);
  }

  lemma ReachesNext(rule: CommandRule, request: CommandRequest, stage: nat)
    ensures Reaches(rule, request, stage + 1) <==> Reaches(rule, request, stage) && Passes(rule, request, stage)
  {
  }

  lemma SurvivorsReach(policy: Policy, request: CommandRequest, stages: nat)
    ensures SomeReaches(RuleSet(policy), request, stages) <==> Survivors(policy.rules, request, stages) != []
  {
    var survivors := Survivors(policy.rules, request, stages);
    if survivors != [] {
      FilterMembers(policy.rules, Reaching(request, stages), survivors[0]);
    }
    if rule :| rule in RuleSet(policy) && Reaches(rule, request, stages) {
      FilterMembers(policy.rules, Reaching(request, stages), rule);
    }
  }

  /** A stage that leaves no candidate after one that left some decides the cause. */
  lemma EmptyStageDenies(request: CommandRequest, policy: Policy, stage: nat)
    requires Considers(request, policy) && stage < STAGES
    requires stage > 0 ==> Survivors(policy.rules, request, stage) != []
    requires Survivors(policy.rules, request, stage + 1) == []
    ensures Decide(request, policy) == Err(Cause(stage))
  {
    SurvivorsReach(policy, request, stage);
    SurvivorsReach(policy, request, stage + 1);
    SurvivorsReach(policy, request, STAGES);
    FewerStagesAreReached(RuleSet(policy), request, stage + 1, STAGES);
    DenialIsFirstEmpty(request, policy);
    FirstEmptyIsUnique(RuleSet(policy), request, stage, DenialStage(request, policy));
  }

  lemma {:induction false} FirstMatch<T>(xs: seq<T>, p: T -> bool, i: nat)
    requires i < |xs| && p(xs[i]) && forall j | 0 <= j < i :: !p(xs[j])
    ensures Filter(xs, p) != [] && Filter(xs, p)[0] == xs[i]
  {
    if i > 0 {
      FirstMatch(xs[1..], p, i - 1);
    }
  }

  lemma {:induction false} DeepestIsFirstSurvivor(rules: seq<CommandRule>, request: CommandRequest)
    requires Survivors(rules, request, STAGES) != []
    ensures rules != [] && Permits(Deepest(rules, request), request)
    ensures Deepest(rules, request) == Survivors(rules, request, STAGES)[0]
  {
    DepthTells(rules[0], request, STAGES);
    if !Permits(rules[0], request) {
      DeepestIsFirstSurvivor(rules[1..], request);
      DepthTells(Deepest(rules[1..], request), request, STAGES);
    }
  }

  lemma FirstFitDecides(request: CommandRequest, policy: Policy, i: nat)
    requires Considers(request, policy)
    requires var candidates := Survivors(policy.rules, request, STAGES - 1);
             && i < |candidates| && Within(request.limits, candidates[i].maxLimits)
             && forall j | 0 <= j < i :: !Within(request.limits, candidates[j].maxLimits)
    ensures Decide(request, policy) == Ok(Survivors(policy.rules, request, STAGES - 1)[i])
  {
    var p := (rule: CommandRule) => Passes(rule, request, STAGES - 1);
    StageFilters(policy.rules, request, STAGES - 1, p);
    FirstMatch(Survivors(policy.rules, request, STAGES - 1), p, i);
    DeepestIsFirstSurvivor(policy.rules, request);
    DepthTells(Deepest(policy.rules, request), request, STAGES);
  }

  lemma NoFitDenies(request: CommandRequest, policy: Policy)
    requires Considers(request, policy)
    requires var candidates := Survivors(policy.rules, request, STAGES - 1);
             candidates != [] && forall j | 0 <= j < |candidates| :: !Within(request.limits, candidates[j].maxLimits)
    ensures Decide(request, policy) == Err(LimitExceeded)
  {
    var p := (rule: CommandRule) => Passes(rule, request, STAGES - 1);
    var candidates := Survivors(policy.rules, request, STAGES - 1);
    StageFilters(policy.rules, request, STAGES - 1, p);
    FilterNone(candidates, p);
    EmptyStageDenies(request, policy, STAGES - 1);
  }

  /** One list comprehension of `_matching_rule`. */
  method Narrow(ghost policy: Policy, ghost request: CommandRequest, ghost stage: nat, candidates: seq<CommandRule>,
      check: CommandRule -> bool)
    returns (kept: seq<CommandRule>)
    requires candidates == Survivors(policy.rules, request, stage)
    requires forall rule :: check(rule) == Passes(rule, request, stage)
    ensures kept == Survivors(policy.rules, request, stage + 1)
  {
    StageFilters(policy.rules, request, stage, check);
    kept := Filter(candidates, check);
  }

  /** `_matching_rule`: the candidates are narrowed stage by stage, then the first one within its limits wins. */
  method MatchingRule(request: CommandRequest, policy: Policy) returns (decision: Decision)
    ensures decision == Decide(request, policy)
  {
    if request.runIdentity.policyHash != policy.policyHash {
      return Err(PolicyHashMismatch);
    }
    if request.action !in policy.actions.allowed || request.action in policy.actions.denied {
      return Err(ActionDenied);
    }

    AllSurviveNoStage(policy.rules, request);
    var candidates := Narrow(policy, request, 0, policy.rules, (rule: CommandRule) => rule.action == request.action);
    if candidates == [] {
      EmptyStageDenies(request, policy, 0);
      return Err(ActionDenied);
    }

    candidates := Narrow(policy, request, 1, candidates, (rule: CommandRule) => rule.executable == request.executable);
    if candidates == [] {
      EmptyStageDenies(request, policy, 1);
      return Err(ExecutableDenied);
    }

    candidates := Narrow(policy, request, 2, candidates, (rule: CommandRule) => rule.arguments == request.arguments);
    if candidates == [] {
      EmptyStageDenies(request, policy, 2);
      return Err(ArgumentsDenied);
    }

    candidates := Narrow(policy, request, 3, candidates,
        (rule: CommandRule) => rule.workingDirectory == request.workingDirectory);
    if candidates == [] {
      EmptyStageDenies(request, policy, 3);
      return Err(WorkingDirectoryDenied);
    }

    var names := Names(request.environment);
    candidates := Narrow(policy, request, 4, candidates, (rule: CommandRule) =>
      && (forall name <- names :: name in rule.environmentNames)
      && rule.networkPolicy == request.networkPolicy);
    if candidates == [] {
      EmptyStageDenies(request, policy, 4);
      return Err(EnvironmentDenied);
    }

    decision := FirstFit(request, policy, candidates);
  }

  /** The final loop of `_matching_rule`. */
  method FirstFit(request: CommandRequest, ghost policy: Policy, candidates: seq<CommandRule>)
      returns (decision: Decision)
    requires Considers(request, policy)
    requires candidates == Survivors(policy.rules, request, STAGES - 1) && candidates != []
    ensures decision == Decide(request, policy)
  {
    var i := 0;
    while i < |candidates|
      invariant 0 <= i <= |candidates|
      invariant forall j | 0 <= j < i :: !Within(request.limits, candidates[j].maxLimits)
    {
      if Within(request.limits, candidates[i].maxLimits) {
        FirstFitDecides(request, policy, i);
        return Ok(candidates[i]);
      }
      i := i + 1;
    }
    NoFitDenies(request, policy);
    return Err(LimitExceeded);
  }

  // -------------------------------------------------------------- authorization

  /** `AuthorizedCommand`, with the check of its constructor. */
  datatype AuthorizedCommand = AuthorizedCommand(request: CommandRequest, policy: Policy, rule: CommandRule)

  function MakeAuthorizedCommand(request: CommandRequest, policy: Policy, rule: CommandRule)
    : Result<AuthorizedCommand, Option<Denial>>
  {
    match Decide(request, policy)
    case Err(denial) => Err(Some(denial))
    case Ok(found) => if found != rule then Err(None) else Ok(AuthorizedCommand(request, policy, rule))
  }

  function AuthorizeCommand(request: CommandRequest, policy: Policy): Result<AuthorizedCommand, Option<Denial>> {
    match Decide(request, policy)
    case Err(denial) => Err(Some(denial))
    case Ok(rule) => MakeAuthorizedCommand(request, policy, rule)
  }

  /** A request is authorized exactly when some rule of a policy with its hash permits an allowed action. */
  lemma AuthorizationExact(request: CommandRequest, policy: Policy)
    requires IsPolicy(policy)
    ensures AuthorizeCommand(request, policy).Ok? <==>
              && request.runIdentity.policyHash == policy.policyHash
              && request.action in policy.actions.allowed && request.action !in policy.actions.denied
              && exists rule :: rule in policy.rules && Permits(rule, request)
    ensures AuthorizeCommand(request, policy).Ok? ==>
              IsLeastPermitting(AuthorizeCommand(request, policy).value.rule, RuleSet(policy), request)
  {
    DecideDecides(request, policy);
    if rule :| Considers(request, policy) && rule in policy.rules && Permits(rule, request) {
      PermittedIsNotDenied(RuleSet(policy), rule, request);
    }
  }

  /** An authorized command can be built only with the one rule that the policy decides on. */
  lemma OnlyTheDecidedRuleAuthorizes(request: CommandRequest, policy: Policy, rule: CommandRule)
    requires IsPolicy(policy)
    ensures MakeAuthorizedCommand(request, policy, rule).Ok? <==>
              Considers(request, policy) && IsLeastPermitting(rule, RuleSet(policy), request)
    ensures MakeAuthorizedCommand(request, policy, rule).Ok? ==>
              AuthorizeCommand(request, policy) == MakeAuthorizedCommand(request, policy, rule)
  {
    DecideDecides(request, policy);
    if Considers(request, policy) && IsLeastPermitting(rule, RuleSet(policy), request) {
      DecisionIsUnique(request, policy, Decide(request, policy), policy, Ok(rule));
    }
  }

  /** Policies with the same hash, the same allowed actions and the same set of rules are interchangeable. */
  lemma DecisionDependsOnTheRuleSet(request: CommandRequest, p: Policy, q: Policy)
    requires IsPolicy(p) && IsPolicy(q)
    requires p.policyHash == q.policyHash && RuleSet(p) == RuleSet(q)
    requires forall action :: Allows(p.actions, action) <==> Allows(q.actions, action)
    ensures p.rules == q.rules && Decide(request, p) == Decide(request, q)
  {
    assert forall rule :: rule in p.rules <==> rule in RuleSet(p);
    assert forall rule :: rule in q.rules <==> rule in RuleSet(q);
    SortedIsUnique(p.rules, q.rules, RuleKey);
    DecideDecides(request, p);
    DecideDecides(request, q);
    DecisionIsUnique(request, p, Decide(request, p), q, Decide(request, q));
  }

  /** Strictly sorted rules are pairwise distinct even though only their keys are compared. */
  lemma DistinctRulesHaveDistinctKeys(p: Policy, a: CommandRule, b: CommandRule)
    requires IsPolicy(p) && a in p.rules && b in p.rules
    ensures a == b || Less(RuleKey(a), RuleKey(b)) || Less(RuleKey(b), RuleKey(a))
  {
    LessTotal(RuleKey(a), RuleKey(b));
    if RuleKey(a) == RuleKey(b) {
      RuleKeyInjective(a, b);
    }
  }

  /** Asking for fewer variables or lower limits never turns an authorized request into a denied one. */
  lemma AuthorizationIsMonotone(request: CommandRequest, smaller: CommandRequest, policy: Policy, rule: CommandRule)
    requires IsPolicy(policy) && Considers(request, policy) && rule in policy.rules && Permits(rule, request)
    requires smaller == request.(environment := smaller.environment, limits := smaller.limits)
    requires Within(smaller.limits, request.limits)
    requires forall name <- Names(smaller.environment) :: name in Names(request.environment)
    ensures AuthorizeCommand(smaller, policy).Ok?
  {
    AuthorizationExact(smaller, policy);
    forall stage | 0 <= stage < STAGES ensures Passes(rule, smaller, stage) {
      assert Passes(rule, request, stage);
    }
    assert Permits(rule, smaller);
  }
}
