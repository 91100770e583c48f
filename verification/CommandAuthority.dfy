/** What an authorization grants, field by field. */
module CommandAuthority {
  import opened Results
  import opened Order
  import opened Command
  import opened CommandPolicy

  /** The rule names this very command, lists every variable, and is not exceeded in any limit. */
  ghost predicate Grants(rule: CommandRule, request: CommandRequest) {
    && rule.action == request.action
    && rule.executable == request.executable
    && rule.arguments == request.arguments
    && rule.workingDirectory == request.workingDirectory
    && rule.networkPolicy == request.networkPolicy
    && (forall i | 0 <= i < |request.environment| :: request.environment[i].name in rule.environmentNames)
    && request.limits.timeoutMs <= rule.maxLimits.timeoutMs
    && request.limits.terminationGraceMs <= rule.maxLimits.terminationGraceMs
    && request.limits.stdoutMaxBytes <= rule.maxLimits.stdoutMaxBytes
    && request.limits.stderrMaxBytes <= rule.maxLimits.stderrMaxBytes
  }

  lemma VariablesListed(rule: CommandRule, request: CommandRequest)
    ensures (forall name <- Names(request.environment) :: name in rule.environmentNames) <==>
              forall i | 0 <= i < |request.environment| :: request.environment[i].name in rule.environmentNames
  {
    var names := Names(request.environment);
    if forall name <- names :: name in rule.environmentNames {
      forall i | 0 <= i < |request.environment| ensures request.environment[i].name in rule.environmentNames {
        assert names[i] in names;
      }
    }
  }

  lemma PermitsIsGrants(rule: CommandRule, request: CommandRequest)
    ensures Permits(rule, request) <==> Grants(rule, request)
  {
    VariablesListed(rule, request);
    if Permits(rule, request) {
      assert Passes(rule, request, 0) && Passes(rule, request, 1) && Passes(rule, request, 2);
      assert Passes(rule, request, 3) && Passes(rule, request, 4) && Passes(rule, request, 5);
    }
    if Grants(rule, request) {
      forall stage | 0 <= stage < STAGES ensures Passes(rule, request, stage) {
      }
    }
  }

  /**
   A request is authorized exactly when a rule of a policy with its hash grants it and its action
   is allowed, and the authorization names such a rule.
   */
  lemma AuthorizationGrants(request: CommandRequest, policy: Policy)
    requires IsPolicy(policy)
    ensures AuthorizeCommand(request, policy).Ok? <==>
              && request.runIdentity.policyHash == policy.policyHash
              && request.action in policy.actions.allowed && request.action !in policy.actions.denied
              && exists rule :: rule in policy.rules && Grants(rule, request)
    ensures AuthorizeCommand(request, policy).Ok? ==>
              var authorized := AuthorizeCommand(request, policy).value;
              && authorized.request == request && authorized.policy == policy
              && authorized.rule in policy.rules && Grants(authorized.rule, request)
  {
    AuthorizationExact(request, policy);
    forall rule ensures Permits(rule, request) <==> Grants(rule, request) {
      PermitsIsGrants(rule, request);
    }
  }

  /** Otherwise the answer is the denial that the rules decide on. */
  lemma RefusalIsDenial(request: CommandRequest, policy: Policy, denial: Denial)
    ensures AuthorizeCommand(request, policy) == Err(Some(denial)) <==> Decide(request, policy) == Err(denial)
    ensures AuthorizeCommand(request, policy).Err? ==> AuthorizeCommand(request, policy).error.Some?
  {
  }

  /** A request that exceeds every rule in one limit is never authorized. */
  lemma ExcessIsDenied(request: CommandRequest, policy: Policy)
    requires IsPolicy(policy)
    requires || (forall rule <- policy.rules :: request.limits.timeoutMs > rule.maxLimits.timeoutMs)
             || (forall rule <- policy.rules :: request.limits.terminationGraceMs > rule.maxLimits.terminationGraceMs)
             || (forall rule <- policy.rules :: request.limits.stdoutMaxBytes > rule.maxLimits.stdoutMaxBytes)
             || (forall rule <- policy.rules :: request.limits.stderrMaxBytes > rule.maxLimits.stderrMaxBytes)
    ensures AuthorizeCommand(request, policy).Err?
  {
    AuthorizationGrants(request, policy);
  }

  /** Lowering any one limit never loses authorization. */
  lemma LoweringKeepsAuthority(request: CommandRequest, policy: Policy, lower: pos)
    requires IsPolicy(policy) && AuthorizeCommand(request, policy).Ok?
    ensures lower <= request.limits.timeoutMs ==>
              AuthorizeCommand(request.(limits := request.limits.(timeoutMs := lower)), policy).Ok?
    ensures lower <= request.limits.terminationGraceMs ==>
              AuthorizeCommand(request.(limits := request.limits.(terminationGraceMs := lower)), policy).Ok?
    ensures lower <= request.limits.stdoutMaxBytes ==>
              AuthorizeCommand(request.(limits := request.limits.(stdoutMaxBytes := lower)), policy).Ok?
    ensures lower <= request.limits.stderrMaxBytes ==>
              AuthorizeCommand(request.(limits := request.limits.(stderrMaxBytes := lower)), policy).Ok?
  {
    AuthorizationGrants(request, policy);
    var rule := AuthorizeCommand(request, policy).value.rule;
    StaysGranted(request, policy, rule, request.limits.(timeoutMs := lower));
    StaysGranted(request, policy, rule, request.limits.(terminationGraceMs := lower));
    StaysGranted(request, policy, rule, request.limits.(stdoutMaxBytes := lower));
    StaysGranted(request, policy, rule, request.limits.(stderrMaxBytes := lower));
  }

  lemma StaysGranted(request: CommandRequest, policy: Policy, rule: CommandRule, limits: CommandLimits)
    requires IsPolicy(policy) && AuthorizeCommand(request, policy).Ok? && rule in policy.rules && Grants(rule, request)
    ensures && limits.timeoutMs <= request.limits.timeoutMs
            && limits.terminationGraceMs <= request.limits.terminationGraceMs
            && limits.stdoutMaxBytes <= request.limits.stdoutMaxBytes
            && limits.stderrMaxBytes <= request.limits.stderrMaxBytes ==>
              AuthorizeCommand(request.(limits := limits), policy).Ok?
  {
    AuthorizationGrants(request, policy);
    AuthorizationGrants(request.(limits := limits), policy);
    assert Grants(rule, request.(limits := limits)) <==>
      && limits.timeoutMs <= rule.maxLimits.timeoutMs
      && limits.terminationGraceMs <= rule.maxLimits.terminationGraceMs
      && limits.stdoutMaxBytes <= rule.maxLimits.stdoutMaxBytes
      && limits.stderrMaxBytes <= rule.maxLimits.stderrMaxBytes;
  }

  // -------------------------------------------------------------- rule order

  predicate LowerLimits(a: CommandLimits, b: CommandLimits) {
    || a.timeoutMs < b.timeoutMs
    || (a.timeoutMs == b.timeoutMs && a.terminationGraceMs < b.terminationGraceMs)
    || (a.timeoutMs == b.timeoutMs && a.terminationGraceMs == b.terminationGraceMs
        && a.stdoutMaxBytes < b.stdoutMaxBytes)
    || (&& a.timeoutMs == b.timeoutMs && a.terminationGraceMs == b.terminationGraceMs
        && a.stdoutMaxBytes == b.stdoutMaxBytes && a.stderrMaxBytes < b.stderrMaxBytes)
  }

  lemma HeadOrTail(h: Key, t: Key, h': Key, t': Key)
    ensures Less(h, h') ==> Less(Cons(h, t), Cons(h', t'))
    ensures h == h' && Less(t, t') ==> Less(Cons(h, t), Cons(h', t'))
  {
  }

  lemma LimitsOrder(a: CommandLimits, b: CommandLimits)
    ensures LowerLimits(a, b) ==> Less(LimitsKey(a), LimitsKey(b))
  {
    var a3, b3 := Cons(Num(a.stderrMaxBytes), Nil), Cons(Num(b.stderrMaxBytes), Nil);
    var a2, b2 := Cons(Num(a.stdoutMaxBytes), a3), Cons(Num(b.stdoutMaxBytes), b3);
    var a1, b1 := Cons(Num(a.terminationGraceMs), a2), Cons(Num(b.terminationGraceMs), b2);
    HeadOrTail(Num(a.timeoutMs), a1, Num(b.timeoutMs), b1);
    HeadOrTail(Num(a.terminationGraceMs), a2, Num(b.terminationGraceMs), b2);
    HeadOrTail(Num(a.stdoutMaxBytes), a3, Num(b.stdoutMaxBytes), b3);
    HeadOrTail(Num(a.stderrMaxBytes), Nil, Num(b.stderrMaxBytes), Nil);
  }

  /** Rules are ordered by action, executable, arguments, directory, variable names and limits, in this order. */
  lemma RuleOrder(a: CommandRule, b: CommandRule)
    ensures Less(Text(a.action), Text(b.action)) ==> Less(RuleKey(a), RuleKey(b))
    ensures a.action == b.action ==>
              (Less(Text(a.executable), Text(b.executable)) ==> Less(RuleKey(a), RuleKey(b)))
    ensures a.action == b.action && a.executable == b.executable ==>
              (Less(Texts(a.arguments), Texts(b.arguments)) ==> Less(RuleKey(a), RuleKey(b)))
    ensures a.action == b.action && a.executable == b.executable && a.arguments == b.arguments ==>
              (Less(Text(a.workingDirectory), Text(b.workingDirectory)) ==> Less(RuleKey(a), RuleKey(b)))
    ensures && a.action == b.action && a.executable == b.executable && a.arguments == b.arguments
            && a.workingDirectory == b.workingDirectory ==>
              (Less(Texts(a.environmentNames), Texts(b.environmentNames)) ==> Less(RuleKey(a), RuleKey(b)))
    ensures && a.action == b.action && a.executable == b.executable && a.arguments == b.arguments
            && a.workingDirectory == b.workingDirectory && a.environmentNames == b.environmentNames ==>
              (LowerLimits(a.maxLimits, b.maxLimits) ==> Less(RuleKey(a), RuleKey(b)))
  {
    var a5, b5 := Cons(Text(DENY_ALL), LimitsKey(a.maxLimits)), Cons(Text(DENY_ALL), LimitsKey(b.maxLimits));
    var a4, b4 := Cons(Texts(a.environmentNames), a5), Cons(Texts(b.environmentNames), b5);
    var a3, b3 := Cons(Text(a.workingDirectory), a4), Cons(Text(b.workingDirectory), b4);
    var a2, b2 := Cons(Texts(a.arguments), a3), Cons(Texts(b.arguments), b3);
    var a1, b1 := Cons(Text(a.executable), a2), Cons(Text(b.executable), b2);
    HeadOrTail(Text(a.action), a1, Text(b.action), b1);
    HeadOrTail(Text(a.executable), a2, Text(b.executable), b2);
    HeadOrTail(Texts(a.arguments), a3, Texts(b.arguments), b3);
    HeadOrTail(Text(a.workingDirectory), a4, Text(b.workingDirectory), b4);
    HeadOrTail(Texts(a.environmentNames), a5, Texts(b.environmentNames), b5);
    HeadOrTail(Text(DENY_ALL), LimitsKey(a.maxLimits), Text(DENY_ALL), LimitsKey(b.maxLimits));
    LimitsOrder(a.maxLimits, b.maxLimits);
  }
}
