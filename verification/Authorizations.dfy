/** Whole authorizations: their validation, the ceilings of a valid one, and the features an issuer declares. */
module Authorizations {
  import opened Options
  import opened Outcomes
  import opened Texts
  import opened JsonTree
  import opened Reader
  import opened Limits
  import opened Ceilings
  import opened Rules

  datatype Authorization = Authorization(
    profileDigest: string,
    policyRelease: string,
    provider: string,
    accountRef: string,
    environments: seq<string>,
    resourcePrefixes: seq<string>,
    resourceIDs: Option<seq<string>>,
    rules: seq<AuthorizationRule>)

  const EFFECTS := {"allow", "deny", "require_approval", "require_typed_capability", "stop_session"}

  predicate NoneBlank(values: seq<string>) {
    forall i | 0 <= i < |values| :: !Blank(values[i])
  }

  predicate GoodRule(rule: AuthorizationRule) {
    && GoodSelection(rule.capabilities)
    && GoodResources(rule.resourcePrefixes, rule.resourceIDs)
    && (rule.parameterLimits.Some?
        ==> rule.effect in {"allow", "require_typed_capability"} && GoodLimits(rule.parameterLimits.value))
    && !Blank(rule.id) && rule.effect in EFFECTS
    && NoneBlank(rule.providers) && NoneBlank(rule.operations) && NoneBlank(rule.resourcePrefixes)
  }

  /** The first `n` rules are good, and no two of them share an identifier. */
  predicate GoodRules(rules: seq<AuthorizationRule>, n: nat)
    requires n <= |rules|
  {
    && (forall i | 0 <= i < n :: GoodRule(rules[i]))
    && forall i, j | 0 <= i < j < n :: rules[i].id != rules[j].id
  }

  function IDs(rules: seq<AuthorizationRule>, n: nat): set<string>
    requires n <= |rules|
  {
    set i | 0 <= i < n :: rules[i].id
  }

  lemma GoodRulesStep(rules: seq<AuthorizationRule>, n: nat)
    requires n < |rules|
    ensures GoodRules(rules, n + 1)
       <==> GoodRules(rules, n) && GoodRule(rules[n]) && rules[n].id !in IDs(rules, n)
    ensures IDs(rules, n + 1) == IDs(rules, n) + {rules[n].id}
  {
  }

  predicate GoodIdentity(a: Authorization) {
    && GoodResources(a.resourcePrefixes, a.resourceIDs)
    && !Blank(a.profileDigest) && !Blank(a.policyRelease) && !Blank(a.provider) && !Blank(a.accountRef)
    && IsDigest(a.profileDigest) && a.environments != [] && a.rules != []
    && NoneBlank(a.environments) && NoneBlank(a.resourcePrefixes)
  }

  predicate GoodAuthorization(a: Authorization) {
    GoodIdentity(a) && GoodRules(a.rules, |a.rules|)
  }

  method ValidateIdentity(a: Authorization) returns (ok: bool)
    ensures ok <==> GoodIdentity(a)
  {
    ok := ValidateResourceSelection(a.resourcePrefixes, a.resourceIDs);
    if !ok || Blank(a.profileDigest) || Blank(a.policyRelease) || Blank(a.provider) || Blank(a.accountRef) {
      return false;
    }
    if !IsDigest(a.profileDigest) || |a.environments| == 0 || |a.rules| == 0 {
      return false;
    }
    ok := CheckNoneBlank(a.environments + a.resourcePrefixes);
    NoneBlankConcat(a.environments, a.resourcePrefixes);
  }

  method CheckNoneBlank(values: seq<string>) returns (ok: bool)
    ensures ok <==> NoneBlank(values)
  {
    for i := 0 to |values|
      invariant forall j | 0 <= j < i :: !Blank(values[j])
    {
      if Blank(values[i]) {
        return false;
      }
    }
    return true;
  }

  lemma NoneBlankConcat(a: seq<string>, b: seq<string>)
    ensures NoneBlank(a + b) <==> NoneBlank(a) && NoneBlank(b)
  {
    var c := a + b;
    if NoneBlank(c) {
      forall i | 0 <= i < |a| ensures !Blank(a[i]) {
        assert c[i] == a[i];
      }
      forall i | 0 <= i < |b| ensures !Blank(b[i]) {
        assert c[|a| + i] == b[i];
      }
    }
  }

  // ---- how validation can end ----

  /** What is checked before the ceiling of a rule. */
  predicate HeadGood(rule: AuthorizationRule) {
    && GoodSelection(rule.capabilities)
    && GoodResources(rule.resourcePrefixes, rule.resourceIDs)
    && (rule.parameterLimits.Some? ==> rule.effect in {"allow", "require_typed_capability"})
  }

  /** What is checked after it. */
  predicate TailGood(rule: AuthorizationRule, seen: set<string>) {
    && !Blank(rule.id) && rule.id !in seen && rule.effect in EFFECTS
    && NoneBlank(rule.providers) && NoneBlank(rule.operations) && NoneBlank(rule.resourcePrefixes)
  }

  ghost predicate CanValidateRule(rule: AuthorizationRule, seen: set<string>, r: Ran) {
    if !HeadGood(rule) then r == Ran(false)
    else if rule.parameterLimits.None? then r == Ran(TailGood(rule, seen))
    else
      || (r != Ran(true) && CanValidate(rule.parameterLimits.value, r))
      || (CanValidate(rule.parameterLimits.value, Ran(true)) && r == Ran(TailGood(rule, seen)))
  }

  /** The loop over the rules can end with `r` at rule `n`, or behind the last one. */
  ghost predicate CanStopAt(rules: seq<AuthorizationRule>, r: Ran, n: nat)
    requires n <= |rules|
  {
    && CanPass(rules, n)
    && if n == |rules| then r == Ran(true) else r != Ran(true) && CanValidateRule(rules[n], IDs(rules, n), r)
  }

  ghost predicate CanPass(rules: seq<AuthorizationRule>, n: nat)
    requires n <= |rules|
  {
    forall i | 0 <= i < n :: CanValidateRule(rules[i], IDs(rules, i), Ran(true))
  }

  ghost predicate CanValidateRules(rules: seq<AuthorizationRule>, r: Ran) {
    exists n | 0 <= n <= |rules| :: CanStopAt(rules, r, n)
  }

  ghost predicate CanValidateAuthorization(a: Authorization, r: Ran) {
    if GoodIdentity(a) then CanValidateRules(a.rules, r) else r == Ran(false)
  }

  predicate RulePanics(rule: AuthorizationRule) {
    HeadGood(rule) && rule.parameterLimits.Some? && ValidationPanics(rule.parameterLimits.value)
  }

  lemma ValidateRuleExact(rule: AuthorizationRule, seen: set<string>)
    ensures CanValidateRule(rule, seen, Ran(true)) <==> GoodRule(rule) && rule.id !in seen && !RulePanics(rule)
    ensures CanValidateRule(rule, seen, Panicked) <==> RulePanics(rule)
    ensures CanValidateRule(rule, seen, Ran(false)) ==> !(GoodRule(rule) && rule.id !in seen)
  {
    if rule.parameterLimits.Some? {
      ValidateAcceptsIff(rule.parameterLimits.value);
      if CanValidate(rule.parameterLimits.value, Ran(false)) {
        ValidateDecides(rule.parameterLimits.value, Ran(false));
      }
    }
  }

  lemma {:induction false} RulesPassIff(rules: seq<AuthorizationRule>, n: nat)
    requires n <= |rules|
    ensures CanPass(rules, n) <==> RulesPass(rules, n)
  {
    if n == 0 {
    } else {
      RulesPassIff(rules, n - 1);
      CanPassStep(rules, n - 1);
      PassStep(rules, n - 1);
      ValidateRuleExact(rules[n - 1], IDs(rules, n - 1));
    }
  }

  lemma CanPassStep(rules: seq<AuthorizationRule>, n: nat)
    requires n < |rules|
    ensures CanPass(rules, n + 1) <==> CanPass(rules, n) && CanValidateRule(rules[n], IDs(rules, n), Ran(true))
  {
  }

  lemma PassStep(rules: seq<AuthorizationRule>, n: nat)
    requires n < |rules|
    ensures RulesPass(rules, n + 1)
       <==> RulesPass(rules, n) && GoodRule(rules[n]) && rules[n].id !in IDs(rules, n) && !RulePanics(rules[n])
  {
    GoodRulesStep(rules, n);
  }

  /** The first `n` rules are good, have distinct identifiers, and do not panic. */
  predicate RulesPass(rules: seq<AuthorizationRule>, n: nat)
    requires n <= |rules|
  {
    GoodRules(rules, n) && forall i | 0 <= i < n :: !RulePanics(rules[i])
  }

  predicate PanicsAtRule(rules: seq<AuthorizationRule>, n: nat)
    requires n < |rules|
  {
    RulesPass(rules, n) && RulePanics(rules[n])
  }

  /** Validation can panic exactly at a panicking rule that only passing rules precede; it passes if all rules do. */
  lemma ValidateRulesExact(rules: seq<AuthorizationRule>)
    ensures CanValidateRules(rules, Ran(true)) <==> RulesPass(rules, |rules|)
    ensures CanValidateRules(rules, Panicked) <==> exists n | 0 <= n < |rules| :: PanicsAtRule(rules, n)
  {
    forall n | 0 <= n < |rules| ensures CanStopAt(rules, Panicked, n) <==> PanicsAtRule(rules, n) {
      RulesPassIff(rules, n);
      ValidateRuleExact(rules[n], IDs(rules, n));
    }
    RulesPassIff(rules, |rules|);
    assert CanStopAt(rules, Ran(true), |rules|) <==> RulesPass(rules, |rules|);
  }

  /** A result, if there is one, says whether the rules are good; a panic needs a padded bound. */
  lemma ValidateRulesDecides(rules: seq<AuthorizationRule>, r: Ran)
    requires CanValidateRules(rules, r)
    ensures r.Ran? ==> (r.result <==> GoodRules(rules, |rules|))
    ensures r.Panicked? ==> !UnpaddedRules(rules)
  {
    ValidateRulesExact(rules);
    var n :| 0 <= n <= |rules| && CanStopAt(rules, r, n);
    if n < |rules| {
      ValidateRuleExact(rules[n], IDs(rules, n));
      if r == Panicked {
        ValidateAcceptsIff(rules[n].parameterLimits.value);
        ValidateDecides(rules[n].parameterLimits.value, Panicked);
      }
    }
  }

  /** An authorization can panic exactly when its identity is good and its rules panic. */
  lemma ValidateAuthorizationExact(a: Authorization)
    ensures CanValidateAuthorization(a, Ran(true)) <==> GoodIdentity(a) && RulesPass(a.rules, |a.rules|)
    ensures CanValidateAuthorization(a, Panicked)
       <==> GoodIdentity(a) && exists n | 0 <= n < |a.rules| :: PanicsAtRule(a.rules, n)
  {
    ValidateRulesExact(a.rules);
  }

  // ---- validation ----

  /** The body of the loop in `Authorization.Validate`, apart from the identifiers already seen. */
  method ValidateRule(rule: AuthorizationRule, seen: set<string>) returns (r: Ran)
    ensures CanValidateRule(rule, seen, r)
    ensures r.Ran? ==> (r.result <==> GoodRule(rule) && rule.id !in seen)
    ensures r.Panicked? ==> rule.parameterLimits.Some? && !Unpadded(rule.parameterLimits.value)
  {
    var ok := ValidateCapabilitySelection(rule.capabilities);
    if !ok {
      return Ran(false);
    }
    ok := ValidateResourceSelection(rule.resourcePrefixes, rule.resourceIDs);
    if !ok {
      return Ran(false);
    }
    if rule.parameterLimits.Some? {
      if rule.effect != "allow" && rule.effect != "require_typed_capability" {
        return Ran(false);
      }
      var valid := rule.parameterLimits.value.Validate();
      ValidateDecides(rule.parameterLimits.value, valid);
      if valid != Ran(true) {
        return valid;
      }
    }
    if Blank(rule.id) || rule.id in seen {
      return Ran(false);
    }
    if rule.effect != "allow" && rule.effect != "deny" && rule.effect != "require_approval"
       && rule.effect != "require_typed_capability" && rule.effect != "stop_session" {
      return Ran(false);
    }
    ok := CheckNoneBlank(rule.providers + rule.operations + rule.resourcePrefixes);
    NoneBlankConcat(rule.providers + rule.operations, rule.resourcePrefixes);
    NoneBlankConcat(rule.providers, rule.operations);
    return Ran(ok);
  }

  /** `Authorization.Validate`. */
  method Validate(a: Authorization) returns (r: Ran)
    ensures CanValidateAuthorization(a, r)
    ensures r.Ran? ==> (r.result <==> GoodAuthorization(a))
    ensures r.Panicked? ==> !UnpaddedRules(a.rules)
  {
    var ok := ValidateIdentity(a);
    if !ok {
      return Ran(false);
    }
    r := ValidateRules(a.rules);
  }

  /** The loop over rules in `Authorization.Validate`. */
  method ValidateRules(rules: seq<AuthorizationRule>) returns (r: Ran)
    ensures CanValidateRules(rules, r)
    ensures r.Ran? ==> (r.result <==> GoodRules(rules, |rules|))
    ensures r.Panicked? ==> !UnpaddedRules(rules)
  {
    var seen: set<string> := {};
    for i := 0 to |rules|
      invariant seen == IDs(rules, i)
      invariant CanPass(rules, i)
    {
      GoodRulesStep(rules, i);
      var valid := ValidateRule(rules[i], seen);
      if valid != Ran(true) {
        assert CanStopAt(rules, valid, i);
        ValidateRulesDecides(rules, valid);
        return valid;
      }
      seen := seen + {rules[i].id};
    }
    assert CanStopAt(rules, Ran(true), |rules|);
    ValidateRulesDecides(rules, Ran(true));
    return Ran(true);
  }

  /** For a valid authorization and capability only the ceilings of the applicable rules decide. */
  lemma WithinIsEveryApplicableCeiling(a: Authorization, action: Action, parameters: RawMessage)
    requires GoodAuthorization(a) && action.capability.Valid()
    ensures WithinAll(a.rules, action, parameters)
       <==> forall rule | rule in a.rules && rule.parameterLimits.Some? && Applies(rule, action) ::
              Decode(parameters).Some? && Accepts(rule.parameterLimits.value, Decode(parameters).value)
  {
    if WithinAll(a.rules, action, parameters) {
      forall rule | rule in a.rules && rule.parameterLimits.Some? && Applies(rule, action)
        ensures Decode(parameters).Some? && Accepts(rule.parameterLimits.value, Decode(parameters).value)
      {
        var i :| 0 <= i < |a.rules| && a.rules[i] == rule;
        assert Permits(a.rules[i], action, parameters);
      }
    } else {
      var i :| 0 <= i < |a.rules| && !Permits(a.rules[i], action, parameters);
      assert GoodRule(a.rules[i]) && a.rules[i] in a.rules;
    }
  }

  /** The decision on an action cannot depend on how its parameters are spelled. */
  lemma EqualParametersSameDecision(rules: seq<AuthorizationRule>, action: Action, a: RawMessage, b: RawMessage)
    requires Decode(a).Some? && Decode(b).Some? && ParameterEqual(Decode(a).value, Decode(b).value)
    ensures WithinAll(rules, action, a) <==> WithinAll(rules, action, b)
    ensures forall r :: CanBeWithin(rules, action, a, r) <==> CanBeWithin(rules, action, b, r)
  {
    forall r ensures CanBeWithin(rules, action, a, r) <==> CanBeWithin(rules, action, b, r) {
      EqualParametersEndAlike(rules, action, a, b, r);
    }
    forall i | 0 <= i < |rules| ensures Permits(rules[i], action, a) <==> Permits(rules[i], action, b) {
      if rules[i].parameterLimits.Some? {
        EqualParametersSameAdmission(rules[i].parameterLimits.value, a, b);
      }
    }
  }

  lemma EqualParametersCheckAlike(rule: AuthorizationRule, action: Action, a: RawMessage, b: RawMessage, r: Ran)
    requires Decode(a).Some? && Decode(b).Some? && ParameterEqual(Decode(a).value, Decode(b).value)
    ensures CanCheck(rule, action, a, r) <==> CanCheck(rule, action, b, r)
  {
    if Consults(rule, action) {
      EqualParametersSameEndings(rule.parameterLimits.value, a, b, r);
    }
  }

  lemma EqualParametersEndAlike(
      rules: seq<AuthorizationRule>, action: Action, a: RawMessage, b: RawMessage, r: Ran)
    requires Decode(a).Some? && Decode(b).Some? && ParameterEqual(Decode(a).value, Decode(b).value)
    ensures CanBeWithin(rules, action, a, r) <==> CanBeWithin(rules, action, b, r)
  {
    forall i, s | 0 <= i < |rules|
      ensures CanCheck(rules[i], action, a, s) <==> CanCheck(rules[i], action, b, s)
    {
      EqualParametersCheckAlike(rules[i], action, a, b, s);
    }
    assert forall n | 0 <= n <= |rules| :: CanEndAt(rules, action, a, r, n) <==> CanEndAt(rules, action, b, r, n);
  }

  /** With nothing else in it a rule is good if it is named and has one of five effects, of which two take a ceiling. */
  lemma EffectsAre(id: string, effect: string, p: ParameterLimits)
    requires !Blank(id) && GoodLimits(p)
    ensures GoodRule(AuthorizationRule(id, effect, [], [], None, [], None, None))
       <==> effect in ["allow", "deny", "require_approval", "require_typed_capability", "stop_session"]
    ensures GoodRule(AuthorizationRule(id, effect, [], [], None, [], None, Some(p)))
       <==> effect in ["allow", "require_typed_capability"]
  {
  }

  // ---- declared features ----

  const EXACT_RESOURCES := "exact_resources_v1"
  const PARAMETER_LIMITS := "parameter_limits_v1"
  const CAPABILITY_BINDINGS := "capability_bindings_v1"

  predicate GoodFeatures(features: seq<string>) {
    && (forall i | 0 <= i < |features| :: features[i] in {EXACT_RESOURCES, PARAMETER_LIMITS, CAPABILITY_BINDINGS})
    && Distinct(features)
  }

  method ValidateAuthorizationFeatures(features: seq<string>) returns (ok: bool)
    ensures ok <==> GoodFeatures(features)
  {
    var seen: set<string> := {};
    for i := 0 to |features|
      invariant forall j | 0 <= j < i :: features[j] in {EXACT_RESOURCES, PARAMETER_LIMITS, CAPABILITY_BINDINGS}
      invariant forall f :: f in seen <==> f in features[..i]
      invariant Distinct(features[..i])
    {
      if features[i] != "exact_resources_v1" && features[i] != "parameter_limits_v1"
         && features[i] != "capability_bindings_v1" {
        return false;
      }
      if features[i] in seen {
        return false;
      }
      seen := seen + {features[i]};
    }
    assert features[..|features|] == features;
    return true;
  }

  /** Every kind of constraint that occurs anywhere in the authorization is among the declared features. */
  predicate Supported(a: Authorization, features: seq<string>) {
    && (a.resourceIDs.Some? ==> EXACT_RESOURCES in features)
    && forall i | 0 <= i < |a.rules| :: SupportedRule(a.rules[i], features)
  }

  predicate SupportedRule(rule: AuthorizationRule, features: seq<string>) {
    && (rule.resourceIDs.Some? ==> EXACT_RESOURCES in features)
    && (rule.parameterLimits.Some? ==> PARAMETER_LIMITS in features)
    && (rule.capabilities.Some? ==> CAPABILITY_BINDINGS in features)
  }

  /** The three kinds of constraint and the names under which they are declared. */
  lemma SupportedByName(a: Authorization, features: seq<string>)
    ensures Supported(a, features)
       <==> && (a.resourceIDs.Some? || (exists i | 0 <= i < |a.rules| :: a.rules[i].resourceIDs.Some?)
                ==> "exact_resources_v1" in features)
            && ((exists i | 0 <= i < |a.rules| :: a.rules[i].parameterLimits.Some?)
                ==> "parameter_limits_v1" in features)
            && ((exists i | 0 <= i < |a.rules| :: a.rules[i].capabilities.Some?)
                ==> "capability_bindings_v1" in features)
  {
    if Supported(a, features) {
      assert forall i | 0 <= i < |a.rules| :: SupportedRule(a.rules[i], features);
    }
  }

  /** Validation comes first, and only it can panic. */
  ghost predicate CanSupport(a: Authorization, features: seq<string>, r: Ran) {
    || (r != Ran(true) && CanValidateAuthorization(a, r))
    || (CanValidateAuthorization(a, Ran(true)) && r == Ran(GoodFeatures(features) && Supported(a, features)))
  }

  method CheckAuthorizationSupport(a: Authorization, features: seq<string>) returns (r: Ran)
    ensures CanSupport(a, features, r)
    ensures r.Ran? ==> (r.result <==> GoodAuthorization(a) && GoodFeatures(features) && Supported(a, features))
    ensures r.Panicked? ==> !UnpaddedRules(a.rules)
  {
    r := Validate(a);
    if r != Ran(true) {
      return;
    }
    var ok := ValidateAuthorizationFeatures(features);
    if !ok {
      return Ran(false);
    }
    var exact, parameters, capabilities := UsedFeatures(a);
    if exact && EXACT_RESOURCES !in features {
      return Ran(false);
    }
    if parameters && PARAMETER_LIMITS !in features {
      return Ran(false);
    }
    if capabilities && CAPABILITY_BINDINGS !in features {
      return Ran(false);
    }
    return Ran(true);
  }

  method UsedFeatures(a: Authorization) returns (exact: bool, parameters: bool, capabilities: bool)
    ensures exact <==> a.resourceIDs.Some? || exists j | 0 <= j < |a.rules| :: a.rules[j].resourceIDs.Some?
    ensures parameters <==> exists j | 0 <= j < |a.rules| :: a.rules[j].parameterLimits.Some?
    ensures capabilities <==> exists j | 0 <= j < |a.rules| :: a.rules[j].capabilities.Some?
  {
    exact, parameters, capabilities := a.resourceIDs.Some?, false, false;
    for i := 0 to |a.rules|
      invariant exact <==> a.resourceIDs.Some? || exists j | 0 <= j < i :: a.rules[j].resourceIDs.Some?
      invariant parameters <==> exists j | 0 <= j < i :: a.rules[j].parameterLimits.Some?
      invariant capabilities <==> exists j | 0 <= j < i :: a.rules[j].capabilities.Some?
    {
      exact := exact || a.rules[i].resourceIDs.Some?;
      parameters := parameters || a.rules[i].parameterLimits.Some?;
      capabilities := capabilities || a.rules[i].capabilities.Some?;
    }
  }
}
