/** Selectors of authorization rules, and the parameter ceilings of all rules that apply. */
module Rules {
  import opened Options
  import opened Outcomes
  import opened Texts
  import opened Reader
  import opened Limits

  // ---- capability selections ----

  datatype CapabilitySelector = CapabilitySelector(ref: string, digest: string) {

    /** `CapabilitySelector.Validate`. */
    predicate Valid() {
      IsIdentity(ref) && IsDigest(digest)
    }
  }

  /** `^[a-z0-9][a-z0-9._/@:-]{0,127}$` */
  predicate IsIdentity(s: string) {
    && 1 <= |s| <= 128 && IsLowerAlnum(s[0])
    && forall i | 0 <= i < |s| :: IsLowerAlnum(s[i]) || s[i] in {'.', '_', '/', '@', ':', '-'}
  }

  predicate IsLowerAlnum(c: char) {
    'a' <= c <= 'z' || '0' <= c <= '9'
  }

  /** `^sha256:[0-9a-f]{64}$` */
  predicate IsDigest(s: string) {
    && |s| == 71 && s[..7] == "sha256:"
    && forall i | 7 <= i < 71 :: '0' <= s[i] <= '9' || 'a' <= s[i] <= 'f'
  }

  type Selection = Option<seq<CapabilitySelector>>

  function Refs(selected: seq<CapabilitySelector>): seq<string> {
    seq(|selected|, i requires 0 <= i < |selected| => selected[i].ref)
  }

  /** Absent, or between 1 and 64 valid identities with pairwise different references. */
  predicate GoodSelection(selected: Selection) {
    selected.Some? ==>
      && 1 <= |selected.value| <= 64
      && (forall i | 0 <= i < |selected.value| :: selected.value[i].Valid())
      && Distinct(Refs(selected.value))
  }

  method ValidateCapabilitySelection(selected: Selection) returns (ok: bool)
    ensures ok <==> GoodSelection(selected)
  {
    if selected.None? {
      return true;
    }
    var list := selected.value;
    if |list| == 0 || |list| > 64 {
      return false;
    }
    var seen: set<string> := {};
    for i := 0 to |list|
      invariant forall j | 0 <= j < i :: list[j].Valid()
      invariant forall r :: r in seen <==> exists j | 0 <= j < i :: list[j].ref == r
      invariant Distinct(Refs(list)[..i])
    {
      if !list[i].Valid() {
        return false;
      }
      if list[i].ref in seen {
        var j :| 0 <= j < i && list[j].ref == list[i].ref;
        assert Refs(list)[j] == Refs(list)[i];
        return false;
      }
      seen := seen + {list[i].ref};
    }
    assert Refs(list)[..|list|] == Refs(list);
    return true;
  }

  /** A selection as the map from reference to digest it stands for; the first entry of a reference counts. */
  function DigestOf(selected: seq<CapabilitySelector>): map<string, string> {
    if selected == [] then map[] else DigestOf(selected[1..])[selected[0].ref := selected[0].digest]
  }

  /** The actual capability is the one implementation selected for its reference. */
  predicate Selects(selected: Selection, actual: CapabilitySelector) {
    && GoodSelection(selected)
    && (selected.Some? ==> actual.ref in DigestOf(selected.value)
                           && DigestOf(selected.value)[actual.ref] == actual.digest)
  }

  lemma {:induction false} LookupIsScan(selected: seq<CapabilitySelector>, actual: CapabilitySelector)
    requires Distinct(Refs(selected))
    ensures actual in selected
       <==> actual.ref in DigestOf(selected) && DigestOf(selected)[actual.ref] == actual.digest
    ensures actual.ref in DigestOf(selected) ==> actual.ref in Refs(selected)
  {
    if selected == [] {
    } else {
      assert Refs(selected) == [selected[0].ref] + Refs(selected[1..]);
      assert Distinct(Refs(selected[1..])) by {
        assert Refs(selected[1..]) == Refs(selected)[1..];
      }
      LookupIsScan(selected[1..], actual);
      assert selected == [selected[0]] + selected[1..];
      assert actual in selected <==> actual == selected[0] || actual in selected[1..];
      forall i | 0 <= i < |selected[1..]| ensures selected[1..][i].ref != selected[0].ref {
        assert Refs(selected)[0] != Refs(selected)[i + 1] == selected[1..][i].ref;
      }
    }
  }

  /** The scan over the list agrees with looking the reference up in the map. */
  method MatchesCapabilities(actual: CapabilitySelector, selected: Selection) returns (b: bool)
    ensures b <==> Selects(selected, actual)
  {
    var ok := ValidateCapabilitySelection(selected);
    if !ok {
      return false;
    }
    if selected.None? {
      return true;
    }
    LookupIsScan(selected.value, actual);
    if !actual.Valid() {
      return false;
    }
    for i := 0 to |selected.value|
      invariant actual !in selected.value[..i]
    {
      if selected.value[i] == actual {
        return true;
      }
    }
    return false;
  }

  // ---- resource selections ----

  predicate IsResourceID(id: string) {
    !Blank(id) && Trimmed(id) && forall i | 0 <= i < |id| :: id[i] !in {'\0', '\r', '\n'}
  }

  /** Exact identities, if given, are nonempty, well formed and distinct, and exclude prefixes. */
  predicate GoodResources(prefixes: seq<string>, ids: Option<seq<string>>) {
    ids.Some? ==>
      && ids.value != [] && prefixes == []
      && (forall i | 0 <= i < |ids.value| :: IsResourceID(ids.value[i]))
      && Distinct(ids.value)
  }

  method ValidateResourceSelection(prefixes: seq<string>, ids: Option<seq<string>>) returns (ok: bool)
    ensures ok <==> GoodResources(prefixes, ids)
  {
    if ids.None? {
      return true;
    }
    if ids.value == [] || prefixes != [] {
      return false;
    }
    var seen: set<string> := {};
    for i := 0 to |ids.value|
      invariant forall j | 0 <= j < i :: IsResourceID(ids.value[j])
      invariant forall id :: id in seen <==> id in ids.value[..i]
      invariant Distinct(ids.value[..i])
    {
      var id := ids.value[i];
      if Blank(id) || !Trimmed(id) || (exists j | 0 <= j < |id| :: id[j] in {'\0', '\r', '\n'}) || id in seen {
        return false;
      }
      seen := seen + {id};
    }
    assert ids.value[..|ids.value|] == ids.value;
    return true;
  }

  /** Byte-exact membership when identities are given, else a prefix, else everything. */
  predicate InScope(resource: string, prefixes: seq<string>, ids: Option<seq<string>>) {
    && GoodResources(prefixes, ids)
    && if ids.Some? then resource in ids.value
       else prefixes == [] || exists i | 0 <= i < |prefixes| :: prefixes[i] <= resource
  }

  method MatchesResources(resource: string, prefixes: seq<string>, ids: Option<seq<string>>) returns (b: bool)
    ensures b <==> InScope(resource, prefixes, ids)
  {
    var ok := ValidateResourceSelection(prefixes, ids);
    if !ok {
      return false;
    }
    if ids.Some? {
      return resource in ids.value;
    }
    if |prefixes| == 0 {
      return true;
    }
    for i := 0 to |prefixes|
      invariant forall j | 0 <= j < i :: !(prefixes[j] <= resource)
    {
      if prefixes[i] <= resource {
        return true;
      }
    }
    return false;
  }

  // ---- rules ----

  datatype AuthorizationRule = AuthorizationRule(
    id: string,
    effect: string,
    providers: seq<string>,
    operations: seq<string>,
    capabilities: Selection,
    resourcePrefixes: seq<string>,
    resourceIDs: Option<seq<string>>,
    parameterLimits: Option<ParameterLimits>)

  /** The action a rule is matched against. */
  datatype Action = Action(provider: string, operation: string, resource: string, capability: CapabilitySelector)

  /** All selectors of the rule match; an empty list of providers or operations selects every one. */
  predicate Applies(rule: AuthorizationRule, action: Action) {
    && (rule.providers == [] || action.provider in rule.providers)
    && (rule.operations == [] || action.operation in rule.operations)
    && InScope(action.resource, rule.resourcePrefixes, rule.resourceIDs)
    && Selects(rule.capabilities, action.capability)
  }

  method MatchesAuthorizationRule(rule: AuthorizationRule, action: Action) returns (b: bool)
    ensures b <==> Applies(rule, action)
  {
    if !((rule.providers == [] || action.provider in rule.providers)
         && (rule.operations == [] || action.operation in rule.operations)) {
      return false;
    }
    b := MatchesResources(action.resource, rule.resourcePrefixes, rule.resourceIDs);
    if b {
      b := MatchesCapabilities(action.capability, rule.capabilities);
    }
  }

  /** The rule does not stand in the way of the parameters. */
  predicate Permits(rule: AuthorizationRule, action: Action, parameters: RawMessage) {
    && GoodSelection(rule.capabilities)
    && (rule.capabilities.Some? ==> action.capability.Valid())
    && (rule.parameterLimits.Some? && Applies(rule, action) ==> Admits(rule.parameterLimits.value, parameters))
  }

  predicate WithinAll(rules: seq<AuthorizationRule>, action: Action, parameters: RawMessage) {
    forall i | 0 <= i < |rules| :: Permits(rules[i], action, parameters)
  }

  predicate UnpaddedRules(rules: seq<AuthorizationRule>) {
    forall i | 0 <= i < |rules| :: rules[i].parameterLimits.Some? ==> Unpadded(rules[i].parameterLimits.value)
  }

  /** The loop looks at the ceiling of this rule. */
  predicate Consults(rule: AuthorizationRule, action: Action) {
    && GoodSelection(rule.capabilities) && (rule.capabilities.Some? ==> action.capability.Valid())
    && rule.parameterLimits.Some? && Applies(rule, action)
  }

  /** `r` is how the check of one rule ends for some orders of the fields of its ceiling. */
  ghost predicate CanCheck(rule: AuthorizationRule, action: Action, parameters: RawMessage, r: Ran) {
    if Consults(rule, action) then CanMatch(rule.parameterLimits.value, parameters, r)
    else r == Ran(GoodSelection(rule.capabilities) && (rule.capabilities.Some? ==> action.capability.Valid()))
  }

  /** The body of the loop in `ParametersWithinCapabilityRules`. */
  method CheckRule(rule: AuthorizationRule, action: Action, parameters: RawMessage) returns (r: Ran)
    ensures CanCheck(rule, action, parameters, r)
    ensures r.Ran? ==> (r.result <==> Permits(rule, action, parameters))
    ensures r.Panicked? ==> rule.parameterLimits.Some? && !Unpadded(rule.parameterLimits.value)
  {
    var good := ValidateCapabilitySelection(rule.capabilities);
    if !good || (rule.capabilities.Some? && !action.capability.Valid()) {
      return Ran(false);
    }
    if rule.parameterLimits.None? {
      return Ran(true);
    }
    var applies := MatchesAuthorizationRule(rule, action);
    if !applies {
      return Ran(true);
    }
    r := rule.parameterLimits.value.Matches(parameters);
  }

  /** `r` is how the loop over the rules can end: the first rule that does not pass ends it. */
  ghost predicate CanBeWithin(rules: seq<AuthorizationRule>, action: Action, parameters: RawMessage, r: Ran) {
    exists n | 0 <= n <= |rules| :: CanEndAt(rules, action, parameters, r, n)
  }

  ghost predicate CanEndAt(rules: seq<AuthorizationRule>, action: Action, parameters: RawMessage, r: Ran, n: nat)
    requires n <= |rules|
  {
    && (forall i | 0 <= i < n :: CanCheck(rules[i], action, parameters, Ran(true)))
    && if n == |rules| then r == Ran(true) else r != Ran(true) && CanCheck(rules[n], action, parameters, r)
  }

  method ParametersWithinCapabilityRules(rules: seq<AuthorizationRule>, action: Action, parameters: RawMessage)
    returns (r: Ran)
    ensures CanBeWithin(rules, action, parameters, r)
    ensures r.Ran? ==> (r.result <==> WithinAll(rules, action, parameters))
    ensures r.Panicked? ==> !UnpaddedRules(rules)
  {
    r := CheckRules(rules, action, parameters);
    WithinDecides(rules, action, parameters, r);
  }

  /** The loop itself. */
  method CheckRules(rules: seq<AuthorizationRule>, action: Action, parameters: RawMessage) returns (r: Ran)
    ensures CanBeWithin(rules, action, parameters, r)
  {
    for i := 0 to |rules|
      invariant forall j | 0 <= j < i :: CanCheck(rules[j], action, parameters, Ran(true))
    {
      var permitted := CheckRule(rules[i], action, parameters);
      if permitted != Ran(true) {
        assert CanEndAt(rules, action, parameters, permitted, i);
        return permitted;
      }
    }
    assert CanEndAt(rules, action, parameters, Ran(true), |rules|);
    return Ran(true);
  }

  predicate CheckingPanics(rule: AuthorizationRule, action: Action, parameters: RawMessage) {
    Consults(rule, action) && MatchingPanics(rule.parameterLimits.value, parameters)
  }

  /** One rule can pass exactly when it permits and does not panic, and can panic exactly when its ceiling does. */
  lemma CheckRuleExact(rule: AuthorizationRule, action: Action, parameters: RawMessage)
    ensures CanCheck(rule, action, parameters, Ran(true))
       <==> Permits(rule, action, parameters) && !CheckingPanics(rule, action, parameters)
    ensures CanCheck(rule, action, parameters, Panicked) <==> CheckingPanics(rule, action, parameters)
    ensures CanCheck(rule, action, parameters, Ran(false)) ==> !Permits(rule, action, parameters)
  {
    if Consults(rule, action) {
      var p := rule.parameterLimits.value;
      MatchesAcceptsIff(p, parameters);
      MatchesPanicsIff(p, parameters);
      if CanMatch(p, parameters, Ran(false)) {
        MatchesDecides(p, parameters, false);
      }
    }
  }

  /** The rule passes, whatever the order of the fields. */
  predicate Passes(rule: AuthorizationRule, action: Action, parameters: RawMessage) {
    Permits(rule, action, parameters) && !CheckingPanics(rule, action, parameters)
  }

  /** The loop can panic exactly at a panicking rule that only passing rules precede; it passes if all rules do. */
  lemma WithinExact(rules: seq<AuthorizationRule>, action: Action, parameters: RawMessage)
    ensures CanBeWithin(rules, action, parameters, Ran(true))
       <==> forall i | 0 <= i < |rules| :: Passes(rules[i], action, parameters)
    ensures CanBeWithin(rules, action, parameters, Panicked)
       <==> exists n | 0 <= n < |rules| :: PanicsAt(rules, action, parameters, n)
  {
    forall i | 0 <= i < |rules|
      ensures CanCheck(rules[i], action, parameters, Ran(true)) <==> Passes(rules[i], action, parameters)
      ensures CanCheck(rules[i], action, parameters, Panicked) <==> CheckingPanics(rules[i], action, parameters)
    {
      CheckRuleExact(rules[i], action, parameters);
    }
    if CanBeWithin(rules, action, parameters, Panicked) {
      var n :| 0 <= n <= |rules| && CanEndAt(rules, action, parameters, Panicked, n);
      assert PanicsAt(rules, action, parameters, n);
    }
    if n :| 0 <= n < |rules| && PanicsAt(rules, action, parameters, n) {
      assert CanEndAt(rules, action, parameters, Panicked, n);
    }
    if forall i | 0 <= i < |rules| :: Passes(rules[i], action, parameters) {
      assert CanEndAt(rules, action, parameters, Ran(true), |rules|);
    }
  }

  predicate PanicsAt(rules: seq<AuthorizationRule>, action: Action, parameters: RawMessage, n: nat)
    requires n < |rules|
  {
    && CheckingPanics(rules[n], action, parameters)
    && forall i | 0 <= i < n :: Passes(rules[i], action, parameters)
  }

  /** A result, if there is one, says whether all rules permit; a panic needs a padded bound. */
  lemma WithinDecides(rules: seq<AuthorizationRule>, action: Action, parameters: RawMessage, r: Ran)
    requires CanBeWithin(rules, action, parameters, r)
    ensures r.Ran? ==> (r.result <==> WithinAll(rules, action, parameters))
    ensures r.Panicked? ==> !UnpaddedRules(rules)
  {
    WithinExact(rules, action, parameters);
    if r == Ran(false) {
      var n :| 0 <= n <= |rules| && CanEndAt(rules, action, parameters, r, n);
      CheckRuleExact(rules[n], action, parameters);
    } else if r == Panicked {
      var n :| 0 <= n < |rules| && PanicsAt(rules, action, parameters, n);
      var p := rules[n].parameterLimits.value;
      MatchesPanicsIff(p, parameters);
      if Unpadded(p) {
        UnpaddedMatches(p, parameters, Panicked);
      }
    }
  }

  /** The entry point without a capability: it refuses every list in which a rule selects capabilities. */
  method ParametersWithinRules(
      rules: seq<AuthorizationRule>, provider: string, operation: string, resource: string, parameters: RawMessage)
    returns (r: Ran)
    ensures forall c: CapabilitySelector ::
        if forall i | 0 <= i < |rules| :: rules[i].capabilities.None? then
          var action := Action(provider, operation, resource, c);
          && CanBeWithin(rules, action, parameters, r)
          && (r.Ran? ==> (r.result <==> WithinAll(rules, action, parameters)))
        else r == Ran(false)
    ensures r.Panicked? ==> !UnpaddedRules(rules)
  {
    for i := 0 to |rules|
      invariant forall j | 0 <= j < i :: rules[j].capabilities.None?
    {
      if rules[i].capabilities.Some? {
        return Ran(false);
      }
    }
    var none := Action(provider, operation, resource, CapabilitySelector("", ""));
    r := ParametersWithinCapabilityRules(rules, none, parameters);
    forall c: CapabilitySelector ensures
        var action := Action(provider, operation, resource, c);
        CanBeWithin(rules, action, parameters, r) && (r.Ran? ==> (r.result <==> WithinAll(rules, action, parameters)))
    {
      var action := Action(provider, operation, resource, c);
      CapabilityIrrelevant(rules, none, action, parameters, r);
      WithinDecides(rules, action, parameters, r);
    }
  }

  lemma CapabilityIrrelevant(
      rules: seq<AuthorizationRule>, a: Action, b: Action, parameters: RawMessage, r: Ran)
    requires b == a.(capability := b.capability)
    requires forall i | 0 <= i < |rules| :: rules[i].capabilities.None?
    requires CanBeWithin(rules, a, parameters, r)
    ensures CanBeWithin(rules, b, parameters, r)
  {
    forall i, s | 0 <= i < |rules| && CanCheck(rules[i], a, parameters, s)
      ensures CanCheck(rules[i], b, parameters, s)
    {
      assert Applies(rules[i], a) <==> Applies(rules[i], b);
    }
    var n :| 0 <= n <= |rules| && CanEndAt(rules, a, parameters, r, n);
    assert CanEndAt(rules, b, parameters, r, n);
  }

  /** Lists of rules intersect: order and repetition are irrelevant, and more rules admit less. */
  lemma RulesIntersect(a: seq<AuthorizationRule>, b: seq<AuthorizationRule>, action: Action, parameters: RawMessage)
    ensures WithinAll(a + b, action, parameters)
       <==> WithinAll(a, action, parameters) && WithinAll(b, action, parameters)
    ensures (forall rule :: rule in a ==> rule in b)
        ==> (WithinAll(b, action, parameters) ==> WithinAll(a, action, parameters))
  {
    var c := a + b;
    if WithinAll(c, action, parameters) {
      forall i | 0 <= i < |a| ensures Permits(a[i], action, parameters) {
        assert c[i] == a[i];
      }
      forall i | 0 <= i < |b| ensures Permits(b[i], action, parameters) {
        assert c[|a| + i] == b[i];
      }
    }
    if (forall rule :: rule in a ==> rule in b) && WithinAll(b, action, parameters) {
      forall i | 0 <= i < |a| ensures Permits(a[i], action, parameters) {
        assert a[i] in b;
      }
    }
  }
}
