/** Which valid ceilings some message can satisfy: not those that require a padded field or a value nested too deep. */
module Satisfiability {
  import opened Options
  import opened Outcomes
  import opened Numbers
  import opened Exactness
  import opened JsonTree
  import opened Reader
  import opened Grammar
  import opened Encoder
  import opened Digests
  import opened Limits
  import opened Ceilings

  // ---- supplying the required fields ----

  /** As a member of a message a value lies one level deeper than it does in the list of allowed values. */
  predicate FitsBelow(raw: RawMessage) {
    Decode(raw).Some? && Readable(Decode(raw).value, 1)
  }

  predicate Reachable(limit: ParameterLimit) {
    limit.Allowed() == [] || exists i | 0 <= i < |limit.Allowed()| :: FitsBelow(limit.Allowed()[i])
  }

  function Required(p: ParameterLimits): set<string>
    requires p.fields.Some?
  {
    set k | k in p.fields.value && !p.fields.value[k].optional
  }

  /** A tree that supplies accepted values to unpadded fields, the required ones among them, passes. */
  lemma SuppliedFieldsPass(p: ParameterLimits, values: map<string, Json>)
    requires GoodLimits(p) && Required(p) <= values.Keys <= p.fields.value.Keys
    requires forall k | k in values :: FieldAccepts(p.fields.value[k], values[k]) && UnpaddedField(p.fields.value[k])
    ensures CanMatchValid(p, Some(Object(values)), Ran(true))
  {
    var f := p.fields.value;
    FieldMatchesExact(p, values, Ran(true));
    forall k | k in f ensures FieldHolds(f[k], values, k) && !ValuePanics(f, values, k) {
      if k in values {
        AcceptedValuePanicsIff(k, f[k], values[k]);
      } else {
        assert k !in Required(p);
      }
    }
  }

  /** Conversely, every required field is supplied with a value that it accepts, and is unpadded. */
  lemma PassingSuppliesFields(p: ParameterLimits, values: map<string, Json>, k: string)
    requires GoodLimits(p) && k in Required(p) && CanMatchValid(p, Some(Object(values)), Ran(true))
    ensures k in values && FieldAccepts(p.fields.value[k], values[k]) && UnpaddedField(p.fields.value[k])
  {
    FieldMatchesExact(p, values, Ran(true));
    var f := p.fields.value;
    assert FieldHolds(f[k], values, k) && !ValuePanics(f, values, k);
    AcceptedValuePanicsIff(k, f[k], values[k]);
  }

  /** A valid ceiling can accept some tree if and only if no required field has a padded bound. */
  lemma TreeSatisfiableIff(p: ParameterLimits)
    requires CanValidate(p, Ran(true))
    ensures (exists v :: CanMatchValid(p, Some(v), Ran(true)))
       <==> forall k | k in Required(p) :: UnpaddedField(p.fields.value[k])
  {
    ValidateAcceptsIff(p);
    var f := p.fields.value;
    forall v, k | CanMatchValid(p, Some(v), Ran(true)) && k in Required(p) ensures UnpaddedField(f[k]) {
      PassingSuppliesFields(p, v.fields, k);
    }
    if forall k | k in Required(p) :: UnpaddedField(f[k]) {
      var values := map k | k in Required(p) :: Witness(f[k]);
      forall k | k in values ensures FieldAccepts(f[k], values[k]) {
        WitnessAccepted(k, f[k]);
      }
      SuppliedFieldsPass(p, values);
    }
  }

  // ---- depth ----

  /** Values with one meaning are nested alike. */
  lemma {:induction false} SameMeaningSameDepth(a: Json, b: Json, depth: nat)
    requires Meaning(a) == Meaning(b) && Readable(a, depth) && AcceptedTree(b)
    ensures Readable(b, depth)
    decreases b
  {
    SameMeaningSameShape(a, b);
    if b.Object? {
      assert a.fields.Keys == Meaning(a).fields.Keys == Meaning(b).fields.Keys == b.fields.Keys;
      forall k | k in b.fields ensures Readable(b.fields[k], depth + 1) {
        assert Meaning(a.fields[k]) == Meaning(a).fields[k] == Meaning(b).fields[k] == Meaning(b.fields[k]);
        SameMeaningSameDepth(a.fields[k], b.fields[k], depth + 1);
      }
    } else if b.Array? {
      assert |a.items| == |Meaning(a).items| == |Meaning(b).items| == |b.items|;
      forall i | 0 <= i < |b.items| ensures Readable(b.items[i], depth + 1) {
        assert Meaning(a.items[i]) == Meaning(a).items[i] == Meaning(b).items[i] == Meaning(b.items[i]);
        SameMeaningSameDepth(a.items[i], b.items[i], depth + 1);
      }
    }
  }

  /** A field accepts some value that can stand in a message if and only if it is reachable. */
  lemma ReachableIff(key: string, limit: ParameterLimit)
    requires GoodField(key, limit)
    ensures (exists v :: FieldAccepts(limit, v) && Readable(v, 1)) <==> Reachable(limit)
  {
    forall v | FieldAccepts(limit, v) && Readable(v, 1) ensures Reachable(limit) {
      if limit.Allowed() != [] {
        var i :| 0 <= i < |limit.Allowed()| && Means(v, limit.Allowed()[i]);
        var w := Decode(limit.Allowed()[i]).value;
        DecodedReadable(limit.Allowed()[i]);
        ReadableAccepted(w, 0);
        SameMeaningSameDepth(v, w, 1);
        assert FitsBelow(limit.Allowed()[i]);
      }
    }
    if Reachable(limit) {
      if limit.Allowed() == [] {
        WitnessAccepted(key, limit);
        WitnessReadable(key, limit);
      } else {
        var i :| 0 <= i < |limit.Allowed()| && FitsBelow(limit.Allowed()[i]);
        ListedAccepted(key, limit, i);
      }
    }
  }

  lemma ListedAccepted(key: string, limit: ParameterLimit, i: nat)
    requires GoodField(key, limit) && i < |limit.Allowed()|
    ensures Decode(limit.Allowed()[i]).Some? && FieldAccepts(limit, Decode(limit.Allowed()[i]).value)
  {
    assert GoodAllowed(limit, limit.Allowed()[i]);
    assert Means(Decode(limit.Allowed()[i]).value, limit.Allowed()[i]);
  }

  lemma WitnessReadable(key: string, limit: ParameterLimit)
    requires GoodField(key, limit) && limit.Allowed() == []
    ensures Readable(Witness(limit), 1)
  {
    if limit.minimum.Some? {
      DecodedReadable(limit.minimum.value);
    } else if limit.maximum.Some? {
      DecodedReadable(limit.maximum.value);
    } else {
      ZeroAccepted();
    }
  }

  lemma ZeroAccepted()
    ensures Accepted(ZeroText())
  {
  }

  // ---- messages ----

  ghost function Supplied(key: string, limit: ParameterLimit): (v: Json)
    requires GoodField(key, limit) && Reachable(limit)
    ensures FieldAccepts(limit, v) && Readable(v, 1)
  {
    ReachableIff(key, limit);
    var v :| FieldAccepts(limit, v) && Readable(v, 1);
    v
  }

  /** Every required field is unpadded and accepts some value that can stand in a message. */
  predicate Satisfiable(p: ParameterLimits)
    requires p.fields.Some?
  {
    forall k | k in Required(p) :: UnpaddedField(p.fields.value[k]) && Reachable(p.fields.value[k])
  }

  /**
   * A valid ceiling can accept some message if and only if every required field has bounds without blanks and, when
   * it lists values, one that is not nested to the full depth.
   */
  lemma SatisfiableIff(p: ParameterLimits)
    requires CanValidate(p, Ran(true))
    ensures (exists raw :: CanMatch(p, raw, Ran(true))) <==> Satisfiable(p)
  {
    ValidateAcceptsIff(p);
    if Satisfiable(p) {
      SatisfyingMessage(p);
    }
    forall raw | CanMatch(p, raw, Ran(true)) ensures Satisfiable(p) {
      AcceptedMessageSatisfies(p, raw);
    }
  }

  lemma AcceptedMessageSatisfies(p: ParameterLimits, raw: RawMessage)
    requires GoodLimits(p) && CanMatch(p, raw, Ran(true))
    ensures Satisfiable(p)
  {
    MatchesDecides(p, raw, true);
    var values := Decode(raw).value.fields;
    DecodedReadable(raw);
    forall k | k in Required(p) ensures UnpaddedField(p.fields.value[k]) && Reachable(p.fields.value[k]) {
      PassingSuppliesFields(p, values, k);
      ReachableIff(k, p.fields.value[k]);
      assert Readable(values[k], 1);
    }
  }

  lemma SatisfyingMessage(p: ParameterLimits)
    requires CanValidate(p, Ran(true)) && GoodLimits(p) && Satisfiable(p)
    ensures exists raw :: CanMatch(p, raw, Ran(true))
  {
    var values := map k | k in Required(p) :: Supplied(k, p.fields.value[k]);
    SuppliedFieldsPass(p, values);
    var raw := RawMessage(MAX_RAW, true, Marshal(Object(values)));
    assert Readable(Object(values), 0);
    MarshalRoundTrip(Object(values), raw);
    assert CanMatch(p, raw, Ran(true));
  }

  // ---- valid ceilings that no message satisfies ----

  lemma OneFieldSatisfiable(key: string, limit: ParameterLimit)
    requires !limit.optional
    ensures Required(OneField(key, limit)) == {key}
    ensures Satisfiable(OneField(key, limit)) <==> UnpaddedField(limit) && Reachable(limit)
  {
    var p := OneField(key, limit);
    assert p.fields.value[key] == limit && key in Required(p);
  }

  /** A required number with a padded minimum: matching refuses its absence and panics on its presence. */
  lemma PaddedRequiredNeverAccepted()
    ensures exists p :: CanValidate(p, Ran(true)) && forall raw :: !CanMatch(p, raw, Ran(true))
  {
    var text := RawMessage(3, true, [Num(ZeroText())]);
    var limit := Minimum(text);
    MinimumZeroIsGood(text);
    OneFieldValidates("n", limit);
    OneFieldSatisfiable("n", limit);
    SatisfiableIff(OneField("n", limit));
    assert CanValidate(OneField("n", limit), Ran(true));
  }

  /** `n` arrays around a null. */
  function Nest(n: nat): Json {
    if n == 0 then Null else Array([Nest(n - 1)])
  }

  lemma {:induction false} NestReadable(n: nat, depth: nat)
    ensures Readable(Nest(n), depth) <==> depth + n <= MAX_DEPTH
  {
    if n == 0 {
    } else {
      NestReadable(n - 1, depth + 1);
      assert Nest(n).items[0] == Nest(n - 1);
    }
  }

  /** Sixteen arrays inside each other are read, seventeen are not, and neither are texts beyond 64 KiB. */
  lemma DepthAndSizeBounds(n: nat, raw: RawMessage)
    requires raw.lexemes == Marshal(Nest(n))
    ensures Decode(raw) == Some(Nest(n)) <==> n <= 16 && 1 <= raw.size <= 65536
  {
    NestReadable(n, 0);
    if 1 <= raw.size <= 65536 {
      MarshalRoundTrip(Nest(n), raw);
    }
  }

  /** A required array whose one allowed value is nested to depth 16: as a member it would lie deeper. */
  lemma DeepRequiredNeverAccepted()
    ensures exists p :: Unpadded(p) && CanValidate(p, Ran(true)) && forall raw :: !CanMatch(p, raw, Ran(true))
  {
    var text := RawMessage(2 * MAX_DEPTH + 4, false, Marshal(Nest(MAX_DEPTH)));
    var limit := ParameterLimit("array", false, Some([text]), None, None);
    NestReadable(MAX_DEPTH, 0);
    NestReadable(MAX_DEPTH, 1);
    MarshalRoundTrip(Nest(MAX_DEPTH), text);
    assert HeadOk("a", limit);
    DeepFieldIsGood("a", text, limit);
    OneFieldValidates("a", limit);
    OneFieldSatisfiable("a", limit);
    SatisfiableIff(OneField("a", limit));
    assert Unpadded(OneField("a", limit)) && CanValidate(OneField("a", limit), Ran(true));
  }

  lemma DeepFieldIsGood(key: string, text: RawMessage, limit: ParameterLimit)
    requires HeadOk(key, limit) && limit == ParameterLimit("array", false, Some([text]), None, None)
    requires Decode(text).Some? && Decode(text).value.Array? && !Readable(Decode(text).value, 1)
    ensures GoodField(key, limit) && !CheckPanics(key, limit) && UnpaddedField(limit) && !Reachable(limit)
  {
    assert limit.Allowed() == [text];
  }
}
