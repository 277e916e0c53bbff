/** Properties of ceilings: what tightening and spelling cannot change, and when valid ceilings panic. */
module Ceilings {
  import opened Options
  import opened Outcomes
  import opened Numbers
  import opened Exactness
  import opened JsonTree
  import opened Grammar
  import opened Reader
  import opened Acceptance
  import opened Digests
  import opened Limits

  // ---- what a good ceiling declares can be met ----

  /** A value for the field: the first allowed value, else a bound, else the plainest value of the type. */
  function Witness(limit: ParameterLimit): Json {
    if limit.Allowed() != [] && Decode(limit.Allowed()[0]).Some? then Decode(limit.Allowed()[0]).value
    else if limit.minimum.Some? && Decode(limit.minimum.value).Some? then Decode(limit.minimum.value).value
    else if limit.maximum.Some? && Decode(limit.maximum.value).Some? then Decode(limit.maximum.value).value
    else Plainest(limit.kind)
  }

  function Plainest(kind: string): Json {
    match kind
    case "string" => Text("")
    case "boolean" => Bool(false)
    case _ => Number(ZeroText())
  }

  lemma WitnessAccepted(key: string, limit: ParameterLimit)
    requires GoodField(key, limit)
    ensures FieldAccepts(limit, Witness(limit))
  {
    if limit.Allowed() != [] {
      assert Means(Witness(limit), limit.Allowed()[0]);
    } else if limit.minimum.None? && limit.maximum.None? {
      ZeroValue();
      assert IsInteger(0.0) by {
        assert 0.0 == 0 as real;
      }
    }
  }

  /** The declared meaning of every good ceiling accepts some tree. */
  lemma ValidLimitsSatisfiable(p: ParameterLimits)
    requires GoodLimits(p)
    ensures exists v :: Accepts(p, v)
  {
    var v := Object(map k | k in p.fields.value :: Witness(p.fields.value[k]));
    forall k | k in p.fields.value ensures FieldHolds(p.fields.value[k], v.fields, k) {
      WitnessAccepted(k, p.fields.value[k]);
    }
    assert Accepts(p, v);
  }

  // ---- tightening ----

  /** Bounds moved inwards, allowed values dropped or listed for the first time, an optional field required. */
  predicate TighterField(t: ParameterLimit, l: ParameterLimit) {
    && (t.kind == l.kind || (t.kind == "integer" && l.kind == "number"))
    && (t.optional ==> l.optional)
    && (l.minimum.Some? ==> t.minimum.Some? && AtMost(NumberIn(l.minimum.value), NumberIn(t.minimum.value)))
    && (l.maximum.Some? ==> t.maximum.Some? && AtMost(NumberIn(t.maximum.value), NumberIn(l.maximum.value)))
    && (l.Allowed() != [] ==> t.Allowed() != [] && forall i | 0 <= i < |t.Allowed()| :: AlsoListed(t.Allowed()[i], l))
  }

  predicate AtMost(a: Option<real>, b: Option<real>) {
    a.Some? && b.Some? ==> a.value <= b.value
  }

  predicate AlsoListed(raw: RawMessage, l: ParameterLimit) {
    Decode(raw).Some? ==> exists j | 0 <= j < |l.Allowed()| :: Means(Decode(raw).value, l.Allowed()[j])
  }

  /** Fields tightened one by one; only optional fields may be dropped, and none may be added. */
  predicate Tighter(t: ParameterLimits, p: ParameterLimits)
    requires t.fields.Some? && p.fields.Some?
  {
    && t.fields.value.Keys <= p.fields.value.Keys
    && forall k | k in p.fields.value ::
         if k in t.fields.value then TighterField(t.fields.value[k], p.fields.value[k]) else p.fields.value[k].optional
  }

  lemma TighterFieldAccepts(key: string, t: ParameterLimit, l: ParameterLimit, value: Json)
    requires GoodField(key, t) && GoodField(key, l) && TighterField(t, l)
    requires FieldAccepts(t, value)
    ensures FieldAccepts(l, value)
  {
    if l.Allowed() != [] {
      var i :| 0 <= i < |t.Allowed()| && Means(value, t.Allowed()[i]);
      assert AlsoListed(t.Allowed()[i], l);
      var j :| 0 <= j < |l.Allowed()| && Means(Decode(t.Allowed()[i]).value, l.Allowed()[j]);
      assert Means(value, l.Allowed()[j]);
    }
  }

  /** Whatever a tightened ceiling declares acceptable, the ceiling before did. */
  lemma TighteningAdmitsNothingNew(t: ParameterLimits, p: ParameterLimits, v: Json)
    requires GoodLimits(t) && GoodLimits(p) && Tighter(t, p)
    requires Accepts(t, v)
    ensures Accepts(p, v)
  {
    forall k | k in p.fields.value ensures FieldHolds(p.fields.value[k], v.fields, k) {
      if k in t.fields.value {
        assert FieldHolds(t.fields.value[k], v.fields, k);
        if k in v.fields {
          TighterFieldAccepts(k, t.fields.value[k], p.fields.value[k], v.fields[k]);
        }
      }
    }
  }

  /** A value the field accepts makes matching panic if and only if one of the bounds is padded. */
  lemma AcceptedValuePanicsIff(key: string, limit: ParameterLimit, value: Json)
    requires GoodField(key, limit) && FieldAccepts(limit, value)
    ensures MatchPanics(limit, value) <==> !UnpaddedField(limit)
  {
  }

  /** No supplied field has a padded bound. */
  predicate UnpaddedFor(p: ParameterLimits, raw: RawMessage) {
    p.fields.Some? && Decode(raw).Some? && Decode(raw).value.Object? ==>
      forall k | k in p.fields.value && k in Decode(raw).value.fields :: UnpaddedField(p.fields.value[k])
  }

  /** On an admitted message a valid ceiling can end in one way: in a panic if a supplied field is padded, else well. */
  lemma AdmittedMatches(p: ParameterLimits, raw: RawMessage, r: Ran)
    requires CanValidate(p, Ran(true)) && Admits(p, raw)
    ensures CanMatch(p, raw, r) <==> r == if UnpaddedFor(p, raw) then Ran(true) else Panicked
  {
    var f, values := p.fields.value, Decode(raw).value.fields;
    ValidateAcceptsIff(p);
    MatchesAcceptsIff(p, raw);
    MatchesPanicsIff(p, raw);
    forall k | k in f ensures ValuePanics(f, values, k) <==> k in values && !UnpaddedField(f[k]) {
      assert FieldHolds(f[k], values, k);
      if k in values {
        AcceptedValuePanicsIff(k, f[k], values[k]);
      }
    }
    if r == Ran(false) && CanMatch(p, raw, r) {
      MatchesDecides(p, raw, false);
    }
  }

  /** What a tightened ceiling accepts, the ceiling before accepted, unless it panicked on a padded bound. */
  lemma TighteningMatchesNothingNew(t: ParameterLimits, p: ParameterLimits, raw: RawMessage, r: Ran)
    requires t.fields.Some? && p.fields.Some? && Tighter(t, p)
    requires CanValidate(p, Ran(true)) && CanMatch(t, raw, Ran(true))
    ensures CanMatch(p, raw, r) <==> r == if UnpaddedFor(p, raw) then Ran(true) else Panicked
  {
    ValidateAcceptsIff(p);
    MatchesDecides(t, raw, true);
    TighteningAdmitsNothingNew(t, p, Decode(raw).value);
    AdmittedMatches(p, raw, r);
  }

  /** The panic does occur: taking the blanks from a bound tightens a ceiling that did not accept the message. */
  lemma TighteningMayEndPanics()
    ensures exists t: ParameterLimits, p: ParameterLimits, raw ::
              && t.fields.Some? && p.fields.Some? && Tighter(t, p) && CanValidate(p, Ran(true))
              && CanMatch(t, raw, Ran(true)) && !CanMatch(p, raw, Ran(true))
  {
    var padded, bare := RawMessage(3, true, [Num(ZeroText())]), RawMessage(1, false, [Num(ZeroText())]);
    var loose, tight := Minimum(padded), Minimum(bare);
    MinimumZeroIsGood(padded);
    MinimumZeroIsGood(bare);
    OneFieldValidates("n", loose);
    OneFieldValidates("n", tight);
    UnblankedIsTighter("n", tight, loose);
  }

  lemma UnblankedIsTighter(key: string, t: ParameterLimit, p: ParameterLimit)
    requires GoodField(key, t) && GoodField(key, p) && TighterField(t, p)
    requires UnpaddedField(t) && !UnpaddedField(p) && FieldAccepts(t, Number(ZeroText())) && Accepted(ZeroText())
    requires CanValidate(OneField(key, t), Ran(true)) && CanValidate(OneField(key, p), Ran(true))
    ensures Tighter(OneField(key, t), OneField(key, p))
    ensures exists raw :: CanMatch(OneField(key, t), raw, Ran(true)) && !CanMatch(OneField(key, p), raw, Ran(true))
  {
    var raw := OneMember(key, ZeroText());
    OneMemberDecodes(key, ZeroText());
    TighterFieldAccepts(key, t, p, Number(ZeroText()));
    OneFieldAdmits(key, t, ZeroText());
    OneFieldAdmits(key, p, ZeroText());
    AdmittedMatches(OneField(key, t), raw, Ran(true));
    AdmittedMatches(OneField(key, p), raw, Ran(true));
  }

  lemma OneFieldAdmits(key: string, limit: ParameterLimit, n: NumberText)
    requires GoodField(key, limit) && FieldAccepts(limit, Number(n)) && Accepted(n)
    ensures Admits(OneField(key, limit), OneMember(key, n))
    ensures UnpaddedFor(OneField(key, limit), OneMember(key, n)) <==> UnpaddedField(limit)
  {
    OneMemberDecodes(key, n);
    var f, values := OneField(key, limit).fields.value, map[key := Number(n)];
    assert f[key] == limit && values[key] == Number(n);
    assert FieldHolds(f[key], values, key);
    assert forall k | k in f :: k == key;
  }

  // ---- spelling ----

  lemma MeaningDecidesField(limit: ParameterLimit, v: Json, w: Json)
    requires Meaning(v) == Meaning(w)
    ensures FieldAccepts(limit, v) <==> FieldAccepts(limit, w)
  {
    SameMeaningSameShape(v, w);
    assert ParameterType(v, limit.kind) <==> ParameterType(w, limit.kind);
    assert Within(limit, v) <==> Within(limit, w);
  }

  lemma SameMeaningSameShape(v: Json, w: Json)
    requires Meaning(v) == Meaning(w)
    ensures (v.Number? <==> w.Number?) && (v.Text? <==> w.Text?) && (v.Bool? <==> w.Bool?)
    ensures (v.Object? <==> w.Object?) && (v.Array? <==> w.Array?)
    ensures v.Number? ==> Value(v.n) == Value(w.n)
  {
    assert v.Number? ==> Value(v.n) == Meaning(v).n == Meaning(w).n == Value(w.n);
  }

  /** Equal parameters, that is parameters hashed alike, are admitted by the same ceilings, however they are spelled. */
  lemma EqualParametersSameAdmission(p: ParameterLimits, a: RawMessage, b: RawMessage)
    requires Decode(a).Some? && Decode(b).Some? && ParameterEqual(Decode(a).value, Decode(b).value)
    ensures CanonicalText(a) == CanonicalText(b)
    ensures Admits(p, a) <==> Admits(p, b)
  {
    var v, w := Decode(a).value, Decode(b).value;
    SameTextIffParameterEqual(a, b);
    ParameterEqualIsSameMeaning(v, w);
    if GoodLimits(p) && v.Object? {
      assert v.fields.Keys == Meaning(v).fields.Keys == Meaning(w).fields.Keys == w.fields.Keys;
      forall k | k in p.fields.value
        ensures FieldHolds(p.fields.value[k], v.fields, k) <==> FieldHolds(p.fields.value[k], w.fields, k)
      {
        if k in v.fields {
          assert Meaning(v.fields[k]) == Meaning(v).fields[k] == Meaning(w).fields[k] == Meaning(w.fields[k]);
          MeaningDecidesField(p.fields.value[k], v.fields[k], w.fields[k]);
        }
      }
    }
  }

  lemma MeaningDecidesPanics(limit: ParameterLimit, v: Json, w: Json)
    requires Meaning(v) == Meaning(w)
    ensures MatchPanics(limit, v) <==> MatchPanics(limit, w)
  {
    SameMeaningSameShape(v, w);
    assert ParameterType(v, limit.kind) <==> ParameterType(w, limit.kind);
  }

  /** Matching can end on equal parameters in the same ways. */
  lemma EqualParametersSameEndings(p: ParameterLimits, a: RawMessage, b: RawMessage, r: Ran)
    requires Decode(a).Some? && Decode(b).Some? && ParameterEqual(Decode(a).value, Decode(b).value)
    ensures CanMatch(p, a, r) <==> CanMatch(p, b, r)
  {
    var v, w := Decode(a).value, Decode(b).value;
    ParameterEqualIsSameMeaning(v, w);
    SameMeaningSameShape(v, w);
    ValidateAcceptsIff(p);
    if GoodLimits(p) && v.Object? {
      assert v.fields.Keys == Meaning(v).fields.Keys == Meaning(w).fields.Keys == w.fields.Keys;
      SameFieldMatches(p, v.fields, w.fields);
    }
  }

  lemma SameFieldMatches(p: ParameterLimits, x: map<string, Json>, y: map<string, Json>)
    requires GoodLimits(p) && x.Keys == y.Keys && Meaning(Object(x)) == Meaning(Object(y))
    ensures FieldMatches(p.fields.value, x) == FieldMatches(p.fields.value, y)
  {
    var f := p.fields.value;
    forall k | k in f ensures FieldMatches(f, x)[k] == FieldMatches(f, y)[k] {
      if k in x {
        assert Meaning(x[k]) == Meaning(Object(x)).fields[k] == Meaning(Object(y)).fields[k] == Meaning(y[k]);
        MatchFieldExact(k, f[k], x[k]);
        MatchFieldExact(k, f[k], y[k]);
        MeaningDecidesField(f[k], x[k], y[k]);
        MeaningDecidesPanics(f[k], x[k], y[k]);
      }
    }
  }

  // ---- panics ----

  /** A good field whose check does not panic panics on some value if and only if one of its bounds is padded. */
  lemma CheckedFieldPanicsIffPadded(key: string, limit: ParameterLimit)
    requires GoodField(key, limit) && !CheckPanics(key, limit)
    ensures (exists v :: MatchPanics(limit, v)) <==> !UnpaddedField(limit)
    ensures !UnpaddedField(limit) ==> MatchPanics(limit, Decode(PaddedBound(limit)).value)
  {
    if !UnpaddedField(limit) {
      assert MatchPanics(limit, Decode(PaddedBound(limit)).value);
    }
  }

  function PaddedBound(limit: ParameterLimit): RawMessage
    requires !UnpaddedField(limit)
  {
    if Padded(limit.minimum) then limit.minimum.value else limit.maximum.value
  }

  /** A message with one member that is a number. */
  function OneMember(key: string, n: NumberText): RawMessage {
    RawMessage(MAX_RAW, true, [LBrace, Str(key), Colon, Num(n), RBrace])
  }

  lemma OneMemberDecodes(key: string, n: NumberText)
    requires Accepted(n)
    ensures Decode(OneMember(key, n)) == Some(Object(map[key := Number(n)]))
  {
    var leaf := Leaf(Num(n));
    var c := ObjectText([Member(key, leaf)]);
    OneMemberFlat(key, leaf);
    assert WellFormed(leaf, 1) && WellFormed(c, 0);
    DecodeExact(OneMember(key, n), Denote(c));
  }

  lemma OneMemberText(key: string, leaf: Syntax)
    requires leaf.Leaf?
    ensures FlattenMembers([Member(key, leaf)], true) == [Str(key), Colon, leaf.token]
  {
    assert [Member(key, leaf)][1..] == [];
    assert FlattenMembers([], false) == [];
  }

  lemma OneMemberFlat(key: string, leaf: Syntax)
    requires leaf.Leaf?
    ensures Flatten(ObjectText([Member(key, leaf)])) == [LBrace, Str(key), Colon, leaf.token, RBrace]
    ensures Denote(ObjectText([Member(key, leaf)])) == Object(map[key := ScalarValue(leaf.token)])
  {
    var ms := [Member(key, leaf)];
    assert ms[1..] == [];
    OneMemberText(key, leaf);
    assert DenoteMembers(ms, map[]) == DenoteMembers([], map[key := ScalarValue(leaf.token)]);
  }

  /** A ceiling that has passed validation panics on some message if and only if one of its bounds is padded. */
  lemma ValidatedPanicsIffPadded(p: ParameterLimits)
    requires CanValidate(p, Ran(true))
    ensures (exists raw :: CanMatch(p, raw, Panicked)) <==> !Unpadded(p)
  {
    ValidateExact(p, Ran(true));
    if !Unpadded(p) {
      var k :| k in p.fields.value && !UnpaddedField(p.fields.value[k]);
      PaddedBoundPanics(p, k);
    }
    forall raw | CanMatch(p, raw, Panicked) ensures !Unpadded(p) {
      if Unpadded(p) {
        UnpaddedMatches(p, raw, Panicked);
      }
    }
  }

  /** The message that has only the padded bound in its own field. */
  lemma PaddedBoundPanics(p: ParameterLimits, k: string)
    requires GoodLimits(p) && k in p.fields.value
    requires !UnpaddedField(p.fields.value[k]) && !CheckPanics(k, p.fields.value[k])
    ensures exists raw :: CanMatch(p, raw, Panicked)
  {
    var f, bound := p.fields.value, PaddedBound(p.fields.value[k]);
    CheckedFieldPanicsIffPadded(k, f[k]);
    DecodedNumber(bound);
    DecodedReadable(bound);
    var n := Decode(bound).value.n;
    OneMemberDecodes(k, n);
    SuppliedValuePanics(p, OneMember(k, n), map[k := Number(n)], k);
  }

  lemma SuppliedValuePanics(p: ParameterLimits, raw: RawMessage, values: map<string, Json>, k: string)
    requires GoodLimits(p) && Decode(raw) == Some(Object(values)) && values.Keys <= p.fields.value.Keys
    requires k in p.fields.value && ValuePanics(p.fields.value, values, k)
    ensures CanMatch(p, raw, Panicked)
  {
    MatchesPanicsIff(p, raw);
  }

  lemma ZeroDecodes(raw: RawMessage)
    requires raw.lexemes == [Num(ZeroText())] && 0 < raw.size <= MAX_RAW
    ensures Decode(raw) == Some(Number(ZeroText()))
  {
    var c := Leaf(Num(ZeroText()));
    assert Flatten(c) == raw.lexemes && WellFormed(c, 0) && Denote(c) == Number(ZeroText());
    DecodeExact(raw, Number(ZeroText()));
  }

  /** Such ceilings exist: one whose only bound is a minimum written with blanks around it passes validation. */
  lemma PaddedBoundPassesValidation()
    ensures exists p :: CanValidate(p, Ran(true)) && !Unpadded(p)
  {
    var text := RawMessage(3, true, [Num(ZeroText())]);
    MinimumZeroIsGood(text);
    OneFieldValidates("n", Minimum(text));
    assert !Unpadded(OneField("n", Minimum(text)));
  }

  function OneField(key: string, limit: ParameterLimit): ParameterLimits {
    ParameterLimits(Some(map[key := limit]))
  }

  lemma OneFieldValidates(key: string, limit: ParameterLimit)
    requires GoodField(key, limit) && !CheckPanics(key, limit)
    ensures CanValidate(OneField(key, limit), Ran(true))
    ensures Unpadded(OneField(key, limit)) <==> UnpaddedField(limit)
  {
    var p := OneField(key, limit);
    ValidateExact(p, Ran(true));
    assert p.fields.value[key] == limit;
  }

  /** A required number with a minimum only. */
  function Minimum(text: RawMessage): ParameterLimit {
    ParameterLimit("number", false, None, Some(text), None)
  }

  lemma MinimumZeroIsGood(text: RawMessage)
    requires text.lexemes == [Num(ZeroText())] && 0 < text.size <= MAX_RAW
    ensures GoodField("n", Minimum(text)) && !CheckPanics("n", Minimum(text))
    ensures NumberIn(text) == Some(Value(ZeroText())) && FieldAccepts(Minimum(text), Number(ZeroText()))
    ensures Accepted(ZeroText())
  {
    ZeroDecodes(text);
    assert HeadOk("n", Minimum(text));
  }
}
