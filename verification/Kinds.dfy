/** The kinds of parameters, from the outside: which trees a ceiling with one field of a kind accepts. */
module Kinds {
  import opened Options
  import opened Outcomes
  import opened Texts
  import opened Numbers
  import opened JsonTree
  import opened Reader
  import opened Limits
  import opened Ceilings

  /** A required field of a kind, without bounds; without a list too, or with one listed value. */
  function Bare(kind: string): ParameterLimit {
    ParameterLimit(kind, false, None, None, None)
  }

  function Listing(kind: string, text: RawMessage): ParameterLimit {
    Bare(kind).(allowedValues := Some([text]))
  }

  lemma OneFieldAccepts(key: string, limit: ParameterLimit, raw: RawMessage, v: Json)
    requires Decode(raw) == Some(Object(map[key := v])) && limit.minimum.None? && limit.maximum.None?
    ensures CanValidate(OneField(key, limit), Ran(true)) <==> GoodField(key, limit)
    ensures CanMatch(OneField(key, limit), raw, Ran(true)) <==> GoodField(key, limit) && FieldAccepts(limit, v)
  {
    var p := OneField(key, limit);
    var f, values := p.fields.value, map[key := v];
    assert f[key] == limit && values[key] == v;
    ValidateAcceptsIff(p);
    MatchesAcceptsIff(p, raw);
    assert !ValidationPanics(p) && !MatchingPanics(p, raw);
    assert GoodLimits(p) <==> GoodField(key, limit);
    assert FieldHolds(f[key], values, key) <==> FieldAccepts(limit, v);
  }

  predicate GoodKey(key: string) {
    key != "" && ByteLength(key) <= 256
  }

  /** A field without bounds or list accepts exactly what the decoder builds for its kind. */
  lemma KindIsConstructor(key: string, raw: RawMessage, v: Json)
    requires GoodKey(key) && Decode(raw) == Some(Object(map[key := v]))
    ensures CanMatch(OneField(key, Bare("string")), raw, Ran(true)) <==> v.Text?
    ensures CanMatch(OneField(key, Bare("boolean")), raw, Ran(true)) <==> v.Bool?
    ensures CanMatch(OneField(key, Bare("number")), raw, Ran(true)) <==> v.Number?
    ensures CanMatch(OneField(key, Bare("integer")), raw, Ran(true))
       <==> v.Number? && exists k :: IsInt(k, Value(v.n))
  {
    KindAccepts(key, "string", raw, v);
    KindAccepts(key, "boolean", raw, v);
    KindAccepts(key, "number", raw, v);
    KindAccepts(key, "integer", raw, v);
    if v.Number? {
      IntegerIsInt(Value(v.n));
    }
  }

  lemma KindAccepts(key: string, kind: string, raw: RawMessage, v: Json)
    requires GoodKey(key) && Decode(raw) == Some(Object(map[key := v]))
    requires kind in KINDS && kind != "object" && kind != "array"
    ensures CanMatch(OneField(key, Bare(kind)), raw, Ran(true)) <==> ParameterType(v, kind)
  {
    OneFieldAccepts(key, Bare(kind), raw, v);
  }

  lemma IntegerIsInt(x: real)
    ensures IsInteger(x) <==> exists k :: IsInt(k, x)
  {
    if k :| IsInt(k, x) {
      assert x.Floor == k;
    }
    assert IsInteger(x) ==> IsInt(x.Floor, x);
  }

  predicate IsInt(k: int, x: real) {
    k as real == x
  }

  /** Objects and arrays need a list, and a listed value of their own kind; they accept what has its meaning. */
  lemma ListedKinds(key: string, raw: RawMessage, v: Json, text: RawMessage)
    requires GoodKey(key) && Decode(raw) == Some(Object(map[key := v])) && Decode(text).Some?
    ensures !CanValidate(OneField(key, Bare("object")), Ran(true))
    ensures !CanValidate(OneField(key, Bare("array")), Ran(true))
    ensures CanValidate(OneField(key, Listing("object", text)), Ran(true)) <==> Decode(text).value.Object?
    ensures CanValidate(OneField(key, Listing("array", text)), Ran(true)) <==> Decode(text).value.Array?
    ensures CanMatch(OneField(key, Listing("object", text)), raw, Ran(true))
       <==> v.Object? && Meaning(v) == Meaning(Decode(text).value)
    ensures CanMatch(OneField(key, Listing("array", text)), raw, Ran(true))
       <==> v.Array? && Meaning(v) == Meaning(Decode(text).value)
  {
    OneFieldAccepts(key, Bare("object"), raw, v);
    OneFieldAccepts(key, Bare("array"), raw, v);
    ListedKind(key, "object", raw, v, text);
    ListedKind(key, "array", raw, v, text);
    if Meaning(v) == Meaning(Decode(text).value) {
      SameMeaningSameShape(v, Decode(text).value);
    }
  }

  lemma ListedKind(key: string, kind: string, raw: RawMessage, v: Json, text: RawMessage)
    requires GoodKey(key) && Decode(raw) == Some(Object(map[key := v])) && Decode(text).Some?
    requires kind == "object" || kind == "array"
    ensures CanValidate(OneField(key, Listing(kind, text)), Ran(true)) <==> ParameterType(Decode(text).value, kind)
    ensures CanMatch(OneField(key, Listing(kind, text)), raw, Ran(true))
       <==> && ParameterType(Decode(text).value, kind) && ParameterType(v, kind)
            && Meaning(v) == Meaning(Decode(text).value)
  {
    var limit := Listing(kind, text);
    OneFieldAccepts(key, limit, raw, v);
    assert limit.Allowed() == [text];
    assert GoodAllowed(limit, limit.Allowed()[0]) <==> ParameterType(Decode(text).value, kind);
    assert Means(v, limit.Allowed()[0]) <==> Meaning(v) == Meaning(Decode(text).value);
  }

  /** A key has 1 to 256 bytes. */
  lemma KeyBounds(key: string)
    ensures CanValidate(OneField(key, Bare("boolean")), Ran(true)) <==> 1 <= ByteLength(key) <= 256
  {
    ValidateAcceptsIff(OneField(key, Bare("boolean")));
    assert OneField(key, Bare("boolean")).fields.value[key] == Bare("boolean");
  }

  /** A list has 1 to 64 values. */
  lemma ListBounds(key: string, texts: seq<RawMessage>)
    requires GoodKey(key) && forall i | 0 <= i < |texts| :: Decode(texts[i]).Some? && Decode(texts[i]).value.Text?
    ensures CanValidate(OneField(key, Bare("string").(allowedValues := Some(texts))), Ran(true)) <==> 1 <= |texts| <= 64
  {
    var limit := Bare("string").(allowedValues := Some(texts));
    ValidateAcceptsIff(OneField(key, limit));
    assert OneField(key, limit).fields.value[key] == limit && limit.Allowed() == texts;
    assert forall i | 0 <= i < |texts| :: GoodAllowed(limit, texts[i]);
  }

  /** No other name is a kind. */
  lemma OnlyKinds(key: string, limit: ParameterLimit)
    requires limit.kind !in ["string", "boolean", "integer", "number", "object", "array"]
    ensures !CanValidate(OneField(key, limit), Ran(true))
  {
    ValidateAcceptsIff(OneField(key, limit));
    assert OneField(key, limit).fields.value[key] == limit;
  }

  /** A null is of no kind; everything else is of exactly one of five, numbers sometimes of a sixth. */
  lemma KindsPartition(v: Json)
    ensures v.Null? ==> forall kind :: !ParameterType(v, kind)
    ensures !v.Null? ==> exists kind | kind in ["string", "boolean", "number", "object", "array"] ::
              && ParameterType(v, kind)
              && forall other | other != kind && ParameterType(v, other) :: kind == "number" && other == "integer"
  {
    var kind := if v.Text? then "string" else if v.Bool? then "boolean" else if v.Number? then "number"
                else if v.Object? then "object" else "array";
    assert !v.Null? ==> ParameterType(v, kind);
  }
}
