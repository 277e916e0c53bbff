/** Parameter ceilings: validation of a ceiling, and matching of decoded parameters against it. */
module Limits {
  import opened Options
  import opened Outcomes
  import opened Texts
  import opened Numbers
  import opened Exactness
  import opened JsonTree
  import opened Grammar
  import opened Reader
  import opened Acceptance

  /** A bound is a `json.Number`, that is any text; a missing list differs from an empty one. */
  datatype ParameterLimit = ParameterLimit(
    kind: string,
    optional: bool,
    allowedValues: Option<seq<RawMessage>>,
    minimum: Option<RawMessage>,
    maximum: Option<RawMessage>)
  {
    function Allowed(): seq<RawMessage> {
      if allowedValues.Some? then allowedValues.value else []
    }
  }

  const KINDS := {"string", "boolean", "integer", "number", "object", "array"}

  /** `parameterType`. */
  predicate ParameterType(value: Json, kind: string) {
    match kind
    case "string" => value.Text?
    case "boolean" => value.Bool?
    case "number" => value.Number?
    case "integer" => value.Number? && IsInteger(Value(value.n))
    case "object" => value.Object?
    case "array" => value.Array?
    case _ => false
  }

  /** `big.Rat.SetString` takes the text as it stands, blanks included. */
  function SetString(text: RawMessage): Option<NumberText> {
    if !text.padded && |text.lexemes| == 1 && text.lexemes[0].Num? then Some(text.lexemes[0].n) else None
  }

  /** Is `a` at least `b`? An unparsable text leaves a nil rational, and comparing with it panics. */
  function NotBelow(a: Option<NumberText>, b: Option<NumberText>): Ran {
    if a.None? || b.None? then Panicked else Ran(CompareNumber(a.value, b.value) >= 0)
  }

  /** `inRange`. */
  function InRange(limit: ParameterLimit, value: Json): Ran {
    if !value.Number? then Ran(limit.minimum.None? && limit.maximum.None?)
    else
      var n := Some(value.n);
      var low := if limit.minimum.None? then Ran(true) else NotBelow(n, SetString(limit.minimum.value));
      if low != Ran(true) || limit.maximum.None? then low
      else NotBelow(SetString(limit.maximum.value), n)
  }

  // ---- one field ----

  predicate HeadOk(key: string, limit: ParameterLimit) {
    key != "" && ByteLength(key) <= 256 && |limit.Allowed()| <= 64 && limit.kind in KINDS
  }

  predicate HasType(raw: RawMessage, kind: string) {
    Decode(raw).Some? && ParameterType(Decode(raw).value, kind)
  }

  predicate BoundDecodes(bound: Option<RawMessage>, kind: string) {
    bound.Some? ==> HasType(bound.value, kind)
  }

  function CheckRange(limit: ParameterLimit): Ran {
    if limit.minimum.None? && limit.maximum.None? then Ran(true)
    else if limit.kind != "integer" && limit.kind != "number" then Ran(false)
    else if !BoundDecodes(limit.minimum, limit.kind) || !BoundDecodes(limit.maximum, limit.kind) then Ran(false)
    else if limit.minimum.None? || limit.maximum.None? then Ran(true)
    else NotBelow(SetString(limit.maximum.value), SetString(limit.minimum.value))
  }

  predicate ListOk(limit: ParameterLimit) {
    && limit.allowedValues != Some([])
    && (limit.kind == "object" || limit.kind == "array" ==> limit.Allowed() != [])
  }

  function CheckAllowed(limit: ParameterLimit, values: seq<RawMessage>): Ran {
    if values == [] then Ran(true)
    else if !HasType(values[0], limit.kind) then Ran(false)
    else
      var inside := InRange(limit, Decode(values[0]).value);
      if inside != Ran(true) then inside else CheckAllowed(limit, values[1..])
  }

  function CheckField(key: string, limit: ParameterLimit): Ran {
    if !HeadOk(key, limit) then Ran(false)
    else if CheckRange(limit) != Ran(true) then CheckRange(limit)
    else if !ListOk(limit) then Ran(false)
    else CheckAllowed(limit, limit.Allowed())
  }

  /** The switch on the type in `ParameterLimits.Validate`. */
  predicate SupportedType(kind: string) {
    match kind
    case "string" => true
    case "boolean" => true
    case "integer" => true
    case "number" => true
    case "object" => true
    case "array" => true
    case _ => false
  }

  /** The body of the loop in `ParameterLimits.Validate`. */
  method ValidateField(key: string, limit: ParameterLimit) returns (r: Ran)
    ensures r == CheckField(key, limit)
  {
    if key == "" || ByteLength(key) > 256 || |limit.Allowed()| > 64 {
      return Ran(false);
    }
    if !SupportedType(limit.kind) {
      return Ran(false);
    }
    if limit.minimum.Some? || limit.maximum.Some? {
      if limit.kind != "integer" && limit.kind != "number" {
        return Ran(false);
      }
      var bounds := [limit.minimum, limit.maximum];
      for i := 0 to 2
        invariant forall j | 0 <= j < i :: BoundDecodes(bounds[j], limit.kind)
      {
        if bounds[i].Some? {
          var value := DecodeParameterJSON(bounds[i].value);
          if value.None? || !ParameterType(value.value, limit.kind) {
            return Ran(false);
          }
        }
      }
      assert BoundDecodes(bounds[0], limit.kind) && BoundDecodes(bounds[1], limit.kind);
      if limit.minimum.Some? && limit.maximum.Some? {
        var ordered := NotBelow(SetString(limit.maximum.value), SetString(limit.minimum.value));
        if ordered != Ran(true) {
          return ordered;
        }
      }
    }
    if limit.allowedValues.Some? && |limit.allowedValues.value| == 0 {
      return Ran(false);
    }
    if (limit.kind == "object" || limit.kind == "array") && |limit.Allowed()| == 0 {
      return Ran(false);
    }
    var left := limit.Allowed();
    while left != []
      invariant CheckAllowed(limit, left) == CheckAllowed(limit, limit.Allowed())
      decreases |left|
    {
      var value := DecodeParameterJSON(left[0]);
      if value.None? || !ParameterType(value.value, limit.kind) {
        return Ran(false);
      }
      var inside := InRange(limit, value.value);
      if inside != Ran(true) {
        return inside;
      }
      left := left[1..];
    }
    return Ran(true);
  }

  function MatchField(limit: ParameterLimit, value: Json): Ran {
    if !ParameterType(value, limit.kind) then Ran(false)
    else if InRange(limit, value) != Ran(true) then InRange(limit, value)
    else Ran(limit.Allowed() == [] || SomeEquals(value, limit.Allowed()))
  }

  predicate SomeEquals(value: Json, values: seq<RawMessage>) {
    exists i | 0 <= i < |values| :: Equals(value, values[i])
  }

  predicate Equals(value: Json, raw: RawMessage) {
    Decode(raw).Some? && ParameterEqual(value, Decode(raw).value)
  }

  /** The checks `ParameterLimits.Matches` makes on a field that is present. */
  method MatchesField(limit: ParameterLimit, value: Json) returns (r: Ran)
    ensures r == MatchField(limit, value)
  {
    if !ParameterType(value, limit.kind) {
      return Ran(false);
    }
    var inside := InRange(limit, value);
    if inside != Ran(true) {
      return inside;
    }
    if limit.Allowed() == [] {
      return Ran(true);
    }
    var matched := IsListed(limit.Allowed(), value);
    return Ran(matched);
  }

  /** The scan over the allowed values. */
  method IsListed(values: seq<RawMessage>, value: Json) returns (matched: bool)
    ensures matched <==> SomeEquals(value, values)
  {
    var left := values;
    while left != []
      invariant SomeEquals(value, left) <==> SomeEquals(value, values)
      decreases |left|
    {
      SomeEqualsStep(value, left);
      var equal := IsEqual(value, left[0]);
      if equal {
        return true;
      }
      left := left[1..];
    }
    return false;
  }

  lemma SomeEqualsStep(value: Json, values: seq<RawMessage>)
    requires values != []
    ensures SomeEquals(value, values) <==> Equals(value, values[0]) || SomeEquals(value, values[1..])
  {
    assert forall i | 1 <= i < |values| :: values[i] == values[1..][i - 1];
    assert forall i | 0 <= i < |values| - 1 :: values[1..][i] == values[i + 1];
  }

  method IsEqual(value: Json, raw: RawMessage) returns (equal: bool)
    ensures equal <==> Equals(value, raw)
  {
    var allowed := DecodeParameterJSON(raw);
    return allowed.Some? && ParameterEqual(value, allowed.value);
  }

  // ---- the whole ceiling ----

  /** A closed top-level object; a missing `fields` differs from an empty one. */
  datatype ParameterLimits = ParameterLimits(fields: Option<map<string, ParameterLimit>>) {

    /** `ParameterLimits.Validate`: fields are visited in any order. */
    method Validate() returns (r: Ran)
      ensures CanValidate(this, r)
    {
      if fields.None? || |fields.value| > 64 {
        return Ran(false);
      }
      ghost var rounds := FieldChecks(fields.value);
      var left := fields.value.Keys;
      while left != {}
        invariant left <= fields.value.Keys
        invariant forall k | k in fields.value && k !in left :: rounds[k] == Ran(true)
        decreases left
      {
        var key :| key in left;
        var checked := ValidateField(key, fields.value[key]);
        if checked != Ran(true) {
          RoundEnds(rounds, key, checked);
          return checked;
        }
        left := left - {key};
      }
      AllRoundsPass(rounds);
      return Ran(true);
    }

    /** `ParameterLimits.Matches`: supplied keys and declared fields are visited in any order. */
    method Matches(raw: RawMessage) returns (r: Ran)
      ensures CanMatch(this, raw, r)
      ensures r.Ran? ==> (r.result <==> Admits(this, raw))
      ensures r.Panicked? ==> !Unpadded(this)
    {
      r := MatchesInOrder(raw);
      if r.Ran? {
        MatchesDecides(this, raw, r.result);
      } else if Unpadded(this) {
        UnpaddedMatches(this, raw, r);
      }
    }

    method MatchesInOrder(raw: RawMessage) returns (r: Ran)
      ensures CanMatch(this, raw, r)
    {
      var valid := Validate();
      if valid != Ran(true) {
        return valid;
      }
      var decoded := DecodeParameterJSON(raw);
      if decoded.None? || !decoded.value.Object? {
        return Ran(false);
      }
      var values := decoded.value.fields;
      var closed := MatchesKeys(values.Keys);
      if !closed {
        return Ran(false);
      }
      r := MatchesFields(values);
    }

    method MatchesKeys(keys: set<string>) returns (closed: bool)
      requires fields.Some?
      ensures closed <==> keys <= fields.value.Keys
    {
      var supplied := keys;
      while supplied != {}
        invariant supplied <= keys
        invariant forall k | k in keys && k !in supplied :: k in fields.value
        decreases supplied
      {
        var key :| key in supplied;
        if key !in fields.value {
          return false;
        }
        supplied := supplied - {key};
      }
      return true;
    }

    method MatchesFields(values: map<string, Json>) returns (r: Ran)
      requires fields.Some?
      ensures CanEnd(FieldMatches(fields.value, values), r)
    {
      ghost var rounds := FieldMatches(fields.value, values);
      var left := fields.value.Keys;
      while left != {}
        invariant left <= fields.value.Keys
        invariant forall k | k in fields.value && k !in left :: rounds[k] == Ran(true)
        decreases left
      {
        var key :| key in left;
        var limit := fields.value[key];
        var matched := Ran(limit.optional);
        if key in values {
          matched := MatchesField(limit, values[key]);
        }
        if matched != Ran(true) {
          RoundEnds(rounds, key, matched);
          return matched;
        }
        left := left - {key};
      }
      AllRoundsPass(rounds);
      return Ran(true);
    }
  }

  function FieldChecks(fields: map<string, ParameterLimit>): map<string, Ran> {
    map k | k in fields :: CheckField(k, fields[k])
  }

  /** `r` is how validation ends for some order of the fields. */
  ghost predicate CanValidate(p: ParameterLimits, r: Ran) {
    if p.fields.None? || |p.fields.value| > 64 then r == Ran(false) else CanEnd(FieldChecks(p.fields.value), r)
  }

  function FieldMatches(fields: map<string, ParameterLimit>, values: map<string, Json>): map<string, Ran> {
    map k | k in fields :: if k in values then MatchField(fields[k], values[k]) else Ran(fields[k].optional)
  }

  /** `r` is how matching ends for some orders of the fields. */
  ghost predicate CanMatch(p: ParameterLimits, raw: RawMessage, r: Ran) {
    || (r != Ran(true) && CanValidate(p, r))
    || (CanValidate(p, Ran(true)) && CanMatchValid(p, Decode(raw), r))
  }

  ghost predicate CanMatchValid(p: ParameterLimits, v: Option<Json>, r: Ran)
    requires p.fields.Some?
  {
    if v.None? || !v.value.Object? || !(v.value.fields.Keys <= p.fields.value.Keys) then r == Ran(false)
    else CanEnd(FieldMatches(p.fields.value, v.value.fields), r)
  }

  // ---- the declared meaning of a ceiling ----

  /** The number a bound or an allowed value spells. */
  function NumberIn(raw: RawMessage): Option<real> {
    match Decode(raw)
    case Some(Number(n)) => Some(Value(n))
    case _ => None
  }

  predicate Numeric(kind: string) {
    kind == "integer" || kind == "number"
  }

  /** Numbers lie between the bounds, both included; other values have no bounds. */
  predicate Within(limit: ParameterLimit, value: Json) {
    if value.Number? then
      && (limit.minimum.Some? && NumberIn(limit.minimum.value).Some?
          ==> NumberIn(limit.minimum.value).value <= Value(value.n))
      && (limit.maximum.Some? && NumberIn(limit.maximum.value).Some?
          ==> Value(value.n) <= NumberIn(limit.maximum.value).value)
    else limit.minimum.None? && limit.maximum.None?
  }

  predicate GoodBound(bound: Option<RawMessage>, kind: string) {
    bound.Some? ==>
      && Numeric(kind) && NumberIn(bound.value).Some?
      && (kind == "integer" ==> IsInteger(NumberIn(bound.value).value))
  }

  predicate GoodRange(limit: ParameterLimit) {
    && GoodBound(limit.minimum, limit.kind) && GoodBound(limit.maximum, limit.kind)
    && (limit.minimum.Some? && limit.maximum.Some?
        ==> NumberIn(limit.minimum.value).value <= NumberIn(limit.maximum.value).value)
  }

  predicate GoodAllowed(limit: ParameterLimit, raw: RawMessage) {
    HasType(raw, limit.kind) && Within(limit, Decode(raw).value)
  }

  /** Bounds are numbers of the kind and in order, and every allowed value is of the kind and within them. */
  predicate GoodField(key: string, limit: ParameterLimit) {
    && HeadOk(key, limit) && GoodRange(limit) && ListOk(limit)
    && forall i | 0 <= i < |limit.Allowed()| :: GoodAllowed(limit, limit.Allowed()[i])
  }

  predicate GoodLimits(p: ParameterLimits) {
    && p.fields.Some? && |p.fields.value| <= 64
    && forall k | k in p.fields.value :: GoodField(k, p.fields.value[k])
  }

  /** The value has the type, lies in the range, and means the same as some allowed value when any are listed. */
  predicate FieldAccepts(limit: ParameterLimit, value: Json) {
    && ParameterType(value, limit.kind)
    && Within(limit, value)
    && (limit.Allowed() != [] ==> exists i | 0 <= i < |limit.Allowed()| :: Means(value, limit.Allowed()[i]))
  }

  predicate Means(value: Json, raw: RawMessage) {
    Decode(raw).Some? && Meaning(value) == Meaning(Decode(raw).value)
  }

  predicate FieldHolds(limit: ParameterLimit, values: map<string, Json>, key: string) {
    if key in values then FieldAccepts(limit, values[key]) else limit.optional
  }

  /** No undeclared key, every required key present, every value accepted by its field. */
  predicate Accepts(p: ParameterLimits, v: Json)
    requires p.fields.Some?
  {
    && v.Object?
    && v.fields.Keys <= p.fields.value.Keys
    && forall k | k in p.fields.value :: FieldHolds(p.fields.value[k], v.fields, k)
  }

  predicate Admits(p: ParameterLimits, raw: RawMessage) {
    GoodLimits(p) && Decode(raw).Some? && Accepts(p, Decode(raw).value)
  }

  predicate Padded(bound: Option<RawMessage>) {
    bound.Some? && bound.value.padded
  }

  /** No blanks around a bound, as in every bound that was itself decoded from JSON. */
  predicate UnpaddedField(limit: ParameterLimit) {
    !Padded(limit.minimum) && !Padded(limit.maximum)
  }

  predicate Unpadded(p: ParameterLimits) {
    p.fields.Some? ==> forall k | k in p.fields.value :: UnpaddedField(p.fields.value[k])
  }

  // ---- the checks against the meaning ----

  /** A text that decodes to a number consists of that number. */
  lemma DecodedNumber(raw: RawMessage)
    requires NumberIn(raw).Some?
    ensures raw.lexemes == [Num(Decode(raw).value.n)]
    ensures SetString(raw) == if raw.padded then None else Some(Decode(raw).value.n)
  {
    var v := Decode(raw).value;
    DecodeExact(raw, v);
    var c :| Flatten(c) == raw.lexemes && WellFormed(c, 0) && Denote(c) == v;
    assert c.Leaf?;
  }

  predicate GoodBounds(limit: ParameterLimit) {
    GoodBound(limit.minimum, limit.kind) && GoodBound(limit.maximum, limit.kind)
  }

  /** The minimum is compared first, and a value below it is not compared with the maximum. */
  predicate RangePanics(limit: ParameterLimit, value: Json) {
    && value.Number?
    && (|| Padded(limit.minimum)
        || (Padded(limit.maximum)
            && (limit.minimum.Some? && NumberIn(limit.minimum.value).Some?
                ==> NumberIn(limit.minimum.value).value <= Value(value.n))))
  }

  lemma InRangeExact(limit: ParameterLimit, value: Json)
    requires GoodBounds(limit)
    ensures InRange(limit, value) == if RangePanics(limit, value) then Panicked else Ran(Within(limit, value))
  {
    if value.Number? {
      if limit.minimum.Some? {
        BoundExact(limit.minimum.value, value.n);
      }
      if limit.maximum.Some? {
        BoundExact(limit.maximum.value, value.n);
      }
    }
  }

  lemma BoundExact(bound: RawMessage, n: NumberText)
    requires NumberIn(bound).Some?
    ensures bound.padded ==> NotBelow(Some(n), SetString(bound)) == NotBelow(SetString(bound), Some(n)) == Panicked
    ensures !bound.padded ==> NotBelow(Some(n), SetString(bound)) == Ran(NumberIn(bound).value <= Value(n))
    ensures !bound.padded ==> NotBelow(SetString(bound), Some(n)) == Ran(Value(n) <= NumberIn(bound).value)
  {
    DecodedNumber(bound);
    var m := Decode(bound).value.n;
    CompareIsByValue(n, m);
    CompareIsByValue(m, n);
  }

  lemma BoundDecodesIsGood(bound: Option<RawMessage>, kind: string)
    requires Numeric(kind)
    ensures BoundDecodes(bound, kind) <==> GoodBound(bound, kind)
  {
  }

  lemma CheckRangeExact(limit: ParameterLimit)
    ensures CheckRange(limit)
         == if GoodBounds(limit) && limit.minimum.Some? && limit.maximum.Some? && !UnpaddedField(limit) then Panicked
            else Ran(GoodRange(limit))
  {
    if Numeric(limit.kind) {
      BoundDecodesIsGood(limit.minimum, limit.kind);
      BoundDecodesIsGood(limit.maximum, limit.kind);
      if GoodBounds(limit) && limit.minimum.Some? && limit.maximum.Some? {
        DecodedNumber(limit.minimum.value);
        DecodedNumber(limit.maximum.value);
        BoundExact(limit.maximum.value, Decode(limit.minimum.value).value.n);
      }
    }
  }

  /** Without padded bounds the loop over the allowed values decides. */
  lemma {:induction false} CheckAllowedUnpadded(limit: ParameterLimit, values: seq<RawMessage>)
    requires GoodBounds(limit) && UnpaddedField(limit)
    ensures CheckAllowed(limit, values) == Ran(forall i | 0 <= i < |values| :: GoodAllowed(limit, values[i]))
  {
    if values == [] {
    } else {
      CheckAllowedUnpadded(limit, values[1..]);
      AllowedStep(limit, values[0]);
      assert (forall i | 0 <= i < |values| :: GoodAllowed(limit, values[i]))
        <==> GoodAllowed(limit, values[0]) && forall i | 0 <= i < |values[1..]| :: GoodAllowed(limit, values[1..][i]);
    }
  }

  lemma AllowedStep(limit: ParameterLimit, raw: RawMessage)
    requires GoodBounds(limit) && UnpaddedField(limit)
    ensures HasType(raw, limit.kind)
        ==> InRange(limit, Decode(raw).value) == Ran(GoodAllowed(limit, raw))
  {
    if HasType(raw, limit.kind) {
      InRangeExact(limit, Decode(raw).value);
    }
  }

  /** With one bound, and that padded, the first allowed value of the type panics. */
  lemma CheckAllowedPadded(limit: ParameterLimit, values: seq<RawMessage>)
    requires GoodBounds(limit) && !UnpaddedField(limit) && (limit.minimum.None? || limit.maximum.None?)
    ensures CheckAllowed(limit, values)
         == if values == [] then Ran(true) else if HasType(values[0], limit.kind) then Panicked else Ran(false)
  {
    if values != [] && HasType(values[0], limit.kind) {
      InRangeExact(limit, Decode(values[0]).value);
    }
  }

  /**
   * Validation of a field panics on a padded bound when it compares it with something: with the other bound, or with
   * a first allowed value of the type.
   */
  predicate CheckPanics(key: string, limit: ParameterLimit) {
    && HeadOk(key, limit) && GoodBounds(limit) && !UnpaddedField(limit)
    && ((limit.minimum.Some? && limit.maximum.Some?)
        || (limit.Allowed() != [] && HasType(limit.Allowed()[0], limit.kind)))
  }

  /** A field is found good or not, or the check panics. */
  lemma CheckFieldExact(key: string, limit: ParameterLimit)
    ensures CheckField(key, limit) == if CheckPanics(key, limit) then Panicked else Ran(GoodField(key, limit))
  {
    CheckRangeExact(limit);
    if GoodRange(limit) {
      if UnpaddedField(limit) {
        CheckAllowedUnpadded(limit, limit.Allowed());
      } else if limit.minimum.None? || limit.maximum.None? {
        CheckAllowedPadded(limit, limit.Allowed());
      }
    }
  }

  /** For a good field: matching panics on a padded bound the value is compared with, and else decides acceptance. */
  lemma MatchFieldExact(key: string, limit: ParameterLimit, value: Json)
    requires GoodField(key, limit)
    ensures MatchField(limit, value) == if MatchPanics(limit, value) then Panicked else Ran(FieldAccepts(limit, value))
  {
    InRangeExact(limit, value);
    forall i | 0 <= i < |limit.Allowed()|
      ensures Equals(value, limit.Allowed()[i]) <==> Means(value, limit.Allowed()[i])
    {
      var a := Decode(limit.Allowed()[i]);
      if a.Some? {
        ParameterEqualIsSameMeaning(value, a.value);
      }
    }
  }

  predicate MatchPanics(limit: ParameterLimit, value: Json) {
    ParameterType(value, limit.kind) && RangePanics(limit, value)
  }

  // ---- every way validation and matching can end ----

  lemma ValidateExact(p: ParameterLimits, r: Ran)
    ensures CanValidate(p, r)
       <==> if p.fields.None? || |p.fields.value| > 64 then r == Ran(false)
            else
              var f := p.fields.value;
              match r
              case Panicked => exists k | k in f :: CheckPanics(k, f[k])
              case Ran(true) => forall k | k in f :: GoodField(k, f[k]) && !CheckPanics(k, f[k])
              case Ran(false) => exists k | k in f :: !GoodField(k, f[k]) && !CheckPanics(k, f[k])
  {
    if p.fields.Some? && |p.fields.value| <= 64 {
      var f := p.fields.value;
      CanEndIff(FieldChecks(f), r);
      forall k | k in f
        ensures FieldChecks(f)[k] == if CheckPanics(k, f[k]) then Panicked else Ran(GoodField(k, f[k]))
      {
        CheckFieldExact(k, f[k]);
      }
    }
  }

  /** A result of validation, if there is one, says whether the ceiling is good; a panic needs a padded bound. */
  lemma ValidateDecides(p: ParameterLimits, r: Ran)
    requires CanValidate(p, r)
    ensures r.Ran? ==> (r.result <==> GoodLimits(p))
    ensures r.Panicked? ==> !Unpadded(p)
  {
    ValidateExact(p, r);
  }

  predicate ValuePanics(f: map<string, ParameterLimit>, values: map<string, Json>, k: string)
    requires k in f
  {
    k in values && MatchPanics(f[k], values[k])
  }

  lemma FieldMatchesExact(p: ParameterLimits, values: map<string, Json>, r: Ran)
    requires GoodLimits(p)
    ensures CanEnd(FieldMatches(p.fields.value, values), r)
       <==> var f := p.fields.value;
            match r
            case Panicked => exists k | k in f :: ValuePanics(f, values, k)
            case Ran(true) => forall k | k in f :: FieldHolds(f[k], values, k) && !ValuePanics(f, values, k)
            case Ran(false) => exists k | k in f :: !FieldHolds(f[k], values, k) && !ValuePanics(f, values, k)
  {
    var f := p.fields.value;
    var rounds := FieldMatches(f, values);
    CanEndIff(rounds, r);
    forall k | k in f
      ensures rounds[k] == if ValuePanics(f, values, k) then Panicked else Ran(FieldHolds(f[k], values, k))
    {
      if k in values {
        MatchFieldExact(k, f[k], values[k]);
      }
    }
  }

  /** A result, if there is one, says whether the ceiling admits the message. */
  lemma MatchesDecides(p: ParameterLimits, raw: RawMessage, b: bool)
    requires CanMatch(p, raw, Ran(b))
    ensures b <==> Admits(p, raw)
  {
    ValidateExact(p, Ran(false));
    ValidateExact(p, Ran(true));
    if GoodLimits(p) && Decode(raw).Some? && Decode(raw).value.Object? {
      FieldMatchesExact(p, Decode(raw).value.fields, Ran(b));
    }
  }

  predicate ValidationPanics(p: ParameterLimits) {
    && p.fields.Some? && |p.fields.value| <= 64
    && exists k | k in p.fields.value :: CheckPanics(k, p.fields.value[k])
  }

  /** Validation panics, or a supplied value once the fields are good and the message is closed. */
  predicate MatchingPanics(p: ParameterLimits, raw: RawMessage) {
    || ValidationPanics(p)
    || (GoodLimits(p) && Decode(raw).Some? && Decode(raw).value.Object?
        && Decode(raw).value.fields.Keys <= p.fields.value.Keys
        && exists k | k in p.fields.value :: ValuePanics(p.fields.value, Decode(raw).value.fields, k))
  }

  lemma ValidateAcceptsIff(p: ParameterLimits)
    ensures CanValidate(p, Ran(true)) <==> GoodLimits(p) && !ValidationPanics(p)
    ensures CanValidate(p, Panicked) <==> ValidationPanics(p)
  {
    ValidateExact(p, Ran(true));
    ValidateExact(p, Panicked);
  }

  lemma MatchesPanicsIff(p: ParameterLimits, raw: RawMessage)
    ensures CanMatch(p, raw, Panicked) <==> MatchingPanics(p, raw)
  {
    ValidateAcceptsIff(p);
    if GoodLimits(p) && Decode(raw).Some? && Decode(raw).value.Object? {
      FieldMatchesExact(p, Decode(raw).value.fields, Panicked);
    }
  }

  /** Matching can accept exactly the admitted messages on which it cannot panic. */
  lemma MatchesAcceptsIff(p: ParameterLimits, raw: RawMessage)
    ensures CanMatch(p, raw, Ran(true)) <==> Admits(p, raw) && !MatchingPanics(p, raw)
  {
    ValidateAcceptsIff(p);
    if GoodLimits(p) && Decode(raw).Some? && Decode(raw).value.Object? {
      FieldMatchesExact(p, Decode(raw).value.fields, Ran(true));
    }
  }

  /** Without blanks around bounds there is exactly one result, whatever the orders: what the ceiling admits. */
  lemma UnpaddedMatches(p: ParameterLimits, raw: RawMessage, r: Ran)
    requires Unpadded(p)
    ensures CanMatch(p, raw, r) <==> r == Ran(Admits(p, raw))
  {
    ValidateExact(p, Ran(false));
    ValidateExact(p, Ran(true));
    MatchesPanicsIff(p, raw);
    if r.Ran? && CanMatch(p, raw, r) {
      MatchesDecides(p, raw, r.result);
    }
    if GoodLimits(p) && Decode(raw).Some? && Decode(raw).value.Object? {
      FieldMatchesExact(p, Decode(raw).value.fields, Ran(Admits(p, raw)));
    }
  }
}
