/** Decoded JSON values, the two notions of equality on them, and the canonical tree. */
module JsonTree {
  import opened Decimal
  import opened Numbers
  import opened Exactness

  datatype Tree<+N> =
    | Null
    | Bool(b: bool)
    | Text(s: string)
    | Number(n: N)
    | Object(fields: map<string, Tree<N>>)
    | Array(items: seq<Tree<N>>)

  /** What `decodeParameterJSON` returns: numbers are kept as texts. */
  type Json = Tree<NumberText>

  /** The value a tree stands for: every number text replaced by the rational number it spells. */
  function Meaning(t: Json): Tree<real> {
    match t
    case Null => Null
    case Bool(b) => Bool(b)
    case Text(s) => Text(s)
    case Number(n) => Number(Value(n))
    case Object(fields) => Object(map k | k in fields :: Meaning(fields[k]))
    case Array(items) => Array(seq(|items|, i requires 0 <= i < |items| => Meaning(items[i])))
  }

  /** `parameterEqual`: numbers by exact comparison, objects by size and one-way lookup, arrays by position. */
  predicate ParameterEqual(a: Json, b: Json) {
    match a
    case Number(x) => b.Number? && CompareNumber(x, b.n) == 0
    case Object(x) =>
      b.Object? && |x| == |b.fields| && forall k | k in x :: k in b.fields && ParameterEqual(x[k], b.fields[k])
    case Array(x) =>
      b.Array? && |x| == |b.items| && forall i | 0 <= i < |x| :: ParameterEqual(x[i], b.items[i])
    case _ => a == b
  }

  /** The tree `canonicalDiscoveryNumbers` leaves behind. */
  function Canon(t: Json): Json {
    match t
    case Number(n) => Number(Canonical(n))
    case Object(fields) => Object(map k | k in fields :: Canon(fields[k]))
    case Array(items) => Array(seq(|items|, i requires 0 <= i < |items| => Canon(items[i])))
    case _ => t
  }

  /** `canonicalDiscoveryNumbers`, by the kind of the value. */
  method CanonicalDiscoveryNumbers(value: Json) returns (r: Json)
    ensures r == Canon(value)
    decreases value, 0
  {
    if value.Number? {
      var c := CanonicalNumber(value.n);
      r := Number(c);
    } else if value.Object? {
      var v := RewriteMembers(value, value.fields);
      r := Object(v);
    } else if value.Array? {
      var v := RewriteElements(value, value.items);
      r := Array(v);
    } else {
      r := value;
    }
  }

  /** The loop over an object: members are overwritten one by one, in any order. */
  method RewriteMembers(ghost value: Json, fields: map<string, Json>) returns (v: map<string, Json>)
    requires value == Object(fields)
    ensures v == map k | k in fields :: Canon(fields[k])
    decreases value, 0, 0
  {
    v := fields;
    var left := fields.Keys;
    while left != {}
      invariant left <= fields.Keys == v.Keys
      invariant forall k | k in fields :: v[k] == if k in left then fields[k] else Canon(fields[k])
      decreases left
    {
      var key :| key in left;
      var item := CanonicalDiscoveryNumbers(fields[key]);
      v := v[key := item];
      left := left - {key};
    }
  }

  /** The loop over an array: elements are overwritten in order. */
  method RewriteElements(ghost value: Json, items: seq<Json>) returns (v: seq<Json>)
    requires value == Array(items)
    ensures v == seq(|items|, i requires 0 <= i < |items| => Canon(items[i]))
    decreases value, 0, 0
  {
    v := items;
    for i := 0 to |items|
      invariant |v| == |items|
      invariant forall j | 0 <= j < |items| :: v[j] == if j < i then Canon(items[j]) else items[j]
    {
      var item := CanonicalDiscoveryNumbers(items[i]);
      v := v[i := item];
    }
  }

  // ---- number bounds through a tree ----

  predicate FitsTree(t: Json) {
    match t
    case Number(n) => |n| <= MAX_INT && Fits(n)
    case Object(fields) => forall k | k in fields :: FitsTree(fields[k])
    case Array(items) => forall i | 0 <= i < |items| :: FitsTree(items[i])
    case _ => true
  }

  predicate AcceptedTree(t: Json) {
    match t
    case Number(n) => Accepted(n)
    case Object(fields) => forall k | k in fields :: AcceptedTree(fields[k])
    case Array(items) => forall i | 0 <= i < |items| :: AcceptedTree(items[i])
    case _ => true
  }

  lemma {:induction false} AcceptedTreeFits(t: Json)
    requires AcceptedTree(t)
    ensures FitsTree(t)
  {
    match t
    case Number(n) => AcceptedBounds(n);
    case Object(fields) =>
      forall k | k in fields ensures FitsTree(fields[k]) {
        AcceptedTreeFits(fields[k]);
      }
    case Array(items) =>
      forall i | 0 <= i < |items| ensures FitsTree(items[i]) {
        AcceptedTreeFits(items[i]);
      }
    case _ =>
  }

  // ---- equality of parameters is equality of meaning ----

  lemma SameSizeSubset<T>(x: set<T>, y: set<T>)
    requires |x| == |y| && x <= y
    ensures x == y
  {
    assert |y - x| == |y| - |x|;
  }

  /** `parameterEqual` holds exactly when the two trees stand for the same value. */
  lemma {:induction false} ParameterEqualIsSameMeaning(a: Json, b: Json)
    ensures ParameterEqual(a, b) <==> Meaning(a) == Meaning(b)
  {
    match (a, b)
    case (Number(x), Number(y)) => CompareIsByValue(x, y);
    case (Object(x), Object(y)) =>
      forall k | k in x && k in y ensures ParameterEqual(x[k], y[k]) <==> Meaning(x[k]) == Meaning(y[k]) {
        ParameterEqualIsSameMeaning(x[k], y[k]);
      }
      if ParameterEqual(a, b) {
        assert x.Keys <= y.Keys;
        SameSizeSubset(x.Keys, y.Keys);
        assert Meaning(a).fields == Meaning(b).fields;
      }
      if Meaning(a) == Meaning(b) {
        assert x.Keys == Meaning(a).fields.Keys == Meaning(b).fields.Keys == y.Keys;
        assert |x| == |x.Keys| == |y.Keys| == |y|;
        forall k | k in x ensures k in y && ParameterEqual(x[k], y[k]) {
          assert Meaning(a).fields[k] == Meaning(b).fields[k];
        }
      }
    case (Array(x), Array(y)) =>
      forall i | 0 <= i < |x| && i < |y| ensures ParameterEqual(x[i], y[i]) <==> Meaning(x[i]) == Meaning(y[i]) {
        ParameterEqualIsSameMeaning(x[i], y[i]);
      }
      if Meaning(a) == Meaning(b) {
        assert |x| == |Meaning(a).items| == |y|;
        forall i | 0 <= i < |x| ensures ParameterEqual(x[i], y[i]) {
          assert Meaning(a).items[i] == Meaning(b).items[i];
        }
      }
    case _ =>
  }

  lemma ParameterEqualIsEquivalence(a: Json, b: Json, c: Json)
    ensures ParameterEqual(a, a)
    ensures ParameterEqual(a, b) ==> ParameterEqual(b, a)
    ensures ParameterEqual(a, b) && ParameterEqual(b, c) ==> ParameterEqual(a, c)
  {
    ParameterEqualIsSameMeaning(a, a);
    ParameterEqualIsSameMeaning(a, b);
    ParameterEqualIsSameMeaning(b, a);
    ParameterEqualIsSameMeaning(b, c);
    ParameterEqualIsSameMeaning(a, c);
  }

  // ---- canonical trees ----

  lemma MapsAgree<K, U, V>(c: map<K, U>, d: map<K, U>, m: map<K, V>, n: map<K, V>)
    requires c.Keys == m.Keys && d.Keys == n.Keys
    requires forall k | k in c && k in d :: c[k] == d[k] <==> m[k] == n[k]
    ensures c == d <==> m == n
  {
    if c == d {
      assert m.Keys == n.Keys;
      forall k | k in m ensures m[k] == n[k] {
        assert c[k] == d[k];
      }
    }
    if m == n {
      assert c.Keys == d.Keys;
      forall k | k in c ensures c[k] == d[k] {
        assert m[k] == n[k];
      }
    }
  }

  lemma SeqsAgree<U, V>(c: seq<U>, d: seq<U>, m: seq<V>, n: seq<V>)
    requires |c| == |m| && |d| == |n|
    requires forall i | 0 <= i < |c| && i < |d| :: c[i] == d[i] <==> m[i] == n[i]
    ensures c == d <==> m == n
  {
    if c == d {
      forall i | 0 <= i < |m| ensures m[i] == n[i] {
        assert c[i] == d[i];
      }
    }
  }

  lemma {:induction false} SameCanonIsSameMeaning(a: Json, b: Json)
    requires FitsTree(a) && FitsTree(b)
    ensures Canon(a) == Canon(b) <==> Meaning(a) == Meaning(b)
  {
    match (a, b)
    case (Number(x), Number(y)) => SameValueIffSameCanonical(x, y);
    case (Object(x), Object(y)) =>
      forall k | k in x && k in y ensures Canon(x[k]) == Canon(y[k]) <==> Meaning(x[k]) == Meaning(y[k]) {
        SameCanonIsSameMeaning(x[k], y[k]);
      }
      MapsAgree(Canon(a).fields, Canon(b).fields, Meaning(a).fields, Meaning(b).fields);
    case (Array(x), Array(y)) =>
      forall i | 0 <= i < |x| && i < |y| ensures Canon(x[i]) == Canon(y[i]) <==> Meaning(x[i]) == Meaning(y[i]) {
        SameCanonIsSameMeaning(x[i], y[i]);
      }
      SeqsAgree(Canon(a).items, Canon(b).items, Meaning(a).items, Meaning(b).items);
    case _ =>
  }

  /** Exact rational equality and equality of canonical texts are one relation on trees whose numbers fit. */
  lemma ParameterEqualIffSameCanon(a: Json, b: Json)
    requires FitsTree(a) && FitsTree(b)
    ensures ParameterEqual(a, b) <==> Canon(a) == Canon(b)
  {
    ParameterEqualIsSameMeaning(a, b);
    SameCanonIsSameMeaning(a, b);
  }

  /** Every number text has a length that Go can represent. */
  predicate ShortTexts(t: Json) {
    match t
    case Number(n) => |n| <= MAX_INT
    case Object(fields) => forall k | k in fields :: ShortTexts(fields[k])
    case Array(items) => forall i | 0 <= i < |items| :: ShortTexts(items[i])
    case _ => true
  }

  /** Canonicalisation keeps the value of a tree if and only if every number in it fits. */
  lemma {:induction false} CanonKeepsMeaningIffFits(t: Json)
    requires ShortTexts(t)
    ensures Meaning(Canon(t)) == Meaning(t) <==> FitsTree(t)
  {
    match t
    case Number(n) => CanonicalExact(n);
    case Object(fields) =>
      var m, c := Meaning(t).fields, Meaning(Canon(t)).fields;
      assert m.Keys == fields.Keys == c.Keys;
      forall k | k in fields ensures c[k] == m[k] <==> FitsTree(fields[k]) {
        CanonKeepsMeaningIffFits(fields[k]);
      }
      assert c == m <==> forall k | k in fields :: c[k] == m[k];
    case Array(items) =>
      var m, c := Meaning(t).items, Meaning(Canon(t)).items;
      forall i | 0 <= i < |items| ensures c[i] == m[i] <==> FitsTree(items[i]) {
        CanonKeepsMeaningIffFits(items[i]);
      }
      assert c == m <==> forall i | 0 <= i < |items| :: c[i] == m[i];
    case _ =>
  }

  lemma {:induction false} CanonIdempotent(t: Json)
    ensures Canon(Canon(t)) == Canon(t)
  {
    match t
    case Number(n) => CanonicalIdempotent(n);
    case Object(fields) =>
      forall k | k in fields ensures Canon(Canon(fields[k])) == Canon(fields[k]) {
        CanonIdempotent(fields[k]);
      }
      assert Canon(Canon(t)).fields == Canon(t).fields;
    case Array(items) =>
      forall i | 0 <= i < |items| ensures Canon(Canon(items[i])) == Canon(items[i]) {
        CanonIdempotent(items[i]);
      }
      assert Canon(Canon(t)).items == Canon(t).items;
    case _ =>
  }
}
