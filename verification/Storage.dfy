/** Numbers in plain decimal notation, as PostgreSQL JSONB returns them, and what storing a request does to its hash. */
module Storage {
  import opened Decimal
  import opened Numbers
  import opened Exactness
  import opened JsonTree
  import opened Grammar
  import opened Reader
  import opened Acceptance
  import opened Encoder
  import opened Digests

  // ---- the plain spelling of a number ----

  function Zeros(n: nat): (z: string)
    ensures |z| == n && AllDigits(z)
  {
    seq(n, _ => '0')
  }

  /** Zeros put in front of the digits until there are at least `length` of them. */
  function Widen(digits: string, length: nat): (w: string)
    requires AllDigits(digits)
    ensures AllDigits(w) && |w| == if |digits| < length then length else |digits|
  {
    if |digits| < length then Zeros(length - |digits|) + digits else digits
  }

  /** The exponent is written out in zeros or in places behind the point; digits behind the point are kept. */
  function WriteOut(negative: bool, d: string, e: int): Parts
    requires AllDigits(d)
  {
    if e >= 0 then Parts(negative && d != "", if d == "" then "0" else d + Zeros(e), false, "", false, "")
    else
      var w := Widen(d, 1 - e);
      Parts(negative && d != "", w[..|w| + e], true, w[|w| + e..], false, "")
  }

  function PlainParts(p: Parts): Parts
    requires GoodParts(p)
  {
    WriteOut(p.negative, PartsSignificand(p), PointExponent(p))
  }

  function Plain(s: NumberText): NumberText {
    var q := PlainParts(Split(s));
    PlainPartsGood(Split(s));
    PlainTextSplit(q);
    PlainText(q)
  }

  function PlainText(q: Parts): string {
    (if q.negative then "-" else "") + q.whole + (if q.dotted then "." + q.fraction else "")
  }

  /** How long the plain spelling is. */
  function PlainLength(s: NumberText): nat {
    var d, e := |Significand(s)|, PointExponent(Split(s));
    (if Split(s).negative && d > 0 then 1 else 0)
    + if e >= 0 then (if d == 0 then 1 else d + e) else 1 + if d < 1 - e then 1 - e else d
  }

  lemma PlainPartsGood(p: Parts)
    requires GoodParts(p)
    ensures GoodParts(PlainParts(p))
  {
    WriteOutGood(p.negative, PartsSignificand(p), PointExponent(p));
  }

  lemma WriteOutGood(negative: bool, d: string, e: int)
    requires AllDigits(d) && NoLeadingZero(d)
    ensures GoodParts(WriteOut(negative, d, e))
  {
  }

  lemma PlainTextSplit(q: Parts)
    requires GoodParts(q) && !q.marked && q.exponent == "" && (!q.dotted ==> q.fraction == "")
    ensures Split(PlainText(q)) == q
    ensures |PlainText(q)| == (if q.negative then 1 else 0) + |q.whole| + (if q.dotted then 1 + |q.fraction| else 0)
  {
    if q.dotted {
      PointSplit(q.negative, q.whole, q.fraction);
    } else {
      PlainSplit(q.negative, q.whole);
      var s := (if q.negative then "-" else "") + q.whole;
      assert s + "" == s;
    }
  }

  lemma PlainIs(s: NumberText)
    ensures Split(Plain(s)) == PlainParts(Split(s))
    ensures |Plain(s)| == PlainLength(s)
  {
    PlainPartsGood(Split(s));
    PlainTextSplit(PlainParts(Split(s)));
  }

  // ---- its value ----

  lemma ZerosValue(n: nat)
    ensures ToNat(Zeros(n)) == 0
  {
    ToNatZeros(Zeros(n));
  }

  lemma WidenValue(digits: string, length: nat)
    requires AllDigits(digits)
    ensures ToNat(Widen(digits, length)) == ToNat(digits)
  {
    if |digits| < length {
      ToNatConcat(Zeros(length - |digits|), digits);
      ZerosValue(length - |digits|);
      ShiftNatZero(|digits|);
    }
  }

  /** The value of the digits without the point. */
  lemma PartsValueIsPoint(p: Parts)
    requires GoodParts(p)
    ensures PartsValue(p) == Signed(p.negative, Shift(ToNat(PartsSignificand(p)) as real, PointExponent(p)))
  {
    MagnitudeIsPoint(p.whole, p.fraction, PartsExponent(p));
    TrimLeftValue(p.whole + p.fraction);
  }

  lemma PlainPartsValue(p: Parts)
    requires GoodParts(p)
    ensures GoodParts(PlainParts(p)) && PartsValue(PlainParts(p)) == PartsValue(p)
  {
    PartsValueIsPoint(p);
    WriteOutValue(p.negative, PartsSignificand(p), PointExponent(p));
  }

  lemma WriteOutValue(negative: bool, d: string, e: int)
    requires AllDigits(d) && NoLeadingZero(d)
    ensures GoodParts(WriteOut(negative, d, e))
    ensures PartsValue(WriteOut(negative, d, e)) == Signed(negative, Shift(ToNat(d) as real, e))
  {
    var q := WriteOut(negative, d, e);
    WriteOutGood(negative, d, e);
    MagnitudeIsPoint(q.whole, q.fraction, 0);
    WriteOutDigits(negative, d, e);
    if e >= 0 {
      ShiftOfNat(ToNat(d), e);
    }
    if d == "" {
      ShiftSign(0.0, e);
    }
  }

  /** All digits written out, read as one number. */
  lemma WriteOutDigits(negative: bool, d: string, e: int)
    requires AllDigits(d) && NoLeadingZero(d)
    ensures var q := WriteOut(negative, d, e);
            GoodParts(q) && ToNat(q.whole + q.fraction) == if e >= 0 then ShiftNat(ToNat(d), e) else ToNat(d)
  {
    var q := WriteOut(negative, d, e);
    WriteOutGood(negative, d, e);
    if e < 0 {
      var w := Widen(d, 1 - e);
      RejoinedValue(w, |w| + e, q.whole, q.fraction);
      WidenValue(d, 1 - e);
    } else {
      WholeDigits(d, e, q.whole);
    }
  }

  lemma WholeDigits(d: string, e: nat, whole: string)
    requires AllDigits(d) && whole == if d == "" then "0" else d + Zeros(e)
    ensures AllDigits(whole + "") && ToNat(whole + "") == ShiftNat(ToNat(d), e)
  {
    AppendZeros(d, e);
    assert whole + "" == whole;
  }

  lemma RejoinedValue(w: string, k: nat, whole: string, fraction: string)
    requires AllDigits(w) && k <= |w| && whole == w[..k] && fraction == w[k..]
    ensures AllDigits(whole + fraction) && ToNat(whole + fraction) == ToNat(w)
  {
    assert whole + fraction == w;
  }

  lemma AppendZeros(d: string, e: nat)
    requires AllDigits(d)
    ensures ToNat(if d == "" then "0" else d + Zeros(e)) == ShiftNat(ToNat(d), e)
  {
    if d == "" {
      ShiftNatZero(e);
      ToNatZeros("0");
    } else {
      ToNatConcat(d, Zeros(e));
      ZerosValue(e);
    }
  }

  /** Plain spelling keeps the exact value. */
  lemma PlainExact(s: NumberText)
    ensures Value(Plain(s)) == Value(s)
  {
    PlainIs(s);
    PlainPartsValue(Split(s));
  }

  lemma UnmarkedFits(s: NumberText)
    requires !Split(s).marked && |s| <= MAX_INT
    ensures Fits(s)
  {
  }

  /** The plain spelling of a fitting number has the same canonical text. */
  lemma PlainKeepsCanonical(s: NumberText)
    requires |s| <= MAX_INT && Fits(s) && PlainLength(s) <= MAX_INT
    ensures Canonical(Plain(s)) == Canonical(s)
  {
    PlainIs(s);
    PlainExact(s);
    UnmarkedFits(Plain(s));
    SameValueIffSameCanonical(Plain(s), s);
  }

  /** The plain spelling has no exponent, so only its length can keep the reader from accepting it. */
  lemma PlainAcceptedIff(s: NumberText)
    ensures Accepted(Plain(s)) <==> PlainLength(s) <= 128
  {
    PlainIs(s);
  }

  // ---- trees ----

  function PlainTree(t: Json): Json {
    match t
    case Number(n) => Number(Plain(n))
    case Object(fields) => Object(map k | k in fields :: PlainTree(fields[k]))
    case Array(items) => Array(seq(|items|, i requires 0 <= i < |items| => PlainTree(items[i])))
    case _ => t
  }

  /** Every number of the tree has a plain spelling of at most 128 characters. */
  predicate ShortTree(t: Json) {
    match t
    case Number(n) => PlainLength(n) <= 128
    case Object(fields) => forall k | k in fields :: ShortTree(fields[k])
    case Array(items) => forall i | 0 <= i < |items| :: ShortTree(items[i])
    case _ => true
  }

  lemma {:induction false} PlainTreeMeaning(t: Json)
    ensures Meaning(PlainTree(t)) == Meaning(t)
  {
    match t
    case Number(n) => PlainExact(n);
    case Object(fields) =>
      var p := PlainTree(t).fields;
      forall k | k in fields ensures Meaning(p[k]) == Meaning(fields[k]) {
        PlainTreeMeaning(fields[k]);
      }
      assert Meaning(Object(p)).fields == Meaning(t).fields;
    case Array(items) =>
      var p := PlainTree(t).items;
      forall i | 0 <= i < |items| ensures Meaning(p[i]) == Meaning(items[i]) {
        PlainTreeMeaning(items[i]);
      }
      assert Meaning(Array(p)).items == Meaning(t).items;
    case _ =>
  }

  lemma {:induction false} PlainReadableIff(t: Json, depth: nat)
    requires Readable(t, depth)
    ensures Readable(PlainTree(t), depth) <==> ShortTree(t)
  {
    match t
    case Number(n) => PlainAcceptedIff(n);
    case Object(fields) =>
      var p := PlainTree(t).fields;
      forall k | k in fields ensures Readable(p[k], depth + 1) <==> ShortTree(fields[k]) {
        PlainReadableIff(fields[k], depth + 1);
      }
    case Array(items) =>
      var p := PlainTree(t).items;
      forall i | 0 <= i < |items| ensures Readable(p[i], depth + 1) <==> ShortTree(items[i]) {
        PlainReadableIff(items[i], depth + 1);
      }
    case _ =>
  }

  // ---- messages ----

  /** No object of the text repeats a key; members may stand in any order. */
  predicate KeysOnce(c: Syntax) {
    match c
    case Leaf(_) => true
    case ObjectText(members) => DistinctKeys(members) && forall i | 0 <= i < |members| :: KeysOnce(members[i].value)
    case ArrayText(items) => forall i | 0 <= i < |items| :: KeysOnce(items[i])
  }

  lemma {:induction false} ReadableIsWellFormed(c: Syntax, depth: nat)
    requires KeysOnce(c) && Readable(Denote(c), depth)
    ensures WellFormed(c, depth)
    decreases c
  {
    match c
    case Leaf(_) =>
    case ObjectText(ms) =>
      var fields := DenoteMembers(ms, map[]);
      DenoteMembersMap(ms, map[]);
      forall i | 0 <= i < |ms| ensures WellFormed(ms[i].value, depth + 1) {
        assert ms[i].key in fields && fields[ms[i].key] == Denote(ms[i].value);
        ReadableIsWellFormed(ms[i].value, depth + 1);
      }
    case ArrayText(xs) =>
      forall i | 0 <= i < |xs| ensures WellFormed(xs[i], depth + 1) {
        DenoteItemsAt(xs, i);
        ReadableIsWellFormed(xs[i], depth + 1);
      }
  }

  /** A text without repeated keys is read if and only if the tree it denotes keeps the bounds of the reader. */
  lemma KeysOnceDecodes(raw: RawMessage, c: Syntax)
    requires raw.lexemes == Flatten(c) && KeysOnce(c) && 0 < raw.size <= MAX_RAW
    ensures Decode(raw).Some? <==> Readable(Denote(c), 0)
    ensures Decode(raw).Some? ==> Decode(raw).value == Denote(c)
  {
    if Decode(raw).Some? {
      var v := Decode(raw).value;
      DecodeExact(raw, v);
      var b :| Flatten(b) == raw.lexemes && WellFormed(b, 0) && Denote(b) == v;
      FlattenInjective(b, c, [], []);
      WellFormedDenotesReadable(c, 0);
    }
    if Readable(Denote(c), 0) {
      ReadableIsWellFormed(c, 0);
      DecodeExact(raw, Denote(c));
    }
  }

  /**
   * An accepted request stored with plain numbers is accepted again if and only if these are at most 128 characters
   * long, and is then hashed as the same text.
   */
  lemma StoredKeepsHash(raw: RawMessage, stored: RawMessage, c: Syntax)
    requires Decode(raw).Some?
    requires stored.lexemes == Flatten(c) && KeysOnce(c) && 0 < stored.size <= MAX_RAW
    requires Denote(c) == PlainTree(Decode(raw).value)
    ensures Decode(stored).Some? <==> ShortTree(Decode(raw).value)
    ensures Decode(stored).Some? ==> CanonicalText(stored) == CanonicalText(raw)
  {
    var v := Decode(raw).value;
    DecodedReadable(raw);
    PlainReadableIff(v, 0);
    KeysOnceDecodes(stored, c);
    if Decode(stored).Some? {
      PlainTreeMeaning(v);
      ParameterEqualIsSameMeaning(PlainTree(v), v);
      SameTextIffParameterEqual(stored, raw);
    }
  }

  /** "1e128" is accepted, but written out it has 129 digits, which the reader refuses. */
  lemma PlainMayBeRefused()
    ensures exists n: NumberText :: n == "1" + ("e" + "128") && Accepted(n) && !Accepted(Plain(n))
  {
    ToNat128();
    OneDigit();
    LargePower("1", "128");
  }

  lemma LargePower(digit: string, exponent: string)
    requires |digit| == 1 && AllDigits(digit) && digit[0] != '0'
    requires |exponent| == 3 && AllDigits(exponent) && ToNat(exponent) == 128
    ensures exists n: NumberText :: n == digit + ("e" + exponent) && Accepted(n) && !Accepted(Plain(n))
  {
    LargeExponent(exponent);
    var n := ScaledNumber(digit, exponent);
    PlainAcceptedIff(n);
  }
}
