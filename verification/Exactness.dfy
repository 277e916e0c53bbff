/** When the canonical spelling is exact, and why equal values are exactly the values spelled alike. */
module Exactness {
  import opened Decimal
  import opened Numbers

  /** Joining whole part and fraction, and cutting `z` zeros at the end, only moves the decimal point. */
  lemma MoveThePoint(w: nat, f: nat, n: nat, t: nat, z: nat, e: int)
    requires ShiftNat(w, n) + f == ShiftNat(t, z)
    ensures Magnitude(w, f, n, e) == Shift(t as real, e - n + z)
  {
    var m, k := ShiftNat(t, z), 0 - n;
    assert w as real + Shift(f as real, k) == Shift(m as real, k) by {
      ShiftOfNat(w, n);
      ShiftShift(w as real, n, k);
      ShiftAdd(ShiftNat(w, n) as real, f as real, k);
    }
    ShiftShift(m as real, k, e);
    ShiftOfNat(t, z);
    ShiftShift(t as real, z, e - n);
  }

  // ---- comparison ----

  function FractionValue(x: Fraction): real {
    Shift(x.numerator as real, 0 - x.places)
  }

  lemma MakeFractionValue(negative: bool, digits: nat, exponent: int)
    ensures FractionValue(MakeFraction(negative, digits, exponent)) == Signed(negative, Shift(digits as real, exponent))
  {
    if exponent > 0 {
      ShiftOfNat(digits, exponent);
    } else {
      ShiftNegate(digits as real, exponent);
    }
  }

  /** The point taken out of the digits moves into the exponent. */
  lemma MagnitudeIsPoint(whole: string, fraction: string, e: int)
    requires AllDigits(whole) && AllDigits(fraction)
    ensures Magnitude(ToNat(whole), ToNat(fraction), |fraction|, e)
         == Shift(ToNat(whole + fraction) as real, e - |fraction|)
  {
    ToNatConcat(whole, fraction);
    MoveThePoint(ToNat(whole), ToNat(fraction), |fraction|, ToNat(whole + fraction), 0, e);
  }

  /** The fraction built for a text has the value of the text. */
  lemma FractionIsValue(p: Parts)
    requires GoodParts(p)
    ensures FractionValue(PartsFraction(p)) == PartsValue(p)
  {
    MagnitudeIsPoint(p.whole, p.fraction, PartsExponent(p));
    MakeFractionValue(p.negative, ToNat(p.whole + p.fraction), PointExponent(p));
  }

  lemma ScaledNumerator(x: Fraction, k: nat)
    ensures Scale(x.numerator, k) as real == Shift(FractionValue(x), x.places + k)
  {
    ShiftShift(x.numerator as real, 0 - x.places, x.places + k);
    ShiftOfInt(x.numerator, k);
  }

  lemma CompareFractionsByValue(x: Fraction, y: Fraction)
    ensures CompareFractions(x, y) < 0 <==> FractionValue(x) < FractionValue(y)
    ensures CompareFractions(x, y) == 0 <==> FractionValue(x) == FractionValue(y)
    ensures CompareFractions(x, y) > 0 <==> FractionValue(x) > FractionValue(y)
  {
    ScaledNumerator(x, y.places);
    ScaledNumerator(y, x.places);
    ShiftMonotone(FractionValue(x), FractionValue(y), x.places + y.places);
  }

  /** Comparing cross-multiplied numerators is comparing the exact rational values. */
  lemma CompareIsByValue(a: NumberText, b: NumberText)
    ensures CompareNumber(a, b) < 0 <==> Value(a) < Value(b)
    ensures CompareNumber(a, b) == 0 <==> Value(a) == Value(b)
    ensures CompareNumber(a, b) > 0 <==> Value(a) > Value(b)
  {
    FractionIsValue(Split(a));
    FractionIsValue(Split(b));
    CompareFractionsByValue(PartsFraction(Split(a)), PartsFraction(Split(b)));
  }

  // ---- trimming ----

  /** Every value is its trimmed significand, shifted by the exponent that belongs to it. */
  lemma ValueIsTrimmed(s: NumberText)
    ensures Value(s) == Signed(Split(s).negative, Shift(ToNat(TrimmedDigits(s)) as real, TrueExponent(s)))
  {
    PartsValueIsTrimmed(Split(s));
  }

  lemma PartsValueIsTrimmed(p: Parts)
    requires GoodParts(p)
    ensures PartsValue(p)
         == Signed(p.negative, Shift(ToNat(TrimRight(PartsSignificand(p))) as real, PartsTrueExponent(p)))
  {
    MagnitudeIsTrimmed(p.whole, p.fraction, PartsExponent(p));
  }

  lemma MagnitudeIsTrimmed(whole: string, fraction: string, e: int)
    requires AllDigits(whole) && AllDigits(fraction)
    ensures var d := TrimLeft(whole + fraction);
            Magnitude(ToNat(whole), ToNat(fraction), |fraction|, e)
            == Shift(ToNat(TrimRight(d)) as real, e - |fraction| + TrailingZeros(d))
  {
    var d := TrimLeft(whole + fraction);
    var w, f, t, z := ToNat(whole), ToNat(fraction), ToNat(TrimRight(d)), TrailingZeros(d);
    assert ShiftNat(w, |fraction|) + f == ShiftNat(t, z) by {
      DigitsJoined(whole, fraction);
    }
    MoveThePoint(w, f, |fraction|, t, z, e);
  }

  lemma DigitsJoined(whole: string, fraction: string)
    requires AllDigits(whole) && AllDigits(fraction)
    ensures ShiftNat(ToNat(whole), |fraction|) + ToNat(fraction) == TrimmedValue(TrimLeft(whole + fraction))
  {
    var all := whole + fraction;
    assert ToNat(all) == ShiftNat(ToNat(whole), |fraction|) + ToNat(fraction) by {
      ToNatConcat(whole, fraction);
    }
    assert ToNat(TrimLeft(all)) == ToNat(all) by {
      TrimLeftValue(all);
    }
    CutValue(TrimLeft(all));
  }

  function TrimmedValue(d: string): nat
    requires AllDigits(d)
  {
    ShiftNat(ToNat(TrimRight(d)), TrailingZeros(d))
  }

  lemma CutValue(d: string)
    requires AllDigits(d)
    ensures TrimmedValue(d) == ToNat(d)
  {
    TrimRightValue(d);
  }

  lemma ZeroValue()
    ensures Value(ZeroText()) == 0.0
    ensures Significand(ZeroText()) == ""
  {
    assert "0" + "" == "0";
    assert ToNat("0") == 0 by {
      ToNatZeros("0");
    }
  }

  lemma ValueOfZero(s: NumberText)
    ensures Significand(s) == "" <==> Value(s) == 0.0
  {
    ValueIsTrimmed(s);
    ShiftSign(ToNat(TrimmedDigits(s)) as real, TrueExponent(s));
    if Significand(s) != "" {
      TrimmedNonempty(s);
    }
  }

  lemma CanonicalOfZero(s: NumberText)
    ensures Significand(s) == "" <==> Value(s) == 0.0
    ensures Significand(s) == "" <==> Canonical(s) == ZeroText()
    ensures Value(ZeroText()) == 0.0
  {
    ZeroValue();
    ValueOfZero(s);
    if Significand(s) != "" {
      TrimmedNonempty(s);
      CanonicalParts(s);
    }
  }

  /** What a spelling of trimmed digits says about itself. */
  lemma SpelledPartsAre(negative: bool, t: string, e: int)
    requires AllDigits(t) && t != "" && t[0] != '0' && ToNat(t) % 10 != 0
    ensures var q := SpelledParts(negative, t, e);
            && GoodParts(q)
            && PartsSignificand(q) == t == TrimRight(t)
            && PartsExponent(q) == PointExponent(q) == PartsTrueExponent(q) == e
            && PartsValue(q) == Signed(negative, Shift(ToNat(t) as real, e))
            && (InInt64(e) ==> PartsMachineExponent(q) == e)
  {
    var q := SpelledParts(negative, t, e);
    assert q.whole + q.fraction == t;
    LastDigit(t);
    assert TrimLeft(t) == t && TrimRight(t) == t;
    PartsValueIsTrimmed(q);
  }

  lemma CanonicalParts(s: NumberText)
    requires Significand(s) != ""
    ensures Split(Canonical(s)) == SpelledParts(Split(s).negative, TrimmedDigits(s), MachineExponent(s))
    ensures Significand(Canonical(s)) == TrimmedDigits(Canonical(s)) == TrimmedDigits(s)
    ensures ExponentOf(Canonical(s)) == TrueExponent(Canonical(s)) == MachineExponent(s)
    ensures MachineExponent(Canonical(s)) == MachineExponent(s)
    ensures Value(Canonical(s)) == Signed(Split(s).negative, Shift(ToNat(TrimmedDigits(s)) as real, MachineExponent(s)))
  {
    TrimmedNonempty(s);
    SpellSplit(Split(s).negative, TrimmedDigits(s), MachineExponent(s));
    SpelledPartsAre(Split(s).negative, TrimmedDigits(s), MachineExponent(s));
  }

  lemma LastDigit(t: string)
    requires AllDigits(t) && t != ""
    ensures ToNat(t) % 10 == DigitValue(t[|t| - 1])
  {
  }

  /** The exponent text fits a 64-bit integer and so does the exponent of the trimmed significand. */
  predicate ExponentsFit(s: NumberText) {
    InInt64(ExponentOf(s)) && InInt64(TrueExponent(s))
  }

  lemma MachineExponentIsTrue(s: NumberText)
    requires |s| <= MAX_INT
    ensures MachineExponent(s) == TrueExponent(s) <==> ExponentsFit(s)
  {
    PartsExponentIsTrue(Split(s));
  }

  lemma PartsExponentIsTrue(p: Parts)
    requires GoodParts(p) && |p.whole| + |p.fraction| <= MAX_INT
    ensures PartsMachineExponent(p) == PartsTrueExponent(p)
       <==> InInt64(PartsExponent(p)) && InInt64(PartsTrueExponent(p))
  {
    assert TrailingZeros(PartsSignificand(p)) <= MAX_INT;
    SaturatedSum(PartsExponent(p), |p.fraction|, TrailingZeros(PartsSignificand(p)));
  }

  /** A text whose value the rewriter keeps: it is a zero, or its exponents stay within 64 bits. */
  predicate Fits(s: NumberText) {
    Significand(s) == "" || ExponentsFit(s)
  }

  /** The canonical spelling has exactly the same value if and only if the text fits. */
  lemma CanonicalExact(s: NumberText)
    requires |s| <= MAX_INT
    ensures Value(Canonical(s)) == Value(s) <==> Fits(s)
  {
    CanonicalOfZero(s);
    if Significand(s) != "" {
      TrimmedNonempty(s);
      CanonicalParts(s);
      ValueIsTrimmed(s);
      MachineExponentIsTrue(s);
      var m := ToNat(TrimmedDigits(s));
      if Shift(m as real, MachineExponent(s)) == Shift(m as real, TrueExponent(s)) {
        ShiftInjective(m, MachineExponent(s), m, TrueExponent(s));
      }
    }
  }

  /** Two texts that fit have the same value if and only if their canonical spellings are the same text. */
  lemma SameValueIffSameCanonical(a: NumberText, b: NumberText)
    requires |a| <= MAX_INT && |b| <= MAX_INT && Fits(a) && Fits(b)
    ensures Value(a) == Value(b) <==> Canonical(a) == Canonical(b)
  {
    CanonicalExact(a);
    CanonicalExact(b);
    CanonicalOfZero(a);
    CanonicalOfZero(b);
    if Value(a) == Value(b) && Value(a) != 0.0 {
      TrimmedNonempty(a);
      TrimmedNonempty(b);
      ValueIsTrimmed(a);
      ValueIsTrimmed(b);
      MachineExponentIsTrue(a);
      MachineExponentIsTrue(b);
      var m, n := ToNat(TrimmedDigits(a)), ToNat(TrimmedDigits(b));
      ShiftSign(m as real, TrueExponent(a));
      ShiftSign(n as real, TrueExponent(b));
      ShiftInjective(m, TrueExponent(a), n, TrueExponent(b));
      ToNatInjective(TrimmedDigits(a), TrimmedDigits(b));
    }
  }

  /** The comparison is a total order, and on texts that fit its ties are exactly the identical canonical texts. */
  lemma CompareIsTotalOrder(a: NumberText, b: NumberText, c: NumberText)
    ensures CompareNumber(b, a) == -CompareNumber(a, b)
    ensures CompareNumber(a, b) <= 0 && CompareNumber(b, c) <= 0 ==> CompareNumber(a, c) <= 0
    ensures |a| <= MAX_INT && |b| <= MAX_INT && Fits(a) && Fits(b)
        ==> (CompareNumber(a, b) == 0 <==> Canonical(a) == Canonical(b))
  {
    CompareIsByValue(a, b);
    CompareIsByValue(b, a);
    CompareIsByValue(b, c);
    CompareIsByValue(a, c);
    if |a| <= MAX_INT && |b| <= MAX_INT && Fits(a) && Fits(b) {
      SameValueIffSameCanonical(a, b);
    }
  }

  /** Rewriting a canonical text changes nothing, whether or not the first rewriting was exact. */
  lemma CanonicalIdempotent(s: NumberText)
    ensures Canonical(Canonical(s)) == Canonical(s)
  {
    if Significand(s) == "" {
      ZeroValue();
    } else {
      TrimmedNonempty(s);
      CanonicalParts(s);
    }
  }

  /** A value is an integer if and only if its canonical spelling carries no negative exponent. */
  lemma IntegerIffCanonicalExponent(s: NumberText)
    requires |s| <= MAX_INT && Fits(s)
    ensures IsInteger(Value(s)) <==> ExponentOf(Canonical(s)) >= 0
  {
    CanonicalOfZero(s);
    if Significand(s) != "" {
      var m, e := ToNat(TrimmedDigits(s)), TrueExponent(s);
      TrimmedNonempty(s);
      CanonicalParts(s);
      ValueIsTrimmed(s);
      MachineExponentIsTrue(s);
      ShiftSign(m as real, e);
      if e >= 0 {
        ShiftOfNat(m, e);
        var k: int := ShiftNat(m, e);
        assert Value(s) == (if Split(s).negative then -k else k) as real;
      } else if IsInteger(Value(s)) {
        var k := Value(s).Floor;
        ShiftIsInt(m, e, if Split(s).negative then -k else k);
      }
    } else {
      assert 0 as real == Value(s);
    }
  }

  // ---- what the bounded reader lets through ----

  /** The bounds `readParameterValue` puts on a number: at most 128 characters, exponent within 128 of zero. */
  predicate Accepted(s: NumberText) {
    |s| <= 128 && (Split(s).marked ==> Atoi(Split(s).exponent).1 && -128 <= Atoi(Split(s).exponent).0 <= 128)
  }

  /** No arithmetic on an accepted text leaves a small range, and the canonical digits stay short. */
  lemma AcceptedBounds(s: NumberText)
    requires Accepted(s)
    ensures Fits(s)
    ensures -249 <= MachineExponent(s) <= 251
    ensures |TrimmedDigits(s)| <= 128
  {
    AcceptedParts(Split(s));
    MachineExponentIsTrue(s);
  }

  lemma AcceptedParts(p: Parts)
    requires GoodParts(p) && -128 <= PartsExponent(p) <= 128 && (!p.dotted ==> p.fraction == "")
    requires |p.whole| + (if p.dotted then 1 else 0) + |p.fraction|
             + (if p.marked then 1 + |p.exponent| else 0) + (if p.negative then 1 else 0) <= 128
    ensures -249 <= PartsTrueExponent(p) <= 251
  {
    if p.marked && |Unsigned(p.exponent)| <= 2 {
      ToNatBelow100(Unsigned(p.exponent));
    }
    var d := PartsSignificand(p);
    if d != "" {
      DigitsNonempty(d);
    }
  }

  /** The number of characters of a spelling with so many digits. */
  function SpellLength(negative: bool, digits: nat, exponent: int): nat {
    (if negative then 1 else 0) + digits + (if exponent == 0 then 0 else 1 + |Itoa(exponent)|)
  }

  /** The exponent and the length the canonical spelling will have are within the bounds of the reader. */
  predicate LeavesRoom(s: NumberText) {
    || Significand(s) == ""
    || (-128 <= TrueExponent(s) <= 128
        && SpellLength(Split(s).negative, |TrimmedDigits(s)|, TrueExponent(s)) <= 128)
  }

  /** The canonical text of an accepted number is accepted if and only if the number leaves room for it. */
  lemma CanonicalAcceptedIff(s: NumberText)
    requires Accepted(s)
    ensures Accepted(Canonical(s)) <==> LeavesRoom(s)
  {
    AcceptedBounds(s);
    MachineExponentIsTrue(s);
    if Significand(s) != "" {
      TrimmedNonempty(s);
      CanonicalLength(s);
    }
  }

  lemma CanonicalLength(s: NumberText)
    requires Significand(s) != "" && InInt64(MachineExponent(s))
    ensures |Canonical(s)| == SpellLength(Split(s).negative, |TrimmedDigits(s)|, MachineExponent(s))
    ensures Accepted(Canonical(s)) <==> |Canonical(s)| <= 128 && -128 <= MachineExponent(s) <= 128
  {
    TrimmedNonempty(s);
    SpellSplit(Split(s).negative, TrimmedDigits(s), MachineExponent(s));
  }

  // ---- texts that do not fit ----

  /** Two exponents beyond 64 bits saturate alike, so different values receive one canonical text. */
  lemma SaturationMergesValues()
    ensures exists a: NumberText, b: NumberText :: Value(a) != Value(b) && Canonical(a) == Canonical(b)
  {
    var a := OneTimes(MAX_INT + 1);
    var b := OneTimes(MAX_INT + 2);
    if Value(a) == Value(b) {
      ShiftInjective(1, MAX_INT + 1, 1, MAX_INT + 2);
    }
    assert Canonical(a) == Canonical(b);
  }

  lemma OneTimes(e: int) returns (s: NumberText)
    requires e > MAX_INT
    ensures Value(s) == Shift(1.0, e)
    ensures Canonical(s) == Spell(false, "1", MAX_INT)
  {
    OneDigit();
    SpellSplit(false, "1", e);
    SpelledPartsAre(false, "1", e);
    s := Spell(false, "1", e);
    SaturatedParts(SpelledParts(false, "1", e));
  }

  lemma SaturatedParts(p: Parts)
    requires GoodParts(p) && p.marked && p.fraction == "" && PartsExponent(p) > MAX_INT
    requires PartsSignificand(p) == TrimRight(PartsSignificand(p))
    ensures PartsMachineExponent(p) == MAX_INT
  {
  }

  lemma OneDigit()
    ensures ToNat("1") == 1 && TrimLeft("1") == "1" && TrimRight("1") == "1"
  {
    assert ToNat("1"[..0]) == 0;
  }
}
