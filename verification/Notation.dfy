/** What a number text says, piece by piece: digits, decimal point, minus sign, and the ways to write an exponent. */
module Notation {
  import opened Decimal
  import opened Numbers
  import opened Exactness

  // ---- digits, point and minus sign ----

  /** Digits spell a natural number. */
  lemma WholeValue(digits: string)
    requires AllDigits(digits) && digits != "" && (|digits| > 1 ==> digits[0] != '0')
    ensures IsNumber(digits) && Value(digits) == ToNat(digits) as real
  {
    PlainSplitUnsigned(digits);
    assert digits[0] != '-';
    MagnitudeIsPoint(digits, "", 0);
    assert digits + "" == digits;
  }

  /** Moving the point behind the last digit gives the number all digits spell. */
  lemma PointValue(whole: string, fraction: string)
    requires AllDigits(whole) && whole != "" && (|whole| > 1 ==> whole[0] != '0')
    requires AllDigits(fraction) && fraction != ""
    ensures var s := whole + ("." + fraction);
            IsNumber(s) && Shift(Value(s), |fraction|) == ToNat(whole + fraction) as real
  {
    PointSplit(false, whole, fraction);
    assert "" + whole + ("." + fraction) == whole + ("." + fraction);
    PointParts(Parts(false, whole, true, fraction, false, ""));
  }

  lemma PointParts(p: Parts)
    requires GoodParts(p) && !p.negative && !p.marked
    ensures Shift(PartsValue(p), |p.fraction|) == ToNat(p.whole + p.fraction) as real
  {
    MagnitudeIsPoint(p.whole, p.fraction, 0);
    ShiftShift(ToNat(p.whole + p.fraction) as real, 0 - |p.fraction|, |p.fraction|);
  }

  /** A minus sign negates, and is dropped from nothing but zero in the canonical text. */
  lemma MinusValue(u: NumberText)
    requires !Split(u).negative
    ensures var s := "-" + u;
            && IsNumber(s) && Value(s) == -Value(u)
            && Canonical(s) == if Value(u) == 0.0 then Canonical(u) else "-" + Canonical(u)
  {
    var s := "-" + u;
    assert s[1..] == u;
    assert u[0] != '-';
    assert Split(s) == Split(u).(negative := true);
    SameButSign(s, u);
    ValueOfZero(u);
  }

  lemma SameButSign(s: NumberText, u: NumberText)
    requires Split(s) == Split(u).(negative := true) && !Split(u).negative
    ensures Significand(s) == Significand(u)
    ensures Significand(u) != "" ==> Canonical(s) == "-" + Canonical(u)
  {
    SamePieces(Split(s), Split(u));
    SpellMinus(TrimmedDigits(u), MachineExponent(u));
  }

  lemma SamePieces(p: Parts, q: Parts)
    requires GoodParts(p) && GoodParts(q) && p.whole == q.whole && p.fraction == q.fraction
    requires PartsExponent(p) == PartsExponent(q) && AtoiOrZero(p) == AtoiOrZero(q)
    ensures PartsSignificand(p) == PartsSignificand(q) && PartsMachineExponent(p) == PartsMachineExponent(q)
    ensures p.negative == q.negative ==> PartsValue(p) == PartsValue(q)
  {
  }

  lemma SpellMinus(digits: string, e: int)
    ensures Spell(true, digits, e) == "-" + Spell(false, digits, e)
  {
    var tail := if e == 0 then "" else "e" + Itoa(e);
    assert "" + digits == digits;
    assert "-" + digits + tail == "-" + (digits + tail);
  }

  // ---- exponents ----

  lemma MarkSplitUnsigned(u: string, mark: char, x: string)
    requires !SplitUnsigned(u).marked && mark in {'e', 'E'}
    ensures SplitUnsigned(u + ([mark] + x)) == SplitUnsigned(u).(marked := true, exponent := x)
  {
    var v := u + ([mark] + x);
    IndexAnyIs(v, {'e', 'E'}, |u|);
    assert v[..|u|] == u && v[|u| + 1..] == x;
    assert u[..|u|] == u;
  }

  lemma MarkSplitText(m: string, mark: char, x: string)
    requires m != "" && !Split(m).marked && mark in {'e', 'E'}
    ensures Split(m + ([mark] + x)) == Split(m).(marked := true, exponent := x)
  {
    var u := m + ([mark] + x);
    assert u[0] == m[0];
    if m[0] == '-' {
      assert u[1..] == m[1..] + ([mark] + x);
      MarkSplitUnsigned(m[1..], mark, x);
    } else {
      MarkSplitUnsigned(m, mark, x);
    }
  }

  lemma MarkSplit(m: NumberText, mark: char, x: string) returns (s: NumberText)
    requires !Split(m).marked && mark in {'e', 'E'} && IsSigned(x)
    ensures s == m + ([mark] + x) && Split(s) == Split(m).(marked := true, exponent := x)
  {
    MarkedNumber(m, Split(m), mark, x);
    s := m + ([mark] + x);
  }

  lemma MarkedNumber(m: string, p: Parts, mark: char, x: string)
    requires Split(m) == p && m != "" && GoodParts(p) && !p.marked && mark in {'e', 'E'} && IsSigned(x)
    ensures Split(m + ([mark] + x)) == p.(marked := true, exponent := x) && IsNumber(m + ([mark] + x))
  {
    MarkSplitText(m, mark, x);
  }

  lemma SignedDigits(d: string)
    requires AllDigits(d) && d != ""
    ensures IsSigned(d) && IsSigned("+" + d) && IsSigned("-" + d)
    ensures SignedValue(d) == SignedValue("+" + d) == ToNat(d) && SignedValue("-" + d) == 0 - ToNat(d)
  {
    assert Unsigned(d) == Unsigned("+" + d) == Unsigned("-" + d) == d;
  }

  /** An exponent moves the point of the significand by as many places as it says. */
  lemma ExponentMovesPoint(m: NumberText, s: NumberText, x: string)
    requires !Split(m).marked && IsSigned(x) && Split(s) == Split(m).(marked := true, exponent := x)
    ensures Value(s) == Shift(Value(m), SignedValue(x))
  {
    MarkedParts(Split(m), x);
  }

  lemma MarkedParts(p: Parts, x: string)
    requires GoodParts(p) && !p.marked && IsSigned(x)
    ensures GoodParts(p.(marked := true, exponent := x))
    ensures PartsValue(p.(marked := true, exponent := x)) == Shift(PartsValue(p), SignedValue(x))
  {
    var y, e := Magnitude(ToNat(p.whole), ToNat(p.fraction), |p.fraction|, 0), SignedValue(x);
    assert Magnitude(ToNat(p.whole), ToNat(p.fraction), |p.fraction|, e) == Shift(y, e);
    ShiftNegate(y, e);
  }

  /** Texts with the same significand and exponent have the same value and canonical text. */
  lemma SameExponentSame(s: NumberText, t: NumberText)
    requires Split(s).marked && Split(t) == Split(s).(exponent := Split(t).exponent)
    requires SignedValue(Split(s).exponent) == SignedValue(Split(t).exponent)
    ensures Canonical(s) == Canonical(t) && CompareNumber(s, t) == 0
  {
    SamePieces(Split(s), Split(t));
    CompareIsByValue(s, t);
    SamePiecesSpelled(s, t);
  }

  lemma SamePiecesSpelled(s: NumberText, t: NumberText)
    requires Significand(s) == Significand(t) && MachineExponent(s) == MachineExponent(t)
    requires Split(s).negative == Split(t).negative
    ensures Canonical(s) == Canonical(t)
  {
  }

  /** A plus sign before an exponent says nothing, and a minus sign moves the point the other way. */
  lemma ExponentSigns(m: NumberText, mark: char, d: string)
    requires !Split(m).marked && mark in {'e', 'E'} && AllDigits(d) && d != ""
    ensures var bare, plus, minus := m + ([mark] + d), m + ([mark] + ("+" + d)), m + ([mark] + ("-" + d));
            && IsNumber(bare) && IsNumber(plus) && IsNumber(minus)
            && Canonical(plus) == Canonical(bare) && CompareNumber(plus, bare) == 0
            && Value(bare) == Value(plus) == Shift(Value(m), ToNat(d))
            && Value(minus) == Shift(Value(m), 0 - ToNat(d))
  {
    SignedDigits(d);
    var bare := MarkSplit(m, mark, d);
    var plus := MarkSplit(m, mark, "+" + d);
    var minus := MarkSplit(m, mark, "-" + d);
    ExponentMovesPoint(m, bare, d);
    ExponentMovesPoint(m, plus, "+" + d);
    ExponentMovesPoint(m, minus, "-" + d);
    SameExponentSame(plus, bare);
  }

  // ---- what the bounded reader accepts ----

  /** Without an exponent only the length counts, with one the exponent as well, zero to 128 either way. */
  lemma AcceptedForms(m: NumberText, mark: char, d: string)
    requires !Split(m).marked && mark in {'e', 'E'} && AllDigits(d) && d != ""
    ensures Accepted(m) <==> |m| <= 128
    ensures var bare, plus, minus := m + ([mark] + d), m + ([mark] + ("+" + d)), m + ([mark] + ("-" + d));
            && IsNumber(bare) && IsNumber(plus) && IsNumber(minus)
            && (Accepted(bare) <==> |m| + 1 + |d| <= 128 && ToNat(d) <= 128)
            && (Accepted(plus) <==> |m| + 2 + |d| <= 128 && ToNat(d) <= 128)
            && (Accepted(minus) <==> |m| + 2 + |d| <= 128 && ToNat(d) <= 128)
  {
    SignedDigits(d);
    var bare := MarkSplit(m, mark, d);
    var plus := MarkSplit(m, mark, "+" + d);
    var minus := MarkSplit(m, mark, "-" + d);
    AcceptedMarked(bare, d);
    AcceptedMarked(plus, "+" + d);
    AcceptedMarked(minus, "-" + d);
  }

  lemma AcceptedMarked(s: NumberText, x: string)
    requires Split(s).marked && Split(s).exponent == x && IsSigned(x)
    ensures Accepted(s) <==> |s| <= 128 && -128 <= SignedValue(x) <= 128
  {
  }
}
