/** JSON number texts (RFC 8259, section 6), their exact values, and the canonical spelling of a value. */
module Numbers {
  import opened Decimal

  // ---- the grammar ----

  /** The pieces of a number text; `dotted` and `marked` say whether '.' and 'e' or 'E' occur. */
  datatype Parts = Parts(negative: bool, whole: string, dotted: bool, fraction: string, marked: bool, exponent: string)

  /** `strings.IndexAny`, except that a missing character is reported as the length of the text. */
  function IndexAny(s: string, chars: set<char>): (i: nat)
    ensures i <= |s|
    ensures forall j | 0 <= j < i :: s[j] !in chars
    ensures i < |s| ==> s[i] in chars
  {
    if s == "" || s[0] in chars then 0 else 1 + IndexAny(s[1..], chars)
  }

  lemma IndexAnyIs(s: string, chars: set<char>, i: nat)
    requires i <= |s|
    requires forall j | 0 <= j < i :: s[j] !in chars
    requires i < |s| ==> s[i] in chars
    ensures IndexAny(s, chars) == i
  {
  }

  function Split(s: string): (p: Parts)
    ensures |s| == (if p.negative then 1 else 0) + |p.whole| + (if p.dotted then 1 else 0) + |p.fraction|
                   + (if p.marked then 1 else 0) + |p.exponent|
    ensures !p.dotted ==> p.fraction == ""
    ensures !p.marked ==> p.exponent == ""
  {
    if s != "" && s[0] == '-' then SplitUnsigned(s[1..]).(negative := true) else SplitUnsigned(s)
  }

  function SplitUnsigned(u: string): (p: Parts)
    ensures |u| == |p.whole| + (if p.dotted then 1 else 0) + |p.fraction| + (if p.marked then 1 else 0) + |p.exponent|
    ensures !p.dotted ==> p.fraction == ""
    ensures !p.marked ==> p.exponent == ""
    ensures !p.negative
  {
    var i := IndexAny(u, {'e', 'E'});
    var m := u[..i];
    var j := IndexAny(m, {'.'});
    Parts(false, m[..j], j < |m|, if j < |m| then m[j + 1..] else "", i < |u|, if i < |u| then u[i + 1..] else "")
  }

  /** The productions for the pieces: no needless leading zero, and digits wherever a '.' or an 'e' announces them. */
  predicate GoodParts(p: Parts) {
    && AllDigits(p.whole) && p.whole != "" && (|p.whole| > 1 ==> p.whole[0] != '0')
    && AllDigits(p.fraction) && (p.dotted ==> p.fraction != "")
    && (p.marked ==> IsSigned(p.exponent))
  }

  predicate IsNumber(s: string) {
    GoodParts(Split(s))
  }

  type NumberText = s: string | IsNumber(s) witness ZeroText()

  function ZeroText(): (s: string)
    ensures IsNumber(s)
    ensures Split(s) == Parts(false, "0", false, "", false, "")
  {
    PlainSplit(false, "0");
    "0"
  }

  // ---- the exact value ----

  function PartsExponent(p: Parts): int
    requires GoodParts(p)
  {
    if p.marked then SignedValue(p.exponent) else 0
  }

  function ExponentOf(s: NumberText): int {
    PartsExponent(Split(s))
  }

  /** The value of a number: whole part plus fraction, scaled by the exponent and negated after a minus sign. */
  function PartsValue(p: Parts): real
    requires GoodParts(p)
  {
    Signed(p.negative, Magnitude(ToNat(p.whole), ToNat(p.fraction), |p.fraction|, PartsExponent(p)))
  }

  function Value(s: NumberText): real {
    PartsValue(Split(s))
  }

  function Signed(negative: bool, x: real): real {
    if negative then -x else x
  }

  /** `whole` and, `places` digits behind the decimal point, `fraction`, scaled by ten to the power `exponent`. */
  function Magnitude(whole: nat, fraction: nat, places: nat, exponent: int): real {
    Shift(whole as real + Shift(fraction as real, 0 - places), exponent)
  }

  predicate IsInteger(x: real) {
    x.Floor as real == x
  }

  // ---- the rational numbers of math/big ----

  /** A numerator over ten to the power `places`. */
  datatype Fraction = Fraction(numerator: int, places: nat)

  /** The fraction for an integer `digits` scaled by ten to the power `exponent`. */
  function MakeFraction(negative: bool, digits: nat, exponent: int): Fraction {
    var m: int := if exponent > 0 then ShiftNat(digits, exponent) else digits;
    Fraction(if negative then -m else m, if exponent < 0 then -exponent else 0)
  }

  /** The exponent of the digits read as one integer. */
  function PointExponent(p: Parts): int
    requires GoodParts(p)
  {
    PartsExponent(p) - |p.fraction|
  }

  /** `big.Rat.SetString`: the digits without the point, and what is then left of the exponent. */
  function PartsFraction(p: Parts): Fraction
    requires GoodParts(p)
  {
    MakeFraction(p.negative, ToNat(p.whole + p.fraction), PointExponent(p))
  }

  /** `big.Rat.Cmp`: each numerator is multiplied by the other denominator. */
  function CompareFractions(x: Fraction, y: Fraction): int {
    var m, n := Scale(x.numerator, y.places), Scale(y.numerator, x.places);
    if m < n then -1 else if m == n then 0 else 1
  }

  function CompareNumber(a: NumberText, b: NumberText): int {
    CompareFractions(PartsFraction(Split(a)), PartsFraction(Split(b)))
  }

  // ---- the canonical spelling ----

  /** All digits of the significand, without the decimal point and without leading zeros. */
  function PartsSignificand(p: Parts): (d: string)
    requires GoodParts(p)
    ensures AllDigits(d) && NoLeadingZero(d) && |d| <= |p.whole| + |p.fraction|
  {
    TrimLeft(p.whole + p.fraction)
  }

  function Significand(s: NumberText): (d: string)
    ensures AllDigits(d) && NoLeadingZero(d) && |d| <= |s|
  {
    PartsSignificand(Split(s))
  }

  /** The significand without trailing zeros. */
  function TrimmedDigits(s: NumberText): (t: string)
    ensures AllDigits(t) && |t| <= |s|
  {
    TrimRight(Significand(s))
  }

  function TrailingZeros(d: string): nat
    requires AllDigits(d)
  {
    |d| - |TrimRight(d)|
  }

  /** The exponent that belongs to the trimmed significand. */
  function PartsTrueExponent(p: Parts): int
    requires GoodParts(p)
  {
    PointExponent(p) + TrailingZeros(PartsSignificand(p))
  }

  function TrueExponent(s: NumberText): int {
    PartsTrueExponent(Split(s))
  }

  /** The exponent as `strconv.Atoi` returns it, with its error ignored. */
  function AtoiOrZero(p: Parts): int
    requires p.marked ==> IsSigned(p.exponent)
  {
    if p.marked then Atoi(p.exponent).0 else 0
  }

  /** The read exponent after the decimal point has been removed from the text. */
  function FoldedExponent(p: Parts): int
    requires GoodParts(p)
  {
    Add64(AtoiOrZero(p), 0 - |p.fraction|)
  }

  /** The exponent the rewriter computes in 64-bit arithmetic. */
  function PartsMachineExponent(p: Parts): int
    requires GoodParts(p)
  {
    Add64(FoldedExponent(p), TrailingZeros(PartsSignificand(p)))
  }

  function MachineExponent(s: NumberText): int {
    PartsMachineExponent(Split(s))
  }

  function Spell(negative: bool, digits: string, exponent: int): string {
    var unscaled := (if negative then "-" else "") + digits;
    if exponent == 0 then unscaled else unscaled + ("e" + Itoa(exponent))
  }

  function Canonical(s: NumberText): NumberText {
    if Significand(s) == "" then ZeroText()
    else
      TrimmedNonempty(s);
      SpellSplit(Split(s).negative, TrimmedDigits(s), MachineExponent(s));
      Spell(Split(s).negative, TrimmedDigits(s), MachineExponent(s))
  }

  /** The first half of the rewriter: strip the sign, the exponent and the decimal point, in that order. */
  method TakeApart(text: NumberText) returns (sign: string, s: string, exponent: int)
    ensures sign == if Split(text).negative then "-" else ""
    ensures s == Split(text).whole + Split(text).fraction
    ensures exponent == FoldedExponent(Split(text))
  {
    s := text;
    sign := "";
    if s != "" && s[0] == '-' {
      sign := "-";
      s := s[1..];
    }
    assert Split(text) == SplitUnsigned(s).(negative := sign == "-");
    ghost var p, m := SplitUnsigned(s), s[..IndexAny(s, {'e', 'E'})];
    assert p.whole + p.fraction == WithoutPoint(m) && p.fraction == AfterPoint(m);
    s, exponent := TakeExponent(s);
    s, exponent := TakePoint(s, exponent);
  }

  function AfterPoint(m: string): string {
    var j := IndexAny(m, {'.'});
    if j < |m| then m[j + 1..] else ""
  }

  function WithoutPoint(m: string): string {
    m[..IndexAny(m, {'.'})] + AfterPoint(m)
  }

  /** Cut the text at 'e' or 'E' and read what follows. */
  method TakeExponent(u: string) returns (s: string, exponent: int)
    requires SplitUnsigned(u).marked ==> IsSigned(SplitUnsigned(u).exponent)
    ensures s == u[..IndexAny(u, {'e', 'E'})]
    ensures exponent == AtoiOrZero(SplitUnsigned(u))
  {
    exponent := 0;
    var i := IndexAny(u, {'e', 'E'});
    if i < |u| {
      exponent := Atoi(u[i + 1..]).0;
    }
    s := u[..i];
  }

  /** Remove the decimal point and count the digits behind it. */
  method TakePoint(m: string, before: int) returns (s: string, exponent: int)
    requires InInt64(before)
    ensures s == WithoutPoint(m) && exponent == Add64(before, 0 - |AfterPoint(m)|)
  {
    s, exponent := m, before;
    var i := IndexAny(s, {'.'});
    if i < |s| {
      exponent := Add64(exponent, 0 - (|s| - i - 1));
      s := s[..i] + s[i + 1..];
    }
  }

  /** `canonicalDiscoveryNumbers` on a number: the text is taken apart, trimmed and rebuilt step by step. */
  method CanonicalNumber(text: NumberText) returns (c: NumberText)
    ensures c == Canonical(text)
  {
    var sign, s, exponent := TakeApart(text);
    s := TrimLeft(s);
    if s == "" {
      return ZeroText();
    }
    var trimmed := TrimRight(s);
    exponent := Add64(exponent, |s| - |trimmed|);
    s := trimmed;
    TrimmedNonempty(text);
    assert s == TrimRight(Significand(text));
    assert exponent == MachineExponent(text);
    SpellSplit(Split(text).negative, s, exponent);
    assert Canonical(text) == Spell(Split(text).negative, s, exponent);
    if exponent == 0 {
      return sign + s;
    }
    return sign + s + ("e" + Itoa(exponent));
  }

  lemma TrimmedNonempty(s: NumberText)
    requires Significand(s) != ""
    ensures TrimmedDigits(s) != "" && TrimmedDigits(s)[0] != '0' && ToNat(TrimmedDigits(s)) % 10 != 0
  {
    DigitsNonempty(Significand(s));
  }

  lemma DigitsNonempty(d: string)
    requires AllDigits(d) && d != "" && d[0] != '0'
    ensures TrimRight(d) != "" && TrimRight(d)[0] != '0' && ToNat(TrimRight(d)) % 10 != 0
  {
    TrimRightValue(d);
    ToNatZeros(d);
    if TrimRight(d) == "" {
      ShiftNatZero(|d|);
    }
  }

  // ---- splitting what was spelled ----

  lemma PlainSplitUnsigned(digits: string)
    requires AllDigits(digits) && digits != ""
    ensures SplitUnsigned(digits) == Parts(false, digits, false, "", false, "")
  {
    IndexAnyIs(digits, {'e', 'E'}, |digits|);
    IndexAnyIs(digits, {'.'}, |digits|);
    assert digits[..|digits|] == digits;
  }

  lemma PlainSplit(negative: bool, digits: string)
    requires AllDigits(digits) && digits != ""
    ensures Split((if negative then "-" else "") + digits) == Parts(negative, digits, false, "", false, "")
  {
    var s := (if negative then "-" else "") + digits;
    assert s[0] == '-' <==> negative;
    assert (if negative then s[1..] else s) == digits;
    PlainSplitUnsigned(digits);
  }

  lemma PointSplitUnsigned(whole: string, fraction: string)
    requires AllDigits(whole) && AllDigits(fraction)
    ensures SplitUnsigned(whole + ("." + fraction)) == Parts(false, whole, true, fraction, false, "")
  {
    var u := whole + ("." + fraction);
    IndexAnyIs(u, {'e', 'E'}, |u|);
    assert u[..|u|] == u;
    IndexAnyIs(u, {'.'}, |whole|);
    assert u[..|whole|] == whole && u[|whole| + 1..] == fraction;
  }

  lemma PointSplit(negative: bool, whole: string, fraction: string)
    requires AllDigits(whole) && whole != "" && AllDigits(fraction)
    ensures Split((if negative then "-" else "") + whole + ("." + fraction))
         == Parts(negative, whole, true, fraction, false, "")
  {
    var s := (if negative then "-" else "") + whole + ("." + fraction);
    assert s[0] == '-' <==> negative;
    assert (if negative then s[1..] else s) == whole + ("." + fraction);
    PointSplitUnsigned(whole, fraction);
  }

  lemma ScaledSplitUnsigned(digits: string, exponent: string)
    requires AllDigits(digits) && digits != ""
    ensures SplitUnsigned(digits + ("e" + exponent)) == Parts(false, digits, false, "", true, exponent)
  {
    var u := digits + ("e" + exponent);
    IndexAnyIs(u, {'e', 'E'}, |digits|);
    assert u[..|digits|] == digits;
    IndexAnyIs(digits, {'.'}, |digits|);
    assert digits[..|digits|] == digits;
    assert u[|digits| + 1..] == exponent;
  }

  lemma ScaledSplit(negative: bool, digits: string, exponent: string)
    requires AllDigits(digits) && digits != ""
    ensures Split((if negative then "-" else "") + digits + ("e" + exponent))
         == Parts(negative, digits, false, "", true, exponent)
  {
    var s := (if negative then "-" else "") + digits + ("e" + exponent);
    assert s[0] == '-' <==> negative;
    assert (if negative then s[1..] else s) == digits + ("e" + exponent);
    ScaledSplitUnsigned(digits, exponent);
  }

  /** The pieces of a spelling. */
  function SpelledParts(negative: bool, digits: string, exponent: int): Parts {
    if exponent == 0 then Parts(negative, digits, false, "", false, "")
    else Parts(negative, digits, false, "", true, Itoa(exponent))
  }

  lemma SpellSplit(negative: bool, digits: string, exponent: int)
    requires AllDigits(digits) && digits != "" && digits[0] != '0'
    ensures Split(Spell(negative, digits, exponent)) == SpelledParts(negative, digits, exponent)
    ensures IsNumber(Spell(negative, digits, exponent))
  {
    if exponent == 0 {
      PlainSplit(negative, digits);
    } else {
      ScaledSplit(negative, digits, Itoa(exponent));
    }
  }
}
