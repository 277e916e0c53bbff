/** Decimal digit strings, moving the decimal point, and Go's `strconv` conversions on a 64-bit platform. */
module Decimal {

  const MAX_INT: int := 0x7FFF_FFFF_FFFF_FFFF
  const MIN_INT: int := -0x8000_0000_0000_0000

  predicate InInt64(n: int) {
    MIN_INT <= n <= MAX_INT
  }

  const MODULUS: int := 0x1_0000_0000_0000_0000

  /** Two's-complement wrap-around of a 64-bit `int`. */
  function Wrap64(n: int): (w: int)
    ensures InInt64(w)
    ensures w == n <==> InInt64(n)
    decreases if n > MAX_INT then n - MAX_INT else if n < MIN_INT then MIN_INT - n else 0
  {
    if n > MAX_INT then Wrap64(n - MODULUS) else if n < MIN_INT then Wrap64(n + MODULUS) else n
  }

  /** Wrapping around changes a number by a multiple of two to the power 64. */
  lemma {:induction false} WrapIsModular(n: int)
    ensures (n - Wrap64(n)) % 0x1_0000_0000_0000_0000 == 0
    decreases if n > MAX_INT then n - MAX_INT else if n < MIN_INT then MIN_INT - n else 0
  {
    if n > MAX_INT {
      WrapIsModular(n - MODULUS);
    } else if n < MIN_INT {
      WrapIsModular(n + MODULUS);
    }
  }

  /** Addition on a 64-bit `int`. */
  function Add64(a: int, b: int): (w: int)
    ensures InInt64(w)
    ensures w == a + b <==> InInt64(a + b)
  {
    Wrap64(a + b)
  }

  /** The integer in 64 bits that is nearest to `n`. */
  function Saturate(n: int): (w: int)
    ensures InInt64(w)
    ensures w == n <==> InInt64(n)
  {
    if n > MAX_INT then MAX_INT else if n < MIN_INT then MIN_INT else n
  }

  /** Two additions after saturation give the true sum exactly when neither the start nor the sum leaves 64 bits. */
  lemma SaturatedSum(n: int, down: nat, up: nat)
    requires down <= MAX_INT && up <= MAX_INT
    ensures Add64(Add64(Saturate(n), 0 - down), up) == n - down + up <==> InInt64(n) && InInt64(n - down + up)
  {
    var e := Saturate(n);
    var r := Add64(e, 0 - down);
    assert r == if e - down < MIN_INT then e - down + MODULUS else e - down;
    assert Add64(r, up) == if r + up > MAX_INT then r + up - MODULUS else r + up;
  }

  predicate IsDigit(c: char) {
    '0' <= c <= '9'
  }

  predicate AllDigits(s: string) {
    forall i | 0 <= i < |s| :: IsDigit(s[i])
  }

  function DigitValue(c: char): (d: nat)
    requires IsDigit(c)
    ensures d < 10
  {
    c as int - '0' as int
  }

  /** The natural number a digit string spells; the empty string spells zero. */
  function ToNat(s: string): nat
    requires AllDigits(s)
  {
    if s == "" then 0 else 10 * ToNat(s[..|s| - 1]) + DigitValue(s[|s| - 1])
  }

  /** `x` with its decimal point moved `e` places to the right, that is `x` times ten to the power `e`. */
  function Shift(x: real, e: int): real
    decreases if e < 0 then -e else e
  {
    if e == 0 then x else if e > 0 then 10.0 * Shift(x, e - 1) else 0.1 * Shift(x, e + 1)
  }

  function ShiftNat(n: nat, k: nat): (m: nat)
    ensures m >= n
  {
    if k == 0 then n else 10 * ShiftNat(n, k - 1)
  }

  /** `n` times ten to the power `k`. */
  function Scale(n: int, k: nat): int {
    if n < 0 then var m: nat := ShiftNat(-n, k); -(m as int) else ShiftNat(n, k)
  }

  // ---- moving the decimal point ----

  lemma ShiftStep(x: real, e: int)
    ensures Shift(x, e + 1) == 10.0 * Shift(x, e)
  {
  }

  lemma {:induction false} ShiftShift(x: real, a: int, b: int)
    ensures Shift(Shift(x, a), b) == Shift(x, a + b)
    decreases if b < 0 then -b else b
  {
    if b == 0 {
    } else if b > 0 {
      ShiftShift(x, a, b - 1);
      ShiftStep(x, a + b - 1);
    } else {
      ShiftShift(x, a, b + 1);
      ShiftStep(x, a + b);
    }
  }

  lemma {:induction false} ShiftAdd(x: real, y: real, e: int)
    ensures Shift(x + y, e) == Shift(x, e) + Shift(y, e)
    decreases if e < 0 then -e else e
  {
    if e == 0 {
    } else if e > 0 {
      ShiftAdd(x, y, e - 1);
    } else {
      ShiftAdd(x, y, e + 1);
    }
  }

  lemma {:induction false} ShiftNegate(x: real, e: int)
    ensures Shift(-x, e) == -Shift(x, e)
    decreases if e < 0 then -e else e
  {
    if e == 0 {
    } else if e > 0 {
      ShiftNegate(x, e - 1);
    } else {
      ShiftNegate(x, e + 1);
    }
  }

  lemma {:induction false} ShiftSign(x: real, e: int)
    ensures Shift(x, e) > 0.0 <==> x > 0.0
    ensures Shift(x, e) == 0.0 <==> x == 0.0
    decreases if e < 0 then -e else e
  {
    if e == 0 {
    } else if e > 0 {
      ShiftSign(x, e - 1);
    } else {
      ShiftSign(x, e + 1);
    }
  }

  lemma ShiftMonotone(x: real, y: real, e: int)
    ensures Shift(x, e) < Shift(y, e) <==> x < y
    ensures Shift(x, e) == Shift(y, e) <==> x == y
  {
    ShiftAdd(y - x, x, e);
    ShiftSign(y - x, e);
  }

  lemma {:induction false} ShiftOfNat(n: nat, k: nat)
    ensures Shift(n as real, k) == ShiftNat(n, k) as real
  {
    if k == 0 {
    } else {
      ShiftOfNat(n, k - 1);
    }
  }

  lemma ShiftOfInt(n: int, k: nat)
    ensures Shift(n as real, k) == Scale(n, k) as real
  {
    if n < 0 {
      ShiftOfNat(-n, k);
      ShiftNegate((-n) as real, k);
    } else {
      ShiftOfNat(n, k);
    }
  }

  /** A positive number has one form as an integer that does not end in zero with a shift. */
  lemma ShiftInjective(m: nat, a: int, n: nat, b: int)
    requires m % 10 != 0 && n % 10 != 0
    requires Shift(m as real, a) == Shift(n as real, b)
    ensures m == n && a == b
    decreases a < b
  {
    if a < b {
      ShiftInjective(n, b, m, a);
    } else {
      ShiftShift(m as real, a, -b);
      ShiftShift(n as real, b, -b);
      ShiftEndsInZero(m, a - b, n);
    }
  }

  lemma ShiftEndsInZero(m: nat, k: nat, n: nat)
    requires Shift(m as real, k) == n as real
    ensures if k == 0 then n == m else n % 10 == 0
  {
    ShiftOfNat(m, k);
    assert n == ShiftNat(m, k);
    if k > 0 {
      var tens := ShiftNat(m, k - 1);
      assert n == 10 * tens;
    }
  }

  /** An integer that does not end in zero stays an integer exactly under shifts to the right. */
  lemma ShiftIsInt(m: nat, e: int, k: int)
    requires m % 10 != 0
    requires Shift(m as real, e) == k as real
    ensures e >= 0
  {
    if e < 0 {
      ShiftSign(m as real, e);
      assert k >= 0;
      ShiftShift(m as real, e, -e);
      ShiftEndsInZero(k, -e, m);
    }
  }

  // ---- digit strings ----

  lemma {:induction false} ToNatConcat(a: string, b: string)
    requires AllDigits(a) && AllDigits(b)
    ensures AllDigits(a + b)
    ensures ToNat(a + b) == ShiftNat(ToNat(a), |b|) + ToNat(b)
  {
    if b == "" {
      assert a + b == a;
    } else {
      ToNatConcat(a, b[..|b| - 1]);
      assert (a + b)[..|a + b| - 1] == a + b[..|b| - 1];
    }
  }

  lemma {:induction false} ToNatZeros(s: string)
    requires AllDigits(s)
    ensures ToNat(s) == 0 <==> forall i | 0 <= i < |s| :: s[i] == '0'
  {
    if s == "" {
    } else {
      ToNatZeros(s[..|s| - 1]);
    }
  }

  lemma ToNatBelow100(s: string)
    requires AllDigits(s) && |s| <= 2
    ensures ToNat(s) < 100
  {
    if s != "" {
      assert ToNat(s[..|s| - 1]) < 10;
    }
  }

  lemma {:induction false} ShiftNatZero(k: nat)
    ensures ShiftNat(0, k) == 0
  {
    if k == 0 {
    } else {
      ShiftNatZero(k - 1);
    }
  }

  predicate NoLeadingZero(s: string) {
    s != "" ==> s[0] != '0'
  }

  /** A digit string without leading zeros is determined by the number it spells. */
  lemma {:induction false} ToNatInjective(a: string, b: string)
    requires AllDigits(a) && AllDigits(b) && NoLeadingZero(a) && NoLeadingZero(b)
    requires ToNat(a) == ToNat(b)
    ensures a == b
  {
    ToNatZeros(a);
    ToNatZeros(b);
    if a == "" || b == "" {
    } else {
      ToNatInjective(a[..|a| - 1], b[..|b| - 1]);
      assert a == a[..|a| - 1] + [a[|a| - 1]];
      assert b == b[..|b| - 1] + [b[|b| - 1]];
    }
  }

  // ---- trimming zeros ----

  /** `strings.TrimLeft(s, "0")`. */
  function TrimLeft(s: string): (t: string)
    requires AllDigits(s)
    ensures AllDigits(t) && NoLeadingZero(t) && |t| <= |s|
  {
    if s != "" && s[0] == '0' then TrimLeft(s[1..]) else s
  }

  /** `strings.TrimRight(s, "0")`. */
  function TrimRight(s: string): (t: string)
    requires AllDigits(s)
    ensures AllDigits(t) && |t| <= |s|
  {
    if s != "" && s[|s| - 1] == '0' then TrimRight(s[..|s| - 1]) else s
  }

  lemma {:induction false} TrimLeftValue(s: string)
    requires AllDigits(s)
    ensures ToNat(TrimLeft(s)) == ToNat(s)
  {
    if s == "" || s[0] != '0' {
    } else {
      TrimLeftValue(s[1..]);
      assert s == s[..1] + s[1..];
      ToNatConcat(s[..1], s[1..]);
      ShiftNatZero(|s| - 1);
    }
  }

  lemma {:induction false} TrimRightValue(s: string)
    requires AllDigits(s)
    ensures TrimRight(s) <= s
    ensures TrimRight(s) != "" ==> ToNat(TrimRight(s)) % 10 != 0
    ensures ToNat(s) == ShiftNat(ToNat(TrimRight(s)), |s| - |TrimRight(s)|)
  {
    if s == "" || s[|s| - 1] != '0' {
    } else {
      TrimRightValue(s[..|s| - 1]);
    }
  }

  // ---- strconv ----

  function Digits(n: nat): (s: string)
    ensures AllDigits(s) && s != ""
    ensures ToNat(s) == n
    ensures |s| > 1 ==> s[0] != '0'
  {
    if n < 10 then
      var c := '0' + n as char;
      assert ToNat([c]) == n;
      [c]
    else
      var c := '0' + (n % 10) as char;
      var s := Digits(n / 10) + [c];
      assert s[..|s| - 1] == Digits(n / 10);
      s
  }

  /** `strconv.Itoa`. */
  function Itoa(n: int): (s: string)
    ensures IsSigned(s) && SignedValue(s) == n
  {
    if n < 0 then "-" + Digits(-n) else Digits(n)
  }

  lemma ItoaSign(n: int)
    ensures Itoa(n)[0] == '-' <==> n < 0
  {
  }

  function Unsigned(s: string): string {
    if s != "" && s[0] in "+-" then s[1..] else s
  }

  /** One optional sign followed by at least one digit. */
  predicate IsSigned(s: string) {
    AllDigits(Unsigned(s)) && Unsigned(s) != ""
  }

  function SignedValue(s: string): int
    requires IsSigned(s)
  {
    var n: int := ToNat(Unsigned(s));
    if s[0] == '-' then -n else n
  }

  /** `strconv.Atoi` on a signed digit string: out of range, the value saturates and an error is reported. */
  function Atoi(s: string): (r: (int, bool))
    requires IsSigned(s)
    ensures InInt64(r.0)
    ensures r.1 <==> InInt64(SignedValue(s))
    ensures r.1 ==> r.0 == SignedValue(s)
  {
    var n := SignedValue(s);
    (Saturate(n), InInt64(n))
  }
}
