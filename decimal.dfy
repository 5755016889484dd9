/** The arbitrary-precision decimal the arithmetic utilities build on: a
    decimal is an integer coefficient times a power of ten. The operations
    are those the utilities use from their decimal library, configured with
    20 significant digits and half-up rounding: plus, minus, times and
    dividedBy round their exact result to 20 significant digits; toFixed
    rounds half-up to a number of fractional digits and renders the result;
    comparedTo orders two decimals. */
module Decimals {

  import opened Wrappers
  import opened Ascii

  /** Significant digits kept by plus, minus, times and dividedBy. */
  const Precision: nat := 20

  /** 10^Precision and 10^(Precision - 1): the bounds of a coefficient of
      `Precision` significant digits. */
  const MaxCoef: nat := 100000000000000000000
  const MinCoef: nat := 10000000000000000000

  function Pow10(n: nat): (r: nat)
    ensures r >= 1
  {
    if n == 0 then 1 else 10 * Pow10(n - 1)
  }

  lemma {:induction false} Pow10Add(a: nat, b: nat)
    ensures Pow10(a + b) == Pow10(a) * Pow10(b)
  {
    if a > 0 {
      Pow10Add(a - 1, b);
      assert Pow10(a + b) == 10 * Pow10(a - 1 + b);
    }
  }

  lemma {:induction false} Pow10Monotone(a: nat, b: nat)
    requires a <= b
    ensures Pow10(a) <= Pow10(b)
  {
    if a < b {
      Pow10Monotone(a, b - 1);
    }
  }

  lemma PrecisionPowers()
    ensures Pow10(Precision) == MaxCoef && Pow10(Precision - 1) == MinCoef
  {
    assert Pow10(4) == 10000 && Pow10(5) == 100000;
    Pow10Add(5, 4);
    Pow10Add(5, 5);
    Pow10Add(10, 9);
    Pow10Add(10, 10);
  }

  function Abs(x: int): nat { if x < 0 then -x else x }

  function Sign(x: int): int { if x < 0 then -1 else if x > 0 then 1 else 0 }

  function Min(a: int, b: int): int { if a <= b then a else b }

  /** Product and quotient of naturals, named so that the solver treats
      them as terms of their own. */
  function NatMul(a: nat, b: nat): (r: nat)
    ensures a > 0 && b > 0 ==> r > 0
  {
    a * b
  }

  function NatDiv(a: nat, b: nat): nat
    requires b > 0
  {
    a / b
  }

  /** The number of decimal digits of `n` (zero for zero). */
  function NumDigits(n: nat): (k: nat)
    ensures n < Pow10(k)
    ensures n > 0 ==> k >= 1 && Pow10(k - 1) <= n
  {
    if n == 0 then 0 else 1 + NumDigits(n / 10)
  }

  /** `n / d` rounded half-up: the nearest integer, ties rounded up. */
  function DivHalfUp(n: nat, d: nat): nat
    requires d > 0
  {
    (2 * n + d) / (2 * d)
  }

  /** `DivHalfUp(n, d)` × `d` is the multiple of `d` nearest to `n`, ties
      taking the larger one. */
  lemma DivHalfUpNearest(n: nat, d: nat)
    requires d > 0
    ensures var q := DivHalfUp(n, d); 2 * q * d <= 2 * n + d < 2 * q * d + 2 * d
  {
    var q := DivHalfUp(n, d);
    assert (2 * n + d) == q * (2 * d) + (2 * n + d) % (2 * d);
  }

  /** A decimal: `coef` × 10^`exp`. */
  datatype Dec = Dec(coef: int, exp: int)

  const Zero := Dec(0, 0)
  const One := Dec(1, 0)

  /** The coefficient of `x` written at the smaller exponent `e`. */
  function Align(x: Dec, e: int): int
    requires e <= x.exp
  {
    x.coef * Pow10(x.exp - e)
  }

  function ExactAdd(a: Dec, b: Dec): Dec {
    var e := Min(a.exp, b.exp);
    Dec(Align(a, e) + Align(b, e), e)
  }

  function ExactSub(a: Dec, b: Dec): Dec {
    var e := Min(a.exp, b.exp);
    Dec(Align(a, e) - Align(b, e), e)
  }

  function ExactMul(a: Dec, b: Dec): Dec {
    Dec(a.coef * b.coef, a.exp + b.exp)
  }

  /** Rounds `x` to `Precision` significant digits, half-up (ties away
      from zero). A coefficient of at most `Precision` digits is kept; a
      longer one of k digits loses its last k - `Precision` digits, which
      leaves `Precision` digits (or 10^Precision after a carry) of the same
      sign, at the exponent raised by the digits dropped. */
  function RoundSig(x: Dec): (r: Dec)
    ensures NumDigits(Abs(x.coef)) <= Precision ==> r == x
    ensures NumDigits(Abs(x.coef)) > Precision ==>
      && r.exp == x.exp + NumDigits(Abs(x.coef)) - Precision
      && MinCoef <= Abs(r.coef) <= MaxCoef
      && Sign(r.coef) == Sign(x.coef)
  {
    var n := Abs(x.coef);
    var k := NumDigits(n);
    if k <= Precision then x
    else
      RoundSigCoefficient(n, k - Precision);
      DropDigits(x, k - Precision)
  }

  /** The rounded coefficient has at most `Precision` digits, or is
      10^Precision when rounding carries into a new digit. */
  lemma RoundSigBound(x: Dec)
    ensures Abs(RoundSig(x).coef) <= MaxCoef
  {
    var n := Abs(x.coef);
    var k := NumDigits(n);
    if k <= Precision {
      Pow10Monotone(k, Precision);
      PrecisionPowers();
    } else {
      var s: nat := k - Precision;
      var r := DropDigits(x, s);
      assert RoundSig(x) == r;
      RoundSigCoefficient(n, s);
    }
  }

  /** `x` with its last `s` digits rounded away half-up (ties away from
      zero): the coefficient is |x.coef| / 10^s rounded half-up, with the
      sign of `x`. */
  function DropDigits(x: Dec, s: nat): (r: Dec)
    ensures r.exp == x.exp + s
    ensures Abs(r.coef) == DivHalfUp(Abs(x.coef), Pow10(s))
    ensures r.coef > 0 ==> x.coef > 0
    ensures r.coef < 0 ==> x.coef < 0
  {
    var q := DivHalfUp(Abs(x.coef), Pow10(s));
    Dec(if x.coef < 0 then -(q as int) else q as int, x.exp + s)
  }

  /** Dropping the `s` digits of an `n` of `Precision + s` digits leaves
      a coefficient of `Precision` digits, or 10^Precision after a carry. */
  lemma RoundSigCoefficient(n: nat, s: nat)
    requires NumDigits(n) == Precision + s
    ensures MinCoef <= DivHalfUp(n, Pow10(s)) <= MaxCoef
  {
    var p, q := Pow10(s), DivHalfUp(n, Pow10(s));
    Pow10Add(Precision, s);
    Pow10Add(Precision - 1, s);
    PrecisionPowers();
    DivHalfUpNearest(n, p);
    RoundedBelowPower(n, p, MaxCoef, q);
    RoundedAbovePower(n, p, MinCoef, q);
  }

  /** If `n < m × p` then `n / p` rounded half-up is at most `m`. */
  lemma RoundedBelowPower(n: nat, p: nat, m: nat, q: nat)
    requires p > 0 && n < m * p
    requires 2 * q * p <= 2 * n + p
    ensures q <= m
  {
    if q > m {
      MulLe(m + 1, q, p);
      assert false;
    }
  }

  lemma MulLe(a: int, b: int, c: nat)
    requires a <= b
    ensures a * c <= b * c
  {
  }

  lemma MulLt(a: int, b: int, c: nat)
    requires a < b && c > 0
    ensures a * c < b * c
  {
  }

  function Plus(a: Dec, b: Dec): Dec { RoundSig(ExactAdd(a, b)) }

  function Minus(a: Dec, b: Dec): Dec { RoundSig(ExactSub(a, b)) }

  function Times(a: Dec, b: Dec): Dec { RoundSig(ExactMul(a, b)) }

  /** The exponent shift that gives the integer quotient at least
      `Precision` digits. */
  function QuotientShift(n: nat, d: nat): nat {
    if NumDigits(d) + Precision >= NumDigits(n) then NumDigits(d) + Precision - NumDigits(n) else 0
  }

  /** The number of trailing digits of the shifted integer quotient
      beyond `Precision`, which rounding drops. */
  function QuotientDrop(n: nat, d: nat): nat
    requires d > 0
  {
    var k := NumDigits(NatDiv(NatMul(n, Pow10(QuotientShift(n, d))), d));
    if k >= Precision then k - Precision else 0
  }

  /** The quotient `a / b` rounded half-up to `Precision` significant
      digits: |a.coef| × 10^z divided by |b.coef| × 10^s, rounded half-up,
      where the shift z gives the integer quotient at least `Precision`
      digits and the `s` digits beyond `Precision` are rounded away. */
  function DividedBy(a: Dec, b: Dec): (r: Dec)
    requires b.coef != 0
    ensures a.coef == 0 ==> r == Zero
    ensures a.coef != 0 ==>
      && Sign(r.coef) == Sign(a.coef) * Sign(b.coef)
      && MinCoef <= Abs(r.coef) <= MaxCoef
  {
    if a.coef == 0 then Zero
    else
      var n, d := Abs(a.coef), Abs(b.coef);
      var z, s := QuotientShift(n, d), QuotientDrop(n, d);
      var num := NatMul(n, Pow10(z));
      QuotientDigits(n, d, z);
      var q := DivHalfUp(num, NatMul(d, Pow10(s)));
      QuotientBounds(num, d, s);
      var negative := (a.coef < 0) != (b.coef < 0);
      var c := if negative then -(q as int) else q as int;
      assert Abs(c) == q && Sign(c) == Sign(a.coef) * Sign(b.coef);
      Dec(c, a.exp - b.exp - z + s)
  }

  lemma DivLowerBound(x: nat, d: nat, m: nat)
    requires d > 0 && x >= NatMul(d, m)
    ensures NatDiv(x, d) >= m
  {
    var f := x / d;
    assert x == d * f + x % d;
    if f < m {
      MulLe(f + 1, m, d);
      assert false;
    }
  }

  /** The shift makes the integer quotient at least `Precision` digits long. */
  lemma QuotientDigits(n: nat, d: nat, z: nat)
    requires n > 0 && d > 0 && z == QuotientShift(n, d)
    ensures NumDigits(NatDiv(NatMul(n, Pow10(z)), d)) >= Precision
  {
    ShiftedQuotientDigits(n, d, z, Precision);
  }

  /** Shifting `n` by at least `P` digits more than `d` has leaves the
      integer quotient at least `P` digits long. */
  lemma ShiftedQuotientDigits(n: nat, d: nat, z: nat, P: nat)
    requires n > 0 && d > 0 && P >= 1 && NumDigits(n) + z >= NumDigits(d) + P
    ensures NumDigits(NatDiv(NatMul(n, Pow10(z)), d)) >= P
  {
    var dn, dd := NumDigits(n), NumDigits(d);
    var hi, lo := dn - 1 + z, dd + P - 1;
    Pow10Add(dn - 1, z);
    Pow10Monotone(lo, hi);
    Pow10Add(dd, P - 1);
    ScaledBelow(n, d, Pow10(z), Pow10(dn - 1), Pow10(dd), Pow10(P - 1), Pow10(hi), Pow10(lo));
    DigitsAtLeast(NatDiv(NatMul(n, Pow10(z)), d), P - 1);
  }

  /** A number of at least 10^m has more than `m` digits. */
  lemma DigitsAtLeast(f: nat, m: nat)
    requires f >= Pow10(m)
    ensures NumDigits(f) > m
  {
    if NumDigits(f) <= m {
      Pow10Monotone(NumDigits(f), m);
    }
  }

  lemma ScaledBelow(n: nat, d: nat, pz: nat, p1: nat, pd: nat, pp: nat, ph: nat, pl: nat)
    requires d > 0 && pp > 0
    requires p1 <= n && d < pd && ph == p1 * pz && pl <= ph && pl == pd * pp
    ensures NatDiv(NatMul(n, pz), d) >= pp
  {
    MulLe(p1, n, pz);
    MulLt(d, pd, pp);
    DivLowerBound(NatMul(n, pz), d, pp);
  }

  lemma RoundedAbovePower(n: nat, p: nat, m: nat, q: nat)
    requires p > 0 && n >= m * p
    requires 2 * n + p < 2 * q * p + 2 * p
    ensures q >= m
  {
    if q < m {
      MulLe(q + 1, m, p);
      assert false;
    }
  }

  /** With `num / d` of `Precision + s` digits, `num / (d × 10^s)` rounded
      half-up lies between 10^(Precision-1) and 10^Precision. */
  lemma QuotientBounds(num: nat, d: nat, s: nat)
    requires d > 0 && NumDigits(NatDiv(num, d)) == Precision + s
    ensures MinCoef <= DivHalfUp(num, NatMul(d, Pow10(s))) <= MaxCoef
  {
    var f := NatDiv(num, d);
    Pow10Add(Precision, s);
    Pow10Add(Precision - 1, s);
    ScaledQuotient(num, d, f, Pow10(s), Pow10(Precision - 1), Pow10(Precision),
      Pow10(Precision - 1 + s), Pow10(Precision + s));
    PrecisionPowers();
  }

  lemma ScaledQuotient(num: nat, d: nat, f: nat, p: nat, lo: nat, hi: nat, plo: nat, phi: nat)
    requires d > 0 && p > 0 && f == NatDiv(num, d)
    requires plo == lo * p && phi == hi * p && plo <= f < phi
    ensures lo <= DivHalfUp(num, NatMul(d, p)) <= hi
  {
    var den := NatMul(d, p);
    var q := DivHalfUp(num, den);
    DivHalfUpNearest(num, den);
    assert num == d * f + num % d;
    MulLe(f + 1, phi, d);
    assert num < hi * den;
    RoundedBelowPower(num, den, hi, q);
    MulLe(plo, f, d);
    assert num >= lo * den;
    RoundedAbovePower(num, den, lo, q);
  }

  /** comparedTo: -1, 0 or 1 as `a` is below, equal to or above `b`. */
  function Cmp(a: Dec, b: Dec): int {
    var e := Min(a.exp, b.exp);
    var x, y := Align(a, e), Align(b, e);
    if x < y then -1 else if x > y then 1 else 0
  }

  predicate IsZero(x: Dec) { x.coef == 0 }

  /** True when `x` is a whole number (Number.isInteger on its value). */
  predicate IsInteger(x: Dec) {
    x.exp >= 0 || x.coef % Pow10(-x.exp) == 0
  }

  /** The whole number `x` stands for. */
  function IntegerValue(x: Dec): int
    requires IsInteger(x)
  {
    if x.exp >= 0 then x.coef * Pow10(x.exp) else x.coef / Pow10(-x.exp)
  }

  // ---------------------------------------------------------------------
  // toFixed: rounding to a number of fractional digits and rendering

  /** The integer `n` such that `n` × 10^-d is `x` rounded half-up (ties
      away from zero) to `d` fractional digits. */
  function FixedCoef(x: Dec, d: nat): int {
    if x.exp + d >= 0 then Align(x, -(d as int))
    else
      var s: nat := -(x.exp + d);
      DropDigits(x, s).coef
  }

  /** The digits of `m`, padded with leading zeros to at least `w` digits. */
  function PaddedDigits(m: nat, w: nat): (s: string)
    ensures |s| >= w && |s| >= 1 && AllDigits(s)
    ensures DigitsToNat(s) == m
  {
    var t := NatToString(m);
    DigitsOfNatToString(m);
    if |t| >= w then t
    else
      DigitsToNatLeadingZeros(w - |t|, t);
      Zeros(w - |t|) + t
  }

  /** Renders `n` × 10^-d with exactly `d` fractional digits. A value that
      is zero is rendered without a sign. */
  function Render(n: int, d: nat): string {
    (if n < 0 then "-" else "") + PointBefore(PaddedDigits(Abs(n), d + 1), d)
  }

  /** `digits` with a point before its last `d` characters (none when `d` is 0). */
  function PointBefore(digits: string, d: nat): string
    requires |digits| > d
  {
    if d == 0 then digits else digits[..|digits| - d] + "." + digits[|digits| - d..]
  }

  /** toFixed(d). */
  function ToFixed(x: Dec, d: nat): string {
    Render(FixedCoef(x, d), d)
  }

  // ---------------------------------------------------------------------
  // The decimal literals the constructor accepts from a string:
  // an optional sign, then (\d+(\.\d*)?|\.\d+)(e[+-]?\d+)? without case.

  /** The index of the first character of `s` satisfying `p`, or |s|. */
  function FirstIndex(s: string, p: char -> bool): (i: nat)
    ensures i <= |s|
    ensures i < |s| ==> p(s[i])
    ensures forall j :: 0 <= j < i ==> !p(s[j])
  {
    if s == [] then 0
    else if p(s[0]) then 0
    else 1 + FirstIndex(s[1..], p)
  }

  predicate IsExponentMark(c: char) { c == 'e' || c == 'E' }

  predicate IsPoint(c: char) { c == '.' }

  /** The exponent part after the mark: [+-]?\d+. */
  function ParseExponent(s: string): (r: Option<int>)
    ensures r.Some? ==> |s| >= 1
  {
    if |s| >= 2 && (s[0] == '+' || s[0] == '-') && AllDigits(s[1..]) then
      var v: int := DigitsToNat(s[1..]);
      Some(if s[0] == '-' then -v else v)
    else if |s| >= 1 && AllDigits(s) then
      Some(DigitsToNat(s))
    else
      None
  }

  /** An unsigned literal: digits with an optional point, then an optional exponent. */
  function ParseUnsigned(s: string): (r: Option<Dec>)
    ensures r.Some? ==> r.value.coef >= 0
  {
    var m := FirstIndex(s, IsExponentMark);
    var mantissa := s[..m];
    var exponent := if m < |s| then ParseExponent(s[m + 1..]) else Some(0);
    var j := FirstIndex(mantissa, IsPoint);
    var whole := mantissa[..j];
    var fraction := if j < |mantissa| then mantissa[j + 1..] else "";
    if exponent.Some? && AllDigits(whole) && AllDigits(fraction) && |whole| + |fraction| >= 1 then
      Some(Dec(DigitsToNat(whole + fraction), exponent.value - |fraction|))
    else
      None
  }

  /** The decimal a string denotes, or None when the constructor rejects it. */
  function ParseLiteral(s: string): (r: Option<Dec>)
  {
    if |s| >= 1 && s[0] == '-' then
      match ParseUnsigned(s[1..])
      case Some(x) => Some(Dec(-x.coef, x.exp))
      case None => None
    else if |s| >= 1 && s[0] == '+' then
      ParseUnsigned(s[1..])
    else
      ParseUnsigned(s)
  }
}
