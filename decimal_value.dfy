/** What plus, minus, times, dividedBy, comparedTo and toFixed compute,
    stated on values: `Align(x, e)` is the value of `x` counted in units
    of 10^e, so two decimals are compared at any exponent at or below both
    of theirs. Sums, differences and products are exact before rounding;
    rounding moves a value by at most half a unit of its last kept digit,
    and a value exactly halfway moves away from zero. */
module DecimalValues {

  import opened Wrappers
  import opened Ascii
  import opened Decimals

  // ---------------------------------------------------------------------
  // Integer facts, each about opaque-looking operands

  lemma MulAssoc(a: int, b: int, c: int)
    ensures a * (b * c) == (a * b) * c
  {
  }

  lemma MulDistrib(a: int, b: int, c: int)
    ensures (a + b) * c == a * c + b * c
  {
  }

  lemma MulDistribSub(a: int, b: int, c: int)
    ensures (a - b) * c == a * c - b * c
  {
  }

  lemma AbsMul(t: int, k: nat)
    ensures Abs(t * k) == Abs(t) * k
  {
  }

  lemma MulLeCancel(x: int, y: int, k: nat)
    requires k > 0 && x * k <= y * k
    ensures x <= y
  {
    if x > y {
      MulLt(y, x, k);
      assert false;
    }
  }

  lemma SignMul(t: int, k: nat)
    requires k > 0
    ensures Sign(t * k) == Sign(t)
  {
    if t > 0 {
      MulLt(0, t, k);
    } else if t < 0 {
      MulLt(t, 0, k);
    }
  }

  // ---------------------------------------------------------------------
  // Rescaling

  /** The value in units of 10^e2 is the value in units of 10^e1 times
      10^(e1 - e2). */
  lemma AlignRescale(x: Dec, e1: int, e2: int)
    requires e2 <= e1 <= x.exp
    ensures Align(x, e2) == Align(x, e1) * Pow10(e1 - e2)
  {
    var k1: nat, k2: nat := x.exp - e1, e1 - e2;
    Pow10Add(k1, k2);
    assert Align(x, e2) == x.coef * (Pow10(k1) * Pow10(k2));
    assert Align(x, e1) == x.coef * Pow10(k1);
    MulAssoc(x.coef, Pow10(k1), Pow10(k2));
  }

  // ---------------------------------------------------------------------
  // Exact operations

  /** The exact sum has the value of the sum, at every common scale. */
  lemma ExactAddValue(a: Dec, b: Dec, e: int)
    requires e <= a.exp && e <= b.exp
    ensures Align(ExactAdd(a, b), e) == Align(a, e) + Align(b, e)
  {
    var m := Min(a.exp, b.exp);
    var s := ExactAdd(a, b);
    var x, y := Align(a, m), Align(b, m);
    assert s == Dec(x + y, m);
    AlignRescale(s, m, e);
    AlignRescale(a, m, e);
    AlignRescale(b, m, e);
    MulDistrib(x, y, Pow10(m - e));
  }

  lemma ExactSubValue(a: Dec, b: Dec, e: int)
    requires e <= a.exp && e <= b.exp
    ensures Align(ExactSub(a, b), e) == Align(a, e) - Align(b, e)
  {
    var m := Min(a.exp, b.exp);
    var s := ExactSub(a, b);
    var x, y := Align(a, m), Align(b, m);
    assert s == Dec(x - y, m);
    AlignRescale(s, m, e);
    AlignRescale(a, m, e);
    AlignRescale(b, m, e);
    MulDistribSub(x, y, Pow10(m - e));
  }

  /** The exact product has the value of the product: counted in units of
      10^(ea + eb) it is the product of the factors counted in 10^ea and
      10^eb. */
  lemma ExactMulValue(a: Dec, b: Dec, ea: int, eb: int)
    requires ea <= a.exp && eb <= b.exp
    ensures Align(ExactMul(a, b), ea + eb) == Align(a, ea) * Align(b, eb)
  {
    var ka: nat, kb: nat := a.exp - ea, b.exp - eb;
    Pow10Add(ka, kb);
    ProductRearranged(a.coef, b.coef, Pow10(ka), Pow10(kb), Pow10(ka + kb));
    assert Align(ExactMul(a, b), ea + eb) == (a.coef * b.coef) * Pow10(ka + kb);
  }

  lemma ProductRearranged(c: int, d: int, p: int, q: int, pq: int)
    requires pq == p * q
    ensures (c * d) * pq == (c * p) * (d * q)
  {
    MulAssoc(c * d, p, q);
    MulAssoc(c, d, p);
    MulAssoc(c, p, d);
    MulAssoc(c * p, d, q);
    assert d * p == p * d;
  }

  /** comparedTo orders decimals by value, at every common scale. */
  lemma CmpValue(a: Dec, b: Dec, e: int)
    requires e <= a.exp && e <= b.exp
    ensures Cmp(a, b) == Sign(Align(a, e) - Align(b, e))
  {
    var m := Min(a.exp, b.exp);
    var x, y := Align(a, m), Align(b, m);
    AlignRescale(a, m, e);
    AlignRescale(b, m, e);
    MulDistribSub(x, y, Pow10(m - e));
    SignMul(x - y, Pow10(m - e));
  }

  // ---------------------------------------------------------------------
  // Rounding error

  /** A signed error `t` rounds half-up against a bound `b`: |t| is at
      most `b`/2, and an error of exactly `b`/2 (a tie) points away from
      zero, that is, has the sign of the rounded value (`neg` when it is
      negative). */
  predicate HalfUpError(t: int, b: int, neg: bool) {
    if neg then -b <= 2 * t < b else -b < 2 * t <= b
  }

  /** `u` is `v` rounded half-up to a multiple of `w` units of 10^`unit`:
      it lies within half of that step of `v`, and on a tie it is the
      neighbour farther from zero. */
  predicate HalfUp(u: Dec, v: Dec, w: nat, unit: int) {
    var e := Min(Min(u.exp, v.exp), unit);
    HalfUpError(Align(u, e) - Align(v, e), w * Pow10(unit - e), v.coef < 0)
  }

  /** `HalfUp` does not depend on the scale it is checked at. */
  lemma HalfUpAt(u: Dec, v: Dec, w: nat, unit: int, e: int)
    requires e <= u.exp && e <= v.exp && e <= unit
    ensures HalfUp(u, v, w, unit) <==>
      HalfUpError(Align(u, e) - Align(v, e), w * Pow10(unit - e), v.coef < 0)
  {
    var m := Min(Min(u.exp, v.exp), unit);
    var k := Pow10(m - e);
    var du := Align(u, m) - Align(v, m);
    AlignRescale(u, m, e);
    AlignRescale(v, m, e);
    MulDistribSub(Align(u, m), Align(v, m), k);
    Pow10Add(unit - m, m - e);
    MulAssoc(w, Pow10(unit - m), k);
    ScaledHalfUp(du, w * Pow10(unit - m), k, v.coef < 0);
  }

  /** A half-up error bound survives scaling both sides by a positive
      `k`, and back. */
  lemma ScaledHalfUp(t: int, b: int, k: nat, neg: bool)
    requires k > 0
    ensures HalfUpError(t * k, b * k, neg) <==> HalfUpError(t, b, neg)
  {
    MulAssoc(2, t, k);
    NegatedProduct(b, k);
    ScaledLe(-b, 2 * t, k);
    ScaledLe(2 * t, b, k);
  }

  /** Scaling by a positive `k` keeps both `<=` and `<` between two integers. */
  lemma ScaledLe(x: int, y: int, k: nat)
    requires k > 0
    ensures x * k <= y * k <==> x <= y
    ensures x * k < y * k <==> x < y
  {
    if x <= y {
      MulLe(x, y, k);
    } else {
      MulLt(y, x, k);
    }
    if x < y {
      MulLt(x, y, k);
    } else {
      MulLe(y, x, k);
    }
  }

  /** Dropping `s` digits half-up moves the coefficient, counted in units
      of the dropped digits, by at most half of 10^s, away from zero on a
      tie. */
  lemma DropDigitsError(x: Dec, s: nat)
    ensures HalfUpError(DropDigits(x, s).coef * Pow10(s) - x.coef, Pow10(s), x.coef < 0)
  {
    var r := DropDigits(x, s);
    DivHalfUpNearest(Abs(x.coef), Pow10(s));
    SignedHalfUp(x.coef, r.coef, Pow10(s));
  }

  /** A signed coefficient `rc` whose magnitude is that of `c` divided by
      `p` rounded half-up, with a compatible sign, is within half of `p` of
      `c` once multiplied back by `p`, away from zero on a tie. */
  lemma SignedHalfUp(c: int, rc: int, p: nat)
    requires rc > 0 ==> c > 0
    requires rc < 0 ==> c < 0
    requires 2 * Abs(rc) * p <= 2 * Abs(c) + p < 2 * Abs(rc) * p + 2 * p
    ensures HalfUpError(rc * p - c, p, c < 0)
  {
    if c < 0 {
      assert rc * p - c == -(Abs(rc) * p - Abs(c));
    } else {
      assert rc * p - c == Abs(rc) * p - Abs(c);
    }
  }

  lemma DropDigitsNear(x: Dec, s: nat)
    ensures var r := DropDigits(x, s); HalfUp(r, x, 1, r.exp)
  {
    var r := DropDigits(x, s);
    DropDigitsError(x, s);
    assert Align(r, x.exp) == r.coef * Pow10(s);
    assert Align(x, x.exp) == x.coef;
    HalfUpAt(r, x, 1, r.exp, x.exp);
  }

  /** `r` is `x` rounded half-up to `Precision` significant digits: `x`
      itself when it has no more digits; otherwise `Precision` digits (or
      10^Precision after a carry) at the exponent that keeps the leading
      `Precision` digits of `x`; in both cases within half a unit of its
      last digit of `x`, ties away from zero. */
  predicate SigRounded(r: Dec, x: Dec) {
    var k := NumDigits(Abs(x.coef));
    && (k <= Precision ==> r == x)
    && (k > Precision ==> r.exp == x.exp + k - Precision && MinCoef <= Abs(r.coef) <= MaxCoef)
    && HalfUp(r, x, 1, r.exp)
  }

  /** plus, minus and times round their exact result to `Precision`
      significant digits, half-up. */
  lemma RoundSigNear(x: Dec)
    ensures SigRounded(RoundSig(x), x)
  {
    var k := NumDigits(Abs(x.coef));
    if k > Precision {
      DropDigitsNear(x, k - Precision);
    } else {
      HalfUpAt(x, x, 1, x.exp, x.exp);
    }
  }

  /** The coefficient toFixed renders, taken at 10^-d, is `x` rounded
      half-up to a multiple of 10^-d. */
  lemma FixedCoefNear(x: Dec, d: nat)
    ensures HalfUp(Dec(FixedCoef(x, d), -(d as int)), x, 1, -(d as int))
  {
    var e := -(d as int);
    var f := Dec(FixedCoef(x, d), e);
    if x.exp + d >= 0 {
      assert Align(f, e) == Align(x, e);
      HalfUpAt(f, x, 1, e, e);
    } else {
      var s: nat := -(x.exp + d);
      DropDigitsNear(x, s);
      assert f == DropDigits(x, s);
    }
  }

  /** dividedBy: the rounded quotient times the divisor is the dividend
      rounded half-up to a multiple of |b.coef| units of the quotient's last
      digit (scaled by b), that is, the quotient is the exact quotient
      rounded half-up at its last kept digit. */
  lemma DividedByNear(a: Dec, b: Dec)
    requires b.coef != 0
    ensures var r := DividedBy(a, b); HalfUp(ExactMul(r, b), a, Abs(b.coef), r.exp + b.exp)
  {
    var r := DividedBy(a, b);
    var u := ExactMul(r, b);
    if a.coef == 0 {
      var e := Min(Min(u.exp, a.exp), u.exp);
      assert Align(u, e) == 0 && Align(a, e) == 0;
    } else {
      var n, d := Abs(a.coef), Abs(b.coef);
      var z, s := QuotientShift(n, d), QuotientDrop(n, d);
      var num, den := NatMul(n, Pow10(z)), NatMul(d, Pow10(s));
      var q := DivHalfUp(num, den);
      var negative := (a.coef < 0) != (b.coef < 0);
      var c := if negative then -(q as int) else q as int;
      assert r == Dec(c, a.exp - b.exp - z + s);
      DivHalfUpNearest(num, den);
      QuotientError(a.coef, b.coef, c, q, Pow10(z), Pow10(s), num, den);
      var e0 := a.exp - z;
      assert Align(u, e0) == (c * b.coef) * Pow10(s);
      assert Align(a, e0) == a.coef * Pow10(z);
      HalfUpAt(u, a, d, u.exp, e0);
    }
  }

  lemma QuotientError(ac: int, bc: int, c: int, q: nat, pz: nat, ps: nat, num: nat, den: nat)
    requires bc != 0 && num == Abs(ac) * pz && den == Abs(bc) * ps
    requires c == if (ac < 0) != (bc < 0) then -(q as int) else q as int
    requires 2 * q * den <= 2 * num + den < 2 * q * den + 2 * den
    ensures HalfUpError((c * bc) * ps - ac * pz, Abs(bc) * ps, ac < 0)
  {
    var d: int := Abs(bc);
    SignedProduct(ac, bc, c, q);
    MulAssoc(q, d, ps);
    SignedScale(c * bc, q * d, ps, ac < 0);
    SignedScale(ac, Abs(ac), pz, ac < 0);
    LinearFinish((c * bc) * ps, ac * pz, q * den, num, den, ac < 0);
  }

  /** Scaling keeps a sign flip outside the product. */
  lemma SignedScale(x: int, t: int, k: int, neg: bool)
    requires x == if neg then -t else t
    ensures x * k == if neg then -(t * k) else t * k
  {
    if neg {
      NegatedProduct(t, k);
    }
  }

  lemma LinearFinish(x: int, y: int, qden: int, num: int, den: int, neg: bool)
    requires neg ==> x == -qden && y == -num
    requires !neg ==> x == qden && y == num
    requires 2 * qden <= 2 * num + den < 2 * qden + 2 * den
    ensures HalfUpError(x - y, den, neg)
  {
  }

  lemma NegatedProduct(x: int, y: int)
    ensures (-x) * y == -(x * y)
  {
  }

  /** The sign rule of a quotient: |c × bc| = q × |bc|, with the sign of `ac`. */
  lemma SignedProduct(ac: int, bc: int, c: int, q: nat)
    requires c == if (ac < 0) != (bc < 0) then -(q as int) else q as int
    ensures ac < 0 ==> c * bc == -(q * Abs(bc))
    ensures ac >= 0 ==> c * bc == q * Abs(bc)
  {
    if bc < 0 {
      NegatedProduct(q, -bc);
      assert q * bc == -(q * -bc);
    }
  }

  // ---------------------------------------------------------------------
  // toFixed text

  /** FirstIndex finds the first match, so a match with none before it is
      the one it finds. */
  lemma FirstIndexIs(s: string, p: char -> bool, k: nat)
    requires k <= |s|
    requires k < |s| ==> p(s[k])
    requires forall j :: 0 <= j < k ==> !p(s[j])
    ensures FirstIndex(s, p) == k
  {
  }

  /** Rendering `n` with `d` fractional digits: an optional minus sign,
      digits, and when `d` > 0 a point followed by exactly `d` digits. */
  lemma RenderShape(n: int, d: nat)
    ensures var s := Render(n, d);
      && |s| > d
      && (n < 0 <==> s[0] == '-')
      && (d == 0 ==> forall i :: 0 <= i < |s| ==> s[i] != '.')
      && (d > 0 ==> s[|s| - d - 1] == '.' && AllDigits(s[|s| - d..]))
  {
    var sign := if n < 0 then "-" else "";
    var digits := PaddedDigits(Abs(n), d + 1);
    assert Render(n, d) == sign + PointBefore(digits, d);
    UnsignedStart(digits, d);
    PointShape(sign, digits, d);
  }

  lemma PointShape(sign: string, digits: string, d: nat)
    requires |digits| > d && AllDigits(digits) && |sign| <= 1 && (sign == [] || sign[0] == '-')
    ensures var s := sign + PointBefore(digits, d);
      && (d == 0 ==> forall i :: 0 <= i < |s| ==> s[i] != '.')
      && (d > 0 ==> s[|s| - d - 1] == '.' && AllDigits(s[|s| - d..]))
  {
    var s := sign + PointBefore(digits, d);
    if d == 0 {
      forall i | 0 <= i < |s| ensures s[i] != '.' {
        if i >= |sign| {
          assert s[i] == digits[i - |sign|];
        }
      }
    } else {
      var k := |digits| - d;
      assert s == (sign + digits[..k]) + "." + digits[k..];
    }
  }

  /** A nonempty run of digits parses as that integer. */
  lemma DigitsParse(s: string)
    requires AllDigits(s) && |s| >= 1
    ensures ParseUnsigned(s) == Some(Dec(DigitsToNat(s), 0))
  {
    FirstIndexIs(s, IsExponentMark, |s|);
    assert s[..|s|] == s;
    FirstIndexIs(s, IsPoint, |s|);
    assert s + "" == s;
  }

  /** Digits, a point and digits parse as the digits joined, scaled down
      by the length of the fraction. */
  lemma PointParses(whole: string, fraction: string, body: string)
    requires AllDigits(whole) && AllDigits(fraction) && |whole| >= 1
    requires body == whole + "." + fraction
    ensures ParseUnsigned(body) == Some(Dec(DigitsToNat(whole + fraction), -|fraction|))
  {
    NoExponentMark(whole, fraction, body);
    FirstIndexIs(body, IsExponentMark, |body|);
    forall i | 0 <= i < |whole| ensures !IsPoint(body[i]) {
      assert body[i] == whole[i];
    }
    FirstIndexIs(body, IsPoint, |whole|);
    assert body[..|body|] == body;
    assert body[..|whole|] == whole && body[|whole| + 1..] == fraction;
  }

  lemma NoExponentMark(whole: string, fraction: string, body: string)
    requires AllDigits(whole) && AllDigits(fraction)
    requires body == whole + "." + fraction
    ensures forall i :: 0 <= i < |body| ==> !IsExponentMark(body[i])
  {
    forall i | 0 <= i < |body| ensures !IsExponentMark(body[i]) {
      if i < |whole| { assert body[i] == whole[i]; }
      else if i > |whole| { assert body[i] == fraction[i - |whole| - 1]; }
    }
  }

  /** Digits with a point before the last `d` of them parse as the
      decimal with those digits as coefficient and exponent -d. */
  lemma PointBeforeParses(digits: string, d: nat)
    requires |digits| > d && AllDigits(digits)
    ensures ParseUnsigned(PointBefore(digits, d)) == Some(Dec(DigitsToNat(digits), -(d as int)))
  {
    if d == 0 {
      DigitsParse(digits);
    } else {
      var j := |digits| - d;
      SplitDigits(digits, j);
      PointParses(digits[..j], digits[j..], PointBefore(digits, d));
    }
  }

  lemma SplitDigits(digits: string, j: nat)
    requires 1 <= j < |digits| && AllDigits(digits)
    ensures digits[..j] + digits[j..] == digits
    ensures AllDigits(digits[..j]) && AllDigits(digits[j..]) && |digits[..j]| >= 1
    ensures PointBefore(digits, |digits| - j) == digits[..j] + "." + digits[j..]
  {
  }

  /** The text Render produces parses back to the decimal n × 10^-d. */
  lemma RenderParses(n: int, d: nat)
    ensures ParseLiteral(Render(n, d)) == Some(Dec(n, -(d as int)))
  {
    var digits := PaddedDigits(Abs(n), d + 1);
    var body := PointBefore(digits, d);
    PointBeforeParses(digits, d);
    var s := Render(n, d);
    if n < 0 {
      assert s == "-" + body;
      assert s[0] == '-' && s[1..] == body;
    } else {
      assert s == body;
      UnsignedStart(digits, d);
    }
  }

  /** The unsigned rendering starts with a digit, so it carries no sign. */
  lemma UnsignedStart(digits: string, d: nat)
    requires |digits| > d && AllDigits(digits)
    ensures |PointBefore(digits, d)| >= 1 && IsDigit(PointBefore(digits, d)[0])
  {
    if d > 0 {
      assert PointBefore(digits, d)[0] == digits[0];
    }
  }

  /** toFixed(d) yields a numeral with `d` fractional digits whose value is
      `x` rounded half-up to a multiple of 10^-d. */
  lemma ToFixedNear(x: Dec, d: nat)
    ensures ParseLiteral(ToFixed(x, d)).Some?
    ensures HalfUp(ParseLiteral(ToFixed(x, d)).value, x, 1, -(d as int))
  {
    RenderParses(FixedCoef(x, d), d);
    FixedCoefNear(x, d);
  }
}
