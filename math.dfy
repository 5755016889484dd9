/** The high-precision arithmetic helpers: each operation validates its
    operands, builds decimals, applies one decimal operation (configured
    for 20 significant digits, rounding half-up) and formats the result,
    either as the decimal itself or as a toFixed string. */
module MathUtils {

  import opened Wrappers
  import opened Ascii
  import opened Decimals
  import opened DecimalValues

  /** What a caller may pass where a number is expected. A JavaScript
      number is given by the decimal its literal denotes. */
  datatype Operand =
    | Number(num: Dec)
    | Text(text: string)
    | DecimalObject(dec: Dec)
    | Null
    | Undefined
    | Boolean(flag: bool)
    | OtherObject

  /** A result without `digit` is the computed decimal; with `digit` it is
      the toFixed string. */
  datatype MathResult = Exact(value: Dec) | Fixed(text: string)

  datatype MathError = TypeError(message: string) | Error(message: string)

  const InvalidOperands: string := "参数必须是有效的数字"
  const ZeroDivisor: string := "除数不能为0"
  const InvalidFirst: string := "第一个参数必须是有效的数字"
  const InvalidDigit: string := "digit 参数必须是非负整数"

  function InvalidElement(index: nat): string {
    "数组索引 " + NatToString(index) + " 处的元素不是有效的数字"
  }

  /** The decimal constructor: the value `v` denotes, or None where it throws. */
  function ToDecimal(v: Operand): Option<Dec> {
    match v
    case Number(x) => Some(x)
    case Text(s) => ParseLiteral(s)
    case DecimalObject(x) => Some(x)
    case _ => None
  }

  /** null, undefined and booleans are rejected outright; anything else is
      valid when the decimal constructor accepts it. */
  predicate IsValidNumber(v: Operand) {
    if v.Null? || v.Undefined? || v.Boolean? then false
    else ToDecimal(v).Some?
  }

  lemma ValidNumberCases(v: Operand)
    ensures IsValidNumber(v) <==> ToDecimal(v).Some?
    ensures IsValidNumber(v) ==> v.Number? || v.Text? || v.DecimalObject?
    ensures v.Text? ==> (IsValidNumber(v) <==> ParseLiteral(v.text).Some?)
  {
  }

  function FormatResult(x: Dec, digit: Option<nat>): (r: MathResult)
    ensures r.Fixed? <==> digit.Some?
  {
    match digit
    case None => Exact(x)
    case Some(d) => Fixed(ToFixed(x, d))
  }

  /** `t` has exactly `d` digits after its point (and no point when `d`
      is 0), and reads back as `x` rounded half-up to `d` fractional
      digits: within half a unit of the last digit, and away from zero when
      `x` lies exactly halfway. */
  predicate FixedText(t: string, x: Dec, d: nat) {
    && |t| > d
    && (d == 0 ==> forall i :: 0 <= i < |t| ==> t[i] != '.')
    && (d > 0 ==> t[|t| - d - 1] == '.' && AllDigits(t[|t| - d..]))
    && ParseLiteral(t).Some?
    && HalfUp(ParseLiteral(t).value, x, 1, -(d as int))
  }

  lemma FormatFixed(x: Dec, d: nat)
    ensures FixedText(FormatResult(x, Some(d)).text, x, d)
  {
    RenderShape(FixedCoef(x, d), d);
    ToFixedNear(x, d);
  }

  // ---------------------------------------------------------------------
  // Binary operations

  predicate BothValid(a: Operand, b: Operand) {
    IsValidNumber(a) && IsValidNumber(b)
  }

  function Add(a: Operand, b: Operand, digit: Option<nat>): (r: Result<MathResult, MathError>)
    ensures r.Failure? <==> !BothValid(a, b)
    ensures r.Failure? ==> r.error == TypeError(InvalidOperands)
    ensures r.Success? ==> (r.value.Fixed? <==> digit.Some?)
  {
    if !BothValid(a, b) then Failure(TypeError(InvalidOperands))
    else Success(FormatResult(Plus(ToDecimal(a).value, ToDecimal(b).value), digit))
  }

  function Subtract(a: Operand, b: Operand, digit: Option<nat>): (r: Result<MathResult, MathError>)
    ensures r.Failure? <==> !BothValid(a, b)
    ensures r.Failure? ==> r.error == TypeError(InvalidOperands)
    ensures r.Success? ==> (r.value.Fixed? <==> digit.Some?)
  {
    if !BothValid(a, b) then Failure(TypeError(InvalidOperands))
    else Success(FormatResult(Minus(ToDecimal(a).value, ToDecimal(b).value), digit))
  }

  function Multiply(a: Operand, b: Operand, digit: Option<nat>): (r: Result<MathResult, MathError>)
    ensures r.Failure? <==> !BothValid(a, b)
    ensures r.Failure? ==> r.error == TypeError(InvalidOperands)
    ensures r.Success? ==> (r.value.Fixed? <==> digit.Some?)
  {
    if !BothValid(a, b) then Failure(TypeError(InvalidOperands))
    else Success(FormatResult(Times(ToDecimal(a).value, ToDecimal(b).value), digit))
  }

  /** Operand validity is checked before the divisor is tested for zero. */
  function Divide(a: Operand, b: Operand, digit: Option<nat>): (r: Result<MathResult, MathError>)
    ensures !BothValid(a, b) ==> r == Failure(TypeError(InvalidOperands))
    ensures BothValid(a, b) ==> (r.Failure? <==> ToDecimal(b).value.coef == 0)
    ensures BothValid(a, b) && r.Failure? ==> r.error == Error(ZeroDivisor)
    ensures r.Success? ==> (r.value.Fixed? <==> digit.Some?)
  {
    if !BothValid(a, b) then Failure(TypeError(InvalidOperands))
    else
      var divisor := ToDecimal(b).value;
      if IsZero(divisor) then Failure(Error(ZeroDivisor))
      else Success(FormatResult(DividedBy(ToDecimal(a).value, divisor), digit))
  }

  /** The sum is the exact sum rounded half-up to 20 significant digits:
      the exact sum when that fits in 20 digits, otherwise 20 digits (or
      10^20 after a carry) at the exponent that keeps the leading 20, within
      half a unit of its last digit of the exact sum and away from zero on a
      tie. The same holds for differences and products. */
  lemma AddRounded(a: Operand, b: Operand)
    requires BothValid(a, b)
    ensures var exact := ExactAdd(ToDecimal(a).value, ToDecimal(b).value);
      && Add(a, b, None).Success?
      && SigRounded(Add(a, b, None).value.value, exact)
  {
    RoundSigNear(ExactAdd(ToDecimal(a).value, ToDecimal(b).value));
  }

  lemma SubtractRounded(a: Operand, b: Operand)
    requires BothValid(a, b)
    ensures var exact := ExactSub(ToDecimal(a).value, ToDecimal(b).value);
      && Subtract(a, b, None).Success?
      && SigRounded(Subtract(a, b, None).value.value, exact)
  {
    RoundSigNear(ExactSub(ToDecimal(a).value, ToDecimal(b).value));
  }

  lemma MultiplyRounded(a: Operand, b: Operand)
    requires BothValid(a, b)
    ensures var exact := ExactMul(ToDecimal(a).value, ToDecimal(b).value);
      && Multiply(a, b, None).Success?
      && SigRounded(Multiply(a, b, None).value.value, exact)
  {
    RoundSigNear(ExactMul(ToDecimal(a).value, ToDecimal(b).value));
  }

  /** The quotient q of a nonzero divisor y has exactly 20 significant
      digits (or is 10^20 units after a carry), and q × y is within half of
      |y| units of q's last digit of the dividend. */
  lemma DivideRounded(a: Operand, b: Operand)
    requires BothValid(a, b) && ToDecimal(b).value.coef != 0
    ensures var x, y := ToDecimal(a).value, ToDecimal(b).value;
      && Divide(a, b, None).Success?
      && var q := Divide(a, b, None).value.value;
      && HalfUp(ExactMul(q, y), x, Abs(y.coef), q.exp + y.exp)
      && (x.coef != 0 ==> MinCoef <= Abs(q.coef) <= MaxCoef)
      && Sign(q.coef) == Sign(x.coef) * Sign(y.coef)
  {
    DividedByNear(ToDecimal(a).value, ToDecimal(b).value);
  }

  /** With `digit`, every operation renders the same decimal it returns
      without `digit`, through toFixed. */
  lemma FixedOfExact(a: Operand, b: Operand, d: nat)
    ensures Add(a, b, Some(d)).Success? ==>
      Add(a, b, Some(d)).value == Fixed(ToFixed(Add(a, b, None).value.value, d))
    ensures Subtract(a, b, Some(d)).Success? ==>
      Subtract(a, b, Some(d)).value == Fixed(ToFixed(Subtract(a, b, None).value.value, d))
    ensures Multiply(a, b, Some(d)).Success? ==>
      Multiply(a, b, Some(d)).value == Fixed(ToFixed(Multiply(a, b, None).value.value, d))
    ensures Divide(a, b, Some(d)).Success? ==>
      Divide(a, b, Some(d)).value == Fixed(ToFixed(Divide(a, b, None).value.value, d))
  {
  }

  // ---------------------------------------------------------------------
  // Folds over arrays

  /** The index of the first element that is not a valid number, if any. */
  function FirstInvalid(arr: seq<Operand>): (r: Option<nat>)
    ensures r.Some? ==> r.value < |arr| && !IsValidNumber(arr[r.value])
    ensures r.Some? ==> forall j :: 0 <= j < r.value ==> IsValidNumber(arr[j])
    ensures r.None? <==> forall j :: 0 <= j < |arr| ==> IsValidNumber(arr[j])
  {
    if arr == [] then None
    else if !IsValidNumber(arr[0]) then Some(0)
    else
      match FirstInvalid(arr[1..])
      case None => None
      case Some(i) => Some(i + 1)
  }

  /** The decimals of an array of valid operands. */
  function Values(arr: seq<Operand>): (xs: seq<Dec>)
    requires forall j :: 0 <= j < |arr| ==> IsValidNumber(arr[j])
    ensures |xs| == |arr|
    ensures forall j :: 0 <= j < |arr| ==> ToDecimal(arr[j]) == Some(xs[j])
  {
    if arr == [] then []
    else
      assert IsValidNumber(arr[0]);
      [ToDecimal(arr[0]).value] + Values(arr[1..])
  }

  /** reduce with plus, starting from `acc`. */
  function FoldPlus(acc: Dec, xs: seq<Dec>): Dec
    decreases |xs|
  {
    if xs == [] then acc else FoldPlus(Plus(acc, xs[0]), xs[1..])
  }

  /** reduce with times, starting from `acc`. */
  function FoldTimes(acc: Dec, xs: seq<Dec>): Dec
    decreases |xs|
  {
    if xs == [] then acc else FoldTimes(Times(acc, xs[0]), xs[1..])
  }

  /** The fold is a left fold: the last element is added last. */
  lemma {:induction false} FoldPlusSnoc(acc: Dec, xs: seq<Dec>, x: Dec)
    ensures FoldPlus(acc, xs + [x]) == Plus(FoldPlus(acc, xs), x)
    decreases |xs|
  {
    if xs == [] {
      assert xs + [x] == [x];
    } else {
      assert (xs + [x])[1..] == xs[1..] + [x];
      FoldPlusSnoc(Plus(acc, xs[0]), xs[1..], x);
    }
  }

  lemma {:induction false} FoldTimesSnoc(acc: Dec, xs: seq<Dec>, x: Dec)
    ensures FoldTimes(acc, xs + [x]) == Times(FoldTimes(acc, xs), x)
    decreases |xs|
  {
    if xs == [] {
      assert xs + [x] == [x];
    } else {
      assert (xs + [x])[1..] == xs[1..] + [x];
      FoldTimesSnoc(Times(acc, xs[0]), xs[1..], x);
    }
  }

  /** An empty array gives 0 (0.toFixed(digit) with `digit`) before any
      validation; otherwise the first invalid element is reported by index,
      and a valid array gives the left fold of plus from 0. */
  function Sum(arr: seq<Operand>, digit: Option<nat>): (r: Result<MathResult, MathError>)
    ensures |arr| == 0 ==> r == Success(FormatResult(Zero, digit))
    ensures |arr| > 0 ==> (r.Failure? <==> exists j :: 0 <= j < |arr| && !IsValidNumber(arr[j]))
    ensures r.Failure? ==>
      exists j :: (0 <= j < |arr| && !IsValidNumber(arr[j])
        && (forall i :: 0 <= i < j ==> IsValidNumber(arr[i]))
        && r.error == TypeError(InvalidElement(j)))
    ensures r.Success? ==> (r.value.Fixed? <==> digit.Some?)
  {
    if |arr| == 0 then Success(FormatResult(Zero, digit))
    else
      match FirstInvalid(arr)
      case Some(j) => Failure(TypeError(InvalidElement(j)))
      case None => Success(FormatResult(FoldPlus(Zero, Values(arr)), digit))
  }

  /** As Sum, with 1 for the empty array and times for plus. */
  function Product(arr: seq<Operand>, digit: Option<nat>): (r: Result<MathResult, MathError>)
    ensures |arr| == 0 ==> r == Success(FormatResult(One, digit))
    ensures |arr| > 0 ==> (r.Failure? <==> exists j :: 0 <= j < |arr| && !IsValidNumber(arr[j]))
    ensures r.Failure? ==>
      exists j :: (0 <= j < |arr| && !IsValidNumber(arr[j])
        && (forall i :: 0 <= i < j ==> IsValidNumber(arr[i]))
        && r.error == TypeError(InvalidElement(j)))
    ensures r.Success? ==> (r.value.Fixed? <==> digit.Some?)
  {
    if |arr| == 0 then Success(FormatResult(One, digit))
    else
      match FirstInvalid(arr)
      case Some(j) => Failure(TypeError(InvalidElement(j)))
      case None => Success(FormatResult(FoldTimes(One, Values(arr)), digit))
  }

  /** With `digit`, sum and product render through toFixed the same
      decimal they return without `digit`. */
  lemma FoldFixedOfExact(arr: seq<Operand>, d: nat)
    ensures Sum(arr, Some(d)).Success? ==>
      Sum(arr, Some(d)).value == Fixed(ToFixed(Sum(arr, None).value.value, d))
    ensures Product(arr, Some(d)).Success? ==>
      Product(arr, Some(d)).value == Fixed(ToFixed(Product(arr, None).value.value, d))
  {
  }

  /** Appending a valid element adds it to the running sum with one more
      rounding plus. */
  lemma SumAppend(arr: seq<Operand>, b: Operand)
    requires forall j :: 0 <= j < |arr| ==> IsValidNumber(arr[j])
    requires IsValidNumber(b)
    ensures Sum(arr + [b], None) == Success(Exact(Plus(Sum(arr, None).value.value, ToDecimal(b).value)))
  {
    var all := arr + [b];
    assert FirstInvalid(all).None? by {
      forall j | 0 <= j < |all| ensures IsValidNumber(all[j]) {
        if j < |arr| { assert all[j] == arr[j]; }
      }
    }
    if arr == [] {
      assert Values(all) == [ToDecimal(b).value];
      assert FoldPlus(Zero, Values(all)) == Plus(Zero, ToDecimal(b).value);
    } else {
      assert Values(all) == Values(arr) + [ToDecimal(b).value];
      FoldPlusSnoc(Zero, Values(arr), ToDecimal(b).value);
    }
  }

  lemma ProductAppend(arr: seq<Operand>, b: Operand)
    requires forall j :: 0 <= j < |arr| ==> IsValidNumber(arr[j])
    requires IsValidNumber(b)
    ensures Product(arr + [b], None) == Success(Exact(Times(Product(arr, None).value.value, ToDecimal(b).value)))
  {
    var all := arr + [b];
    assert FirstInvalid(all).None? by {
      forall j | 0 <= j < |all| ensures IsValidNumber(all[j]) {
        if j < |arr| { assert all[j] == arr[j]; }
      }
    }
    if arr == [] {
      assert Values(all) == [ToDecimal(b).value];
      assert FoldTimes(One, Values(all)) == Times(One, ToDecimal(b).value);
    } else {
      assert Values(all) == Values(arr) + [ToDecimal(b).value];
      FoldTimesSnoc(One, Values(arr), ToDecimal(b).value);
    }
  }

  // ---------------------------------------------------------------------
  // round and compare

  /** round(num, digit) with `digit` a JavaScript number, by its decimal
      value: the number is validated first, then `digit` must be a
      non-negative whole number. */
  function Round(num: Operand, digit: Dec): (r: Result<string, MathError>)
    ensures !IsValidNumber(num) ==> r == Failure(TypeError(InvalidFirst))
    ensures IsValidNumber(num) ==> (r.Failure? <==> !IsInteger(digit) || digit.coef < 0)
    ensures IsValidNumber(num) && r.Failure? ==> r.error == TypeError(InvalidDigit)
  {
    if !IsValidNumber(num) then Failure(TypeError(InvalidFirst))
    else if !IsInteger(digit) || digit.coef < 0 then Failure(TypeError(InvalidDigit))
    else
      var d := IntegerValue(digit);
      Success(ToFixed(ToDecimal(num).value, d as nat))
  }

  /** A whole, non-negative digit count `d` renders exactly `d` fractional
      digits of `num`, rounded half-up. */
  lemma RoundFixed(num: Operand, d: nat)
    requires IsValidNumber(num)
    ensures Round(num, Dec(d, 0)).Success?
    ensures FixedText(Round(num, Dec(d, 0)).value, ToDecimal(num).value, d)
  {
    var x := ToDecimal(num).value;
    assert IntegerValue(Dec(d, 0)) == d;
    FormatFixed(x, d);
    assert Round(num, Dec(d, 0)) == Success(FormatResult(x, Some(d)).text);
  }

  /** comparedTo: -1, 0 or 1 by decimal order. */
  function Compare(a: Operand, b: Operand): (r: Result<int, MathError>)
    ensures r.Failure? <==> !BothValid(a, b)
    ensures r.Failure? ==> r.error == TypeError(InvalidOperands)
    ensures r.Success? ==> r.value == -1 || r.value == 0 || r.value == 1
  {
    if !BothValid(a, b) then Failure(TypeError(InvalidOperands))
    else Success(Cmp(ToDecimal(a).value, ToDecimal(b).value))
  }

  /** The comparison is the sign of the difference of the two values,
      counted in any common unit. */
  lemma CompareSign(a: Operand, b: Operand, e: int)
    requires BothValid(a, b)
    requires e <= ToDecimal(a).value.exp && e <= ToDecimal(b).value.exp
    ensures Compare(a, b) == Success(Sign(Align(ToDecimal(a).value, e) - Align(ToDecimal(b).value, e)))
  {
    CmpValue(ToDecimal(a).value, ToDecimal(b).value, e);
  }

  lemma CompareReflexive(a: Operand)
    requires IsValidNumber(a)
    ensures Compare(a, a) == Success(0)
  {
  }

  lemma CompareAntisymmetric(a: Operand, b: Operand)
    requires BothValid(a, b)
    ensures Compare(b, a).value == -Compare(a, b).value
  {
  }

  // ---------------------------------------------------------------------
  // Worked examples

  /** add(0.1, 0.2) is exactly 0.3, and "0.30" with two digits. */
  lemma AddExample()
    ensures Add(Number(Dec(1, -1)), Number(Dec(2, -1)), None) == Success(Exact(Dec(3, -1)))
    ensures Add(Number(Dec(1, -1)), Number(Dec(2, -1)), Some(2)) == Success(Fixed("0.30"))
  {
    var a, b := Number(Dec(1, -1)), Number(Dec(2, -1));
    assert ToDecimal(a) == Some(Dec(1, -1)) && ToDecimal(b) == Some(Dec(2, -1));
    var x := ExactAdd(Dec(1, -1), Dec(2, -1));
    assert x == Dec(3, -1);
    assert NumDigits(3) == 1;
    assert Plus(Dec(1, -1), Dec(2, -1)) == Dec(3, -1);
    RenderExample();
    assert Add(a, b, Some(2)) == Success(FormatResult(Dec(3, -1), Some(2)));
  }

  lemma RenderExample()
    ensures ToFixed(Dec(3, -1), 2) == "0.30"
  {
    assert FixedCoef(Dec(3, -1), 2) == 30;
    assert NatToString(30) == "30";
    assert PaddedDigits(30, 3) == "030";
  }

  /** sum([0.1, 0.2, 0.3]) is exactly 0.6. */
  lemma SumExample()
    ensures Sum([Number(Dec(1, -1)), Number(Dec(2, -1)), Number(Dec(3, -1))], None) == Success(Exact(Dec(6, -1)))
  {
    var arr := [Number(Dec(1, -1)), Number(Dec(2, -1)), Number(Dec(3, -1))];
    assert FirstInvalid(arr).None?;
    assert Values(arr) == [Dec(1, -1), Dec(2, -1), Dec(3, -1)];
    SumExampleFold();
  }

  lemma SumExampleFold()
    ensures FoldPlus(Zero, [Dec(1, -1), Dec(2, -1), Dec(3, -1)]) == Dec(6, -1)
  {
    FoldPlusThree(Zero, Dec(1, -1), Dec(2, -1), Dec(3, -1));
    SumExampleSteps();
  }

  lemma FoldPlusThree(acc: Dec, a: Dec, b: Dec, c: Dec)
    ensures FoldPlus(acc, [a, b, c]) == Plus(Plus(Plus(acc, a), b), c)
  {
    assert [a, b, c][1..] == [b, c] && [b, c][1..] == [c] && [c][1..] == [];
    calc {
      FoldPlus(acc, [a, b, c]);
      FoldPlus(Plus(acc, a), [b, c]);
      FoldPlus(Plus(Plus(acc, a), b), [c]);
      FoldPlus(Plus(Plus(Plus(acc, a), b), c), []);
    }
  }

  lemma SumExampleSteps()
    ensures Plus(Zero, Dec(1, -1)) == Dec(1, -1)
    ensures Plus(Dec(1, -1), Dec(2, -1)) == Dec(3, -1)
    ensures Plus(Dec(3, -1), Dec(3, -1)) == Dec(6, -1)
  {
    SmallSum(Zero, Dec(1, -1), 1);
    SmallSum(Dec(1, -1), Dec(2, -1), 3);
    SmallSum(Dec(3, -1), Dec(3, -1), 6);
  }

  /** A sum of tenths with a one-digit coefficient is not rounded. */
  lemma SmallSum(a: Dec, b: Dec, c: nat)
    requires a.exp >= -1 && b.exp == -1 && 0 < c < 10
    requires Align(a, -1) + b.coef == c
    ensures Plus(a, b) == Dec(c, -1)
  {
    assert ExactAdd(a, b) == Dec(c, -1);
    assert NumDigits(c) == 1 by { assert c / 10 == 0; }
  }

  /** product([0.1, 0.2, 0.3]) is exactly 0.006. */
  lemma ProductExample()
    ensures Product([Number(Dec(1, -1)), Number(Dec(2, -1)), Number(Dec(3, -1))], None) == Success(Exact(Dec(6, -3)))
  {
    var arr := [Number(Dec(1, -1)), Number(Dec(2, -1)), Number(Dec(3, -1))];
    var xs := [Dec(1, -1), Dec(2, -1), Dec(3, -1)];
    assert FirstInvalid(arr).None?;
    assert Values(arr) == xs;
    assert Times(One, Dec(1, -1)) == Dec(1, -1) by { assert NumDigits(1) == 1; }
    assert Times(Dec(1, -1), Dec(2, -1)) == Dec(2, -2) by { assert NumDigits(2) == 1; }
    assert Times(Dec(2, -2), Dec(3, -1)) == Dec(6, -3) by { assert NumDigits(6) == 1; }
    assert xs[1..][1..] == xs[2..] && xs[2..][1..] == [];
    assert FoldTimes(Dec(2, -2), xs[2..]) == FoldTimes(Dec(6, -3), []) == Dec(6, -3);
    assert FoldTimes(Dec(1, -1), xs[1..]) == FoldTimes(Dec(2, -2), xs[2..]);
    assert FoldTimes(One, xs) == FoldTimes(Dec(1, -1), xs[1..]);
  }

  /** sum([], 2) is "0.00". */
  lemma EmptySumExample()
    ensures Sum([], Some(2)) == Success(Fixed("0.00"))
  {
    assert FixedCoef(Zero, 2) == 0;
    assert NatToString(0) == "0";
    assert Zeros(2) == "00";
    assert PaddedDigits(0, 3) == "000";
    assert PointBefore("000", 2) == "0.00";
    assert Render(0, 2) == "" + "0.00" == "0.00";
  }

  /** sum([1, 2, 'invalid']) reports index 2. */
  lemma InvalidElementExample()
    ensures Sum([Number(Dec(1, 0)), Number(Dec(2, 0)), Text("invalid")], None) == Failure(TypeError(InvalidElement(2)))
  {
    var arr := [Number(Dec(1, 0)), Number(Dec(2, 0)), Text("invalid")];
    assert !IsValidNumber(arr[2]) by {
      LetterRejected("invalid");
    }
    assert FirstInvalid(arr[2..]) == Some(0);
    assert FirstInvalid(arr[1..]) == Some(1);
  }

  /** A string that starts with a letter is not a decimal literal. */
  lemma LetterRejected(s: string)
    requires |s| >= 1 && (IsLower(s[0]) || IsUpper(s[0]))
    ensures ParseLiteral(s) == None
  {
    var m := FirstIndex(s, IsExponentMark);
    if m > 0 {
      var mantissa := s[..m];
      assert mantissa[0] == s[0];
      var j := FirstIndex(mantissa, IsPoint);
      assert j > 0;
      assert !IsDigit(mantissa[..j][0]);
    }
  }

  /** round(1.2345, 2) is "1.23". */
  lemma RoundDownExample()
    ensures Round(Number(Dec(12345, -4)), Dec(2, 0)) == Success("1.23")
  {
    assert IntegerValue(Dec(2, 0)) == 2;
    assert DivHalfUp(12345, 100) == 123;
    assert FixedCoef(Dec(12345, -4), 2) == 123;
    assert NatToString(123) == "123";
    assert PaddedDigits(123, 3) == "123";
    assert PointBefore("123", 2) == "1.23";
    assert Render(123, 2) == "" + "1.23" == "1.23";
  }

  /** round(1.2355, 2) is "1.24": the tie-free half-up case rounds up. */
  lemma RoundUpExample()
    ensures Round(Number(Dec(12355, -4)), Dec(2, 0)) == Success("1.24")
  {
    assert IntegerValue(Dec(2, 0)) == 2;
    assert DivHalfUp(12355, 100) == 124;
    assert FixedCoef(Dec(12355, -4), 2) == 124;
    assert NatToString(124) == "124";
    assert PaddedDigits(124, 3) == "124";
    assert PointBefore("124", 2) == "1.24";
    assert Render(124, 2) == "" + "1.24" == "1.24";
  }

  /** round(0.125, 2) is "0.13": an exact half rounds up. */
  lemma RoundTieExample()
    ensures Round(Number(Dec(125, -3)), Dec(2, 0)) == Success("0.13")
  {
    assert IntegerValue(Dec(2, 0)) == 2;
    assert DivHalfUp(125, 10) == 13;
    assert FixedCoef(Dec(125, -3), 2) == 13;
    assert NatToString(13) == "13";
    assert PaddedDigits(13, 3) == "013";
    assert PointBefore("013", 2) == "0.13";
    assert Render(13, 2) == "" + "0.13" == "0.13";
  }

  /** round(-0.125, 2) is "-0.13": an exact half rounds away from zero. */
  lemma RoundNegativeTieExample()
    ensures Round(Number(Dec(-125, -3)), Dec(2, 0)) == Success("-0.13")
  {
    assert IntegerValue(Dec(2, 0)) == 2;
    assert DivHalfUp(125, 10) == 13;
    assert FixedCoef(Dec(-125, -3), 2) == -13;
    assert NatToString(13) == "13";
    assert PaddedDigits(13, 3) == "013";
    assert PointBefore("013", 2) == "0.13";
    assert Render(-13, 2) == "-" + "0.13" == "-0.13";
  }

  /** round(1.23, -1) and round(1.23, 1.5) throw. */
  lemma RoundRejectionExample()
    ensures Round(Number(Dec(123, -2)), Dec(-1, 0)) == Failure(TypeError(InvalidDigit))
    ensures Round(Number(Dec(123, -2)), Dec(15, -1)) == Failure(TypeError(InvalidDigit))
  {
    assert !IsInteger(Dec(15, -1)) by {
      assert Pow10(1) == 10;
    }
  }

  /** add('hello', 1) and add(1, null) throw. */
  lemma AddRejectionExample()
    ensures Add(Text("hello"), Number(Dec(1, 0)), None) == Failure(TypeError(InvalidOperands))
    ensures Add(Number(Dec(1, 0)), Null, None) == Failure(TypeError(InvalidOperands))
  {
    LetterRejected("hello");
  }

  /** divide(10, 0) throws the zero-divisor error. */
  lemma DivideByZeroExample()
    ensures Divide(Number(Dec(10, 0)), Number(Dec(0, 0)), None) == Failure(Error(ZeroDivisor))
  {
  }

  /** compare(add(0.1, 0.2), 0.3) is 0. */
  lemma CompareExample()
    ensures Compare(Number(Add(Number(Dec(1, -1)), Number(Dec(2, -1)), None).value.value), Number(Dec(3, -1))) == Success(0)
  {
    AddExample();
  }
}
