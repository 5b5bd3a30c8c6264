/**
 * The money helpers of `utils/money.ts`: amounts travel as decimal strings, every
 * call parses its arguments with the decimal library (which throws on anything that
 * is not a numeral), arithmetic is exact and the result is printed with `toFixed(2)`;
 * comparisons are made on the exact, unrounded values.
 */
module Money {
  import opened Wrappers
  import opened Errors
  import opened Strings
  import opened Decimal

  const InvalidArgument: string := "[DecimalError] Invalid argument: "
  const DivisionByZero: string := "[DecimalError] Division by zero"

  /**
   * `d(value)`: the exact number a string denotes. The library strips a leading '-'
   * before it matches the numeral, so the message of a refusal quotes the rest.
   */
  function D(s: string): (r: Result<Dec, Error>)
    ensures r.Ok? <==> Parse(s).Some?
    ensures r.Ok? ==> Parse(s) == Some(r.value)
    ensures r.Err? ==> r.error == DecimalError(InvalidArgument + if |s| > 0 && s[0] == '-' then s[1..] else s)
  {
    match Parse(s)
    case Some(x) => Ok(x)
    case None => Err(DecimalError(InvalidArgument + if |s| > 0 && s[0] == '-' then s[1..] else s))
  }

  /** Both arguments read, or the error of the first one that did not (left to right). */
  predicate BothRead(a: string, b: string) {
    D(a).Ok? && D(b).Ok?
  }

  function FirstError(a: string, b: string): Error
    requires !BothRead(a, b)
  {
    if D(a).Err? then D(a).error else D(b).error
  }

  /** The number of cents a printed two-place amount stands for. */
  function CentsOf(s: string): int
    requires IsFixed2(s)
  {
    Fixed2Reads(s);
    Parse(s).value.mant
  }

  lemma Fixed2Reads(s: string)
    requires IsFixed2(s)
    ensures Parse(s).Some? && Parse(s).value.scale == 2
  {
    if |s| > 0 && s[0] == '-' {
      assert s == "-" + s[1..];
      UnsignedFixed2Canonical(s[1..]);
      ParseSign(s[1..]);
    } else {
      UnsignedFixed2Canonical(s);
      ParseSign(s);
    }
  }

  // ------------------------------------------------------------ arithmetic

  /**
   * `add(a, b)`: the exact sum printed with two places; the cents are the sum rounded
   * half away from zero (the rounding is stated by `Cents`).
   */
  function Add(a: string, b: string): (r: Result<string, Error>)
    ensures r.Ok? <==> BothRead(a, b)
    ensures r.Err? ==> r.error == FirstError(a, b)
    ensures r.Ok? ==> IsFixed2(r.value) && CentsOf(r.value) == Cents(Plus(D(a).value, D(b).value))
  {
    var x :- D(a);
    var y :- D(b);
    Fixed2Reads(ToFixed2(Plus(x, y)));
    Ok(ToFixed2(Plus(x, y)))
  }

  /** `sub(a, b)`: the exact difference printed with two places. */
  function Sub(a: string, b: string): (r: Result<string, Error>)
    ensures r.Ok? <==> BothRead(a, b)
    ensures r.Err? ==> r.error == FirstError(a, b)
    ensures r.Ok? ==> IsFixed2(r.value) && CentsOf(r.value) == Cents(Minus(D(a).value, D(b).value))
    ensures r.Ok? ==> (r.value[0] == '-' <==> Compare(D(a).value, D(b).value) < 0)
  {
    var x :- D(a);
    var y :- D(b);
    Fixed2Reads(ToFixed2(Minus(x, y)));
    Ok(ToFixed2(Minus(x, y)))
  }

  /** `mul(a, b)`: the exact product printed with two places. */
  function Mul(a: string, b: string): (r: Result<string, Error>)
    ensures r.Ok? <==> BothRead(a, b)
    ensures r.Err? ==> r.error == FirstError(a, b)
    ensures r.Ok? ==> IsFixed2(r.value) && CentsOf(r.value) == Cents(Times(D(a).value, D(b).value))
  {
    var x :- D(a);
    var y :- D(b);
    Fixed2Reads(ToFixed2(Times(x, y)));
    Ok(ToFixed2(Times(x, y)))
  }

  /**
   * The quotient `x / y` in whole cents, rounded half away from zero: with the quotient
   * written as `n / m` (`m > 0`), `c` is the nearest integer to `100·n / m`.
   */
  function QuotientCents(x: Dec, y: Dec): (c: int)
    requires y.mant != 0
    ensures var n := QuotientNumerator(x, y); var m := QuotientDenominator(x, y);
            (n >= 0 ==> c >= 0 && -m <= 2 * (n - c * m) < m)
            && (n < 0 ==> c <= 0 && -m < 2 * (n - c * m) <= m)
  {
    RoundHalfAway(QuotientNumerator(x, y), QuotientDenominator(x, y))
  }

  /** `100·x/y = n/m` with `n = 100·x.mant·10^y.scale·sign(y)` and `m = |y.mant|·10^x.scale`. */
  function QuotientNumerator(x: Dec, y: Dec): int {
    100 * x.mant * Pow10(y.scale) * (if y.mant < 0 then -1 else 1)
  }

  function QuotientDenominator(x: Dec, y: Dec): (m: int)
    requires y.mant != 0
    ensures m > 0
  {
    var p := Pow10(x.scale);
    var a := Abs(y.mant);
    MulAtLeast(a, p);
    a * p
  }

  /**
   * `div(a, b)`: the quotient printed with two places; a zero divisor throws (the library
   * checks the divisor before it looks at the dividend).
   */
  function Div(a: string, b: string): (r: Result<string, Error>)
    ensures BothRead(a, b) ==> (r.Err? <==> D(b).value.mant == 0)
    ensures !BothRead(a, b) ==> r == Err(FirstError(a, b))
    ensures BothRead(a, b) && D(b).value.mant == 0 ==> r == Err(DecimalError(DivisionByZero))
    ensures r.Ok? ==> IsFixed2(r.value) && CentsOf(r.value) == QuotientCents(D(a).value, D(b).value)
  {
    var x :- D(a);
    var y :- D(b);
    if y.mant == 0 then Err(DecimalError(DivisionByZero))
    else
      var c := QuotientCents(x, y);
      var negative := (x.mant < 0) != (y.mant < 0) && x.mant != 0;
      var text := Fixed2Text(negative, Abs(c));
      Fixed2RoundTrip(negative, Abs(c));
      QuotientSign(x, y);
      Fixed2Reads(text);
      Ok(text)
  }

  lemma QuotientSign(x: Dec, y: Dec)
    requires y.mant != 0
    ensures QuotientCents(x, y) < 0 ==> (x.mant < 0) != (y.mant < 0) && x.mant != 0
    ensures QuotientCents(x, y) > 0 ==> (x.mant < 0) == (y.mant < 0) && x.mant != 0
  {
    var n := QuotientNumerator(x, y);
    var p := Pow10(y.scale);
    var hx := 100 * x.mant;
    MulSign(hx, p);
    if y.mant < 0 {
      assert n == -(hx * p);
    } else {
      assert n == hx * p;
    }
  }

  lemma MulSign(a: int, p: int)
    requires p >= 1
    ensures a > 0 ==> a * p > 0
    ensures a < 0 ==> a * p < 0
    ensures a == 0 ==> a * p == 0
  {
    if a > 0 {
      MulAtLeast(a, p);
    } else if a < 0 {
      MulAtLeast(-a, p);
      assert (-a) * p == -(a * p);
    }
  }

  // ------------------------------------------------------------ comparisons

  /** `lt(a, b)`: `a < b`, on the exact values. */
  function Lt(a: string, b: string): (r: Result<bool, Error>)
    ensures r.Ok? <==> BothRead(a, b)
    ensures r.Err? ==> r.error == FirstError(a, b)
    ensures r.Ok? ==> (r.value <==> Align(D(a).value, Scale2(a, b)) < Align(D(b).value, Scale2(a, b)))
  {
    var x :- D(a);
    var y :- D(b);
    CompareAligned(x, y);
    Ok(Compare(x, y) < 0)
  }

  /** `lte(a, b)`: `a <= b`, on the exact values. */
  function Lte(a: string, b: string): (r: Result<bool, Error>)
    ensures r.Ok? <==> BothRead(a, b)
    ensures r.Err? ==> r.error == FirstError(a, b)
    ensures r.Ok? ==> (r.value <==> Align(D(a).value, Scale2(a, b)) <= Align(D(b).value, Scale2(a, b)))
  {
    var x :- D(a);
    var y :- D(b);
    CompareAligned(x, y);
    Ok(Compare(x, y) <= 0)
  }

  /** `gt(a, b)`: `a > b`, on the exact values. */
  function Gt(a: string, b: string): (r: Result<bool, Error>)
    ensures r.Ok? <==> BothRead(a, b)
    ensures r.Err? ==> r.error == FirstError(a, b)
    ensures r.Ok? ==> (r.value <==> Align(D(a).value, Scale2(a, b)) > Align(D(b).value, Scale2(a, b)))
  {
    var x :- D(a);
    var y :- D(b);
    CompareAligned(x, y);
    Ok(Compare(x, y) > 0)
  }

  /** `gte(a, b)`: `a >= b`, on the exact values. */
  function Gte(a: string, b: string): (r: Result<bool, Error>)
    ensures r.Ok? <==> BothRead(a, b)
    ensures r.Err? ==> r.error == FirstError(a, b)
    ensures r.Ok? ==> (r.value <==> Align(D(a).value, Scale2(a, b)) >= Align(D(b).value, Scale2(a, b)))
  {
    var x :- D(a);
    var y :- D(b);
    CompareAligned(x, y);
    Ok(Compare(x, y) >= 0)
  }

  /** `eq(a, b)`: equal exact values, whatever the spelling ("1.5" and "1.50" are equal). */
  function Eq(a: string, b: string): (r: Result<bool, Error>)
    ensures r.Ok? <==> BothRead(a, b)
    ensures r.Err? ==> r.error == FirstError(a, b)
    ensures r.Ok? ==> (r.value <==> Align(D(a).value, Scale2(a, b)) == Align(D(b).value, Scale2(a, b)))
  {
    var x :- D(a);
    var y :- D(b);
    CompareAligned(x, y);
    Ok(Compare(x, y) == 0)
  }

  /** The common scale at which two read arguments are compared. */
  function Scale2(a: string, b: string): nat
    requires BothRead(a, b)
  {
    Max(D(a).value.scale, D(b).value.scale)
  }

  /**
   * `isZero(x)`: imported by the debt service but not defined beside the others; read as
   * `eq(x, "0")`, which `IsZeroIsEq` shows it agrees with on every input.
   */
  function IsZero(s: string): (r: Result<bool, Error>)
    ensures r.Ok? <==> D(s).Ok?
    ensures r.Err? ==> r.error == D(s).error
    ensures r.Ok? ==> (r.value <==> D(s).value.mant == 0)
  {
    var x :- D(s);
    Ok(x.mant == 0)
  }

  /** `d("0")`: the seed of every `reduce` and the other side of `isZero`. */
  lemma ZeroReads()
    ensures D("0") == Ok(Dec(0, 0))
  {
  }

  lemma AlignOwnScale(x: Dec)
    ensures Align(x, x.scale) == x.mant && Align(Dec(0, 0), x.scale) == 0
  {
  }

  /** Against zero, the common scale is the amount's own, where it aligns to its mantissa. */
  lemma AlignAgainstZero(s: string, z: string)
    requires D(s).Ok? && D(z) == Ok(Dec(0, 0))
    ensures Align(D(s).value, Scale2(s, z)) == D(s).value.mant
    ensures Align(D(z).value, Scale2(s, z)) == 0
  {
    var x := D(s).value;
    assert Scale2(s, z) == x.scale;
    AlignAtOwnScale(x, Scale2(s, z));
  }

  lemma AlignAtOwnScale(x: Dec, t: nat)
    requires t == x.scale
    ensures Align(x, t) == x.mant && Align(Dec(0, 0), t) == 0
  {
    assert Pow10(0) == 1;
  }

  /** Equality with any spelling of zero asks whether the mantissa is zero. */
  lemma EqZero(s: string, z: string)
    requires D(s).Ok? && D(z) == Ok(Dec(0, 0))
    ensures Eq(s, z) == Ok(D(s).value.mant == 0)
  {
    AlignAgainstZero(s, z);
  }

  /** `isZero(x)` is `eq(x, "0")`: the same answer, and the same error for an unreadable `x`. */
  lemma IsZeroIsEq(s: string)
    ensures IsZero(s) == Eq(s, "0")
  {
    ZeroReads();
    if D(s).Ok? {
      EqZero(s, "0");
    }
  }

  // ------------------------------------------------------------ printing

  /** `abs(a)`: the magnitude, printed with two places and never a sign. */
  function AbsMoney(a: string): (r: Result<string, Error>)
    ensures r.Ok? <==> D(a).Ok?
    ensures r.Err? ==> r == Err(D(a).error)
    ensures r.Ok? ==> IsFixed2(r.value) && r.value[0] != '-' && CentsOf(r.value) == Abs(Cents(D(a).value))
  {
    var x :- D(a);
    RoundHalfAwayOddCents(x);
    Fixed2Reads(ToFixed2(AbsDec(x)));
    Ok(ToFixed2(AbsDec(x)))
  }

  /** Rounding to cents is symmetric about zero. */
  lemma RoundHalfAwayOddCents(x: Dec)
    ensures Cents(AbsDec(x)) == Abs(Cents(x))
    ensures Cents(Neg(x)) == -Cents(x)
  {
    if x.scale > 2 {
      RoundHalfAwayOdd(x.mant, Pow10(x.scale - 2));
    } else {
      var p := Pow10(2 - x.scale);
      assert (-x.mant) * p == -(x.mant * p);
    }
  }

  /** `toCentsStr(value)`: the value printed with exactly two places. */
  function ToCentsStr(s: string): (r: Result<string, Error>)
    ensures r.Ok? <==> D(s).Ok?
    ensures r.Err? ==> r == Err(D(s).error)
    ensures r.Ok? ==> IsFixed2(r.value) && CentsOf(r.value) == Cents(D(s).value)
    ensures r.Ok? ==> (r.value[0] == '-' <==> D(s).value.mant < 0)
  {
    var x :- D(s);
    Fixed2Reads(ToFixed2(x));
    Ok(ToFixed2(x))
  }

  /**
   * `formatMoney(value, showSign)`: "$" and the magnitude; with `showSign` a positive
   * value gets "+$" and a negative one "-$". Zero is unsigned in the library's reading
   * of a numeral, so it falls through to "$".
   */
  function FormatMoney(s: string, showSign: bool): (r: Result<string, Error>)
    ensures r.Ok? <==> D(s).Ok?
    ensures r.Err? ==> r == Err(D(s).error)
    ensures r.Ok? ==> IsSuffix(AbsMoney(s).value, r.value)
  {
    var x :- D(s);
    var formatted := ToFixed2(AbsDec(x));
    var text :=
      if showSign && x.mant > 0 then "+$" + formatted
      else if showSign && x.mant < 0 then "-$" + formatted
      else "$" + formatted;
    assert IsSuffix(formatted, text) by {
      assert text == text[..|text| - |formatted|] + formatted;
    }
    Ok(text)
  }

  predicate IsSuffix(t: string, s: string) {
    |t| <= |s| && s[|s| - |t|..] == t
  }
}
