/**
 * Exact decimal numbers as decimal.js-light represents them: the string syntax its
 * constructor accepts, exact sums, differences, products and comparisons, and
 * `toFixed(2)` under rounding mode 4 (ROUND_HALF_UP: to nearest, ties away from zero).
 */
module Decimal {
  import opened Wrappers
  import opened Strings

  /** The exact number `mant × 10^-scale`. */
  datatype Dec = Dec(mant: int, scale: nat)

  function Pow10(n: nat): (r: int)
    ensures r >= 1
  {
    if n == 0 then 1 else 10 * Pow10(n - 1)
  }

  lemma {:induction false} Pow10Add(a: nat, b: nat)
    ensures Pow10(a + b) == Pow10(a) * Pow10(b)
    decreases a
  {
    if a > 0 {
      Pow10Add(a - 1, b);
      assert Pow10(a + b) == 10 * Pow10(a - 1 + b);
    }
  }

  function Abs(n: int): nat {
    if n < 0 then -n else n
  }

  function Max(a: nat, b: nat): nat {
    if a < b then b else a
  }

  // ------------------------------------------------------------ syntax

  /** Digit text `a` followed by digit text `b` denotes `a · 10^|b| + b`. */
  lemma MulDist(na: int, p: int, nb: int, v: int)
    ensures (na * p + nb) * 10 + v == na * (10 * p) + (nb * 10 + v)
  {}
  lemma {:induction false} DigitsConcat(a: string, b: string)
    requires AllDigits(a) && AllDigits(b)
    ensures AllDigits(a + b)
    ensures DigitsToNat(a + b) == DigitsToNat(a) * Pow10(|b|) + DigitsToNat(b)
    decreases |b|
  {
    if b != [] {
      var b' := b[..|b| - 1];
      var ab := a + b;
      assert ab[..|ab| - 1] == a + b';
      assert ab[|ab| - 1] == b[|b| - 1];
      DigitsConcat(a, b');
      var na := DigitsToNat(a);
      var p := Pow10(|b'|);
      var nb := DigitsToNat(b');
      var v := DigitValue(b[|b| - 1]);
      assert DigitsToNat(ab) == DigitsToNat(a + b') * 10 + v;
      assert DigitsToNat(ab) == (na * p + nb) * 10 + v;
      assert DigitsToNat(b) == nb * 10 + v;
      assert Pow10(|b|) == 10 * p;
      assert (na * p + nb) * 10 + v == na * (10 * p) + (nb * 10 + v) by { MulDist(na, p, nb, v); }
    } else {
      assert a + b == a;
    }
  }

  predicate IsExpMark(c: char) {
    c == 'e' || c == 'E'
  }

  /** Index of the first `e`/`E`, or `|s|` when there is none. */
  function ExpMarkAt(s: string): (k: nat)
    ensures k <= |s|
    ensures forall i :: 0 <= i < k ==> !IsExpMark(s[i])
    ensures k < |s| ==> IsExpMark(s[k])
  {
    if s == [] then 0
    else if IsExpMark(s[0]) then 0
    else 1 + ExpMarkAt(s[1..])
  }

  /**
   * The significand `\d+(\.\d*)?|\.\d+`: the number its digits denote, ignoring the point,
   * and how many digits follow the point.
   */
  function ParseSignificand(m: string): Option<(nat, nat)> {
    if '.' in m then
      var p := IndexOf(m, '.');
      var whole := m[..p];
      var frac := m[p + 1..];
      if AllDigits(whole) && AllDigits(frac) && |whole| + |frac| > 0 then
        DigitsConcat(whole, frac);
        Some((DigitsToNat(whole + frac), |frac|))
      else None
    else if AllDigits(m) && |m| > 0 then Some((DigitsToNat(m), 0))
    else None
  }

  /** The exponent `[+-]?\d+` that follows an `e`. */
  function ParseExponent(t: string): Option<int> {
    if |t| > 0 && (t[0] == '+' || t[0] == '-') then
      if |t| > 1 && AllDigits(t[1..]) then
        var v: int := DigitsToNat(t[1..]);
        Some(if t[0] == '-' then -v else v)
      else None
    else if |t| > 0 && AllDigits(t) then Some(DigitsToNat(t))
    else None
  }

  /** An unsigned numeral `(\d+(\.\d*)?|\.\d+)(e[+-]?\d+)?`, case-insensitive in the `e`. */
  function ParseUnsigned(s: string): Option<Dec> {
    var k := ExpMarkAt(s);
    var exponent := if k < |s| then ParseExponent(s[k + 1..]) else Some(0);
    match (ParseSignificand(s[..k]), exponent)
    case (Some((digits, fracLen)), Some(e)) =>
      if e >= fracLen then Some(Dec(digits * Pow10(e - fracLen), 0))
      else Some(Dec(digits, fracLen - e))
    case _ => None
  }

  /**
   * `new Decimal(s)`: an optional leading '-' and an unsigned numeral; anything else
   * (blanks, '+', "NaN", "1,5", the empty string) is refused.
   */
  function Parse(s: string): Option<Dec> {
    if |s| > 0 && s[0] == '-' then
      match ParseUnsigned(s[1..])
      case Some(x) => Some(Neg(x))
      case None => None
    else ParseUnsigned(s)
  }

  /** `ddd.dd`: canonical whole part, a point and two fraction digits, with no exponent. */
  lemma ParseDigitsPointDigits(whole: string, frac: string)
    requires AllDigits(whole) && AllDigits(frac) && |whole| + |frac| > 0
    ensures ParseUnsigned(whole + "." + frac) == Some(Dec(DigitsToNat(whole + frac), |frac|))
  {
    var s := whole + "." + frac;
    IndexOfAfterFree(whole, frac, '.');
    assert s[|whole|] == '.';
    assert forall i :: 0 <= i < |s| ==> IsDigit(s[i]) || s[i] == '.';
    assert ExpMarkAt(s) == |s|;
    assert s[..|s|] == s;
    assert s[..|whole|] == whole;
    assert s[|whole| + 1..] == frac;
  }

  // ------------------------------------------------------------ arithmetic

  function Neg(x: Dec): Dec {
    Dec(-x.mant, x.scale)
  }

  function AbsDec(x: Dec): Dec {
    Dec(Abs(x.mant), x.scale)
  }

  /** The mantissa of `x` written at a finer scale `s`. */
  function Align(x: Dec, s: nat): int
    requires s >= x.scale
  {
    x.mant * Pow10(s - x.scale)
  }

  /** Exact sum, at the finer of the two scales. */
  function Plus(x: Dec, y: Dec): (r: Dec)
    ensures r.scale == Max(x.scale, y.scale)
  {
    var s := Max(x.scale, y.scale);
    Dec(Align(x, s) + Align(y, s), s)
  }

  function Minus(x: Dec, y: Dec): Dec {
    Plus(x, Neg(y))
  }

  function Times(x: Dec, y: Dec): Dec {
    Dec(x.mant * y.mant, x.scale + y.scale)
  }

  /** Exact three-way comparison: the sign of `x - y`. */
  function Compare(x: Dec, y: Dec): (c: int)
    ensures -1 <= c <= 1
  {
    var m := Minus(x, y).mant;
    if m < 0 then -1 else if m == 0 then 0 else 1
  }

  /** Comparison at a common scale: `Compare` is the order of the aligned mantissas. */
  lemma CompareAligned(x: Dec, y: Dec)
    ensures var s := Max(x.scale, y.scale);
            (Compare(x, y) < 0 <==> Align(x, s) < Align(y, s))
            && (Compare(x, y) == 0 <==> Align(x, s) == Align(y, s))
  {
  }

  // ------------------------------------------------------------ rounding

  /** `m / d` rounded to the nearest integer, ties upward. */
  function HalfUp(m: nat, d: int): (q: nat)
    requires d > 0
    ensures -d <= 2 * (m - q * d) < d
  {
    var q := (2 * m + d) / (2 * d);
    var r := (2 * m + d) % (2 * d);
    assert 2 * m + d == q * (2 * d) + r && 0 <= r < 2 * d;
    assert q * (2 * d) == 2 * (q * d);
    q
  }

  /**
   * `n / d` rounded to the nearest integer, ties away from zero: the remainder
   * `n - q·d` is at most half of `d` in magnitude, and when it is exactly half the
   * quotient was moved away from zero (the remainder has the sign opposite to `n`).
   */
  function RoundHalfAway(n: int, d: int): (q: int)
    requires d > 0
    ensures n >= 0 ==> q >= 0 && -d <= 2 * (n - q * d) < d
    ensures n < 0 ==> q <= 0 && -d < 2 * (n - q * d) <= d
  {
    if n >= 0 then HalfUp(n, d)
    else
      var p: int := HalfUp(-n, d);
      assert (-p) * d == -(p * d);
      -p
  }

  /** Rounding is symmetric: a negative value rounds to the negation of its magnitude's rounding. */
  lemma RoundHalfAwayOdd(n: int, d: int)
    requires d > 0
    ensures RoundHalfAway(-n, d) == -RoundHalfAway(n, d)
  {
  }

  /**
   * Rounding a non-negative `n / d` commutes with adding a whole number `k` of units:
   * the step `add(sum, amount)` takes when `sum` is already a whole number of cents.
   */
  lemma RoundHalfAwayShift(n: int, d: int, k: int)
    requires d > 0 && n >= 0 && k >= 0
    ensures RoundHalfAway(n + k * d, d) == RoundHalfAway(n, d) + k
  {
    var q := (2 * n + d) / (2 * d);
    var r := (2 * n + d) % (2 * d);
    assert 2 * n + d == q * (2 * d) + r && 0 <= r < 2 * d;
    var kd2 := k * (2 * d);
    assert kd2 == 2 * (k * d);
    assert (q + k) * (2 * d) == q * (2 * d) + kd2;
    DivUnique(2 * (n + k * d) + d, 2 * d, q + k, r);
  }

  lemma {:induction false} MulAtLeast(x: nat, b: nat)
    requires x >= 1
    ensures x * b >= b
    decreases x
  {
    if x > 1 {
      MulAtLeast(x - 1, b);
      assert x * b == (x - 1) * b + b;
    }
  }

  lemma DivUnique(a: int, b: int, q: int, r: int)
    requires b > 0 && a == q * b + r && 0 <= r < b
    ensures a / b == q
  {
    var q' := a / b;
    var r' := a % b;
    assert a == q' * b + r' && 0 <= r' < b;
    if q' > q {
      var x := q' - q;
      assert x * b == q' * b - q * b;
      MulAtLeast(x, b);
    } else if q' < q {
      var x := q - q';
      assert x * b == q * b - q' * b;
      MulAtLeast(x, b);
    }
  }

  /**
   * The value of `x` in whole cents, rounded half away from zero: `100·x - c` is at most
   * half a cent in magnitude, and a remainder of exactly half a cent means `c` was moved
   * away from zero. Exact when `x` has at most two fraction digits.
   */
  function Cents(x: Dec): (c: int)
    ensures var e := 100 * x.mant - c * Pow10(x.scale);
            x.mant >= 0 ==> c >= 0 && -Pow10(x.scale) <= 2 * e < Pow10(x.scale)
    ensures var e := 100 * x.mant - c * Pow10(x.scale);
            x.mant < 0 ==> c <= 0 && -Pow10(x.scale) < 2 * e <= Pow10(x.scale)
    ensures x.scale <= 2 ==> c * Pow10(x.scale) == 100 * x.mant
  {
    if x.scale <= 2 then
      var c := x.mant * Pow10(2 - x.scale);
      ScaleUpExact(x.mant, x.scale);
      c
    else
      var unit := Pow10(x.scale - 2);
      var c := RoundHalfAway(x.mant, unit);
      ScaleDownBound(x.mant, x.scale, c);
      c
  }

  lemma ScaleUpExact(m: int, s: nat)
    requires s <= 2
    ensures m * Pow10(2 - s) * Pow10(s) == 100 * m
  {
    Pow10Add(2 - s, s);
    var p := Pow10(2 - s);
    var q := Pow10(s);
    assert p * q == 100;
    assert m * p * q == m * (p * q);
  }

  lemma ScaleDownBound(m: int, s: nat, c: int)
    requires s > 2 && c == RoundHalfAway(m, Pow10(s - 2))
    ensures var e := 100 * m - c * Pow10(s);
            m >= 0 ==> c >= 0 && -Pow10(s) <= 2 * e < Pow10(s)
    ensures var e := 100 * m - c * Pow10(s);
            m < 0 ==> c <= 0 && -Pow10(s) < 2 * e <= Pow10(s)
  {
    var unit := Pow10(s - 2);
    Pow10Add(2, s - 2);
    assert Pow10(s) == 100 * unit;
    var cu := c * unit;
    assert c * Pow10(s) == 100 * cu;
  }

  // ------------------------------------------------------------ printing

  /** `ddd.dd` with a canonical whole part and no sign. */
  predicate IsUnsignedFixed2(u: string) {
    |u| >= 4 && u[|u| - 3] == '.' && CanonicalDigits(u[..|u| - 3]) && AllDigits(u[|u| - 2..])
  }

  /** `-?ddd.dd` with a canonical whole part: the shape `toFixed(2)` prints. */
  predicate IsFixed2(s: string) {
    IsUnsignedFixed2(if |s| > 0 && s[0] == '-' then s[1..] else s)
  }

  /** The text of `cents` whole cents, without sign. */
  function CentsText(cents: nat): string {
    NatToDigits(cents / 100) + "." + [DigitChar(cents / 10 % 10), DigitChar(cents % 10)]
  }

  /** The text of `cents` whole cents, with a leading '-' when `negative`. */
  function Fixed2Text(negative: bool, cents: nat): string {
    (if negative then "-" else "") + CentsText(cents)
  }

  /** The text of a signed number of cents: a '-' exactly when it is below zero. */
  function SignedCentsText(cents: int): string {
    Fixed2Text(cents < 0, Abs(cents))
  }

  lemma UnsignedCentsText(cents: int)
    requires cents >= 0
    ensures SignedCentsText(cents) == Fixed2Text(false, cents)
  {
  }

  /**
   * `x.toFixed(2)`: the magnitude rounded half away from zero to whole cents, with a '-'
   * exactly when the unrounded value is negative (so -0.001 prints as "-0.00").
   */
  function ToFixed2(x: Dec): (r: string)
    ensures IsFixed2(r)
    ensures Parse(r) == Some(Dec(Cents(x), 2))
    ensures |r| > 0 && (r[0] == '-' <==> x.mant < 0)
  {
    Fixed2RoundTrip(x.mant < 0, Abs(Cents(x)));
    Fixed2Text(x.mant < 0, Abs(Cents(x)))
  }

  lemma TwoDigitsValue(a: char, b: char)
    requires IsDigit(a) && IsDigit(b)
    ensures AllDigits([a, b]) && DigitsToNat([a, b]) == DigitValue(a) * 10 + DigitValue(b)
  {
    assert [a, b][..1] == [a];
    assert [a][..0] == [];
    assert DigitsToNat([a]) == DigitsToNat([]) * 10 + DigitValue(a);
    assert DigitsToNat([a, b]) == DigitsToNat([a]) * 10 + DigitValue(b);
  }

  lemma CentsDigits(c: nat)
    ensures c % 100 == (c / 10 % 10) * 10 + c % 10
    ensures c == c / 100 * 100 + c % 100
  {
  }

  /** Whole, point, two fraction digits: the unsigned text reads back as the same cents. */
  lemma CentsTextRoundTrip(cents: nat)
    ensures IsUnsignedFixed2(CentsText(cents))
    ensures ParseUnsigned(CentsText(cents)) == Some(Dec(cents, 2))
    ensures IsDigit(CentsText(cents)[0])
  {
    var whole := NatToDigits(cents / 100);
    var frac := [DigitChar(cents / 10 % 10), DigitChar(cents % 10)];
    var u := whole + "." + frac;
    assert u == CentsText(cents);
    ParseDigitsPointDigits(whole, frac);
    DigitsConcat(whole, frac);
    TwoDigitsValue(frac[0], frac[1]);
    CentsDigits(cents);
    assert Pow10(2) == 100;
    assert DigitsToNat(whole + frac) == cents;
    assert u[..|u| - 3] == whole;
    assert u[|u| - 2..] == frac;
  }

  /** A text that does not start with '-' parses as unsigned; one that does, as the negation. */
  lemma ParseSign(u: string)
    requires |u| > 0 && u[0] != '-'
    ensures Parse(u) == ParseUnsigned(u)
    ensures Parse("-" + u) == (if ParseUnsigned(u).Some? then Some(Neg(ParseUnsigned(u).value)) else None)
  {
    assert ("-" + u)[1..] == u;
  }

  /** Printing whole cents and reading them back gives the same number of cents. */
  lemma Fixed2RoundTrip(negative: bool, cents: nat)
    ensures IsFixed2(Fixed2Text(negative, cents))
    ensures Parse(Fixed2Text(negative, cents)) == Some(Dec(if negative then 0 - cents else cents, 2))
    ensures Fixed2Text(negative, cents)[0] == '-' <==> negative
  {
    var u := CentsText(cents);
    CentsTextRoundTrip(cents);
    ParseSign(u);
    if negative {
      assert Fixed2Text(negative, cents) == "-" + u;
      assert ("-" + u)[1..] == u;
    } else {
      assert Fixed2Text(negative, cents) == u;
    }
  }

  /** Reading unsigned canonical text: the cents it denotes, printed back, give the same text. */
  lemma UnsignedFixed2Canonical(u: string)
    requires IsUnsignedFixed2(u)
    ensures ParseUnsigned(u).Some?
    ensures var x := ParseUnsigned(u).value; x.scale == 2 && x.mant >= 0 && CentsText(x.mant) == u
    ensures u[0] != '-'
    ensures u == "0.00" <==> ParseUnsigned(u).value.mant == 0
  {
    var whole := u[..|u| - 3];
    var frac := u[|u| - 2..];
    assert u == whole + "." + frac;
    assert u[0] == whole[0];
    var n := ReadParts(whole, frac);
    CentsTextOfParts(whole, frac, n);
    CentsTextZero(n);
  }

  /** Digits, a point and two digits read as the cents of the whole digits and the fraction. */
  lemma ReadParts(whole: string, frac: string) returns (n: nat)
    requires CanonicalDigits(whole) && |frac| == 2 && AllDigits(frac)
    ensures n == DigitsToNat(whole) * 100 + DigitsToNat(frac)
    ensures ParseUnsigned(whole + "." + frac) == Some(Dec(n, 2))
  {
    ParseDigitsPointDigits(whole, frac);
    DigitsConcat(whole, frac);
    assert Pow10(2) == 100;
    n := DigitsToNat(whole) * 100 + DigitsToNat(frac);
  }

  /** Canonical whole digits and two fraction digits are the text of the cents they stand for. */
  lemma CentsTextOfParts(whole: string, frac: string, n: nat)
    requires CanonicalDigits(whole) && |frac| == 2 && AllDigits(frac)
    requires n == DigitsToNat(whole) * 100 + DigitsToNat(frac)
    ensures CentsText(n) == whole + "." + frac
  {
    var w := DigitsToNat(whole);
    assert frac == [frac[0], frac[1]];
    TwoDigitsValue(frac[0], frac[1]);
    var a, b := DigitValue(frac[0]), DigitValue(frac[1]);
    CentsTextOf(n, w, a, b);
    CanonicalDigitsRoundTrip(whole);
    assert DigitChar(a) == frac[0] && DigitChar(b) == frac[1];
  }

  /** The text of `n` cents, given its whole units and its two digits of cents. */
  lemma CentsTextOf(n: nat, w: nat, a: nat, b: nat)
    requires a < 10 && b < 10 && n == w * 100 + a * 10 + b
    ensures CentsText(n) == NatToDigits(w) + "." + [DigitChar(a), DigitChar(b)]
  {
    CentsParts(n, w, a, b);
  }

  /** Whole units and two digits, put together as cents and taken apart again. */
  lemma CentsParts(n: nat, w: nat, a: nat, b: nat)
    requires a < 10 && b < 10 && n == w * 100 + a * 10 + b
    ensures n / 100 == w && n / 10 % 10 == a && n % 10 == b
  {
    DivUnique(n, 100, w, a * 10 + b);
    DivUnique(n, 10, w * 10 + a, b);
    DivUnique(w * 10 + a, 10, w, a);
  }

  /** Only zero cents print as "0.00". */
  lemma CentsTextZero(n: nat)
    ensures CentsText(n) == "0.00" <==> n == 0
  {
    var whole := NatToDigits(n / 100);
    var t := whole + "." + [DigitChar(n / 10 % 10), DigitChar(n % 10)];
    assert t == CentsText(n);
    if t == "0.00" {
      assert |whole| == 1 && whole[0] == t[0] == '0';
      assert whole == "0";
      assert DigitsToNat("0") == 0;
      assert t[2] == DigitChar(n / 10 % 10) && t[3] == DigitChar(n % 10);
      assert DigitValue(t[2]) == 0 && DigitValue(t[3]) == 0;
      CentsDigits(n);
    } else {
      assert NatToDigits(0) == "0";
    }
  }

  lemma LeadingNonZeroWhole(whole: string)
    requires CanonicalDigits(whole) && DigitsToNat(whole) == 0
    ensures whole == "0"
  {
    if |whole| > 1 {
      LeadingNonZeroPositive(whole);
    }
  }

  /** A value already in whole cents prints as exactly those cents. */
  lemma ToFixed2Cents(m: int)
    ensures Cents(Dec(m, 2)) == m
    ensures ToFixed2(Dec(m, 2)) == Fixed2Text(m < 0, Abs(m))
  {
    var c := Cents(Dec(m, 2));
    assert Pow10(2) == 100;
    assert c * 100 == m * 100;
  }

  /** Canonical text is left as it is by a parse-and-print: `toCentsStr` does not change it. */
  lemma Fixed2Canonical(s: string)
    requires IsFixed2(s) && s != "-0.00"
    ensures Parse(s).Some?
    ensures ToFixed2(Parse(s).value) == s
  {
    if |s| > 0 && s[0] == '-' {
      var u := s[1..];
      assert s == "-" + u;
      NegativeFixed2Canonical(u);
    } else {
      PositiveFixed2Canonical(s);
    }
  }

  lemma NegativeFixed2Canonical(u: string)
    requires IsUnsignedFixed2(u) && u != "0.00"
    ensures Parse("-" + u).Some?
    ensures ToFixed2(Parse("-" + u).value) == "-" + u
  {
    UnsignedFixed2Canonical(u);
    ParseSign(u);
    NegCentsText(Neg(ParseUnsigned(u).value), ParseUnsigned(u).value.mant);
  }

  /** Minus `n` cents at two places prints as '-' and the text of `n` cents. */
  lemma NegCentsText(x: Dec, n: nat)
    requires x.scale == 2 && x.mant == 0 - n && n > 0
    ensures ToFixed2(x) == "-" + CentsText(n)
  {
    ToFixed2Cents(x.mant);
    assert x == Dec(x.mant, 2);
  }

  lemma PositiveFixed2Canonical(s: string)
    requires IsUnsignedFixed2(s)
    ensures Parse(s).Some?
    ensures ToFixed2(Parse(s).value) == s
  {
    UnsignedFixed2Canonical(s);
    ParseSign(s);
    var n := ParseUnsigned(s).value.mant;
    ToFixed2Cents(n);
  }
}
