/**
 * What the money helpers promise their callers: exact two-place arithmetic, rounding
 * that is symmetric about zero, comparisons that agree with each other and with `sub`,
 * and the fixed points of `toCentsStr`.
 */
module MoneyLaws {
  import opened Wrappers
  import opened Errors
  import opened Strings
  import opened Decimal
  import opened Money

  /** At most two fraction digits: the amounts a user can type into the ledger. */
  predicate TwoPlaces(a: string) {
    D(a).Ok? && D(a).value.scale <= 2
  }

  /** The exact value of a two-place amount in cents. */
  function ExactCents(a: string): int
    requires TwoPlaces(a)
  {
    Align(D(a).value, 2)
  }

  lemma CancelPositive(a: int, b: int, p: int)
    requires p > 0 && a * p == b * p
    ensures a == b
  {
    if a < b {
      assert (b - a) * p == b * p - a * p;
      MulAtLeast(b - a, p);
    } else if a > b {
      assert (a - b) * p == a * p - b * p;
      MulAtLeast(a - b, p);
    }
  }

  /** A value with at most two places is a whole number of cents, so `Cents` is exact. */
  lemma CentsExact(z: Dec)
    requires z.scale <= 2
    ensures Cents(z) == Align(z, 2)
  {
    var c := Cents(z);
    var p := Pow10(z.scale);
    var q := Pow10(2 - z.scale);
    Pow10Add(2 - z.scale, z.scale);
    assert q * p == 100;
    assert c * p == 100 * z.mant;
    assert Align(z, 2) * p == z.mant * (q * p);
    CancelPositive(c, Align(z, 2), p);
  }

  lemma MulAssoc(a: int, b: int, c: int)
    ensures (a * b) * c == a * (b * c)
  {
  }

  lemma MulDistrib(a: int, b: int, k: int)
    ensures (a + b) * k == a * k + b * k
  {
  }

  /** Aligning to scale `t` goes through any scale in between. */
  lemma AlignTwice(x: Dec, s: nat, t: nat)
    requires x.scale <= s <= t
    ensures Align(x, t) == Align(x, s) * Pow10(t - s)
  {
    Pow10Add(s - x.scale, t - s);
    assert t - x.scale == (s - x.scale) + (t - s);
    MulAssoc(x.mant, Pow10(s - x.scale), Pow10(t - s));
  }

  /** Aligning a sum to a finer scale aligns each term. */
  lemma AlignPlus(x: Dec, y: Dec, t: nat)
    requires t >= Max(x.scale, y.scale)
    ensures Align(Plus(x, y), t) == Align(x, t) + Align(y, t)
  {
    var s := Max(x.scale, y.scale);
    var z := Plus(x, y);
    AlignTwice(x, s, t);
    AlignTwice(y, s, t);
    assert z.scale == s;
    assert Pow10(s - z.scale) == 1;
    assert Align(z, t) == z.mant * Pow10(t - s);
    MulDistrib(Align(x, s), Align(y, s), Pow10(t - s));
  }

  /** `add` is exact on two-place amounts: the cents of the sum are the sum of the cents. */
  lemma AddExact(a: string, b: string)
    requires TwoPlaces(a) && TwoPlaces(b)
    ensures Add(a, b).Ok?
    ensures CentsOf(Add(a, b).value) == ExactCents(a) + ExactCents(b)
  {
    var x := D(a).value;
    var y := D(b).value;
    CentsExact(Plus(x, y));
    AlignPlus(x, y, 2);
  }

  /** `sub` is exact on two-place amounts. */
  lemma SubExact(a: string, b: string)
    requires TwoPlaces(a) && TwoPlaces(b)
    ensures Sub(a, b).Ok?
    ensures CentsOf(Sub(a, b).value) == ExactCents(a) - ExactCents(b)
  {
    var x := D(a).value;
    var y := D(b).value;
    CentsExact(Minus(x, y));
    AlignPlus(x, Neg(y), 2);
    AlignNeg(y, 2);
  }

  lemma AlignNeg(x: Dec, t: nat)
    requires t >= x.scale
    ensures Align(Neg(x), t) == -Align(x, t)
  {
    var p := Pow10(t - x.scale);
    assert (-x.mant) * p == -(x.mant * p);
  }

  /** The text of an amount below one, as `toFixed(2)` prints it, and its reading. */
  lemma SmallAmount(c: nat)
    requires c < 100
    ensures Fixed2Text(false, c) == ['0', '.', DigitChar(c / 10), DigitChar(c % 10)]
    ensures D(Fixed2Text(false, c)) == Ok(Dec(c, 2))
    ensures Fixed2Text(true, c) == "-" + Fixed2Text(false, c)
  {
    Fixed2RoundTrip(false, c);
    assert NatToDigits(0) == "0";
  }

  /** `0.abc`, three places below one, reads as `abc` thousandths. */
  lemma Thousandths(a: nat, b: nat, c: nat)
    requires a < 10 && b < 10 && c < 10
    ensures ParseUnsigned(['0', '.', DigitChar(a), DigitChar(b), DigitChar(c)]) == Some(Dec(100 * a + 10 * b + c, 3))
  {
    var frac := [DigitChar(a), DigitChar(b), DigitChar(c)];
    assert ['0', '.', DigitChar(a), DigitChar(b), DigitChar(c)] == "0" + "." + frac;
    ParseDigitsPointDigits("0", frac);
    DigitsConcat("0", frac);
    assert DigitsToNat("0") == 0 by {
      assert "0"[..0] == [];
    }
    TwoDigitsValue(DigitChar(a), DigitChar(b));
    assert frac[..2] == [DigitChar(a), DigitChar(b)];
    assert DigitsToNat(frac) == DigitsToNat(frac[..2]) * 10 + c;
  }

  /** The familiar floating-point trap does not occur: 0.10 + 0.20 is 0.30. */
  lemma AddTenths()
    ensures Add("0.10", "0.20") == Ok("0.30")
  {
    SmallAmount(10);
    SmallAmount(20);
    SmallAmount(30);
    assert "0.10" == Fixed2Text(false, 10);
    assert "0.20" == Fixed2Text(false, 20);
    assert "0.30" == Fixed2Text(false, 30);
    var x := D("0.10").value;
    var y := D("0.20").value;
    assert x == Dec(10, 2) && y == Dec(20, 2);
    assert Plus(x, y) == Dec(30, 2);
    ToFixed2Cents(30);
    assert Add("0.10", "0.20") == Ok(ToFixed2(Dec(30, 2)));
  }

  /** `add` does not depend on the order of its (readable) arguments. */
  lemma AddCommutative(a: string, b: string)
    requires BothRead(a, b)
    ensures Add(a, b) == Add(b, a)
  {
    assert Plus(D(a).value, D(b).value) == Plus(D(b).value, D(a).value);
  }

  /** An amount minus itself is zero. */
  lemma SubSelf(a: string)
    requires D(a).Ok?
    ensures Sub(a, a) == Ok("0.00")
  {
    var x := D(a).value;
    var z := Minus(x, x);
    AlignNeg(x, x.scale);
    assert z == Dec(0, x.scale);
    ZeroCents(x.scale);
    ZeroText();
  }

  lemma ZeroText()
    ensures Fixed2Text(false, 0) == "0.00" && SignedCentsText(0) == "0.00"
  {
    assert NatToDigits(0) == "0";
    assert DigitChar(0) == '0';
    assert CentsText(0) == "0" + "." + "00";
  }

  /** "0.00" is left as it is by `toCentsStr`. */
  lemma ZeroCentsStr()
    ensures ToCentsStr("0.00") == Ok("0.00")
  {
    ZeroText();
    Fixed2RoundTrip(false, 0);
    ToCentsStrCanonical("0.00");
  }

  lemma ZeroCents(s: nat)
    ensures Cents(Dec(0, s)) == 0
  {
    var c := Cents(Dec(0, s));
    var p := Pow10(s);
    assert -p <= 2 * (0 - c * p) < p;
    assert (-c) * p == -(c * p);
    NearMultiple(-c, p);
  }

  /** `sub(a, b)` is the negation of `sub(b, a)`: rounding is symmetric about zero. */
  lemma SubAntisymmetric(a: string, b: string)
    requires BothRead(a, b)
    ensures Sub(a, b).Ok? && Sub(b, a).Ok?
    ensures CentsOf(Sub(a, b).value) == -CentsOf(Sub(b, a).value)
  {
    var x := D(a).value;
    var y := D(b).value;
    var s := Max(x.scale, y.scale);
    AlignNeg(x, s);
    AlignNeg(y, s);
    assert Minus(x, y) == Neg(Minus(y, x));
    RoundHalfAwayOddCents(Minus(y, x));
  }

  /** The five comparisons read the same two values and agree with one another. */
  lemma ComparisonsAgree(a: string, b: string)
    requires BothRead(a, b)
    ensures Lt(a, b).value <==> !Gte(a, b).value
    ensures Gt(a, b).value <==> !Lte(a, b).value
    ensures Lte(a, b).value <==> Lt(a, b).value || Eq(a, b).value
    ensures Gte(a, b).value <==> Gt(a, b).value || Eq(a, b).value
    ensures Lt(a, b).value <==> Gt(b, a).value
    ensures Eq(a, b).value <==> Eq(b, a).value
  {
    assert Scale2(a, b) == Scale2(b, a);
  }

  /** `lt(a, b)` holds exactly when `sub(a, b)` prints a minus sign. */
  lemma LtIffSubNegative(a: string, b: string)
    requires BothRead(a, b)
    ensures Lt(a, b).value <==> Sub(a, b).value[0] == '-'
  {
    CompareAligned(D(a).value, D(b).value);
  }

  /** Comparisons do not round: 0.011 is above 0.01 though it prints as "0.01". */
  lemma ComparisonIsExact()
    ensures Lte("0.011", "0.01") == Ok(false)
    ensures ToCentsStr("0.011") == Ok("0.01")
  {
    Thousandths(0, 1, 1);
    assert "0.011" == ['0', '.', DigitChar(0), DigitChar(1), DigitChar(1)];
    assert D("0.011") == Ok(Dec(11, 3));
    SmallAmount(1);
    assert "0.01" == Fixed2Text(false, 1);
    assert Pow10(1) == 10;
    assert Cents(Dec(11, 3)) == 1;
    ToFixed2Cents(1);
  }

  /** `toCentsStr` leaves a canonical two-place amount as it is (all but "-0.00"). */
  lemma ToCentsStrCanonical(s: string)
    requires IsFixed2(s) && s != "-0.00"
    ensures ToCentsStr(s) == Ok(s)
  {
    Fixed2Canonical(s);
  }

  /** `toCentsStr` is idempotent, except on a negative amount that rounds to zero. */
  lemma ToCentsStrIdempotent(s: string)
    requires ToCentsStr(s).Ok? && ToCentsStr(s).value != "-0.00"
    ensures ToCentsStr(ToCentsStr(s).value) == ToCentsStr(s)
  {
    ToCentsStrCanonical(ToCentsStr(s).value);
  }

  /** The exception: -0.001 prints as "-0.00", which then prints as "0.00". */
  lemma ToCentsStrNegativeZero()
    ensures ToCentsStr("-0.001") == Ok("-0.00")
    ensures ToCentsStr("-0.00") == Ok("0.00")
  {
    NegativeThousandth();
    NegativeZeroText();
  }

  lemma NegativeThousandth()
    ensures ToCentsStr("-0.001") == Ok("-0.00")
  {
    ReadNegativeThousandth();
    CentsOfNegativeThousandth();
    NegativeRoundedToZero("-0.001", Dec(-1, 3));
    MinusZeroText();
  }

  /** A negative amount that rounds to no cents keeps its sign in print. */
  lemma NegativeRoundedToZero(s: string, x: Dec)
    requires D(s) == Ok(x) && x.mant < 0 && Cents(x) == 0
    ensures ToCentsStr(s) == Ok(Fixed2Text(true, 0))
  {
  }

  lemma MinusZeroText()
    ensures Fixed2Text(true, 0) == "-0.00"
  {
    SmallAmount(0);
  }

  lemma ReadNegativeThousandth()
    ensures D("-0.001") == Ok(Dec(-1, 3))
  {
    Thousandths(0, 0, 1);
    var u := ['0', '.', DigitChar(0), DigitChar(0), DigitChar(1)];
    assert "-0.001" == "-" + u;
    ParseSign(u);
  }

  lemma CentsOfNegativeThousandth()
    ensures Cents(Dec(-1, 3)) == 0
  {
    assert Pow10(1) == 10;
    assert HalfUp(1, 10) == 0;
  }

  lemma NegativeZeroText()
    ensures ToCentsStr("-0.00") == Ok("0.00")
  {
    SmallAmount(0);
    var u := Fixed2Text(false, 0);
    assert "-0.00" == "-" + u;
    ParseSign(u);
    assert D("-0.00") == Ok(Dec(0, 2));
    ToFixed2Cents(0);
  }

  /** `abs(a)` is `toCentsStr(a)` without its sign. */
  lemma AbsIsUnsignedCents(a: string)
    requires D(a).Ok?
    ensures ToCentsStr(a).value == (if D(a).value.mant < 0 then "-" else "") + AbsMoney(a).value
  {
    var x := D(a).value;
    RoundHalfAwayOddCents(x);
    var c := Abs(Cents(x));
    UnsignedToFixed2(AbsDec(x), c);
    assert AbsMoney(a).value == CentsText(c);
    assert ToCentsStr(a).value == ToFixed2(x) == Fixed2Text(x.mant < 0, c);
  }

  /** A value at or above zero prints without a sign. */
  lemma UnsignedToFixed2(y: Dec, c: nat)
    requires y.mant >= 0 && Abs(Cents(y)) == c
    ensures ToFixed2(y) == CentsText(c)
  {
    assert "" + CentsText(c) == CentsText(c);
  }

  /**
   * `formatMoney`: "$" and `abs(v)`; with `showSign`, "+$" for a positive value and
   * "-$" for a negative one, so a negative amount never carries a '+'.
   */
  lemma FormatMoneySigns(s: string, showSign: bool)
    requires D(s).Ok?
    ensures !showSign ==> FormatMoney(s, showSign).value == "$" + AbsMoney(s).value
    ensures showSign && D(s).value.mant < 0 ==> FormatMoney(s, showSign).value == "-$" + AbsMoney(s).value
    ensures showSign && D(s).value.mant > 0 ==> FormatMoney(s, showSign).value == "+$" + AbsMoney(s).value
    ensures D(s).value.mant == 0 ==> FormatMoney(s, showSign).value == "$" + AbsMoney(s).value
    ensures D(s).value.mant < 0 ==> FormatMoney(s, showSign).value[0] != '+'
  {
  }

  /** Multiplying by one only rounds: `mul(a, "1")` is `toCentsStr(a)`. */
  lemma MulOne(a: string)
    requires D(a).Ok?
    ensures Mul(a, "1") == ToCentsStr(a)
  {
    assert D("1") == Ok(Dec(1, 0));
    var x := D(a).value;
    assert Times(x, Dec(1, 0)) == x;
  }

  /** `mul` does not depend on the order of its (readable) arguments. */
  lemma MulCommutative(a: string, b: string)
    requires BothRead(a, b)
    ensures Mul(a, b) == Mul(b, a)
  {
    assert Times(D(a).value, D(b).value) == Times(D(b).value, D(a).value);
  }

  /** The only multiple of `m` within half of `m` of zero is zero. */
  lemma NearMultiple(k: int, m: int)
    requires m > 0 && -m <= 2 * (k * m) <= m
    ensures k == 0
  {
    if k > 0 {
      MulAtLeast(k, m);
    } else if k < 0 {
      assert (-k) * m == -(k * m);
      MulAtLeast(-k, m);
    }
  }

  /** Rounding an exact whole number of units gives that number back. */
  lemma RoundHalfAwayExact(q: int, m: int)
    requires m > 0
    ensures RoundHalfAway(q * m, m) == q
  {
    var c := RoundHalfAway(q * m, m);
    var n := q * m;
    assert -m <= 2 * (n - c * m) <= m;
    assert n - c * m == (q - c) * m;
    NearMultiple(q - c, m);
  }

  /** `div` undoes a multiplication by a non-zero amount when the quotient is whole cents. */
  lemma DivUndoesMul(q: int, y: Dec)
    requires y.mant != 0
    ensures QuotientCents(Times(Dec(q, 2), y), y) == q
  {
    var x := Times(Dec(q, 2), y);
    var m := QuotientDenominator(x, y);
    var py := Pow10(y.scale);
    Pow10Add(2, y.scale);
    assert Pow10(x.scale) == 100 * py;
    assert m == Abs(y.mant) * (100 * py);
    var sg := if y.mant < 0 then -1 else 1;
    assert Abs(y.mant) == y.mant * sg;
    assert QuotientNumerator(x, y) == 100 * (q * y.mant) * py * sg;
    assert 100 * (q * y.mant) * py * sg == q * ((y.mant * sg) * (100 * py));
    RoundHalfAwayExact(q, m);
  }

  /** `lt(a, '0')` on a readable amount: whether it is below zero. */
  lemma BelowZero(s: string)
    requires D(s).Ok?
    ensures Lt(s, "0") == Ok(D(s).value.mant < 0)
  {
    assert D("0") == Ok(Dec(0, 0));
    BelowZeroText(s, "0");
  }

  lemma BelowZeroText(s: string, z: string)
    requires D(s).Ok? && D(z) == Ok(Dec(0, 0))
    ensures Lt(s, z) == Ok(D(s).value.mant < 0)
  {
    AlignAgainstZero(s, z);
  }

  lemma LtAligned(s: string, z: string)
    requires BothRead(s, z)
    ensures Lt(s, z).Ok? && (Lt(s, z).value <==> Align(D(s).value, Scale2(s, z)) < Align(D(z).value, Scale2(s, z)))
  {
  }


  /** `lt` between a printed balance and a two-place amount compares their cents. */
  lemma LtInCents(bal: string, a: string)
    requires IsFixed2(bal) && TwoPlaces(a)
    ensures Lt(bal, a) == Ok(CentsOf(bal) < ExactCents(a))
  {
    Fixed2Reads(bal);
    var x := D(bal).value;
    var y := D(a).value;
    LtAligned(bal, a);
    assert Scale2(bal, a) == 2;
    assert Align(x, 2) == x.mant;
    var r := Lt(bal, a);
    assert r.value == (CentsOf(bal) < ExactCents(a));
  }
}
