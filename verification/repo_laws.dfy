/**
 * What the repository's sums and totals amount to: a fold of `add` over non-negative
 * amounts is the sum of their cents, a balance is the original amount minus that sum,
 * and the dashboard's totals are the per-person totals added up.
 */
module RepoLaws {
  import opened Wrappers
  import opened Errors
  import opened Strings
  import opened Decimal
  import opened Money
  import opened MoneyLaws
  import opened Ledger
  import opened Repo

  /** A non-negative amount in whole cents. */
  predicate WholeCents(x: Dec) {
    x.scale <= 2 && x.mant >= 0
  }

  lemma AlignNonNegative(x: Dec, t: nat)
    requires t >= x.scale && x.mant >= 0
    ensures Align(x, t) >= 0
  {
    MulSign(x.mant, Pow10(t - x.scale));
  }

  /**
   * Adding a non-negative amount to a whole number of cents: the cents of the sum are
   * those cents plus the amount's own rounded cents, so rounding at every step of the
   * fold loses nothing.
   */
  lemma CentsPlusWhole(a: Dec, x: Dec)
    requires WholeCents(a) && x.mant >= 0
    ensures Cents(Plus(a, x)) == Align(a, 2) + Cents(x)
  {
    if x.scale <= 2 {
      CentsExact(Plus(a, x));
      AlignPlus(a, x, 2);
      CentsExact(x);
    } else {
      var s := x.scale;
      var unit := Pow10(s - 2);
      AlignTwice(a, 2, s);
      AlignNonNegative(a, 2);
      assert Plus(a, x).mant == Align(a, 2) * unit + x.mant;
      RoundHalfAwayShift(x.mant, unit, Align(a, 2));
    }
  }

  /** One step of the fold: `add(acc, x)` reads back as whole cents. */
  lemma AddStep(acc: string, x: string)
    requires D(acc).Ok? && WholeCents(D(acc).value) && D(x).Ok? && D(x).value.mant >= 0
    ensures Add(acc, x).Ok?
    ensures D(Add(acc, x).value).Ok? && WholeCents(D(Add(acc, x).value).value)
    ensures Align(D(Add(acc, x).value).value, 2) == Align(D(acc).value, 2) + AmountCents(x)
  {
    var a := D(acc).value;
    var s := Add(acc, x).value;
    Fixed2Reads(s);
    CentsPlusWhole(a, D(x).value);
    AlignNonNegative(a, 2);
    assert Align(D(s).value, 2) == D(s).value.mant;
  }

  /**
   * `reduce((sum, a) => add(sum, a), acc)` over non-negative amounts is the starting
   * value plus the sum of the amounts' cents.
   */
  lemma {:induction false} FoldAddSum(acc: string, xs: seq<string>)
    requires D(acc).Ok? && WholeCents(D(acc).value)
    requires AllNonNegative(xs)
    ensures FoldAdd(acc, xs).Ok?
    ensures D(FoldAdd(acc, xs).value).Ok? && WholeCents(D(FoldAdd(acc, xs).value).value)
    ensures Align(D(FoldAdd(acc, xs).value).value, 2) == Align(D(acc).value, 2) + SumCents(xs)
    decreases |xs|
  {
    if xs != [] {
      AddStep(acc, xs[0]);
      var s := Add(acc, xs[0]).value;
      assert AllNonNegative(xs[1..]) by {
        forall i | 0 <= i < |xs[1..]|
          ensures D(xs[1..][i]).Ok? && D(xs[1..][i]).value.mant >= 0
        {
          assert xs[1..][i] == xs[i + 1];
        }
      }
      FoldAddSum(s, xs[1..]);
    }
  }

  /** The sum of a fold started at "0" (as every fold in the repository is). */
  lemma FoldFromZero(xs: seq<string>)
    requires AllNonNegative(xs)
    ensures FoldAdd("0", xs).Ok?
    ensures TwoPlaces(FoldAdd("0", xs).value) && D(FoldAdd("0", xs).value).value.mant >= 0
    ensures ExactCents(FoldAdd("0", xs).value) == SumCents(xs)
  {
    ZeroReads();
    FoldAddSum("0", xs);
  }

  /**
   * `getDebtBalance`: with a two-place original amount and non-negative payments, the
   * balance is exactly the original amount minus the sum of the payments' cents.
   */
  lemma BalanceIsOriginalMinusPaid(st: Store, debtId: string)
    requires HasDebt(st.debts, debtId)
    requires TwoPlaces(FindDebt(st.debts, debtId).value.amountOriginal)
    requires AllNonNegative(Amounts(PaymentsOf(st.payments, debtId)))
    ensures GetDebtBalance(st, debtId).Ok?
    ensures CentsOf(GetDebtBalance(st, debtId).value)
            == ExactCents(FindDebt(st.debts, debtId).value.amountOriginal) - SumCents(Amounts(PaymentsOf(st.payments, debtId)))
  {
    var xs := Amounts(PaymentsOf(st.payments, debtId));
    FoldFromZero(xs);
    var paid := FoldAdd("0", xs).value;
    SubExact(FindDebt(st.debts, debtId).value.amountOriginal, paid);
  }

  /** The auto-settle test on a printed balance: at most one cent. */
  lemma SettlesIffAtMostOneCent(bal: string)
    requires IsFixed2(bal)
    ensures Lte(bal, AutoSettleThreshold).Ok?
    ensures Lte(bal, AutoSettleThreshold).value <==> CentsOf(bal) <= 1
  {
    Fixed2Reads(bal);
    ThresholdReads();
    var x := D(bal).value;
    assert Align(x, 2) == x.mant;
    assert Align(Dec(1, 2), 2) == 1;
  }

  /** A remaining balance of exactly one cent settles the debt; two cents do not. */
  lemma ThresholdIsInclusive()
    ensures Lte("0.01", AutoSettleThreshold) == Ok(true)
    ensures Lte("0.02", AutoSettleThreshold) == Ok(false)
  {
    SmallAmount(1);
    SmallAmount(2);
    assert "0.01" == Fixed2Text(false, 1);
    assert "0.02" == Fixed2Text(false, 2);
    Fixed2RoundTrip(false, 1);
    Fixed2RoundTrip(false, 2);
    SettlesIffAtMostOneCent("0.01");
    SettlesIffAtMostOneCent("0.02");
  }

  // ------------------------------------------------------------ GROUP_CONCAT and split

  predicate NumeralChar(c: char) {
    IsDigit(c) || c == '.' || c == 'e' || c == 'E' || c == '+' || c == '-'
  }

  predicate NumeralChars(s: string) {
    forall i :: 0 <= i < |s| ==> NumeralChar(s[i])
  }

  lemma SignificandChars(m: string)
    requires ParseSignificand(m).Some?
    ensures NumeralChars(m)
  {
    if '.' in m {
      var p := IndexOf(m, '.');
      assert m == m[..p] + [m[p]] + m[p + 1..];
      forall i | 0 <= i < |m|
        ensures NumeralChar(m[i])
      {
        if i < p {
          assert m[i] == m[..p][i];
        } else if i > p {
          assert m[i] == m[p + 1..][i - p - 1];
        }
      }
    }
  }

  lemma ExponentChars(t: string)
    requires ParseExponent(t).Some?
    ensures NumeralChars(t)
  {
    if |t| > 0 && (t[0] == '+' || t[0] == '-') {
      forall i | 1 <= i < |t|
        ensures NumeralChar(t[i])
      {
        assert t[i] == t[1..][i - 1];
      }
    }
  }

  lemma UnsignedChars(s: string)
    requires ParseUnsigned(s).Some?
    ensures NumeralChars(s)
  {
    var k := ExpMarkAt(s);
    SignificandChars(s[..k]);
    if k < |s| {
      ExponentChars(s[k + 1..]);
    }
    forall i | 0 <= i < |s|
      ensures NumeralChar(s[i])
    {
      if i < k {
        assert s[i] == s[..k][i];
      } else if i > k {
        assert s[i] == s[k + 1..][i - k - 1];
      }
    }
  }

  /** A numeral the library reads has no comma, so GROUP_CONCAT's separator cannot occur in it. */
  lemma ReadableHasNoComma(s: string)
    requires D(s).Ok?
    ensures ',' !in s && s != ""
  {
    if |s| > 0 && s[0] == '-' {
      UnsignedChars(s[1..]);
      forall i | 1 <= i < |s|
        ensures s[i] != ','
      {
        assert s[i] == s[1..][i - 1];
      }
    } else {
      UnsignedChars(s);
    }
  }

  /** A numeral the library reads is not blank, so it passes a `trim()` emptiness test. */
  lemma ReadableNotBlank(s: string)
    requires D(s).Ok?
    ensures !AllWhitespace(s)
  {
    ReadableHasNoComma(s);
    if s[0] == '-' {
      assert !IsWhitespace(s[0]);
    } else {
      UnsignedChars(s);
      assert NumeralChar(s[0]);
    }
  }

  lemma {:induction false} JoinNonEmpty(xs: seq<string>, sep: string)
    requires |xs| > 0 && xs[0] != ""
    ensures Join(xs, sep) != ""
    decreases |xs|
  {
    if |xs| > 1 {
      assert |Join(xs, sep)| >= |xs[0]|;
    }
  }

  /**
   * The per-person total: GROUP_CONCAT, split on ',', and a fold of `add` give back the
   * sum of the amounts' cents; with no amounts the text is "0.00".
   */
  lemma TotalOfConcatSum(xs: seq<string>)
    requires AllNonNegative(xs)
    ensures TotalOfConcat(GroupConcat(xs)).Ok?
    ensures TwoPlaces(TotalOfConcat(GroupConcat(xs)).value)
    ensures ExactCents(TotalOfConcat(GroupConcat(xs)).value) == SumCents(xs)
    ensures xs == [] ==> TotalOfConcat(GroupConcat(xs)).value == "0.00"
  {
    if xs == [] {
      SmallAmount(0);
      assert "0.00" == Fixed2Text(false, 0);
    } else {
      forall i | 0 <= i < |xs|
        ensures ',' !in xs[i]
      {
        ReadableHasNoComma(xs[i]);
      }
      ReadableHasNoComma(xs[0]);
      JoinNonEmpty(xs, ",");
      SplitJoin(xs, ',');
      FoldFromZero(xs);
    }
  }

  // ------------------------------------------------------------ totals

  /** The cents of the sum of the open debts of a kind (and, when given, of one person). */
  function OpenTotal(debts: seq<Debt>, kind: DebtType, personId: Option<string>): int
    requires DebtAmountsNonNegative(debts)
  {
    OpenAmountsNonNegative(debts, kind, personId);
    SumCents(OpenAmounts(debts, kind, personId))
  }

  lemma {:induction false} OpenAmountsNonNegative(debts: seq<Debt>, kind: DebtType, personId: Option<string>)
    requires DebtAmountsNonNegative(debts)
    ensures AllNonNegative(OpenAmounts(debts, kind, personId))
    decreases |debts|
  {
    if debts != [] {
      assert DebtAmountsNonNegative(debts[1..]) by {
        forall i | 0 <= i < |debts[1..]|
          ensures D(debts[1..][i].amountOriginal).Ok? && D(debts[1..][i].amountOriginal).value.mant >= 0
        {
          assert debts[1..][i] == debts[i + 1];
        }
      }
      OpenAmountsNonNegative(debts[1..], kind, personId);
      var rest := OpenAmounts(debts[1..], kind, personId);
      var r := OpenAmounts(debts, kind, personId);
      forall i | 0 <= i < |r|
        ensures D(r[i]).Ok? && D(r[i]).value.mant >= 0
      {
        if Counted(debts[0], kind, personId) {
          if i > 0 {
            assert r[i] == rest[i - 1];
          }
        } else {
          assert r[i] == rest[i];
        }
      }
    }
  }

  /** `toCentsStr` of a two-place amount prints its exact cents. */
  lemma CentsTextOfTwoPlaces(t: string)
    requires TwoPlaces(t)
    ensures ToCentsStr(t).Ok? && CentsOf(ToCentsStr(t).value) == ExactCents(t)
  {
    CentsExact(D(t).value);
  }

  /** The printed difference of two two-place totals is exactly the difference of their cents. */
  lemma NetOfTotals(uom: string, iou: string)
    requires TwoPlaces(uom) && TwoPlaces(iou)
    ensures Sub(uom, iou).Ok?
    ensures ToCentsStr(Sub(uom, iou).value).Ok?
    ensures CentsOf(ToCentsStr(Sub(uom, iou).value).value) == ExactCents(uom) - ExactCents(iou)
  {
    SubExact(uom, iou);
    ReprintFixed2(Sub(uom, iou).value);
  }

  /** Reprinting a two-place text keeps its cents. */
  lemma ReprintFixed2(t: string)
    requires IsFixed2(t)
    ensures ToCentsStr(t).Ok? && CentsOf(ToCentsStr(t).value) == CentsOf(t)
  {
    Fixed2Reads(t);
    assert ExactCents(t) == CentsOf(t);
    CentsTextOfTwoPlaces(t);
  }

  /** A person's total of one kind: "0.00" with no open debts, else the sum of their cents. */
  lemma KindTotal(debts: seq<Debt>, kind: DebtType, id: string)
    requires DebtAmountsNonNegative(debts)
    ensures var t := TotalOfConcat(GroupConcat(OpenAmounts(debts, kind, Some(id))));
            t.Ok? && TwoPlaces(t.value) && ToCentsStr(t.value).Ok?
            && CentsOf(ToCentsStr(t.value).value) == OpenTotal(debts, kind, Some(id))
            && (OpenAmounts(debts, kind, Some(id)) == [] ==> ToCentsStr(t.value).value == "0.00")
  {
    var xs := OpenAmounts(debts, kind, Some(id));
    KindExact(debts, kind, id);
    CentsTextOfTwoPlaces(TotalOfConcat(GroupConcat(xs)).value);
    if xs == [] {
      OpenAmountsNonNegative(debts, kind, Some(id));
      TotalOfConcatSum(xs);
      ZeroCentsStr();
    }
  }

  /**
   * `listPeopleWithTotals`, one row: the IOU and UOM totals are the sums of the person's
   * open debts of each kind ("0.00" when there are none), and the net is UOM minus IOU.
   */
  lemma PersonRowIsSums(debts: seq<Debt>, p: Person)
    requires DebtAmountsNonNegative(debts)
    ensures PersonRow(debts, p).Ok?
    ensures var row := PersonRow(debts, p).value;
            IsFixed2(row.iouTotal) && IsFixed2(row.uomTotal) && IsFixed2(row.net)
            && CentsOf(row.iouTotal) == OpenTotal(debts, IOU, Some(p.id))
            && CentsOf(row.uomTotal) == OpenTotal(debts, UOM, Some(p.id))
            && CentsOf(row.net) == CentsOf(row.uomTotal) - CentsOf(row.iouTotal)
    ensures OpenAmounts(debts, IOU, Some(p.id)) == [] ==> PersonRow(debts, p).value.iouTotal == "0.00"
    ensures OpenAmounts(debts, UOM, Some(p.id)) == [] ==> PersonRow(debts, p).value.uomTotal == "0.00"
  {
    KindTotal(debts, IOU, p.id);
    KindTotal(debts, UOM, p.id);
    var iouTotal := TotalOfConcat(GroupConcat(OpenAmounts(debts, IOU, Some(p.id)))).value;
    var uomTotal := TotalOfConcat(GroupConcat(OpenAmounts(debts, UOM, Some(p.id)))).value;
    NetOfTotals(uomTotal, iouTotal);
    CentsTextOfTwoPlaces(iouTotal);
    CentsTextOfTwoPlaces(uomTotal);
  }

  /**
   * `dashboardTotals`: the sums of all open debts of each kind and UOM minus IOU. Settled
   * debts are not counted and payments are not subtracted.
   */
  lemma DashboardTotalsAreSums(st: Store)
    requires DebtAmountsNonNegative(st.debts)
    ensures DashboardTotals(st).Ok?
    ensures var t := DashboardTotals(st).value;
            CentsOf(t.totalIOU) == OpenTotal(st.debts, IOU, None)
            && CentsOf(t.totalUOM) == OpenTotal(st.debts, UOM, None)
            && CentsOf(t.net) == CentsOf(t.totalUOM) - CentsOf(t.totalIOU)
  {
    var ious := OpenAmounts(st.debts, IOU, None);
    var uoms := OpenAmounts(st.debts, UOM, None);
    OpenAmountsNonNegative(st.debts, IOU, None);
    OpenAmountsNonNegative(st.debts, UOM, None);
    FoldFromZero(ious);
    FoldFromZero(uoms);
    var totalIOU := FoldAdd("0", ious).value;
    var totalUOM := FoldAdd("0", uoms).value;
    SubExact(totalUOM, totalIOU);
    var net := Sub(totalUOM, totalIOU).value;
    Fixed2Reads(net);
    CentsExact(D(totalIOU).value);
    CentsExact(D(totalUOM).value);
    CentsExact(D(net).value);
    assert ExactCents(net) == CentsOf(net);
  }

  lemma {:induction false} SumCentsNonNegative(xs: seq<string>)
    requires AllNonNegative(xs)
    ensures SumCents(xs) >= 0
  {
    if xs != [] {
      assert AllNonNegative(xs[1..]) by {
        forall i | 0 <= i < |xs[1..]|
          ensures D(xs[1..][i]).Ok? && D(xs[1..][i]).value.mant >= 0
        {
          assert xs[1..][i] == xs[i + 1];
        }
      }
      SumCentsNonNegative(xs[1..]);
    }
  }

  lemma OpenTotalNonNegative(debts: seq<Debt>, kind: DebtType, personId: Option<string>)
    requires DebtAmountsNonNegative(debts)
    ensures OpenTotal(debts, kind, personId) >= 0
  {
    OpenAmountsNonNegative(debts, kind, personId);
    SumCentsNonNegative(OpenAmounts(debts, kind, personId));
  }

  /** `toCentsStr` of a two-place amount is the canonical text of its exact cents. */
  lemma PrintedCents(t: string)
    requires TwoPlaces(t)
    ensures ToCentsStr(t) == Ok(SignedCentsText(ExactCents(t)))
  {
    var x := D(t).value;
    CentsExact(x);
    MulSign(x.mant, Pow10(2 - x.scale));
  }

  /** A two-place difference of two-place amounts is exact. */
  lemma NetExact(uom: string, iou: string)
    requires TwoPlaces(uom) && TwoPlaces(iou)
    ensures Sub(uom, iou).Ok? && TwoPlaces(Sub(uom, iou).value)
    ensures ExactCents(Sub(uom, iou).value) == ExactCents(uom) - ExactCents(iou)
  {
    SubExact(uom, iou);
    var net := Sub(uom, iou).value;
    Fixed2Reads(net);
    var x := D(net).value;
    assert x == Parse(net).value && x.scale == 2;
    assert Align(x, 2) == x.mant * Pow10(0) == CentsOf(net);
  }

  /**
   * Totals of `iou` and `uom` cents as `toCentsStr` prints them: each with a '-' exactly
   * when it is below zero, and the net as UOM minus IOU.
   */
  function CentsTotals(iou: int, uom: int): Totals {
    Totals(SignedCentsText(iou), SignedCentsText(uom), SignedCentsText(uom - iou))
  }

  /** Printing two-place totals: each prints as its exact cents, and so does their exact difference. */
  lemma PrintTotalsAreCents(totalIOU: string, totalUOM: string)
    requires TwoPlaces(totalIOU) && TwoPlaces(totalUOM)
    ensures PrintTotals(totalIOU, totalUOM) == Ok(CentsTotals(ExactCents(totalIOU), ExactCents(totalUOM)))
  {
    PrintedCents(totalIOU);
    PrintedCents(totalUOM);
    NetPrinted(totalUOM, totalIOU);
  }

  /** The exact difference of two-place amounts prints as the difference of their cents. */
  lemma NetPrinted(uom: string, iou: string)
    requires TwoPlaces(uom) && TwoPlaces(iou)
    ensures Sub(uom, iou).Ok?
    ensures ToCentsStr(Sub(uom, iou).value) == Ok(SignedCentsText(ExactCents(uom) - ExactCents(iou)))
  {
    NetExact(uom, iou);
    var net := Sub(uom, iou).value;
    PrintedCents(net);
    SameCentsText(ExactCents(net), ExactCents(uom) - ExactCents(iou));
  }

  lemma SameCentsText(a: int, b: int)
    requires a == b
    ensures SignedCentsText(a) == SignedCentsText(b)
  {
  }

  /** A dashboard total of one kind is a two-place amount worth the open total's cents. */
  lemma TotalExact(debts: seq<Debt>, kind: DebtType)
    requires DebtAmountsNonNegative(debts)
    ensures FoldAdd("0", OpenAmounts(debts, kind, None)).Ok?
    ensures TwoPlaces(FoldAdd("0", OpenAmounts(debts, kind, None)).value)
    ensures ExactCents(FoldAdd("0", OpenAmounts(debts, kind, None)).value) == OpenTotal(debts, kind, None)
  {
    OpenAmountsNonNegative(debts, kind, None);
    FoldFromZero(OpenAmounts(debts, kind, None));
  }

  /** A person's total of one kind is a two-place amount worth the open total's cents. */
  lemma KindExact(debts: seq<Debt>, kind: DebtType, id: string)
    requires DebtAmountsNonNegative(debts)
    ensures TotalOfConcat(GroupConcat(OpenAmounts(debts, kind, Some(id)))).Ok?
    ensures TwoPlaces(TotalOfConcat(GroupConcat(OpenAmounts(debts, kind, Some(id)))).value)
    ensures ExactCents(TotalOfConcat(GroupConcat(OpenAmounts(debts, kind, Some(id)))).value) == OpenTotal(debts, kind, Some(id))
  {
    OpenAmountsNonNegative(debts, kind, Some(id));
    TotalOfConcatSum(OpenAmounts(debts, kind, Some(id)));
  }

  /** A row of the people list as it should print: the person's open totals and their net. */
  function RowText(debts: seq<Debt>, p: Person): PersonTotals
    requires DebtAmountsNonNegative(debts)
  {
    var t := CentsTotals(OpenTotal(debts, IOU, Some(p.id)), OpenTotal(debts, UOM, Some(p.id)));
    PersonTotals(p.id, p.name, t.totalIOU, t.totalUOM, t.net)
  }

  /** The printed rows of `people`, in the given order. */
  function RowTexts(debts: seq<Debt>, people: seq<Person>): seq<PersonTotals>
    requires DebtAmountsNonNegative(debts)
  {
    if people == [] then [] else [RowText(debts, people[0])] + RowTexts(debts, people[1..])
  }

  /** The dashboard as it should print: the open totals of all people and their net. */
  function DashboardText(debts: seq<Debt>): Totals
    requires DebtAmountsNonNegative(debts)
  {
    CentsTotals(OpenTotal(debts, IOU, None), OpenTotal(debts, UOM, None))
  }

  // ------------------------------------------------------------ per-person totals add up

  /** The weights of the debts counted in a total, added up. */
  function Weighted(debts: seq<Debt>, w: Debt -> int, kind: DebtType, personId: Option<string>): int {
    if debts == [] then 0
    else (if Counted(debts[0], kind, personId) then w(debts[0]) else 0) + Weighted(debts[1..], w, kind, personId)
  }

  /** The per-person totals of a kind, added up over a list of people. */
  function PeopleSum(debts: seq<Debt>, w: Debt -> int, people: seq<Person>, kind: DebtType): int {
    if people == [] then 0 else Weighted(debts, w, kind, Some(people[0].id)) + PeopleSum(debts, w, people[1..], kind)
  }

  /** A debt's amount in cents, or nothing when the amount does not read. */
  function DebtCents(d: Debt): int {
    if D(d.amountOriginal).Ok? then AmountCents(d.amountOriginal) else 0
  }

  /** How many rows carry the id. */
  function IdCount(people: seq<Person>, id: string): nat {
    if people == [] then 0 else (if people[0].id == id then 1 else 0) + IdCount(people[1..], id)
  }

  lemma DebtAmountsTail(debts: seq<Debt>)
    requires debts != [] && DebtAmountsNonNegative(debts)
    ensures DebtAmountsNonNegative(debts[1..])
  {
    forall i | 0 <= i < |debts[1..]|
      ensures D(debts[1..][i].amountOriginal).Ok? && D(debts[1..][i].amountOriginal).value.mant >= 0
    {
      assert debts[1..][i] == debts[i + 1];
    }
  }

  /** The first debt adds its cents to a total exactly when it is counted in it. */
  lemma OpenTotalStep(debts: seq<Debt>, kind: DebtType, personId: Option<string>)
    requires debts != [] && DebtAmountsNonNegative(debts)
    ensures DebtAmountsNonNegative(debts[1..])
    ensures OpenTotal(debts, kind, personId)
            == (if Counted(debts[0], kind, personId) then AmountCents(debts[0].amountOriginal) else 0)
               + OpenTotal(debts[1..], kind, personId)
  {
    DebtAmountsTail(debts);
    OpenAmountsNonNegative(debts, kind, personId);
    OpenAmountsNonNegative(debts[1..], kind, personId);
    var r := OpenAmounts(debts, kind, personId);
    var rest := OpenAmounts(debts[1..], kind, personId);
    if Counted(debts[0], kind, personId) {
      assert r[1..] == rest;
    } else {
      assert r == rest;
    }
  }

  /** The total the repository computes is the weighted sum with each debt weighing its cents. */
  lemma {:induction false} OpenTotalIsWeighted(debts: seq<Debt>, kind: DebtType, personId: Option<string>)
    requires DebtAmountsNonNegative(debts)
    ensures OpenTotal(debts, kind, personId) == Weighted(debts, DebtCents, kind, personId)
    decreases |debts|
  {
    if debts == [] {
      assert OpenAmounts(debts, kind, personId) == [];
    } else {
      OpenTotalStep(debts, kind, personId);
      OpenTotalIsWeighted(debts[1..], kind, personId);
    }
  }

  /** Summed over people, the first debt counts once for every row carrying its person's id. */
  lemma {:induction false} PeopleSumStep(debts: seq<Debt>, w: Debt -> int, people: seq<Person>, kind: DebtType)
    requires debts != []
    ensures PeopleSum(debts, w, people, kind)
            == PeopleSum(debts[1..], w, people, kind)
               + IdCount(people, debts[0].personId) * (if Counted(debts[0], kind, None) then w(debts[0]) else 0)
    decreases |people|
  {
    if people != [] {
      var id := debts[0].personId;
      var c := if Counted(debts[0], kind, None) then w(debts[0]) else 0;
      PeopleSumStep(debts, w, people[1..], kind);
      var here: int := if people[0].id == id then 1 else 0;
      var n := IdCount(people[1..], id);
      MulDistrib(here, n, c);
      if people[0].id == id {
        assert here * c == c;
      } else {
        assert here * c == 0;
      }
    }
  }

  lemma {:induction false} IdCountUnique(people: seq<Person>, id: string)
    requires UniquePeople(people)
    ensures IdCount(people, id) == (if HasPerson(people, id) then 1 else 0)
    decreases |people|
  {
    if people != [] {
      assert UniquePeople(people[1..]) by {
        forall i, j | 0 <= i < j < |people[1..]|
          ensures people[1..][i].id != people[1..][j].id
        {
          assert people[1..][i] == people[i + 1] && people[1..][j] == people[j + 1];
        }
      }
      IdCountUnique(people[1..], id);
      if HasPerson(people[1..], id) {
        var k :| 0 <= k < |people[1..]| && people[1..][k].id == id;
        assert people[k + 1].id == id;
      }
      if HasPerson(people, id) && people[0].id != id {
        var k :| 0 <= k < |people| && people[k].id == id;
        assert people[1..][k - 1].id == id;
      }
    }
  }

  /** Every open debt of the kind belongs to a person in the table. */
  predicate OwnersPresent(debts: seq<Debt>, people: seq<Person>, kind: DebtType) {
    forall i :: 0 <= i < |debts| && Counted(debts[i], kind, None) ==> HasPerson(people, debts[i].personId)
  }

  lemma {:induction false} PeopleSumEmpty(debts: seq<Debt>, w: Debt -> int, people: seq<Person>, kind: DebtType)
    requires debts == []
    ensures PeopleSum(debts, w, people, kind) == 0
    decreases |people|
  {
    if people != [] {
      PeopleSumEmpty(debts, w, people[1..], kind);
    }
  }

  /**
   * With unique person ids and every open debt belonging to a person, the kind's total
   * over all debts is the sum of the per-person totals.
   */
  lemma {:induction false} TotalIsSumOverPeople(debts: seq<Debt>, w: Debt -> int, people: seq<Person>, kind: DebtType)
    requires UniquePeople(people) && OwnersPresent(debts, people, kind)
    ensures Weighted(debts, w, kind, None) == PeopleSum(debts, w, people, kind)
    decreases |debts|
  {
    if debts == [] {
      PeopleSumEmpty(debts, w, people, kind);
    } else {
      PeopleSumStep(debts, w, people, kind);
      IdCountUnique(people, debts[0].personId);
      assert OwnersPresent(debts[1..], people, kind) by {
        forall i | 0 <= i < |debts[1..]| && Counted(debts[1..][i], kind, None)
          ensures HasPerson(people, debts[1..][i].personId)
        {
          assert debts[1..][i] == debts[i + 1];
        }
      }
      TotalIsSumOverPeople(debts[1..], w, people, kind);
    }
  }

  lemma {:induction false} PeopleSumConcat(debts: seq<Debt>, w: Debt -> int, a: seq<Person>, b: seq<Person>, kind: DebtType)
    ensures PeopleSum(debts, w, a + b, kind) == PeopleSum(debts, w, a, kind) + PeopleSum(debts, w, b, kind)
    decreases |a|
  {
    if a == [] {
      assert a + b == b;
    } else {
      assert (a + b)[1..] == a[1..] + b;
      PeopleSumConcat(debts, w, a[1..], b, kind);
    }
  }

  /** Taking out the row at `k` takes out exactly that person's total. */
  lemma PeopleSumRemove(debts: seq<Debt>, w: Debt -> int, b: seq<Person>, k: nat, kind: DebtType)
    requires k < |b|
    ensures PeopleSum(debts, w, b, kind)
            == Weighted(debts, w, kind, Some(b[k].id)) + PeopleSum(debts, w, b[..k] + b[k + 1..], kind)
  {
    assert b == b[..k] + ([b[k]] + b[k + 1..]);
    PeopleSumConcat(debts, w, b[..k], [b[k]] + b[k + 1..], kind);
    PeopleSumConcat(debts, w, b[..k], b[k + 1..], kind);
    assert ([b[k]] + b[k + 1..])[1..] == b[k + 1..];
  }

  /** Two permutations stay permutations when the same element is taken from each. */
  lemma MultisetRemove<T>(a: seq<T>, b: seq<T>, k: nat)
    requires multiset(a) == multiset(b) && a != [] && k < |b| && b[k] == a[0]
    ensures multiset(a[1..]) == multiset(b[..k] + b[k + 1..])
  {
    assert a == [a[0]] + a[1..];
    assert b == b[..k] + [b[k]] + b[k + 1..];
    assert multiset(a) == multiset{a[0]} + multiset(a[1..]);
    assert multiset(b) == multiset(b[..k]) + multiset{b[k]} + multiset(b[k + 1..]);
    var rest := b[..k] + b[k + 1..];
    assert multiset(rest) == multiset(b[..k]) + multiset(b[k + 1..]);
    forall x
      ensures multiset(a[1..])[x] == multiset(rest)[x]
    {
      assert multiset(a)[x] == multiset{a[0]}[x] + multiset(a[1..])[x];
      assert multiset(b)[x] == multiset(b[..k])[x] + multiset{b[k]}[x] + multiset(b[k + 1..])[x];
    }
  }

  /** The order of the rows does not change their sum. */
  lemma {:induction false} PeopleSumPermutation(debts: seq<Debt>, w: Debt -> int, a: seq<Person>, b: seq<Person>, kind: DebtType)
    requires multiset(a) == multiset(b)
    ensures PeopleSum(debts, w, a, kind) == PeopleSum(debts, w, b, kind)
    decreases |a|
  {
    if a == [] {
      assert |b| == |multiset(b)| == 0;
    } else {
      assert a[0] in multiset(b);
      var k :| 0 <= k < |b| && b[k] == a[0];
      MultisetRemove(a, b, k);
      PeopleSumPermutation(debts, w, a[1..], b[..k] + b[k + 1..], kind);
      PeopleSumRemove(debts, w, b, k, kind);
    }
  }

  function IouCents(rows: seq<PersonTotals>): int
    requires RowsFixed2(rows)
  {
    if rows == [] then 0 else CentsOf(rows[0].iouTotal) + IouCents(rows[1..])
  }

  function UomCents(rows: seq<PersonTotals>): int
    requires RowsFixed2(rows)
  {
    if rows == [] then 0 else CentsOf(rows[0].uomTotal) + UomCents(rows[1..])
  }

  function NetCents(rows: seq<PersonTotals>): int
    requires RowsFixed2(rows)
  {
    if rows == [] then 0 else CentsOf(rows[0].net) + NetCents(rows[1..])
  }

  /** When every row's net is its own difference, the nets add up to the difference of the sums. */
  lemma {:induction false} NetCentsIsDifference(rows: seq<PersonTotals>)
    requires RowsFixed2(rows) && NetsAreDifferences(rows)
    ensures NetCents(rows) == UomCents(rows) - IouCents(rows)
    decreases |rows|
  {
    if rows != [] {
      assert NetsAreDifferences(rows[1..]) by {
        forall i | 0 <= i < |rows[1..]|
          ensures CentsOf(rows[1..][i].net) == CentsOf(rows[1..][i].uomTotal) - CentsOf(rows[1..][i].iouTotal)
        {
          assert rows[1..][i] == rows[i + 1];
        }
      }
      NetCentsIsDifference(rows[1..]);
    }
  }

  /** One row's printed totals, as weighted sums. */
  lemma PersonRowCents(debts: seq<Debt>, p: Person)
    requires DebtAmountsNonNegative(debts)
    ensures PersonRow(debts, p).Ok?
    ensures var row := PersonRow(debts, p).value;
            IsFixed2(row.iouTotal) && IsFixed2(row.uomTotal) && IsFixed2(row.net)
            && CentsOf(row.iouTotal) == Weighted(debts, DebtCents, IOU, Some(p.id))
            && CentsOf(row.uomTotal) == Weighted(debts, DebtCents, UOM, Some(p.id))
            && CentsOf(row.net) == CentsOf(row.uomTotal) - CentsOf(row.iouTotal)
  {
    PersonRowIsSums(debts, p);
    OpenTotalIsWeighted(debts, IOU, Some(p.id));
    OpenTotalIsWeighted(debts, UOM, Some(p.id));
  }

  predicate RowsFixed2(rows: seq<PersonTotals>) {
    forall i :: 0 <= i < |rows| ==> IsFixed2(rows[i].iouTotal) && IsFixed2(rows[i].uomTotal) && IsFixed2(rows[i].net)
  }

  /** Every row's net is its UOM total less its IOU total, in cents. */
  predicate NetsAreDifferences(rows: seq<PersonTotals>)
    requires RowsFixed2(rows)
  {
    forall i :: 0 <= i < |rows| ==> CentsOf(rows[i].net) == CentsOf(rows[i].uomTotal) - CentsOf(rows[i].iouTotal)
  }

  /** Row by row, the printed totals are the people's sums. */
  lemma {:induction false} RowsArePeopleSums(debts: seq<Debt>, people: seq<Person>)
    requires DebtAmountsNonNegative(debts)
    ensures PersonRows(debts, people).Ok?
    ensures RowsFixed2(PersonRows(debts, people).value)
    ensures NetsAreDifferences(PersonRows(debts, people).value)
    ensures IouCents(PersonRows(debts, people).value) == PeopleSum(debts, DebtCents, people, IOU)
    ensures UomCents(PersonRows(debts, people).value) == PeopleSum(debts, DebtCents, people, UOM)
    decreases |people|
  {
    if people != [] {
      PersonRowCents(debts, people[0]);
      RowsArePeopleSums(debts, people[1..]);
      var first := PersonRow(debts, people[0]).value;
      var restRows := PersonRows(debts, people[1..]).value;
      var rows := PersonRows(debts, people).value;
      assert rows == [first] + restRows;
      assert rows[0] == first && rows[1..] == restRows;
      ConsRows(first, restRows);
    }
  }

  /** Putting a row in front keeps every row printed and every net its row's difference. */
  lemma ConsRows(first: PersonTotals, rest: seq<PersonTotals>)
    requires IsFixed2(first.iouTotal) && IsFixed2(first.uomTotal) && IsFixed2(first.net)
    requires CentsOf(first.net) == CentsOf(first.uomTotal) - CentsOf(first.iouTotal)
    requires RowsFixed2(rest) && NetsAreDifferences(rest)
    ensures RowsFixed2([first] + rest) && NetsAreDifferences([first] + rest)
  {
    var rows := [first] + rest;
    forall i | 0 <= i < |rows|
      ensures IsFixed2(rows[i].iouTotal) && IsFixed2(rows[i].uomTotal) && IsFixed2(rows[i].net)
      ensures CentsOf(rows[i].net) == CentsOf(rows[i].uomTotal) - CentsOf(rows[i].iouTotal)
    {
      if i > 0 {
        assert rows[i] == rest[i - 1];
      }
    }
  }

  /**
   * The people list and the dashboard agree: with unique person ids and every open debt
   * belonging to a listed person, the rows' IOU totals, UOM totals and nets add up to the
   * dashboard's.
   */
  lemma TotalsConsistent(st: Store)
    requires DebtAmountsNonNegative(st.debts) && UniquePeople(st.people)
    requires OwnersPresent(st.debts, st.people, IOU) && OwnersPresent(st.debts, st.people, UOM)
    ensures ListPeopleWithTotals(st).Ok? && DashboardTotals(st).Ok?
    ensures var rows := ListPeopleWithTotals(st).value;
            RowsFixed2(rows)
            && IouCents(rows) == CentsOf(DashboardTotals(st).value.totalIOU)
            && UomCents(rows) == CentsOf(DashboardTotals(st).value.totalUOM)
            && NetCents(rows) == CentsOf(DashboardTotals(st).value.net)
  {
    var sorted := SortByName(st.people);
    RowsArePeopleSums(st.debts, sorted);
    PeopleSumPermutation(st.debts, DebtCents, sorted, st.people, IOU);
    PeopleSumPermutation(st.debts, DebtCents, sorted, st.people, UOM);
    TotalIsSumOverPeople(st.debts, DebtCents, st.people, IOU);
    TotalIsSumOverPeople(st.debts, DebtCents, st.people, UOM);
    OpenTotalIsWeighted(st.debts, IOU, None);
    OpenTotalIsWeighted(st.debts, UOM, None);
    DashboardTotalsAreSums(st);
    NetCentsIsDifference(ListPeopleWithTotals(st).value);
  }
}
