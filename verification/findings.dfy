/**
 * A debt recorded below the cent can be overpaid: the balance check compares against
 * the balance rounded to cents, so a payment of that rounded amount passes the check,
 * exceeds the exact amount owed, and leaves a balance below zero that still settles
 * the debt. The corrected services refuse such amounts (`DebtService.CreateDebtInCents`
 * and its siblings); what that buys is proved in `ServiceLaws`.
 */
module Findings {
  import opened Wrappers
  import opened Errors
  import opened Strings
  import opened Decimal
  import opened Money
  import opened MoneyLaws
  import opened Ledger
  import Repo
  import RepoLaws
  import DebtService
  import ServiceLaws

  const Sam: Person := Person("p", "Sam", None, None)

  /** Half a cent owed: an amount the checks of `createDebt` accept. */
  const HalfCentDebt: Debt := Debt("d", UOM, "p", Some("Gum"), "0.005", "t0", None, Open)

  const Before: Store := Store([Sam], [HalfCentDebt], [])

  /** A payment of the balance as it is shown. */
  const OneCent: DebtService.PaymentRequest := DebtService.PaymentRequest("d", "0.01", "t1", None)

  lemma HalfCentReads()
    ensures D("0.005") == Ok(Dec(5, 3))
  {
    Thousandths(0, 0, 5);
    var u := ['0', '.', DigitChar(0), DigitChar(0), DigitChar(5)];
    assert u == "0.005";
    ParseSign(u);
  }

  lemma OneCentReads()
    ensures D("0.01") == Ok(Dec(1, 2))
  {
    Repo.ThresholdReads();
  }

  /** With nothing paid, the balance is the amount owed, rounded to cents. */
  lemma UnpaidBalance(st: Store, id: string)
    requires FindDebt(st.debts, id).Some? && PaymentsOf(st.payments, id) == []
    requires D(FindDebt(st.debts, id).value.amountOriginal).Ok?
    ensures Repo.GetDebtBalance(st, id).Ok?
    ensures CentsOf(Repo.GetDebtBalance(st, id).value) == Cents(D(FindDebt(st.debts, id).value.amountOriginal).value)
  {
    NothingPaid(st, id);
    SubZero(FindDebt(st.debts, id).value.amountOriginal);
  }

  lemma NothingPaid(st: Store, id: string)
    requires FindDebt(st.debts, id).Some? && PaymentsOf(st.payments, id) == []
    ensures Repo.GetDebtBalance(st, id) == Sub(FindDebt(st.debts, id).value.amountOriginal, "0")
  {
    assert Amounts(PaymentsOf(st.payments, id)) == [];
  }

  /** Taking zero away leaves an amount rounded to cents. */
  lemma SubZero(a: string)
    requires D(a).Ok?
    ensures Sub(a, "0").Ok? && CentsOf(Sub(a, "0").value) == Cents(D(a).value)
  {
    var x := D(a).value;
    Money.ZeroReads();
    AlignOwnScale(x);
    assert Minus(x, Dec(0, 0)) == x;
  }

  /** With one payment of whole cents, the balance is the amount owed less that payment, rounded to cents. */
  lemma OnePaymentBalance(st: Store, id: string, a: string, m: int)
    requires FindDebt(st.debts, id).Some? && Amounts(PaymentsOf(st.payments, id)) == [a]
    requires D(FindDebt(st.debts, id).value.amountOriginal).Ok? && D(a) == Ok(Dec(m, 2))
    ensures Repo.GetDebtBalance(st, id).Ok?
    ensures CentsOf(Repo.GetDebtBalance(st, id).value) == Cents(Minus(D(FindDebt(st.debts, id).value.amountOriginal).value, Dec(m, 2)))
  {
    SumOfOne(a, m);
    BalanceOfPaid(st, id, Repo.FoldAdd("0", [a]).value, m);
  }

  /** The balance of a debt whose payments add up to `paid`, which reads as `m` cents. */
  lemma BalanceOfPaid(st: Store, id: string, paid: string, m: int)
    requires FindDebt(st.debts, id).Some? && D(FindDebt(st.debts, id).value.amountOriginal).Ok?
    requires Repo.FoldAdd("0", Amounts(PaymentsOf(st.payments, id))) == Ok(paid)
    requires D(paid) == Ok(Dec(m, 2))
    ensures Repo.GetDebtBalance(st, id).Ok?
    ensures CentsOf(Repo.GetDebtBalance(st, id).value) == Cents(Minus(D(FindDebt(st.debts, id).value.amountOriginal).value, Dec(m, 2)))
  {
  }

  /** One payment of whole cents adds up to itself. */
  lemma SumOfOne(a: string, m: int)
    requires D(a) == Ok(Dec(m, 2))
    ensures Repo.FoldAdd("0", [a]).Ok? && D(Repo.FoldAdd("0", [a]).value) == Ok(Dec(m, 2))
  {
    Money.ZeroReads();
    var sum := Add("0", a);
    assert Repo.FoldAdd("0", [a]) == Repo.FoldAdd(sum.value, []);
    assert Plus(Dec(0, 0), Dec(m, 2)) == Dec(m, 2) by {
      assert Pow10(2) == 100;
    }
    ToFixed2Cents(m);
    Fixed2Reads(sum.value);
  }

  /** Half a cent rounds away from zero, to one cent either way. */
  lemma HalfCentRounds()
    ensures Cents(Dec(5, 3)) == 1 && Cents(Dec(-5, 3)) == -1
  {
    assert Pow10(3) == 1000 by {
      assert Pow10(1) == 10;
    }
  }

  /** Half a cent is shown as one cent. */
  lemma BalanceShownAsOneCent()
    ensures Repo.GetDebtBalance(Before, "d").Ok?
    ensures CentsOf(Repo.GetDebtBalance(Before, "d").value) == 1
  {
    HalfCentReads();
    HalfCentRounds();
    assert FindDebt(Before.debts, "d") == Some(HalfCentDebt);
    assert PaymentsOf(Before.payments, "d") == [];
    UnpaidBalance(Before, "d");
  }

  /** The payment of one cent passes every check of `addPaymentWithAutoSettle`. */
  lemma OneCentAdmitted()
    ensures DebtService.PaymentAdmitted(Before, OneCent)
  {
    BalanceShownAsOneCent();
    OneCentReads();
    var bal := Repo.GetDebtBalance(Before, "d").value;
    LtInCents(bal, "0.01");
    assert ExactCents("0.01") == 1;
    assert FindDebt(Before.debts, "d") == Some(HalfCentDebt);
  }

  /** After the payment the exact balance is minus half a cent, shown as minus one cent. */
  lemma BalanceAfterPayment(q: Payment)
    requires q == DebtService.NewPayment(OneCent, "q")
    ensures Repo.GetDebtBalance(Before.(payments := [q]), "d").Ok?
    ensures CentsOf(Repo.GetDebtBalance(Before.(payments := [q]), "d").value) == -1
  {
    var st := Before.(payments := [q]);
    HalfCentReads();
    OneCentReads();
    assert FindDebt(st.debts, "d") == Some(HalfCentDebt);
    assert PaymentsOf(st.payments, "d") == [q];
    assert Amounts([q]) == ["0.01"];
    OnePaymentBalance(st, "d", "0.01", 1);
    assert Minus(Dec(5, 3), Dec(1, 2)) == Dec(-5, 3) by {
      assert Pow10(1) == 10;
    }
    HalfCentRounds();
  }

  /**
   * A payment that leaves at most a cent is recorded and settles its debt, and the
   * balance reads the same before and after the settling.
   */
  lemma RepoInsertSettles(st: Store, input: Repo.PaymentInput, freshId: string, k: nat)
    requires !HasPayment(st.payments, freshId) && k < |st.debts| && st.debts[k].id == input.debtId
    requires var inserted := st.(payments := st.payments + [Payment(freshId, input.debtId, input.amount, input.date, input.note)]);
             Repo.GetDebtBalance(inserted, input.debtId).Ok? && CentsOf(Repo.GetDebtBalance(inserted, input.debtId).value) <= 1
    ensures var repo := Repo.AddPayment(st, input, freshId);
            var inserted := st.(payments := st.payments + [Payment(freshId, input.debtId, input.amount, input.date, input.note)]);
            repo.result == Ok(freshId)
            && repo.store.debts[k].status == Settled
            && Repo.GetDebtBalance(repo.store, input.debtId) == Repo.GetDebtBalance(inserted, input.debtId)
  {
    var inserted := st.(payments := st.payments + [Payment(freshId, input.debtId, input.amount, input.date, input.note)]);
    var bal := Repo.GetDebtBalance(inserted, input.debtId).value;
    RepoLaws.SettlesIffAtMostOneCent(bal);
    var repo := Repo.AddPayment(st, input, freshId);
    assert ServiceLaws.SameDebtsButStatus(inserted.debts, repo.store.debts) by {
      forall i | 0 <= i < |st.debts|
        ensures repo.store.debts[i] == inserted.debts[i].(status := repo.store.debts[i].status)
      {
      }
    }
    ServiceLaws.BalanceIgnoresStatus(inserted, repo.store, input.debtId);
  }

  /** The repository records the payment and settles the debt, and the balance still reads afterwards. */
  lemma RepoSettlesHalfCent()
    ensures var repo := Repo.AddPayment(Before, Repo.PaymentInput("d", "0.01", "t1", None), "q");
            repo.result == Ok("q")
            && repo.store.debts[0].status == Settled
            && Repo.GetDebtBalance(repo.store, "d").Ok?
            && CentsOf(Repo.GetDebtBalance(repo.store, "d").value) == -1
  {
    var q := DebtService.NewPayment(OneCent, "q");
    assert Before.payments + [q] == [q];
    BalanceAfterPayment(q);
    RepoInsertSettles(Before, Repo.PaymentInput("d", "0.01", "t1", None), "q", 0);
  }

  /**
   * As written: the one-cent payment on a half-cent debt is accepted, pays more than the
   * exact amount owed, and settles the debt with a balance of minus one cent.
   */
  lemma SubCentDebtOverpaid()
    ensures var out := DebtService.AddPaymentWithAutoSettle(Before, OneCent, "q");
            out.result.Ok?
            && out.store.debts[0].status == Settled
            && Lt(HalfCentDebt.amountOriginal, OneCent.amount) == Ok(true)
            && Repo.GetDebtBalance(out.store, "d").Ok?
            && CentsOf(Repo.GetDebtBalance(out.store, "d").value) == -1
  {
    OneCentAdmitted();
    RepoSettlesHalfCent();
    HalfCentReads();
    OneCentReads();
    LtAligned("0.005", "0.01");
  }

  /** Corrected: the half-cent debt is refused when it is created, and the store is left as it was. */
  lemma SubCentDebtRefused(req: DebtService.CreateDebtRequest, st: Store, freshId: string, now: string)
    requires req.amountOriginal == "0.005"
    ensures DebtService.CreateDebtInCents(st, req, freshId, now) == Outcome(st, Err(BusinessError(DebtService.TooPrecise("Debt"))))
  {
    HalfCentReads();
  }
}
