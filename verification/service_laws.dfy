/**
 * What the services keep true of the store: keys stay unique, stored amounts stay whole
 * cents above zero, payments point at existing debts and open debts at existing people,
 * and no debt is paid beyond its original amount. Each writing operation of the
 * services preserves these, with amounts refused below the cent.
 */
module ServiceLaws {
  import opened Wrappers
  import opened Errors
  import opened Strings
  import opened Decimal
  import opened Money
  import opened MoneyLaws
  import opened Ledger
  import opened RepoLaws
  import Repo
  import PersonService
  import DebtService

  /** Every payment's amount reads as a number at or above zero. */
  predicate PaymentsRead(payments: seq<Payment>) {
    forall i :: 0 <= i < |payments| ==> D(payments[i].amount).Ok? && D(payments[i].amount).value.mant >= 0
  }

  lemma PaymentsOfRead(payments: seq<Payment>, id: string)
    requires PaymentsRead(payments)
    ensures AllNonNegative(Amounts(PaymentsOf(payments, id)))
  {
    var ps := PaymentsOf(payments, id);
    forall i | 0 <= i < |ps|
      ensures D(Amounts(ps)[i]).Ok? && D(Amounts(ps)[i]).value.mant >= 0
    {
      assert ps[i] in ps;
      var k :| 0 <= k < |payments| && payments[k] == ps[i];
    }
  }

  /** The cents paid towards a debt: its payments' amounts added up. */
  function PaidCents(payments: seq<Payment>, id: string): int
    requires PaymentsRead(payments)
  {
    PaymentsOfRead(payments, id);
    SumCents(Amounts(PaymentsOf(payments, id)))
  }

  /** The store's structural invariant. */
  predicate Consistent(st: Store) {
    UniquePeople(st.people) && UniqueDebts(st.debts) && UniquePayments(st.payments)
    && (forall i :: 0 <= i < |st.debts| ==> DebtService.CentsAmount(st.debts[i].amountOriginal))
    && (forall i :: 0 <= i < |st.payments| ==> DebtService.CentsAmount(st.payments[i].amount))
    && (forall i :: 0 <= i < |st.payments| ==> HasDebt(st.debts, st.payments[i].debtId))
    && (forall i :: 0 <= i < |st.debts| && st.debts[i].status == Open ==> HasPerson(st.people, st.debts[i].personId))
  }

  /** No debt has been paid beyond its original amount. */
  predicate PaidWithinOriginal(st: Store) {
    PaymentsRead(st.payments)
    && forall i :: 0 <= i < |st.debts| && TwoPlaces(st.debts[i].amountOriginal) ==>
         PaidCents(st.payments, st.debts[i].id) <= ExactCents(st.debts[i].amountOriginal)
  }

  predicate Sound(st: Store) {
    Consistent(st) && PaidWithinOriginal(st)
  }

  lemma ConsistentReads(st: Store)
    requires Consistent(st)
    ensures PaymentsRead(st.payments) && DebtAmountsNonNegative(st.debts)
    ensures OwnersPresent(st.debts, st.people, IOU) && OwnersPresent(st.debts, st.people, UOM)
    ensures forall i :: 0 <= i < |st.debts| ==> TwoPlaces(st.debts[i].amountOriginal)
  {
  }

  /** With unique ids, what is found for a debt's id is that debt, amount and all. */
  lemma FoundAmountTwoPlaces(st: Store, id: string)
    requires Consistent(st) && HasDebt(st.debts, id)
    ensures TwoPlaces(FindDebt(st.debts, id).value.amountOriginal)
    ensures exists k :: 0 <= k < |st.debts| && st.debts[k] == FindDebt(st.debts, id).value
  {
    var d := FindDebt(st.debts, id).value;
    var k :| 0 <= k < |st.debts| && st.debts[k] == d;
  }

  /** A balance is the original amount minus what has been paid, in cents. */
  lemma BalanceCents(st: Store, id: string)
    requires HasDebt(st.debts, id) && TwoPlaces(FindDebt(st.debts, id).value.amountOriginal) && PaymentsRead(st.payments)
    ensures Repo.GetDebtBalance(st, id).Ok?
    ensures CentsOf(Repo.GetDebtBalance(st, id).value) == ExactCents(FindDebt(st.debts, id).value.amountOriginal) - PaidCents(st.payments, id)
  {
    PaymentsOfRead(st.payments, id);
    BalanceIsOriginalMinusPaid(st, id);
  }

  /** In a sound store no balance is below zero. */
  lemma BalanceNeverNegative(st: Store, id: string)
    requires Sound(st) && HasDebt(st.debts, id)
    ensures Repo.GetDebtBalance(st, id).Ok? && CentsOf(Repo.GetDebtBalance(st, id).value) >= 0
  {
    FoundAmountTwoPlaces(st, id);
    BalanceCents(st, id);
    var k :| 0 <= k < |st.debts| && st.debts[k] == FindDebt(st.debts, id).value;
    assert st.debts[k].id == id;
  }

  // ------------------------------------------------------------ appending a payment

  lemma {:induction false} PaymentsOfAppend(ps: seq<Payment>, q: Payment, id: string)
    ensures PaymentsOf(ps + [q], id) == PaymentsOf(ps, id) + (if q.debtId == id then [q] else [])
    decreases |ps|
  {
    if ps == [] {
      assert [q][1..] == [];
    } else {
      assert (ps + [q])[1..] == ps[1..] + [q];
      PaymentsOfAppend(ps[1..], q, id);
    }
  }

  lemma {:induction false} SumCentsAppend(xs: seq<string>, x: string)
    requires AllRead(xs) && D(x).Ok?
    ensures AllRead(xs + [x])
    ensures SumCents(xs + [x]) == SumCents(xs) + AmountCents(x)
    decreases |xs|
  {
    assert AllRead(xs + [x]) by {
      forall i | 0 <= i < |xs + [x]|
        ensures D((xs + [x])[i]).Ok?
      {
        if i < |xs| {
          assert (xs + [x])[i] == xs[i];
        }
      }
    }
    if xs == [] {
      assert [x][1..] == [];
    } else {
      assert (xs + [x])[1..] == xs[1..] + [x];
      assert AllRead(xs[1..]) by {
        forall i | 0 <= i < |xs[1..]|
          ensures D(xs[1..][i]).Ok?
        {
          assert xs[1..][i] == xs[i + 1];
        }
      }
      SumCentsAppend(xs[1..], x);
    }
  }

  /** A new payment adds its cents to its own debt's paid total and to no other. */
  lemma PaidCentsAppend(ps: seq<Payment>, q: Payment, id: string)
    requires PaymentsRead(ps) && D(q.amount).Ok? && D(q.amount).value.mant >= 0
    ensures PaymentsRead(ps + [q])
    ensures PaidCents(ps + [q], id) == PaidCents(ps, id) + (if q.debtId == id then AmountCents(q.amount) else 0)
  {
    assert PaymentsRead(ps + [q]) by {
      forall i | 0 <= i < |ps + [q]|
        ensures D((ps + [q])[i].amount).Ok? && D((ps + [q])[i].amount).value.mant >= 0
      {
        if i < |ps| {
          assert (ps + [q])[i] == ps[i];
        }
      }
    }
    PaymentsOfAppend(ps, q, id);
    PaymentsOfRead(ps, id);
    var xs := Amounts(PaymentsOf(ps, id));
    if q.debtId == id {
      assert Amounts(PaymentsOf(ps + [q], id)) == xs + [q.amount];
      SumCentsAppend(xs, q.amount);
    } else {
      assert Amounts(PaymentsOf(ps + [q], id)) == xs;
    }
  }

  // ------------------------------------------------------------ rows that keep their ids and amounts

  /** Two debt tables that differ at most in statuses, row by row. */
  predicate SameDebtsButStatus(a: seq<Debt>, b: seq<Debt>) {
    |a| == |b| && forall i :: 0 <= i < |a| ==> b[i] == a[i].(status := b[i].status)
  }

  lemma SameRowsHaveSameIds(a: seq<Debt>, b: seq<Debt>, id: string)
    requires SameDebtsButStatus(a, b)
    ensures HasDebt(a, id) <==> HasDebt(b, id)
  {
    if HasDebt(a, id) {
      var k :| 0 <= k < |a| && a[k].id == id;
      assert b[k].id == id;
    }
    if HasDebt(b, id) {
      var k :| 0 <= k < |b| && b[k].id == id;
      assert a[k].id == id;
    }
  }

  lemma TailSameRows(a: seq<Debt>, b: seq<Debt>)
    requires SameDebtsButStatus(a, b) && a != []
    ensures SameDebtsButStatus(a[1..], b[1..])
    ensures b[0] == a[0].(status := b[0].status)
  {
    forall i | 0 <= i < |a[1..]|
      ensures b[1..][i] == a[1..][i].(status := b[1..][i].status)
    {
      assert b[1..][i] == b[i + 1] && a[1..][i] == a[i + 1];
    }
  }

  lemma {:induction false} FindDebtSameRows(a: seq<Debt>, b: seq<Debt>, id: string)
    requires SameDebtsButStatus(a, b)
    ensures HasDebt(a, id) <==> HasDebt(b, id)
    ensures HasDebt(a, id) ==> FindDebt(b, id).value == FindDebt(a, id).value.(status := FindDebt(b, id).value.status)
    decreases |a|
  {
    SameRowsHaveSameIds(a, b, id);
    if a != [] {
      TailSameRows(a, b);
      if a[0].id != id {
        FindDebtSameRows(a[1..], b[1..], id);
      }
    }
  }

  /** A change of statuses alone leaves every balance as it was. */
  lemma BalanceIgnoresStatus(st: Store, after: Store, id: string)
    requires SameDebtsButStatus(st.debts, after.debts) && after.payments == st.payments
    ensures Repo.GetDebtBalance(after, id) == Repo.GetDebtBalance(st, id)
  {
    FindDebtSameRows(st.debts, after.debts, id);
  }

  // ------------------------------------------------------------ recording a payment

  function Input(p: DebtService.PaymentRequest): Repo.PaymentInput {
    Repo.PaymentInput(p.debtId, p.amount, p.date, p.note)
  }

  /** An admitted payment in whole cents is at most the balance it is paid against. */
  lemma AdmittedWithinBalance(st: Store, p: DebtService.PaymentRequest)
    requires Sound(st) && DebtService.PaymentAdmitted(st, p) && DebtService.CentsAmount(p.amount)
    ensures TwoPlaces(FindDebt(st.debts, p.debtId).value.amountOriginal)
    ensures AmountCents(p.amount) == ExactCents(p.amount) > 0
    ensures PaidCents(st.payments, p.debtId) + AmountCents(p.amount) <= ExactCents(FindDebt(st.debts, p.debtId).value.amountOriginal)
  {
    FoundAmountTwoPlaces(st, p.debtId);
    BalanceCents(st, p.debtId);
    var bal := Repo.GetDebtBalance(st, p.debtId).value;
    LtInCents(bal, p.amount);
    CentsExact(D(p.amount).value);
    AlignPositive(D(p.amount).value);
  }

  lemma AlignPositive(x: Dec)
    requires x.mant > 0 && x.scale <= 2
    ensures Align(x, 2) > 0
  {
    assert Align(x, 2) == x.mant * Pow10(2 - x.scale);
  }

  /** The payment lands in the table and leaves it readable, with its cents on its own debt. */
  lemma InsertedReads(st: Store, p: DebtService.PaymentRequest, freshId: string)
    requires Sound(st) && DebtService.CentsAmount(p.amount)
    ensures PaymentsRead(st.payments + [DebtService.NewPayment(p, freshId)])
    ensures forall id :: PaidCents(st.payments + [DebtService.NewPayment(p, freshId)], id)
                         == PaidCents(st.payments, id) + (if id == p.debtId then AmountCents(p.amount) else 0)
  {
    var q := DebtService.NewPayment(p, freshId);
    ConsistentReads(st);
    forall id
      ensures PaymentsRead(st.payments + [q])
      ensures PaidCents(st.payments + [q], id) == PaidCents(st.payments, id) + (if id == p.debtId then AmountCents(p.amount) else 0)
    {
      PaidCentsAppend(st.payments, q, id);
    }
    PaidCentsAppend(st.payments, q, p.debtId);
  }

  /** The repository's insert succeeds for an admitted payment and changes statuses only. */
  lemma RepoInsertAccepted(st: Store, p: DebtService.PaymentRequest, freshId: string)
    requires Sound(st) && DebtService.PaymentAdmitted(st, p) && DebtService.CentsAmount(p.amount)
    requires !HasPayment(st.payments, freshId)
    ensures var out := Repo.AddPayment(st, Input(p), freshId);
            out.result == Ok(freshId)
            && out.store.payments == st.payments + [DebtService.NewPayment(p, freshId)]
            && SameDebtsButStatus(st.debts, out.store.debts)
            && out.store.people == st.people
  {
    InsertedBalanceReads(st, p, freshId);
    InsertSucceeds(st, Input(p), freshId);
  }

  /** The repository's insert under a fresh id succeeds once the debt's balance reads with the payment in. */
  lemma InsertSucceeds(st: Store, inp: Repo.PaymentInput, freshId: string)
    requires !HasPayment(st.payments, freshId)
    requires Repo.GetDebtBalance(st.(payments := st.payments + [Payment(freshId, inp.debtId, inp.amount, inp.date, inp.note)]), inp.debtId).Ok?
    ensures var out := Repo.AddPayment(st, inp, freshId);
            out.result == Ok(freshId)
            && out.store.payments == st.payments + [Payment(freshId, inp.debtId, inp.amount, inp.date, inp.note)]
            && SameDebtsButStatus(st.debts, out.store.debts)
            && out.store.people == st.people
  {
    var out := Repo.AddPayment(st, inp, freshId);
    StatusOnlyChanged(st.debts, out.store.debts, inp.debtId);
  }

  /** Settling some rows in place changes statuses only. */
  lemma StatusOnlyChanged(before: seq<Debt>, after: seq<Debt>, debtId: string)
    requires |after| == |before|
    requires forall i :: 0 <= i < |before| ==>
               after[i] == (if before[i].id == debtId then Repo.Settle(before[i], after[i].status == Settled) else before[i])
    ensures SameDebtsButStatus(before, after)
  {
  }

  /** Once an admitted payment is inserted, its debt's balance still reads. */
  lemma InsertedBalanceReads(st: Store, p: DebtService.PaymentRequest, freshId: string)
    requires Sound(st) && DebtService.PaymentAdmitted(st, p) && DebtService.CentsAmount(p.amount)
    ensures Repo.GetDebtBalance(st.(payments := st.payments + [DebtService.NewPayment(p, freshId)]), p.debtId).Ok?
  {
    var q := DebtService.NewPayment(p, freshId);
    var inserted := st.(payments := st.payments + [q]);
    InsertedReads(st, p, freshId);
    FoundAmountTwoPlaces(st, p.debtId);
    BalanceCents(inserted, p.debtId);
  }

  /**
   * Recording a payment that `addPaymentWithAutoSettle` admits, in whole cents, with a
   * fresh id: the call succeeds, nothing but the payment table and the paid debt's
   * status changes, and the debt is settled exactly when at most one cent remains.
   */
  lemma AddPaymentAccepted(st: Store, p: DebtService.PaymentRequest, freshId: string)
    requires Sound(st) && DebtService.PaymentAdmitted(st, p) && DebtService.CentsAmount(p.amount)
    requires !HasPayment(st.payments, freshId)
    ensures var out := DebtService.AddPaymentWithAutoSettle(st, p, freshId);
            out.result == Ok(freshId)
            && out.store.payments == st.payments + [DebtService.NewPayment(p, freshId)]
            && SameDebtsButStatus(st.debts, out.store.debts)
            && out.store.people == st.people
  {
    var q := DebtService.NewPayment(p, freshId);
    RepoInsertAccepted(st, p, freshId);
    var repo := Repo.AddPayment(st, Input(p), freshId);
    var inserted := st.(payments := st.payments + [q]);
    BalanceIgnoresStatus(inserted, repo.store, p.debtId);
    InsertedReads(st, p, freshId);
    FoundAmountTwoPlaces(st, p.debtId);
    BalanceCents(inserted, p.debtId);
  }

  /** The admitted payment's debt is settled exactly when at most one cent of it is left. */
  lemma AddPaymentSettlesAtOneCent(st: Store, p: DebtService.PaymentRequest, freshId: string, k: nat)
    requires Sound(st) && DebtService.PaymentAdmitted(st, p) && DebtService.CentsAmount(p.amount)
    requires !HasPayment(st.payments, freshId)
    requires k < |st.debts| && st.debts[k].id == p.debtId
    ensures var out := DebtService.AddPaymentWithAutoSettle(st, p, freshId);
            PaymentsRead(out.store.payments)
            && (out.store.debts[k].status == Settled
                <==> ExactCents(st.debts[k].amountOriginal) - PaidCents(out.store.payments, p.debtId) <= 1)
  {
    var q := DebtService.NewPayment(p, freshId);
    var inserted := st.(payments := st.payments + [q]);
    FindDebtAt(st.debts, k);
    InsertedReads(st, p, freshId);
    FoundAmountTwoPlaces(st, p.debtId);
    BalanceCents(inserted, p.debtId);
    var bal := Repo.GetDebtBalance(inserted, p.debtId).value;
    SettlesIffAtMostOneCent(bal);
    AddPaymentAccepted(st, p, freshId);
  }

  /** Settling debts and appending a payment to an existing debt keep the store consistent. */
  lemma SettleAndAppendKeepConsistent(st: Store, after: Store, q: Payment)
    requires Consistent(st)
    requires SameDebtsButStatus(st.debts, after.debts)
    requires forall i :: 0 <= i < |after.debts| && after.debts[i].status == Open ==> st.debts[i].status == Open
    requires after.people == st.people && after.payments == st.payments + [q]
    requires !HasPayment(st.payments, q.id) && DebtService.CentsAmount(q.amount) && HasDebt(st.debts, q.debtId)
    ensures Consistent(after)
  {
    assert UniqueDebts(after.debts) by {
      forall i, j | 0 <= i < j < |after.debts|
        ensures after.debts[i].id != after.debts[j].id
      {
        assert after.debts[i].id == st.debts[i].id && after.debts[j].id == st.debts[j].id;
      }
    }
    assert UniquePayments(after.payments) by {
      forall i, j | 0 <= i < j < |after.payments|
        ensures after.payments[i].id != after.payments[j].id
      {
        if j == |st.payments| {
          assert after.payments[i] == st.payments[i];
        } else {
          assert after.payments[i] == st.payments[i] && after.payments[j] == st.payments[j];
        }
      }
    }
    forall i | 0 <= i < |after.payments|
      ensures DebtService.CentsAmount(after.payments[i].amount) && HasDebt(after.debts, after.payments[i].debtId)
    {
      SameRowsHaveSameIds(st.debts, after.debts, after.payments[i].debtId);
      if i < |st.payments| {
        assert after.payments[i] == st.payments[i];
      } else {
        assert after.payments[i] == q;
      }
    }
    forall i | 0 <= i < |after.debts|
      ensures DebtService.CentsAmount(after.debts[i].amountOriginal)
      ensures after.debts[i].status == Open ==> HasPerson(after.people, after.debts[i].personId)
    {
      assert after.debts[i] == st.debts[i].(status := after.debts[i].status);
    }
  }

  lemma AddPaymentKeepsConsistent(st: Store, p: DebtService.PaymentRequest, freshId: string)
    requires Sound(st) && DebtService.PaymentAdmitted(st, p) && DebtService.CentsAmount(p.amount)
    requires !HasPayment(st.payments, freshId)
    ensures Consistent(DebtService.AddPaymentWithAutoSettle(st, p, freshId).store)
  {
    AddPaymentAccepted(st, p, freshId);
    var after := DebtService.AddPaymentWithAutoSettle(st, p, freshId).store;
    var repo := Repo.AddPayment(st, Input(p), freshId);
    assert after == repo.store;
    forall i | 0 <= i < |after.debts| && after.debts[i].status == Open
      ensures st.debts[i].status == Open
    {
      assert repo.store.debts[i] == Repo.Settle(st.debts[i], repo.store.debts[i].status == Settled);
    }
    SettleAndAppendKeepConsistent(st, after, DebtService.NewPayment(p, freshId));
  }

  /** No admitted payment in whole cents pays any debt beyond its original amount. */
  lemma AddPaymentKeepsPaidWithinOriginal(st: Store, p: DebtService.PaymentRequest, freshId: string)
    requires Sound(st) && DebtService.PaymentAdmitted(st, p) && DebtService.CentsAmount(p.amount)
    requires !HasPayment(st.payments, freshId)
    ensures PaidWithinOriginal(DebtService.AddPaymentWithAutoSettle(st, p, freshId).store)
  {
    AddPaymentAccepted(st, p, freshId);
    var after := DebtService.AddPaymentWithAutoSettle(st, p, freshId).store;
    InsertedReads(st, p, freshId);
    AdmittedWithinBalance(st, p);
    forall i | 0 <= i < |after.debts| && TwoPlaces(after.debts[i].amountOriginal)
      ensures PaidCents(after.payments, after.debts[i].id) <= ExactCents(after.debts[i].amountOriginal)
    {
      assert after.debts[i] == st.debts[i].(status := after.debts[i].status);
      if st.debts[i].id == p.debtId {
        FindDebtAt(st.debts, i);
      }
    }
  }

  lemma AddPaymentKeepsSound(st: Store, p: DebtService.PaymentRequest, freshId: string)
    requires Sound(st) && DebtService.PaymentAdmitted(st, p) && DebtService.CentsAmount(p.amount)
    requires !HasPayment(st.payments, freshId)
    ensures Sound(DebtService.AddPaymentWithAutoSettle(st, p, freshId).store)
  {
    AddPaymentKeepsConsistent(st, p, freshId);
    AddPaymentKeepsPaidWithinOriginal(st, p, freshId);
  }

  /** Paying off exactly the balance shown is admitted and settles the debt. */
  lemma PayingTheBalanceSettles(st: Store, debtId: string, date: string, freshId: string, k: nat)
    requires Sound(st) && k < |st.debts| && st.debts[k].id == debtId && st.debts[k].status == Open
    requires Repo.GetDebtBalance(st, debtId).Ok? && CentsOf(Repo.GetDebtBalance(st, debtId).value) > 0
    requires !HasPayment(st.payments, freshId)
    ensures var p := DebtService.PaymentRequest(debtId, Repo.GetDebtBalance(st, debtId).value, date, None);
            var out := DebtService.AddPaymentWithAutoSettle(st, p, freshId);
            out.result == Ok(freshId) && out.store.debts[k].status == Settled
  {
    var bal := Repo.GetDebtBalance(st, debtId).value;
    var p := DebtService.PaymentRequest(debtId, bal, date, None);
    FindDebtAt(st.debts, k);
    Fixed2Reads(bal);
    assert TwoPlaces(bal) && ExactCents(bal) == CentsOf(bal);
    LtInCents(bal, bal);
    assert DebtService.CentsAmount(bal);
    assert DebtService.PaymentAdmitted(st, p);
    AddPaymentAccepted(st, p, freshId);
    AddPaymentSettlesAtOneCent(st, p, freshId, k);
    InsertedReads(st, p, freshId);
    FoundAmountTwoPlaces(st, debtId);
    BalanceCents(st, debtId);
    CentsExact(D(bal).value);
  }

  // ------------------------------------------------------------ the other writes

  /**
   * A write that touches only the people keeps the store sound while every open debt's
   * person is still there.
   */
  lemma PeopleChangeKeepsSound(st: Store, after: Store)
    requires Sound(st) && after.debts == st.debts && after.payments == st.payments
    requires UniquePeople(after.people)
    requires forall i :: 0 <= i < |st.debts| && st.debts[i].status == Open ==> HasPerson(after.people, st.debts[i].personId)
    ensures Sound(after)
  {
  }

  /** What a person write keeps: everyone else stays, and the written id is present after success. */
  lemma KeptPeople(st: Store, after: Store, written: string)
    requires forall q :: q in st.people && q.id != written ==> q in after.people
    requires HasPerson(after.people, written)
    ensures forall id :: HasPerson(st.people, id) ==> HasPerson(after.people, id)
  {
    forall id | HasPerson(st.people, id)
      ensures HasPerson(after.people, id)
    {
      if id != written {
        var k :| 0 <= k < |st.people| && st.people[k].id == id;
        assert st.people[k] in after.people;
      }
    }
  }

  lemma CreatePersonKeepsSound(st: Store, data: Repo.PersonInput, freshId: string)
    requires Sound(st)
    ensures Sound(PersonService.CreatePerson(st, data, freshId).store)
  {
    var out := PersonService.CreatePerson(st, data, freshId);
    if out.result.Ok? {
      KeptPeople(st, out.store, out.result.value);
      PeopleChangeKeepsSound(st, out.store);
    }
  }

  lemma UpdatePersonKeepsSound(st: Store, id: string, data: PersonService.PersonRequest)
    requires Sound(st)
    ensures Sound(PersonService.UpdatePerson(st, id, data).store)
  {
    var out := PersonService.UpdatePerson(st, id, data);
    if out.result.Ok? {
      KeptPeople(st, out.store, id);
      PeopleChangeKeepsSound(st, out.store);
    }
  }

  lemma UpsertPersonKeepsSound(st: Store, person: Repo.PersonInput, freshId: string)
    requires Sound(st)
    ensures Sound(PersonService.UpsertPerson(st, person, freshId).store)
  {
    if person.id.Some? && person.id.value != "" {
      var req := PersonService.PersonRequest(person.name, person.contact, person.notes);
      UpdatePersonKeepsSound(st, person.id.value, req);
      assert PersonService.UpsertPerson(st, person, freshId).store == PersonService.UpdatePerson(st, person.id.value, req).store;
    } else {
      CreatePersonKeepsSound(st, person, freshId);
    }
  }

  /** Deleting a person is refused while they have an open debt, so no open debt loses its person. */
  lemma DeletePersonKeepsSound(st: Store, id: string)
    requires Sound(st)
    ensures Sound(PersonService.DeletePerson(st, id).store)
  {
    var out := PersonService.DeletePerson(st, id);
    if out.result.Ok? {
      var after := out.store;
      forall i | 0 <= i < |st.debts| && st.debts[i].status == Open
        ensures HasPerson(after.people, st.debts[i].personId)
      {
        assert st.debts[i].personId != id;
        var k :| 0 <= k < |st.people| && st.people[k].id == st.debts[i].personId;
        assert st.people[k] in after.people;
      }
      PeopleChangeKeepsSound(st, after);
    }
  }

  /** A debt nobody has paid towards yet: no payment carries its id. */
  lemma UnknownDebtUnpaid(st: Store, id: string)
    requires Consistent(st) && !HasDebt(st.debts, id)
    ensures PaymentsRead(st.payments) && PaidCents(st.payments, id) == 0
  {
    ConsistentReads(st);
  }

  /** A debt created in whole cents, for an existing person, keeps the store sound. */
  lemma CreateDebtKeepsSound(st: Store, req: DebtService.CreateDebtRequest, freshId: string, now: string)
    requires Sound(st)
    ensures Sound(DebtService.CreateDebtInCents(st, req, freshId, now).store)
  {
    var out := DebtService.CreateDebtInCents(st, req, freshId, now);
    if out.result.Ok? {
      var row := DebtService.NewDebt(req, freshId, now);
      AppendDebtKeepsSound(st, row);
      assert out.store == st.(debts := st.debts + [row]);
    }
  }

  /** Appending an open debt in whole cents, for an existing person, under a new id keeps the store sound. */
  lemma AppendDebtKeepsSound(st: Store, row: Debt)
    requires Sound(st) && !HasDebt(st.debts, row.id)
    requires DebtService.CentsAmount(row.amountOriginal) && HasPerson(st.people, row.personId)
    ensures Sound(st.(debts := st.debts + [row]))
  {
    var after := st.(debts := st.debts + [row]);
    UnknownDebtUnpaid(st, row.id);
    assert UniqueDebts(after.debts) by {
      forall i, j | 0 <= i < j < |after.debts|
        ensures after.debts[i].id != after.debts[j].id
      {
        if j == |st.debts| {
          assert after.debts[i] == st.debts[i];
        } else {
          assert after.debts[i] == st.debts[i] && after.debts[j] == st.debts[j];
        }
      }
    }
    forall i | 0 <= i < |after.payments|
      ensures HasDebt(after.debts, after.payments[i].debtId)
    {
      var k :| 0 <= k < |st.debts| && st.debts[k].id == after.payments[i].debtId;
      assert after.debts[k] == st.debts[k];
    }
    forall i | 0 <= i < |after.debts|
      ensures DebtService.CentsAmount(after.debts[i].amountOriginal)
      ensures after.debts[i].status == Open ==> HasPerson(after.people, after.debts[i].personId)
      ensures TwoPlaces(after.debts[i].amountOriginal) ==>
                PaidCents(after.payments, after.debts[i].id) <= ExactCents(after.debts[i].amountOriginal)
    {
      if i < |st.debts| {
        assert after.debts[i] == st.debts[i];
      } else {
        assert after.debts[i] == row;
        AlignPositive(D(row.amountOriginal).value);
      }
    }
  }

  /** Statuses changing from open to settled, and nothing else, keep the store sound. */
  lemma SettlingKeepsSound(st: Store, after: Store)
    requires Sound(st) && SameDebtsButStatus(st.debts, after.debts)
    requires forall i :: 0 <= i < |after.debts| && after.debts[i].status == Open ==> st.debts[i].status == Open
    requires after.people == st.people && after.payments == st.payments
    ensures Sound(after)
  {
    assert UniqueDebts(after.debts) by {
      forall i, j | 0 <= i < j < |after.debts|
        ensures after.debts[i].id != after.debts[j].id
      {
        assert after.debts[i].id == st.debts[i].id && after.debts[j].id == st.debts[j].id;
      }
    }
    forall i | 0 <= i < |after.payments|
      ensures HasDebt(after.debts, after.payments[i].debtId)
    {
      SameRowsHaveSameIds(st.debts, after.debts, after.payments[i].debtId);
    }
    forall i | 0 <= i < |after.debts|
      ensures DebtService.CentsAmount(after.debts[i].amountOriginal)
      ensures after.debts[i].status == Open ==> HasPerson(after.people, after.debts[i].personId)
      ensures TwoPlaces(after.debts[i].amountOriginal) ==>
                PaidCents(after.payments, after.debts[i].id) <= ExactCents(after.debts[i].amountOriginal)
    {
      assert after.debts[i] == st.debts[i].(status := after.debts[i].status);
    }
  }

  /** Settling a debt by hand changes one status and no amount, so the store stays sound. */
  lemma MarkDebtSettledKeepsSound(st: Store, debtId: string)
    requires Sound(st)
    ensures Sound(DebtService.MarkDebtSettled(st, debtId).store)
  {
    var out := DebtService.MarkDebtSettled(st, debtId);
    if out.result.Ok? {
      SettlingOneKeepsSound(st, out.store, debtId);
    }
  }

  /** Settling every row with one id, and changing nothing else, keeps the store sound. */
  lemma SettlingOneKeepsSound(st: Store, after: Store, debtId: string)
    requires Sound(st) && |after.debts| == |st.debts|
    requires forall i :: 0 <= i < |st.debts| ==>
               after.debts[i] == if st.debts[i].id == debtId then st.debts[i].(status := Settled) else st.debts[i]
    requires after.people == st.people && after.payments == st.payments
    ensures Sound(after)
  {
    SettlingKeepsSound(st, after);
  }

  /** Removing a debt no payment points at keeps the store sound. */
  lemma RemovalKeepsSound(st: Store, after: Store, debtId: string)
    requires Sound(st) && after.people == st.people && after.payments == st.payments
    requires UniqueDebts(after.debts)
    requires forall d :: d in after.debts ==> d in st.debts
    requires forall d :: d in st.debts && d.id != debtId ==> d in after.debts
    requires forall p :: p in st.payments ==> p.debtId != debtId
    ensures Sound(after)
  {
    RemovalKeepsPaymentsPointing(st, after, debtId);
    RemovalKeepsRows(st, after);
  }

  /** Every payment still points at a debt once a debt no payment points at is gone. */
  lemma RemovalKeepsPaymentsPointing(st: Store, after: Store, debtId: string)
    requires Consistent(st) && after.payments == st.payments
    requires forall d :: d in st.debts && d.id != debtId ==> d in after.debts
    requires forall p :: p in st.payments ==> p.debtId != debtId
    ensures forall i :: 0 <= i < |after.payments| ==> HasDebt(after.debts, after.payments[i].debtId)
  {
    forall i | 0 <= i < |after.payments|
      ensures HasDebt(after.debts, after.payments[i].debtId)
    {
      var pay := after.payments[i];
      assert pay in st.payments;
      var k :| 0 <= k < |st.debts| && st.debts[k].id == pay.debtId;
      assert st.debts[k] in after.debts;
      var j :| 0 <= j < |after.debts| && after.debts[j] == st.debts[k];
    }
  }

  /** Rows kept from a sound store keep their amounts, owners and payments within bounds. */
  lemma RemovalKeepsRows(st: Store, after: Store)
    requires Sound(st) && after.people == st.people && after.payments == st.payments
    requires forall d :: d in after.debts ==> d in st.debts
    ensures forall i :: 0 <= i < |after.debts| ==>
              DebtService.CentsAmount(after.debts[i].amountOriginal)
              && (after.debts[i].status == Open ==> HasPerson(after.people, after.debts[i].personId))
    ensures PaymentsRead(after.payments)
    ensures forall i :: 0 <= i < |after.debts| && TwoPlaces(after.debts[i].amountOriginal) ==>
              PaidCents(after.payments, after.debts[i].id) <= ExactCents(after.debts[i].amountOriginal)
  {
    forall i | 0 <= i < |after.debts|
      ensures DebtService.CentsAmount(after.debts[i].amountOriginal)
      ensures after.debts[i].status == Open ==> HasPerson(after.people, after.debts[i].personId)
      ensures TwoPlaces(after.debts[i].amountOriginal) ==>
                PaidCents(after.payments, after.debts[i].id) <= ExactCents(after.debts[i].amountOriginal)
    {
      assert after.debts[i] in after.debts;
      var k :| 0 <= k < |st.debts| && st.debts[k] == after.debts[i];
    }
  }

  /** A debt is deleted only when it has no payments, so no payment is left pointing nowhere. */
  lemma DeleteDebtKeepsSound(st: Store, debtId: string)
    requires Sound(st)
    ensures Sound(DebtService.DeleteDebt(st, debtId).store)
  {
    var out := DebtService.DeleteDebt(st, debtId);
    if out.result.Ok? {
      RemovalKeepsSound(st, out.store, debtId);
    }
  }

  /** An amount changed in whole cents keeps the store consistent (though not paid within its amount). */
  lemma UpdateDebtKeepsConsistent(st: Store, debtId: string, u: DebtService.UpdateDebtRequest)
    requires Consistent(st)
    ensures Consistent(DebtService.UpdateDebtInCents(st, debtId, u).store)
  {
    var out := DebtService.UpdateDebtInCents(st, debtId, u);
    if out.result.Ok? {
      var after := out.store;
      assert UniqueDebts(after.debts) by {
        forall i, j | 0 <= i < j < |after.debts|
          ensures after.debts[i].id != after.debts[j].id
        {
          assert after.debts[i].id == st.debts[i].id && after.debts[j].id == st.debts[j].id;
        }
      }
      forall i | 0 <= i < |after.payments|
        ensures HasDebt(after.debts, after.payments[i].debtId)
      {
        var k :| 0 <= k < |st.debts| && st.debts[k].id == after.payments[i].debtId;
        assert after.debts[k].id == st.debts[k].id;
      }
    }
  }

  /**
   * `updateDebt` may lower a debt's amount below what has been paid towards it: the
   * update is accepted and the balance turns negative.
   */
  lemma UpdateCanUnderrunPayments(st: Store, k: nat, a: string)
    requires Sound(st) && k < |st.debts|
    requires DebtService.CentsAmount(a) && ExactCents(a) < PaidCents(st.payments, st.debts[k].id)
    ensures var out := DebtService.UpdateDebtInCents(st, st.debts[k].id, DebtService.UpdateDebtRequest(None, Some(a), None));
            out.result.Ok? && !PaidWithinOriginal(out.store)
            && Repo.GetDebtBalance(out.store, st.debts[k].id).Ok?
            && CentsOf(Repo.GetDebtBalance(out.store, st.debts[k].id).value) < 0
  {
    var id := st.debts[k].id;
    var out := DebtService.UpdateDebtInCents(st, id, DebtService.UpdateDebtRequest(None, Some(a), None));
    assert out.store.debts[k].amountOriginal == a && out.store.debts[k].id == id;
    UpdateDebtKeepsConsistent(st, id, DebtService.UpdateDebtRequest(None, Some(a), None));
    UnderrunBalance(st, out.store, k, a);
  }

  /** A debt whose amount is now below what was paid towards it has a balance below zero. */
  lemma UnderrunBalance(st: Store, after: Store, k: nat, a: string)
    requires Sound(st) && k < |st.debts| && Consistent(after)
    requires after.payments == st.payments && |after.debts| == |st.debts|
    requires after.debts[k].id == st.debts[k].id && after.debts[k].amountOriginal == a
    requires DebtService.CentsAmount(a) && ExactCents(a) < PaidCents(st.payments, st.debts[k].id)
    ensures !PaidWithinOriginal(after)
    ensures Repo.GetDebtBalance(after, st.debts[k].id).Ok?
    ensures CentsOf(Repo.GetDebtBalance(after, st.debts[k].id).value) < 0
  {
    FindDebtAt(after.debts, k);
    BalanceCents(after, st.debts[k].id);
  }

  // ------------------------------------------------------------ statuses

  /** Every debt keeps its place and id, and no settled debt is open again. */
  predicate KeepsSettled(before: Store, after: Store) {
    |before.debts| <= |after.debts|
    && forall i :: 0 <= i < |before.debts| ==>
         after.debts[i].id == before.debts[i].id
         && (before.debts[i].status == Settled ==> after.debts[i].status == Settled)
  }

  /** Creating a debt appends a row and reopens nothing. */
  lemma CreateDebtKeepsSettled(st: Store, req: DebtService.CreateDebtRequest, freshId: string, now: string)
    ensures KeepsSettled(st, DebtService.CreateDebt(st, req, freshId, now).store)
  {
    var after := DebtService.CreateDebt(st, req, freshId, now).store;
    assert forall i :: 0 <= i < |st.debts| ==> after.debts[i] == st.debts[i];
  }

  /** A payment can settle its debt but never reopens one. */
  lemma AddPaymentKeepsSettled(st: Store, p: DebtService.PaymentRequest, freshId: string)
    ensures KeepsSettled(st, DebtService.AddPaymentWithAutoSettle(st, p, freshId).store)
  {
    var paid := DebtService.AddPaymentWithAutoSettle(st, p, freshId);
    if DebtService.PaymentAdmitted(st, p) {
      var repo := Repo.AddPayment(st, Input(p), freshId);
      assert paid.store == repo.store;
      forall i | 0 <= i < |st.debts|
        ensures repo.store.debts[i].id == st.debts[i].id
        ensures st.debts[i].status == Settled ==> repo.store.debts[i].status == Settled
      {
        assert repo.store.debts[i] == Repo.Settle(st.debts[i], repo.store.debts[i].status == Settled) || repo.store.debts[i] == st.debts[i];
      }
    }
  }

  /** Editing a debt reopens nothing and moves no row. */
  lemma UpdateKeepsSettled(st: Store, id: string, u: DebtService.UpdateDebtRequest)
    ensures KeepsSettled(st, DebtService.UpdateDebt(st, id, u).store)
  {
  }

  /** Settling a debt by hand reopens nothing and moves no row. */
  lemma MarkSettledKeepsSettled(st: Store, id: string)
    ensures KeepsSettled(st, DebtService.MarkDebtSettled(st, id).store)
  {
  }
}
