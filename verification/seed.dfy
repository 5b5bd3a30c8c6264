/**
 * The demo data of `db/seed.ts`, and what the ledger reports once it is in place. The
 * seven ids the repository would draw at random and the clock are parameters.
 */
module Seed {
  import opened Wrappers
  import opened Errors
  import opened Strings
  import opened Decimal
  import opened Money
  import opened MoneyLaws
  import opened Ledger
  import opened Repo
  import opened RepoLaws
  import opened RepoTexts

  /** The ids drawn for the three people, the four debts and the three payments. */
  datatype SeedIds = SeedIds(
    alex: string, jordan: string, sam: string,
    groceries: string, rideshare: string, concert: string, snacks: string,
    pay1: string, pay2: string, pay3: string)

  /** No id appears twice in `xs`. */
  predicate NoRepeats(xs: seq<string>) {
    forall i, j :: 0 <= i < j < |xs| ==> xs[i] != xs[j]
  }

  /** Ids are drawn fresh within each table. */
  predicate Distinct(ids: SeedIds) {
    NoRepeats([ids.alex, ids.jordan, ids.sam])
    && NoRepeats([ids.groceries, ids.rideshare, ids.concert, ids.snacks])
    && NoRepeats([ids.pay1, ids.pay2, ids.pay3])
  }

  /** The distinctness of the ids, pair by pair. */
  lemma DistinctPairs(ids: SeedIds)
    requires Distinct(ids)
    ensures ids.alex != ids.jordan && ids.alex != ids.sam && ids.jordan != ids.sam
    ensures ids.groceries != ids.rideshare && ids.groceries != ids.concert && ids.groceries != ids.snacks
    ensures ids.rideshare != ids.concert && ids.rideshare != ids.snacks && ids.concert != ids.snacks
    ensures ids.pay1 != ids.pay2 && ids.pay1 != ids.pay3 && ids.pay2 != ids.pay3
  {
    var people := [ids.alex, ids.jordan, ids.sam];
    var debts := [ids.groceries, ids.rideshare, ids.concert, ids.snacks];
    var payments := [ids.pay1, ids.pay2, ids.pay3];
    assert people[0] != people[1] && people[0] != people[2] && people[1] != people[2];
    assert debts[0] != debts[1] && debts[0] != debts[2] && debts[0] != debts[3];
    assert debts[1] != debts[2] && debts[1] != debts[3] && debts[2] != debts[3];
    assert payments[0] != payments[1] && payments[0] != payments[2] && payments[1] != payments[2];
  }

  /** The amounts the seed writes. */
  const GroceriesAmount: string := "120.00"
  const GroceriesPayment: string := "40.00"
  const RideshareAmount: string := "60.00"
  const ConcertAmount: string := "200.00"
  const ConcertPayment: string := "50.00"
  const SnacksAmount: string := "25.00"

  function NewPerson(name: string): PersonInput {
    PersonInput(None, name, None, None)
  }

  function NewDebt(kind: DebtType, personId: string, description: string, amount: string, status: Option<Status>): DebtInput {
    DebtInput(None, kind, personId, Some(description), amount, None, None, status)
  }

  /** What a run of writes returns once its last write has returned. */
  function Done(o: Outcome<string>): (r: Outcome<()>)
    ensures r.store == o.store && (r.result.Ok? <==> o.result.Ok?)
  {
    Outcome(o.store, if o.result.Err? then Err(o.result.error) else Ok(()))
  }

  /**
   * `seedIfEmpty()`: three people, four debts (the last one created already settled) and
   * three payments, written one after another; the first write that throws ends the run.
   * Every timestamp is `now`. The store is not checked for emptiness first.
   */
  function SeedIfEmpty(st: Store, ids: SeedIds, now: string): (r: Outcome<()>)
    ensures |r.store.people| <= |st.people| + 3
    ensures st.payments <= r.store.payments
    ensures |st.debts| <= |r.store.debts| <= |st.debts| + 4
    ensures r.result.Ok? ==> |r.store.debts| == |st.debts| + 4 && |r.store.payments| == |st.payments| + 3
    ensures r.result.Ok? ==> r.store.debts[|r.store.debts| - 1] == Snacks(ids, now)
  {
    var (s3, alexId, jordanId, samId) := AddPeople(st, ids);
    AddDebts(s3, alexId, jordanId, samId, ids, now)
  }

  /** The three people, each under the id `upsertPerson` returns. */
  function AddPeople(st: Store, ids: SeedIds): (r: (Store, string, string, string))
    ensures |r.0.people| <= |st.people| + 3
    ensures r.0.debts == st.debts && r.0.payments == st.payments
    ensures r.1 == ids.alex && r.2 == ids.jordan && r.3 == ids.sam
  {
    var (s1, alexId) := UpsertPerson(st, NewPerson("Alex"), ids.alex);
    var (s2, jordanId) := UpsertPerson(s1, NewPerson("Jordan"), ids.jordan);
    var (s3, samId) := UpsertPerson(s2, NewPerson("Sam"), ids.sam);
    (s3, alexId, jordanId, samId)
  }

  /** The debts and payments, groceries first. */
  function AddDebts(st: Store, alexId: string, jordanId: string, samId: string, ids: SeedIds, now: string): (r: Outcome<()>)
    ensures r.store.people == st.people && st.payments <= r.store.payments
    ensures |st.debts| <= |r.store.debts| <= |st.debts| + 4
    ensures r.result.Ok? ==> |r.store.debts| == |st.debts| + 4 && |r.store.payments| == |st.payments| + 3
    ensures r.result.Ok? ==> r.store.debts[|r.store.debts| - 1] == Debt(ids.snacks, UOM, samId, Some("Snacks"), SnacksAmount, now, None, Settled)
  {
    var b1 := GroceriesBlock(st, alexId, ids, now);
    if b1.result.Err? then b1 else
    AddLaterDebts(b1.store, jordanId, samId, ids, now)
  }

  /** Rideshare, the concert tickets with their payments, then snacks. */
  function AddLaterDebts(st: Store, jordanId: string, samId: string, ids: SeedIds, now: string): (r: Outcome<()>)
    ensures r.store.people == st.people && st.payments <= r.store.payments
    ensures |st.debts| <= |r.store.debts| <= |st.debts| + 3
    ensures r.result.Ok? ==> |r.store.debts| == |st.debts| + 3 && |r.store.payments| == |st.payments| + 2
    ensures r.result.Ok? ==> r.store.debts[|r.store.debts| - 1] == Debt(ids.snacks, UOM, samId, Some("Snacks"), SnacksAmount, now, None, Settled)
  {
    var b2 := Done(CreateDebt(st, NewDebt(UOM, jordanId, "Rideshare", RideshareAmount, None), ids.rideshare, now));
    if b2.result.Err? then b2 else
    var b3 := ConcertBlock(b2.store, samId, ids, now);
    if b3.result.Err? then b3 else
    Done(CreateDebt(b3.store, NewDebt(UOM, samId, "Snacks", SnacksAmount, Some(Settled)), ids.snacks, now))
  }

  /** Groceries and its one payment. */
  function GroceriesBlock(st: Store, alexId: string, ids: SeedIds, now: string): (r: Outcome<()>)
    ensures r.store.people == st.people && st.payments <= r.store.payments
    ensures |st.debts| <= |r.store.debts| <= |st.debts| + 1
    ensures r.result.Ok? ==> |r.store.debts| == |st.debts| + 1 && |r.store.payments| == |st.payments| + 1
  {
    var c1 := CreateDebt(st, NewDebt(IOU, alexId, "Groceries", GroceriesAmount, None), ids.groceries, now);
    if c1.result.Err? then Done(c1) else
    Done(AddPayment(c1.store, PaymentInput(c1.result.value, GroceriesPayment, now, None), ids.pay1))
  }

  /** The concert tickets and their two payments. */
  function ConcertBlock(st: Store, samId: string, ids: SeedIds, now: string): (r: Outcome<()>)
    ensures r.store.people == st.people && st.payments <= r.store.payments
    ensures |st.debts| <= |r.store.debts| <= |st.debts| + 1
    ensures r.result.Ok? ==> |r.store.debts| == |st.debts| + 1 && |r.store.payments| == |st.payments| + 2
  {
    var c3 := CreateDebt(st, NewDebt(IOU, samId, "Concert tickets", ConcertAmount, None), ids.concert, now);
    if c3.result.Err? then Done(c3) else
    var p2 := AddPayment(c3.store, PaymentInput(c3.result.value, ConcertPayment, now, None), ids.pay2);
    if p2.result.Err? then Done(p2) else
    Done(AddPayment(p2.store, PaymentInput(c3.result.value, ConcertPayment, now, None), ids.pay3))
  }

  // ------------------------------------------------------------ the seeded rows

  function Alex(ids: SeedIds): Person { Person(ids.alex, "Alex", None, None) }
  function Jordan(ids: SeedIds): Person { Person(ids.jordan, "Jordan", None, None) }
  function Sam(ids: SeedIds): Person { Person(ids.sam, "Sam", None, None) }

  function Groceries(ids: SeedIds, now: string): Debt {
    Debt(ids.groceries, IOU, ids.alex, Some("Groceries"), GroceriesAmount, now, None, Open)
  }
  function Rideshare(ids: SeedIds, now: string): Debt {
    Debt(ids.rideshare, UOM, ids.jordan, Some("Rideshare"), RideshareAmount, now, None, Open)
  }
  function Concert(ids: SeedIds, now: string): Debt {
    Debt(ids.concert, IOU, ids.sam, Some("Concert tickets"), ConcertAmount, now, None, Open)
  }
  function Snacks(ids: SeedIds, now: string): Debt {
    Debt(ids.snacks, UOM, ids.sam, Some("Snacks"), SnacksAmount, now, None, Settled)
  }

  function People(ids: SeedIds): seq<Person> {
    [Alex(ids), Jordan(ids), Sam(ids)]
  }

  function Seeded(ids: SeedIds, now: string): Store {
    Store(People(ids),
          [Groceries(ids, now), Rideshare(ids, now), Concert(ids, now), Snacks(ids, now)],
          [Payment(ids.pay1, ids.groceries, GroceriesPayment, now, None),
           Payment(ids.pay2, ids.concert, ConcertPayment, now, None),
           Payment(ids.pay3, ids.concert, ConcertPayment, now, None)])
  }

  // ------------------------------------------------------------ amounts

  /** A whole-cent amount as `toFixed(2)` prints it reads back as exactly those cents. */
  lemma AmountReads(t: string, c: nat)
    requires t == Fixed2Text(false, c)
    ensures TwoPlaces(t) && ExactCents(t) == c && D(t).value.mant >= 0
  {
    Fixed2RoundTrip(false, c);
  }

  /** Printed two-place text is determined by its cents, unless those are zero. */
  lemma TextOfCents(t: string)
    requires IsFixed2(t) && CentsOf(t) != 0
    ensures t == Fixed2Text(CentsOf(t) < 0, Abs(CentsOf(t)))
  {
    Fixed2Reads(t);
    if t[0] == '-' {
      var u := t[1..];
      assert t == "-" + u;
      UnsignedFixed2Canonical(u);
      ParseSign(u);
    } else {
      UnsignedFixed2Canonical(t);
      ParseSign(t);
    }
  }
  /** Whole units print with ".00". */
  lemma WholeText(w: nat, negative: bool)
    ensures Fixed2Text(negative, w * 100) == (if negative then "-" else "") + NatToDigits(w) + ".00"
  {
    CentsTextOf(w * 100, w, 0, 0);
    assert [DigitChar(0), DigitChar(0)] == "00";
  }

  lemma TwoDigits(n: nat)
    requires 10 <= n < 100
    ensures NatToDigits(n) == [DigitChar(n / 10), DigitChar(n % 10)]
  {
  }

  lemma ThreeDigits(n: nat)
    requires 100 <= n < 1000
    ensures NatToDigits(n) == [DigitChar(n / 100), DigitChar(n / 10 % 10), DigitChar(n % 10)]
  {
    TwoDigits(n / 10);
  }

  /** The text of a whole amount below 1000, digit by digit. */
  lemma WholeLiteral(w: nat, negative: bool, t: string)
    requires 10 <= w < 1000
    requires t == (if negative then "-" else "") + (if w < 100 then [DigitChar(w / 10), DigitChar(w % 10)]
                                                    else [DigitChar(w / 100), DigitChar(w / 10 % 10), DigitChar(w % 10)]) + ".00"
    ensures Fixed2Text(negative, w * 100) == t
  {
    WholeText(w, negative);
    if w < 100 {
      TwoDigits(w);
    } else {
      ThreeDigits(w);
    }
  }

  /** The texts of the seeded debt amounts. */
  lemma DebtTexts()
    ensures Fixed2Text(false, 12000) == GroceriesAmount
    ensures Fixed2Text(false, 6000) == RideshareAmount
    ensures Fixed2Text(false, 20000) == ConcertAmount
    ensures Fixed2Text(false, 2500) == SnacksAmount
  {
    WholeLiteral(120, false, GroceriesAmount);
    WholeLiteral(60, false, RideshareAmount);
    WholeLiteral(200, false, ConcertAmount);
    WholeLiteral(25, false, SnacksAmount);
  }

  /** The texts of the seeded payment amounts. */
  lemma PaymentTexts()
    ensures Fixed2Text(false, 4000) == GroceriesPayment
    ensures Fixed2Text(false, 5000) == ConcertPayment
  {
    WholeLiteral(40, false, GroceriesPayment);
    WholeLiteral(50, false, ConcertPayment);
  }

  /** The texts of the balances left after the payments. */
  lemma BalanceTexts()
    ensures Fixed2Text(false, 8000) == "80.00"
    ensures Fixed2Text(false, 10000) == "100.00"
  {
    WholeLiteral(80, false, "80.00");
    WholeLiteral(100, false, "100.00");
  }

  // ------------------------------------------------------------ one write at a time

  /** `upsertPerson` with no id and a fresh one drawn appends the person. */
  lemma AppendPerson(st: Store, name: string, id: string)
    requires !HasPerson(st.people, id)
    ensures UpsertPerson(st, NewPerson(name), id) == (st.(people := st.people + [Person(id, name, None, None)]), id)
  {
  }

  /** `createDebt` with no id and a fresh one drawn appends the debt. */
  lemma AppendDebt(st: Store, dbt: DebtInput, id: string, now: string)
    requires dbt.id.None? && dbt.createdAt.None? && !HasDebt(st.debts, id)
    ensures CreateDebt(st, dbt, id, now)
            == Outcome(st.(debts := st.debts + [Debt(id, dbt.kind, dbt.personId, dbt.description, dbt.amountOriginal,
                                                      now, dbt.dueAt, dbt.status.GetOr(Open))]), Ok(id))
  {
  }

  /** A payment that leaves more than a cent to pay is recorded and settles nothing. */
  lemma PaymentLeavesOpen(st: Store, p: PaymentInput, freshId: string)
    requires !HasPayment(st.payments, freshId)
    requires var inserted := st.(payments := st.payments + [Payment(freshId, p.debtId, p.amount, p.date, p.note)]);
             GetDebtBalance(inserted, p.debtId).Ok? && CentsOf(GetDebtBalance(inserted, p.debtId).value) > 1
    ensures AddPayment(st, p, freshId)
            == Outcome(st.(payments := st.payments + [Payment(freshId, p.debtId, p.amount, p.date, p.note)]), Ok(freshId))
  {
    var inserted := st.(payments := st.payments + [Payment(freshId, p.debtId, p.amount, p.date, p.note)]);
    var out := AddPayment(st, p, freshId);
    SettlesIffAtMostOneCent(GetDebtBalance(inserted, p.debtId).value);
    assert out.store.debts == st.debts;
  }

  /** One or two amounts of whole cents add up to their cents. */
  lemma AmountsSum(a: string, ca: nat, b: string, cb: nat)
    requires a == Fixed2Text(false, ca) && b == Fixed2Text(false, cb)
    ensures AllNonNegative([a]) && SumCents([a]) == ca
    ensures AllNonNegative([a, b]) && SumCents([a, b]) == ca + cb
  {
    AmountReads(a, ca);
    AmountReads(b, cb);
    CentsExact(D(a).value);
    CentsExact(D(b).value);
    assert AmountCents(a) == ca && AmountCents(b) == cb;
    assert [a][1..] == [] && [a, b][1..] == [b];
    assert SumCents([b]) == cb;
  }

  /** A debt's balance, printed, when its amount and its payments are whole cents. */
  lemma BalanceText(st: Store, id: string, co: nat, paid: seq<string>, cp: nat)
    requires FindDebt(st.debts, id).Some? && FindDebt(st.debts, id).value.amountOriginal == Fixed2Text(false, co)
    requires Amounts(PaymentsOf(st.payments, id)) == paid && AllNonNegative(paid) && SumCents(paid) == cp
    requires cp < co
    ensures GetDebtBalance(st, id) == Ok(Fixed2Text(false, co - cp))
  {
    AmountReads(Fixed2Text(false, co), co);
    BalanceIsOriginalMinusPaid(st, id);
    TextOfCents(GetDebtBalance(st, id).value);
  }

  /**
   * Recording payment `q` on a debt whose amount and payments are whole cents, leaving
   * more than a cent to pay, appends it and settles nothing.
   */
  lemma PaymentStep(st: Store, q: Payment, co: nat, paid: seq<string>, cp: nat)
    requires !HasPayment(st.payments, q.id)
    requires FindDebt(st.debts, q.debtId).Some? && FindDebt(st.debts, q.debtId).value.amountOriginal == Fixed2Text(false, co)
    requires Amounts(PaymentsOf(st.payments + [q], q.debtId)) == paid && AllNonNegative(paid) && SumCents(paid) == cp
    requires cp + 1 < co
    ensures AddPayment(st, PaymentInput(q.debtId, q.amount, q.date, q.note), q.id) == Outcome(st.(payments := st.payments + [q]), Ok(q.id))
  {
    var p := PaymentInput(q.debtId, q.amount, q.date, q.note);
    assert q == Payment(q.id, p.debtId, p.amount, p.date, p.note);
    var inserted := st.(payments := st.payments + [q]);
    BalanceText(inserted, q.debtId, co, paid, cp);
    Fixed2RoundTrip(false, co - cp);
    PaymentLeavesOpen(st, p, q.id);
  }

  /** `PaymentStep` for a debt's first payment. */
  lemma FirstPaymentStep(st: Store, q: Payment, co: nat, ca: nat)
    requires !HasPayment(st.payments, q.id)
    requires FindDebt(st.debts, q.debtId).Some? && FindDebt(st.debts, q.debtId).value.amountOriginal == Fixed2Text(false, co)
    requires Amounts(PaymentsOf(st.payments + [q], q.debtId)) == [Fixed2Text(false, ca)]
    requires ca + 1 < co
    ensures AddPayment(st, PaymentInput(q.debtId, q.amount, q.date, q.note), q.id) == Outcome(st.(payments := st.payments + [q]), Ok(q.id))
  {
    AmountsSum(Fixed2Text(false, ca), ca, Fixed2Text(false, ca), ca);
    PaymentStep(st, q, co, [Fixed2Text(false, ca)], ca);
  }

  /** `PaymentStep` for a debt's second payment. */
  lemma SecondPaymentStep(st: Store, q: Payment, co: nat, ca: nat, cb: nat)
    requires !HasPayment(st.payments, q.id)
    requires FindDebt(st.debts, q.debtId).Some? && FindDebt(st.debts, q.debtId).value.amountOriginal == Fixed2Text(false, co)
    requires Amounts(PaymentsOf(st.payments + [q], q.debtId)) == [Fixed2Text(false, ca), Fixed2Text(false, cb)]
    requires ca + cb + 1 < co
    ensures AddPayment(st, PaymentInput(q.debtId, q.amount, q.date, q.note), q.id) == Outcome(st.(payments := st.payments + [q]), Ok(q.id))
  {
    AmountsSum(Fixed2Text(false, ca), ca, Fixed2Text(false, cb), cb);
    PaymentStep(st, q, co, [Fixed2Text(false, ca), Fixed2Text(false, cb)], ca + cb);
  }

  // ------------------------------------------------------------ the run

  /** The three people are appended in order. */
  lemma PeopleStage(ids: SeedIds)
    requires Distinct(ids)
    ensures UpsertPerson(EmptyStore, NewPerson("Alex"), ids.alex) == (Store([Alex(ids)], [], []), ids.alex)
    ensures UpsertPerson(Store([Alex(ids)], [], []), NewPerson("Jordan"), ids.jordan)
            == (Store([Alex(ids), Jordan(ids)], [], []), ids.jordan)
    ensures UpsertPerson(Store([Alex(ids), Jordan(ids)], [], []), NewPerson("Sam"), ids.sam)
            == (Store(People(ids), [], []), ids.sam)
  {
    DistinctPairs(ids);
    AppendPerson(EmptyStore, "Alex", ids.alex);
    assert [] + [Alex(ids)] == [Alex(ids)];
    AppendPerson(Store([Alex(ids)], [], []), "Jordan", ids.jordan);
    assert [Alex(ids)] + [Jordan(ids)] == [Alex(ids), Jordan(ids)];
    AppendPerson(Store([Alex(ids), Jordan(ids)], [], []), "Sam", ids.sam);
    assert [Alex(ids), Jordan(ids)] + [Sam(ids)] == People(ids);
  }

  /** Groceries, then its 40.00 payment, which leaves 80.00 to pay. */
  lemma GroceriesStage(ids: SeedIds, now: string)
    requires Distinct(ids)
    ensures CreateDebt(Store(People(ids), [], []), NewDebt(IOU, ids.alex, "Groceries", GroceriesAmount, None), ids.groceries, now)
            == Outcome(Store(People(ids), [Groceries(ids, now)], []), Ok(ids.groceries))
    ensures AddPayment(Store(People(ids), [Groceries(ids, now)], []), PaymentInput(ids.groceries, GroceriesPayment, now, None), ids.pay1)
            == Outcome(Store(People(ids), [Groceries(ids, now)], [Payment(ids.pay1, ids.groceries, GroceriesPayment, now, None)]), Ok(ids.pay1))
  {
    DistinctPairs(ids);
    AppendDebt(Store(People(ids), [], []), NewDebt(IOU, ids.alex, "Groceries", GroceriesAmount, None), ids.groceries, now);
    assert [] + [Groceries(ids, now)] == [Groceries(ids, now)];
    var q := Payment(ids.pay1, ids.groceries, GroceriesPayment, now, None);
    DebtTexts();
    PaymentTexts();
    assert [] + [q] == [q];
    assert Amounts(PaymentsOf([q], ids.groceries)) == [GroceriesPayment];
    FirstPaymentStep(Store(People(ids), [Groceries(ids, now)], []), q, 12000, 4000);
  }

  /** Rideshare and the concert tickets are appended after groceries. */
  lemma DebtsStage(ids: SeedIds, now: string)
    requires Distinct(ids)
    ensures var p1 := [Payment(ids.pay1, ids.groceries, GroceriesPayment, now, None)];
            CreateDebt(Store(People(ids), [Groceries(ids, now)], p1), NewDebt(UOM, ids.jordan, "Rideshare", RideshareAmount, None), ids.rideshare, now)
            == Outcome(Store(People(ids), [Groceries(ids, now), Rideshare(ids, now)], p1), Ok(ids.rideshare))
            && CreateDebt(Store(People(ids), [Groceries(ids, now), Rideshare(ids, now)], p1),
                          NewDebt(IOU, ids.sam, "Concert tickets", ConcertAmount, None), ids.concert, now)
               == Outcome(Store(People(ids), [Groceries(ids, now), Rideshare(ids, now), Concert(ids, now)], p1), Ok(ids.concert))
  {
    DistinctPairs(ids);
    var p1 := [Payment(ids.pay1, ids.groceries, GroceriesPayment, now, None)];
    AppendDebt(Store(People(ids), [Groceries(ids, now)], p1), NewDebt(UOM, ids.jordan, "Rideshare", RideshareAmount, None), ids.rideshare, now);
    assert [Groceries(ids, now)] + [Rideshare(ids, now)] == [Groceries(ids, now), Rideshare(ids, now)];
    AppendDebt(Store(People(ids), [Groceries(ids, now), Rideshare(ids, now)], p1),
               NewDebt(IOU, ids.sam, "Concert tickets", ConcertAmount, None), ids.concert, now);
    assert [Groceries(ids, now), Rideshare(ids, now)] + [Concert(ids, now)] == [Groceries(ids, now), Rideshare(ids, now), Concert(ids, now)];
  }

  function SeedDebts(ids: SeedIds, now: string): seq<Debt> {
    [Groceries(ids, now), Rideshare(ids, now), Concert(ids, now)]
  }

  function Paid(ids: SeedIds, now: string, k: nat): Payment
    requires k < 3
  {
    Seeded(ids, now).payments[k]
  }

  lemma ConcertFound(ids: SeedIds, now: string)
    requires Distinct(ids)
    ensures FindDebt(SeedDebts(ids, now), ids.concert) == Some(Concert(ids, now))
  {
    DistinctPairs(ids);
    assert UniqueDebts(SeedDebts(ids, now));
    FindDebtAt(SeedDebts(ids, now), 2);
  }

  /** The first 50.00 payment on the concert tickets leaves 150.00 to pay. */
  lemma ConcertFirstPayment(ids: SeedIds, now: string)
    requires Distinct(ids)
    ensures AddPayment(Store(People(ids), SeedDebts(ids, now), [Paid(ids, now, 0)]), PaymentInput(ids.concert, ConcertPayment, now, None), ids.pay2)
            == Outcome(Store(People(ids), SeedDebts(ids, now), [Paid(ids, now, 0), Paid(ids, now, 1)]), Ok(ids.pay2))
  {
    DistinctPairs(ids);
    var q1 := Paid(ids, now, 0);
    var q2 := Paid(ids, now, 1);
    ConcertFirstFacts(ids, now);
    ConcertFirstStep(ids, now, q1, q2, 20000, 5000);
    assert [q1] + [q2] == [q1, q2];
  }

  /** What the first concert payment meets: a new id, the debt at 200.00, itself its only payment. */
  lemma ConcertFirstFacts(ids: SeedIds, now: string)
    requires Distinct(ids)
    ensures !HasPayment([Paid(ids, now, 0)], Paid(ids, now, 1).id)
    ensures FindDebt(SeedDebts(ids, now), Paid(ids, now, 1).debtId).Some?
    ensures FindDebt(SeedDebts(ids, now), Paid(ids, now, 1).debtId).value.amountOriginal == Fixed2Text(false, 20000)
    ensures Amounts(PaymentsOf([Paid(ids, now, 0)] + [Paid(ids, now, 1)], Paid(ids, now, 1).debtId)) == [Fixed2Text(false, 5000)]
  {
    var q1 := Paid(ids, now, 0);
    var q2 := Paid(ids, now, 1);
    SecondPaymentFresh(ids, now);
    DebtTexts();
    PaymentTexts();
    ConcertFound(ids, now);
    assert [q1] + [q2] == [q1, q2];
    assert PaymentsOf([q1, q2], ids.concert) == [q2];
  }

  lemma SecondPaymentFresh(ids: SeedIds, now: string)
    requires Distinct(ids)
    ensures !HasPayment([Paid(ids, now, 0)], Paid(ids, now, 1).id)
  {
    DistinctPairs(ids);
    assert [Paid(ids, now, 0)][0].id == ids.pay1;
  }

  /** The second one leaves 100.00. */
  lemma ConcertSecondPayment(ids: SeedIds, now: string)
    requires Distinct(ids)
    ensures AddPayment(Store(People(ids), SeedDebts(ids, now), [Paid(ids, now, 0), Paid(ids, now, 1)]),
                       PaymentInput(ids.concert, ConcertPayment, now, None), ids.pay3)
            == Outcome(Store(People(ids), SeedDebts(ids, now), Seeded(ids, now).payments), Ok(ids.pay3))
  {
    ConcertSecondFacts(ids, now);
    ConcertSecondStep(ids, now, Paid(ids, now, 0), Paid(ids, now, 1), Paid(ids, now, 2), 20000, 5000);
  }

  /** What the second concert payment meets: a new id, the debt at 200.00, two payments of 50.00. */
  lemma ConcertSecondFacts(ids: SeedIds, now: string)
    requires Distinct(ids)
    ensures !HasPayment([Paid(ids, now, 0), Paid(ids, now, 1)], Paid(ids, now, 2).id)
    ensures FindDebt(SeedDebts(ids, now), Paid(ids, now, 2).debtId).Some?
    ensures FindDebt(SeedDebts(ids, now), Paid(ids, now, 2).debtId).value.amountOriginal == Fixed2Text(false, 20000)
    ensures Amounts(PaymentsOf([Paid(ids, now, 0), Paid(ids, now, 1)] + [Paid(ids, now, 2)], Paid(ids, now, 2).debtId))
            == [Fixed2Text(false, 5000), Fixed2Text(false, 5000)]
    ensures [Paid(ids, now, 0), Paid(ids, now, 1)] + [Paid(ids, now, 2)] == Seeded(ids, now).payments
  {
    ThirdPaymentFresh(ids, now);
    DebtTexts();
    ConcertFound(ids, now);
    ConcertPaid(ids, now);
  }

  lemma ThirdPaymentFresh(ids: SeedIds, now: string)
    requires Distinct(ids)
    ensures !HasPayment([Paid(ids, now, 0), Paid(ids, now, 1)], Paid(ids, now, 2).id)
  {
    DistinctPairs(ids);
    var ps := [Paid(ids, now, 0), Paid(ids, now, 1)];
    assert ps[0].id == ids.pay1 && ps[1].id == ids.pay2;
  }

  /** Both concert payments, in the order written, and nothing else, are the concert's. */
  lemma ConcertPaid(ids: SeedIds, now: string)
    requires Distinct(ids)
    ensures Amounts(PaymentsOf([Paid(ids, now, 0), Paid(ids, now, 1)] + [Paid(ids, now, 2)], ids.concert))
            == [Fixed2Text(false, 5000), Fixed2Text(false, 5000)]
  {
    DistinctPairs(ids);
    var q1 := Paid(ids, now, 0);
    var q2 := Paid(ids, now, 1);
    var q3 := Paid(ids, now, 2);
    PaymentTexts();
    assert [q1, q2] + [q3] == [q1, q2, q3];
    assert PaymentsOf([q3], ids.concert) == [q3];
    assert PaymentsOf([q2, q3], ids.concert) == [q2] + [q3] by {
      assert [q2, q3][1..] == [q3];
    }
    assert PaymentsOf([q1, q2, q3], ids.concert) == [q2, q3] by {
      assert [q1, q2, q3][1..] == [q2, q3];
    }
    assert Amounts([q2, q3]) == [ConcertPayment, ConcertPayment];
  }

  /** The second concert payment as a step on amounts of `co` and twice `ca` cents. */
  lemma ConcertSecondStep(ids: SeedIds, now: string, q1: Payment, q2: Payment, q3: Payment, co: nat, ca: nat)
    requires !HasPayment([q1, q2], q3.id)
    requires FindDebt(SeedDebts(ids, now), q3.debtId).Some?
    requires FindDebt(SeedDebts(ids, now), q3.debtId).value.amountOriginal == Fixed2Text(false, co)
    requires Amounts(PaymentsOf([q1, q2] + [q3], q3.debtId)) == [Fixed2Text(false, ca), Fixed2Text(false, ca)]
    requires ca + ca + 1 < co
    ensures AddPayment(Store(People(ids), SeedDebts(ids, now), [q1, q2]), PaymentInput(q3.debtId, q3.amount, q3.date, q3.note), q3.id)
            == Outcome(Store(People(ids), SeedDebts(ids, now), [q1, q2] + [q3]), Ok(q3.id))
  {
    SecondPaymentStep(Store(People(ids), SeedDebts(ids, now), [q1, q2]), q3, co, ca, ca);
  }

  /** The first concert payment as a step on amounts of `co` and `ca` cents. */
  lemma ConcertFirstStep(ids: SeedIds, now: string, q1: Payment, q2: Payment, co: nat, ca: nat)
    requires !HasPayment([q1], q2.id)
    requires FindDebt(SeedDebts(ids, now), q2.debtId).Some?
    requires FindDebt(SeedDebts(ids, now), q2.debtId).value.amountOriginal == Fixed2Text(false, co)
    requires Amounts(PaymentsOf([q1] + [q2], q2.debtId)) == [Fixed2Text(false, ca)]
    requires ca + 1 < co
    ensures AddPayment(Store(People(ids), SeedDebts(ids, now), [q1]), PaymentInput(q2.debtId, q2.amount, q2.date, q2.note), q2.id)
            == Outcome(Store(People(ids), SeedDebts(ids, now), [q1] + [q2]), Ok(q2.id))
  {
    FirstPaymentStep(Store(People(ids), SeedDebts(ids, now), [q1]), q2, co, ca);
  }

  /** Snacks goes in last, already settled. */
  lemma SnacksStage(ids: SeedIds, now: string)
    requires Distinct(ids)
    ensures CreateDebt(Store(People(ids), SeedDebts(ids, now), Seeded(ids, now).payments),
                       NewDebt(UOM, ids.sam, "Snacks", SnacksAmount, Some(Settled)), ids.snacks, now)
            == Outcome(Seeded(ids, now), Ok(ids.snacks))
  {
    DistinctPairs(ids);
    var st := Store(People(ids), SeedDebts(ids, now), Seeded(ids, now).payments);
    AppendDebt(st, NewDebt(UOM, ids.sam, "Snacks", SnacksAmount, Some(Settled)), ids.snacks, now);
    assert SeedDebts(ids, now) + [Snacks(ids, now)] == Seeded(ids, now).debts;
  }

  lemma GroceriesBlockRun(ids: SeedIds, now: string)
    requires Distinct(ids)
    ensures GroceriesBlock(Store(People(ids), [], []), ids.alex, ids, now)
            == Outcome(Store(People(ids), [Groceries(ids, now)], [Paid(ids, now, 0)]), Ok(()))
  {
    DistinctPairs(ids);
    GroceriesStage(ids, now);
  }

  lemma ConcertBlockRun(ids: SeedIds, now: string)
    requires Distinct(ids)
    ensures ConcertBlock(Store(People(ids), [Groceries(ids, now), Rideshare(ids, now)], [Paid(ids, now, 0)]), ids.sam, ids, now)
            == Outcome(Store(People(ids), SeedDebts(ids, now), Seeded(ids, now).payments), Ok(()))
  {
    DistinctPairs(ids);
    DebtsStage(ids, now);
    ConcertFirstPayment(ids, now);
    ConcertSecondPayment(ids, now);
  }

  lemma PeopleRun(ids: SeedIds)
    requires Distinct(ids)
    ensures AddPeople(EmptyStore, ids) == (Store(People(ids), [], []), ids.alex, ids.jordan, ids.sam)
  {
    PeopleStage(ids);
  }

  lemma LaterDebtsRun(ids: SeedIds, now: string)
    requires Distinct(ids)
    ensures AddLaterDebts(Store(People(ids), [Groceries(ids, now)], [Paid(ids, now, 0)]), ids.jordan, ids.sam, ids, now)
            == Outcome(Seeded(ids, now), Ok(()))
  {
    DebtsStage(ids, now);
    ConcertBlockRun(ids, now);
    SnacksStage(ids, now);
  }

  lemma DebtsRun(ids: SeedIds, now: string)
    requires Distinct(ids)
    ensures AddDebts(Store(People(ids), [], []), ids.alex, ids.jordan, ids.sam, ids, now) == Outcome(Seeded(ids, now), Ok(()))
  {
    GroceriesBlockRun(ids, now);
    LaterDebtsRun(ids, now);
  }

  /**
   * Run on an empty store with distinct ids, the seed succeeds and leaves exactly the
   * three people, four debts and three payments, in the order written.
   */
  lemma SeedRun(ids: SeedIds, now: string)
    requires Distinct(ids)
    ensures SeedIfEmpty(EmptyStore, ids, now) == Outcome(Seeded(ids, now), Ok(()))
  {
    PeopleRun(ids);
    DebtsRun(ids, now);
  }

  // ------------------------------------------------------------ what the ledger then reports

  /** Amounts that are all printed whole cents read as numbers of at least zero. */
  lemma WholeAmountsRead(debts: seq<Debt>, cs: seq<nat>)
    requires |debts| == |cs|
    requires forall i :: 0 <= i < |cs| ==> debts[i].amountOriginal == Fixed2Text(false, cs[i])
    ensures DebtAmountsNonNegative(debts)
  {
    forall i | 0 <= i < |debts|
      ensures D(debts[i].amountOriginal).Ok? && D(debts[i].amountOriginal).value.mant >= 0
    {
      AmountReads(debts[i].amountOriginal, cs[i]);
    }
  }

  /** Every seeded debt's amount reads as a number of at least zero. */
  lemma SeededAmountsRead(ids: SeedIds, now: string)
    ensures DebtAmountsNonNegative(Seeded(ids, now).debts)
  {
    DebtTexts();
    WholeAmountsRead(Seeded(ids, now).debts, [12000, 6000, 20000, 2500]);
  }

  lemma SeededDebtsUnique(ids: SeedIds, now: string)
    requires Distinct(ids)
    ensures UniqueDebts(Seeded(ids, now).debts)
  {
    DistinctPairs(ids);
  }

  /** The balance of a debt with one payment, all in whole cents. */
  lemma OnePaymentBalance(st: Store, id: string, co: nat, a: Payment, ca: nat)
    requires FindDebt(st.debts, id).Some? && FindDebt(st.debts, id).value.amountOriginal == Fixed2Text(false, co)
    requires a.amount == Fixed2Text(false, ca) && PaymentsOf(st.payments, id) == [a] && ca < co
    ensures GetDebtBalance(st, id) == Ok(Fixed2Text(false, co - ca))
  {
    AmountsSum(a.amount, ca, a.amount, ca);
    assert Amounts([a]) == [a.amount];
    BalanceText(st, id, co, [a.amount], ca);
  }

  /** The balance of a debt with two payments, all in whole cents. */
  lemma TwoPaymentsBalance(st: Store, id: string, co: nat, a: Payment, b: Payment, ca: nat, cb: nat)
    requires FindDebt(st.debts, id).Some? && FindDebt(st.debts, id).value.amountOriginal == Fixed2Text(false, co)
    requires a.amount == Fixed2Text(false, ca) && b.amount == Fixed2Text(false, cb)
    requires PaymentsOf(st.payments, id) == [a, b] && ca + cb < co
    ensures GetDebtBalance(st, id) == Ok(Fixed2Text(false, co - (ca + cb)))
  {
    AmountsSum(a.amount, ca, b.amount, cb);
    assert Amounts([a, b]) == [a.amount, b.amount];
    BalanceText(st, id, co, [a.amount, b.amount], ca + cb);
  }

  /** Groceries: 120.00 less its one 40.00 payment leaves 80.00, and it stays open. */
  lemma GroceriesBalance(ids: SeedIds, now: string)
    requires Distinct(ids)
    ensures GetDebtBalance(Seeded(ids, now), ids.groceries) == Ok("80.00")
    ensures Seeded(ids, now).debts[0].id == ids.groceries && Seeded(ids, now).debts[0].status == Open
  {
    DistinctPairs(ids);
    var st := Seeded(ids, now);
    SeededDebtsUnique(ids, now);
    FindDebtAt(st.debts, 0);
    WholeLiteral(120, false, GroceriesAmount);
    WholeLiteral(40, false, GroceriesPayment);
    WholeLiteral(80, false, "80.00");
    var q1 := Paid(ids, now, 0);
    var q2 := Paid(ids, now, 1);
    var q3 := Paid(ids, now, 2);
    assert PaymentsOf([q3], ids.groceries) == [];
    assert PaymentsOf([q2, q3], ids.groceries) == [] by {
      assert [q2, q3][1..] == [q3];
    }
    assert PaymentsOf(st.payments, ids.groceries) == [q1] by {
      assert st.payments == [q1, q2, q3] && st.payments[1..] == [q2, q3];
    }
    OnePaymentBalance(st, ids.groceries, 12000, q1, 4000);
  }

  /** The seeded payments, selected per debt. */
  lemma SeededPaymentsOf(ids: SeedIds, now: string)
    requires Distinct(ids)
    ensures PaymentsOf(Seeded(ids, now).payments, ids.groceries) == [Paid(ids, now, 0)]
    ensures PaymentsOf(Seeded(ids, now).payments, ids.concert) == [Paid(ids, now, 1), Paid(ids, now, 2)]
  {
    DistinctPairs(ids);
    var q1 := Paid(ids, now, 0);
    var q2 := Paid(ids, now, 1);
    var q3 := Paid(ids, now, 2);
    assert Seeded(ids, now).payments == [q1, q2, q3];
    assert [q1, q2, q3][1..] == [q2, q3];
    assert [q2, q3][1..] == [q3];
    assert PaymentsOf([q3], ids.groceries) == [];
    assert PaymentsOf([q3], ids.concert) == [q3];
  }

  /** Concert tickets: 200.00 less two 50.00 payments leaves 100.00, and it stays open. */
  lemma ConcertBalance(ids: SeedIds, now: string)
    requires Distinct(ids)
    ensures GetDebtBalance(Seeded(ids, now), ids.concert) == Ok("100.00")
    ensures Seeded(ids, now).debts[2].id == ids.concert && Seeded(ids, now).debts[2].status == Open
  {
    ConcertBalanceFacts(ids, now);
    TwoPaymentsBalance(Seeded(ids, now), ids.concert, 20000, Paid(ids, now, 1), Paid(ids, now, 2), 5000, 5000);
    BalanceTexts();
  }

  /** What the concert balance is made of: the debt at 200.00 and its two 50.00 payments. */
  lemma ConcertBalanceFacts(ids: SeedIds, now: string)
    requires Distinct(ids)
    ensures FindDebt(Seeded(ids, now).debts, ids.concert) == Some(Concert(ids, now))
    ensures Concert(ids, now).amountOriginal == Fixed2Text(false, 20000)
    ensures Paid(ids, now, 1).amount == Fixed2Text(false, 5000) && Paid(ids, now, 2).amount == Fixed2Text(false, 5000)
    ensures PaymentsOf(Seeded(ids, now).payments, ids.concert) == [Paid(ids, now, 1), Paid(ids, now, 2)]
  {
    SeededDebtsUnique(ids, now);
    FindDebtAt(Seeded(ids, now).debts, 2);
    DebtTexts();
    PaymentTexts();
    SeededPaymentsOf(ids, now);
  }

  /** The amount of `d` when it is counted, as a selection of one row. */
  function Pick(d: Debt, kind: DebtType, personId: Option<string>): seq<string> {
    if Counted(d, kind, personId) then [d.amountOriginal] else []
  }

  /** The open-amount selection over four rows, row by row. */
  lemma OpenAmountsOfFour(debts: seq<Debt>, kind: DebtType, personId: Option<string>)
    requires |debts| == 4
    ensures OpenAmounts(debts, kind, personId)
            == Pick(debts[0], kind, personId) + Pick(debts[1], kind, personId)
               + Pick(debts[2], kind, personId) + Pick(debts[3], kind, personId)
  {
    var t1, t2, t3 := debts[1..], debts[2..], debts[3..];
    var p0, p1, p2, p3 := Pick(debts[0], kind, personId), Pick(debts[1], kind, personId),
                          Pick(debts[2], kind, personId), Pick(debts[3], kind, personId);
    assert t1[1..] == t2 && t2[1..] == t3 && t3[1..] == [];
    assert t1[0] == debts[1] && t2[0] == debts[2] && t3[0] == debts[3];
    OpenAmountsStep(t3, kind, personId);
    assert OpenAmounts(t3, kind, personId) == p3;
    OpenAmountsStep(t2, kind, personId);
    OpenAmountsStep(t1, kind, personId);
    OpenAmountsStep(debts, kind, personId);
    assert OpenAmounts(debts, kind, personId) == p0 + (p1 + (p2 + p3));
    assert p0 + (p1 + (p2 + p3)) == p0 + p1 + p2 + p3;
  }

  lemma OpenAmountsStep(debts: seq<Debt>, kind: DebtType, personId: Option<string>)
    requires |debts| > 0
    ensures OpenAmounts(debts, kind, personId) == Pick(debts[0], kind, personId) + OpenAmounts(debts[1..], kind, personId)
  {
  }

  /** Open debts over everybody: Groceries and Concert are IOUs, Rideshare the one UOM. */
  lemma SeededOpenAll(ids: SeedIds, now: string)
    ensures OpenAmounts(Seeded(ids, now).debts, IOU, None) == [GroceriesAmount, ConcertAmount]
    ensures OpenAmounts(Seeded(ids, now).debts, UOM, None) == [RideshareAmount]
  {
    OpenAmountsOfFour(Seeded(ids, now).debts, IOU, None);
    OpenAmountsOfFour(Seeded(ids, now).debts, UOM, None);
  }

  /** Alex's open debts: the groceries IOU only. */
  lemma SeededOpenAlex(ids: SeedIds, now: string)
    requires Distinct(ids)
    ensures OpenAmounts(Seeded(ids, now).debts, IOU, Some(ids.alex)) == [GroceriesAmount]
    ensures OpenAmounts(Seeded(ids, now).debts, UOM, Some(ids.alex)) == []
  {
    DistinctPairs(ids);
    OpenAmountsOfFour(Seeded(ids, now).debts, IOU, Some(ids.alex));
    OpenAmountsOfFour(Seeded(ids, now).debts, UOM, Some(ids.alex));
  }

  /** Jordan's open debts: the rideshare UOM only. */
  lemma SeededOpenJordan(ids: SeedIds, now: string)
    requires Distinct(ids)
    ensures OpenAmounts(Seeded(ids, now).debts, IOU, Some(ids.jordan)) == []
    ensures OpenAmounts(Seeded(ids, now).debts, UOM, Some(ids.jordan)) == [RideshareAmount]
  {
    DistinctPairs(ids);
    OpenAmountsOfFour(Seeded(ids, now).debts, IOU, Some(ids.jordan));
    OpenAmountsOfFour(Seeded(ids, now).debts, UOM, Some(ids.jordan));
  }

  /** Sam's open debts: the concert IOU; the snacks UOM is settled and not counted. */
  lemma SeededOpenSam(ids: SeedIds, now: string)
    requires Distinct(ids)
    ensures OpenAmounts(Seeded(ids, now).debts, IOU, Some(ids.sam)) == [ConcertAmount]
    ensures OpenAmounts(Seeded(ids, now).debts, UOM, Some(ids.sam)) == []
  {
    DistinctPairs(ids);
    OpenAmountsOfFour(Seeded(ids, now).debts, IOU, Some(ids.sam));
    OpenAmountsOfFour(Seeded(ids, now).debts, UOM, Some(ids.sam));
  }

  /** A total over amounts in whole cents is the sum of their cents. */
  lemma OpenTotalOfTwo(debts: seq<Debt>, kind: DebtType, personId: Option<string>, a: string, ca: nat, b: string, cb: nat)
    requires DebtAmountsNonNegative(debts)
    requires a == Fixed2Text(false, ca) && b == Fixed2Text(false, cb)
    requires OpenAmounts(debts, kind, personId) == [a, b]
    ensures OpenTotal(debts, kind, personId) == ca + cb
  {
    AmountsSum(a, ca, b, cb);
  }

  lemma OpenTotalOfOne(debts: seq<Debt>, kind: DebtType, personId: Option<string>, a: string, ca: nat)
    requires DebtAmountsNonNegative(debts)
    requires a == Fixed2Text(false, ca)
    requires OpenAmounts(debts, kind, personId) == [a]
    ensures OpenTotal(debts, kind, personId) == ca
  {
    AmountsSum(a, ca, a, ca);
  }

  /** The open totals after seeding: Groceries and Concert owed by me, Rideshare owed to me. */
  lemma SeededOpenTotals(ids: SeedIds, now: string)
    ensures DebtAmountsNonNegative(Seeded(ids, now).debts)
    ensures OpenTotal(Seeded(ids, now).debts, IOU, None) == 32000
    ensures OpenTotal(Seeded(ids, now).debts, UOM, None) == 6000
  {
    var debts := Seeded(ids, now).debts;
    SeededAmountsRead(ids, now);
    SeededOpenAll(ids, now);
    DebtTexts();
    OpenTotalOfTwo(debts, IOU, None, GroceriesAmount, 12000, ConcertAmount, 20000);
    OpenTotalOfOne(debts, UOM, None, RideshareAmount, 6000);
  }



  /** Whole units print with ".00" after their digits; the totals lines use these. */
  lemma DashboardLiteral()
    ensures CentsTotals(32000, 6000) == Totals("320.00", "60.00", "-260.00")
  {
    UnsignedCentsText(32000);
    UnsignedCentsText(6000);
    WholeLiteral(320, false, "320.00");
    WholeLiteral(60, false, "60.00");
    WholeLiteral(260, true, "-260.00");
  }

  /**
   * After seeding, the dashboard shows 320.00 owed by me, 60.00 owed to me, and a net of
   * -260.00: Snacks is settled and left out, and the payments do not reduce the totals.
   */
  lemma SeededDashboard(ids: SeedIds, now: string)
    ensures DashboardTotals(Seeded(ids, now)) == Ok(Totals("320.00", "60.00", "-260.00"))
  {
    SeededOpenTotals(ids, now);
    DashboardTotalsAreTexts(Seeded(ids, now));
    DashboardLiteral();
  }

  // ------------------------------------------------------------ people totals

  /** The open totals of each person after seeding, in cents. */
  lemma AlexTotals(ids: SeedIds, now: string)
    requires Distinct(ids)
    ensures DebtAmountsNonNegative(Seeded(ids, now).debts)
    ensures OpenTotal(Seeded(ids, now).debts, IOU, Some(ids.alex)) == 12000
    ensures OpenTotal(Seeded(ids, now).debts, UOM, Some(ids.alex)) == 0
  {
    DistinctPairs(ids);
    var debts := Seeded(ids, now).debts;
    SeededAmountsRead(ids, now);
    SeededOpenAlex(ids, now);
    DebtTexts();
    OpenTotalOfOne(debts, IOU, Some(ids.alex), GroceriesAmount, 12000);
  }

  lemma JordanTotals(ids: SeedIds, now: string)
    requires Distinct(ids)
    ensures DebtAmountsNonNegative(Seeded(ids, now).debts)
    ensures OpenTotal(Seeded(ids, now).debts, IOU, Some(ids.jordan)) == 0
    ensures OpenTotal(Seeded(ids, now).debts, UOM, Some(ids.jordan)) == 6000
  {
    DistinctPairs(ids);
    var debts := Seeded(ids, now).debts;
    SeededAmountsRead(ids, now);
    SeededOpenJordan(ids, now);
    DebtTexts();
    OpenTotalOfOne(debts, UOM, Some(ids.jordan), RideshareAmount, 6000);
  }

  lemma SamTotals(ids: SeedIds, now: string)
    requires Distinct(ids)
    ensures DebtAmountsNonNegative(Seeded(ids, now).debts)
    ensures OpenTotal(Seeded(ids, now).debts, IOU, Some(ids.sam)) == 20000
    ensures OpenTotal(Seeded(ids, now).debts, UOM, Some(ids.sam)) == 0
  {
    DistinctPairs(ids);
    var debts := Seeded(ids, now).debts;
    SeededAmountsRead(ids, now);
    SeededOpenSam(ids, now);
    DebtTexts();
    OpenTotalOfOne(debts, IOU, Some(ids.sam), ConcertAmount, 20000);
  }

  /** A person owed `w` whole units by me and owing me nothing. */
  lemma OwedByMeLiteral(w: nat, t: string, negT: string)
    requires 100 <= w < 1000
    requires t == [DigitChar(w / 100), DigitChar(w / 10 % 10), DigitChar(w % 10)] + ".00"
    requires negT == "-" + t
    ensures CentsTotals(w * 100, 0) == Totals(t, "0.00", negT)
  {
    MoneyLaws.ZeroText();
    UnsignedCentsText(w * 100);
    WholeLiteral(w, false, t);
    WholeLiteral(w, true, negT);
  }

  lemma JordanLiteral()
    ensures CentsTotals(0, 6000) == Totals("0.00", "60.00", "60.00")
  {
    MoneyLaws.ZeroText();
    UnsignedCentsText(6000);
    WholeLiteral(60, false, "60.00");
  }

  lemma AlexLiteral()
    ensures CentsTotals(12000, 0) == Totals("120.00", "0.00", "-120.00")
  {
    OwedByMeLiteral(120, "120.00", "-120.00");
  }

  lemma SamLiteral()
    ensures CentsTotals(20000, 0) == Totals("200.00", "0.00", "-200.00")
  {
    OwedByMeLiteral(200, "200.00", "-200.00");
  }

  /** Alex is owed the groceries (120.00) by me and owes me nothing. */
  lemma AlexRow(ids: SeedIds, now: string)
    requires Distinct(ids)
    ensures DebtAmountsNonNegative(Seeded(ids, now).debts)
    ensures RowText(Seeded(ids, now).debts, Alex(ids)) == PersonTotals(ids.alex, "Alex", "120.00", "0.00", "-120.00")
  {
    DistinctPairs(ids);
    AlexTotals(ids, now);
    AlexLiteral();
  }

  /** Jordan owes me the rideshare (60.00). */
  lemma JordanRow(ids: SeedIds, now: string)
    requires Distinct(ids)
    ensures DebtAmountsNonNegative(Seeded(ids, now).debts)
    ensures RowText(Seeded(ids, now).debts, Jordan(ids)) == PersonTotals(ids.jordan, "Jordan", "0.00", "60.00", "60.00")
  {
    DistinctPairs(ids);
    JordanTotals(ids, now);
    JordanLiteral();
  }

  /** I owe Sam the concert tickets (200.00); the settled snacks count for nothing. */
  lemma SamRow(ids: SeedIds, now: string)
    requires Distinct(ids)
    ensures DebtAmountsNonNegative(Seeded(ids, now).debts)
    ensures RowText(Seeded(ids, now).debts, Sam(ids)) == PersonTotals(ids.sam, "Sam", "200.00", "0.00", "-200.00")
  {
    DistinctPairs(ids);
    SamTotals(ids, now);
    SamLiteral();
  }

  /** Names that differ in their first letter are ordered by it, ignoring case. */
  lemma FirstLetterOrders(a: string, b: string)
    requires |a| > 0 && |b| > 0 && 'A' <= a[0] < b[0] <= 'Z'
    ensures NameLe(a, b)
  {
    var fa, fb := FoldCase(a), FoldCase(b);
    assert fa[0] < fb[0];
  }

  lemma PeopleSorted(ids: SeedIds)
    ensures SortByName(People(ids)) == People(ids)
  {
    var people := People(ids);
    FirstLetterOrders("Alex", "Jordan");
    FirstLetterOrders("Alex", "Sam");
    FirstLetterOrders("Jordan", "Sam");
    assert SortedByName(people);
    SortSortedIsIdentity(people);
  }

  /** The rows of three people, one after another. */
  lemma RowTextsOfThree(debts: seq<Debt>, p: Person, q: Person, r: Person)
    requires DebtAmountsNonNegative(debts)
    ensures RowTexts(debts, [p, q, r]) == [RowText(debts, p), RowText(debts, q), RowText(debts, r)]
  {
    assert [r][1..] == [];
    assert RowTexts(debts, [r]) == [RowText(debts, r)];
    assert [q, r][1..] == [r];
    assert RowTexts(debts, [q, r]) == [RowText(debts, q), RowText(debts, r)];
    assert [p, q, r][1..] == [q, r];
  }

  /**
   * After seeding, the people list reads, in name order: Alex 120.00 owed by me (net
   * -120.00), Jordan 60.00 owed to me (net 60.00), Sam 200.00 owed by me (net -200.00).
   */
  lemma SeededPeopleTotals(ids: SeedIds, now: string)
    requires Distinct(ids)
    ensures ListPeopleWithTotals(Seeded(ids, now))
            == Ok([PersonTotals(ids.alex, "Alex", "120.00", "0.00", "-120.00"),
                   PersonTotals(ids.jordan, "Jordan", "0.00", "60.00", "60.00"),
                   PersonTotals(ids.sam, "Sam", "200.00", "0.00", "-200.00")])
  {
    DistinctPairs(ids);
    var st := Seeded(ids, now);
    AlexRow(ids, now);
    JordanRow(ids, now);
    SamRow(ids, now);
    ListPeopleWithTotalsAreTexts(st);
    PeopleSorted(ids);
    RowTextsOfThree(st.debts, Alex(ids), Jordan(ids), Sam(ids));
  }
}
