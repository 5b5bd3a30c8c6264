/**
 * The repository of `db/repo.ts` over an in-memory store. Ids that the source draws
 * with `Crypto.randomUUID()` and the clock's `new Date().toISOString()` are parameters.
 * The tables declare foreign keys, but the connection never turns their enforcement on,
 * so no write here checks that a referenced row exists.
 */
module Repo {
  import opened Wrappers
  import opened Errors
  import opened Strings
  import opened Decimal
  import opened Money
  import opened Ledger

  /** The primary-key violation the storage engine reports for a duplicate id. */
  function UniqueViolation(table: string): Error {
    StoreError("UNIQUE constraint failed: " + table + ".id")
  }

  // ------------------------------------------------------------ people

  /** The argument of `upsertPerson`: a person whose id may be left out. */
  datatype PersonInput = PersonInput(id: Option<string>, name: string, contact: Option<string>, notes: Option<string>)

  /** Every row with the id of `row` replaced by `row`. */
  function ReplacePerson(people: seq<Person>, row: Person): (r: seq<Person>)
    ensures |r| == |people|
    ensures forall i :: 0 <= i < |r| ==> r[i] == if people[i].id == row.id then row else people[i]
  {
    seq(|people|, i requires 0 <= i < |people| => if people[i].id == row.id then row else people[i])
  }

  /**
   * `upsertPerson(p)`: the given id or a fresh one; a new row, or the existing row's
   * name, contact and notes overwritten (`ON CONFLICT(id) DO UPDATE`). Returns the id.
   */
  function UpsertPerson(st: Store, p: PersonInput, freshId: string): (out: (Store, string))
    ensures out.1 == p.id.GetOr(freshId)
    ensures FindPerson(out.0.people, out.1) == Some(Person(out.1, p.name, p.contact, p.notes))
    ensures forall q :: q in out.0.people && q.id == out.1 ==> q == Person(out.1, p.name, p.contact, p.notes)
    ensures HasPerson(st.people, out.1) ==> |out.0.people| == |st.people|
    ensures forall q :: q in st.people && q.id != out.1 ==> q in out.0.people
    ensures forall q :: q in out.0.people && q.id != out.1 ==> q in st.people
    ensures UniquePeople(st.people) ==> UniquePeople(out.0.people)
    ensures out.0.debts == st.debts && out.0.payments == st.payments
  {
    var id := p.id.GetOr(freshId);
    var row := Person(id, p.name, p.contact, p.notes);
    if HasPerson(st.people, id) then
      ReplacedPeople(st.people, row);
      (st.(people := ReplacePerson(st.people, row)), id)
    else
      AppendedPeople(st.people, row);
      (st.(people := st.people + [row]), id)
  }

  /** The update branch of `upsertPerson`: the row with that id is overwritten in place. */
  lemma ReplacedPeople(people: seq<Person>, row: Person)
    requires HasPerson(people, row.id)
    ensures var r := ReplacePerson(people, row);
            FindPerson(r, row.id) == Some(row)
            && (forall q :: q in r && q.id == row.id ==> q == row)
            && |r| == |people|
            && (forall q :: q in people && q.id != row.id ==> q in r)
            && (forall q :: q in r && q.id != row.id ==> q in people)
            && (UniquePeople(people) ==> UniquePeople(r))
  {
    var r := ReplacePerson(people, row);
    var i :| 0 <= i < |people| && people[i].id == row.id;
    assert r[i] == row;
    assert FindPerson(r, row.id).Some?;
    forall q | q in people && q.id != row.id
      ensures q in r
    {
      var k :| 0 <= k < |people| && people[k] == q;
      assert r[k] == q;
    }
  }

  /** The insert branch of `upsertPerson`: the row goes at the end. */
  lemma AppendedPeople(people: seq<Person>, row: Person)
    requires !HasPerson(people, row.id)
    ensures var r := people + [row];
            FindPerson(r, row.id) == Some(row)
            && (forall q :: q in r && q.id == row.id ==> q == row)
            && (forall q :: q in people && q.id != row.id ==> q in r)
            && (forall q :: q in r && q.id != row.id ==> q in people)
            && (UniquePeople(people) ==> UniquePeople(r))
  {
    var r := people + [row];
    assert r[|people|] == row;
    assert FindPerson(r, row.id).Some?;
  }

  /** `getPersonById(id)`. */
  function GetPersonById(st: Store, id: string): (r: Option<Person>)
    ensures r.Some? <==> HasPerson(st.people, id)
    ensures r.Some? ==> r.value in st.people && r.value.id == id
  {
    FindPerson(st.people, id)
  }

  /** `listAllPeople()`: every person, in table order. */
  function ListAllPeople(st: Store): (r: seq<Person>)
    ensures multiset(r) == multiset(st.people)
  {
    st.people
  }

  /** The text a refusal of `deletePerson` carries; the service looks for "open debts" in it. */
  const OpenDebtsRefusal: string := "Cannot delete person with open debts"

  /** Whether the person has a debt that is still open. */
  predicate HasOpenDebt(debts: seq<Debt>, personId: string) {
    exists i :: 0 <= i < |debts| && debts[i].personId == personId && debts[i].status == Open
  }

  function RemovePerson(people: seq<Person>, id: string): (r: seq<Person>)
    ensures forall q :: q in r <==> q in people && q.id != id
    ensures UniquePeople(people) ==> UniquePeople(r)
  {
    if people == [] then []
    else
      var rest := RemovePerson(people[1..], id);
      var r := (if people[0].id == id then [] else [people[0]]) + rest;
      assert UniquePeople(people) ==> UniquePeople(r) by {
        if UniquePeople(people) && people[0].id != id {
          forall j | 0 < j < |r|
            ensures r[0].id != r[j].id
          {
            assert r[j] in rest;
            var k :| 0 <= k < |people| && people[k] == r[j] && k > 0 by {
              assert r[j] in people[1..];
              var k' :| 0 <= k' < |people[1..]| && people[1..][k'] == r[j];
              assert people[k' + 1] == r[j];
            }
          }
        }
      }
      r
  }

  /**
   * `deletePerson(id)`: refused, with a message containing "open debts", while the person
   * has an open debt; otherwise the person's row goes and nothing else changes.
   */
  function DeletePerson(st: Store, id: string): (out: Outcome<()>)
    ensures out.result.Err? <==> HasOpenDebt(st.debts, id)
    ensures out.result.Err? ==> out.store == st && Contains(out.result.error.Message(), "open debts")
    ensures out.result.Ok? ==> !HasPerson(out.store.people, id)
    ensures forall q :: q in st.people && q.id != id ==> q in out.store.people
    ensures UniquePeople(st.people) ==> UniquePeople(out.store.people)
    ensures out.store.debts == st.debts && out.store.payments == st.payments
  {
    if HasOpenDebt(st.debts, id) then
      assert OpenDebtsRefusal[26..36] == "open debts";
      ContainsAt(OpenDebtsRefusal, "open debts", 26);
      Outcome(st, Err(StoreError(OpenDebtsRefusal)))
    else
      var people := RemovePerson(st.people, id);
      forall i | 0 <= i < |people|
        ensures people[i].id != id
      {
        assert people[i] in people;
      }
      Outcome(st.(people := people), Ok(()))
  }

  lemma {:induction false} ContainsAt(s: string, sub: string, k: nat)
    requires k + |sub| <= |s| && s[k..k + |sub|] == sub
    ensures Contains(s, sub)
    decreases k
  {
    if k == 0 {
      assert s[..|sub|] == sub;
    } else {
      assert s[1..][k - 1..k - 1 + |sub|] == sub;
      ContainsAt(s[1..], sub, k - 1);
    }
  }

  // ------------------------------------------------------------ debts

  /** The argument of `createDebt`: id, status and creation time may be left out. */
  datatype DebtInput = DebtInput(
    id: Option<string>,
    kind: DebtType,
    personId: string,
    description: Option<string>,
    amountOriginal: string,
    createdAt: Option<string>,
    dueAt: Option<string>,
    status: Option<Status>)

  /**
   * `createDebt(dbt)`: inserts one debt; a missing status becomes open and a missing
   * creation time becomes now, while explicit values (even `settled`) are kept. Neither
   * the person nor the amount is checked.
   */
  function CreateDebt(st: Store, dbt: DebtInput, freshId: string, now: string): (out: Outcome<string>)
    ensures var id := dbt.id.GetOr(freshId);
            out.result.Err? <==> HasDebt(st.debts, id)
    ensures out.result.Err? ==> out.store == st && out.result.error == UniqueViolation("debts")
    ensures out.result.Ok? ==>
              (out.result.value == dbt.id.GetOr(freshId)
               && out.store.debts == st.debts + [Debt(out.result.value, dbt.kind, dbt.personId, dbt.description,
                                                      dbt.amountOriginal, dbt.createdAt.GetOr(now), dbt.dueAt,
                                                      dbt.status.GetOr(Open))])
    ensures out.store.people == st.people && out.store.payments == st.payments
    ensures UniqueDebts(st.debts) ==> UniqueDebts(out.store.debts)
  {
    var id := dbt.id.GetOr(freshId);
    if HasDebt(st.debts, id) then Outcome(st, Err(UniqueViolation("debts")))
    else
      var row := Debt(id, dbt.kind, dbt.personId, dbt.description, dbt.amountOriginal,
                      dbt.createdAt.GetOr(now), dbt.dueAt, dbt.status.GetOr(Open));
      Outcome(st.(debts := st.debts + [row]), Ok(id))
  }

  /** The fields `updateDebt` may change; `dueAt` may be set to a value or cleared. */
  datatype DebtUpdate = DebtUpdate(description: Option<string>, amountOriginal: Option<string>, dueAt: Option<Option<string>>)

  function ApplyUpdate(d: Debt, u: DebtUpdate): (r: Debt)
    ensures r.id == d.id && r.kind == d.kind && r.personId == d.personId
    ensures r.createdAt == d.createdAt && r.status == d.status
    ensures r.description == (if u.description.Some? then u.description else d.description)
    ensures r.amountOriginal == u.amountOriginal.GetOr(d.amountOriginal)
    ensures r.dueAt == u.dueAt.GetOr(d.dueAt)
  {
    d.(description := if u.description.Some? then u.description else d.description,
       amountOriginal := u.amountOriginal.GetOr(d.amountOriginal),
       dueAt := u.dueAt.GetOr(d.dueAt))
  }

  /** `updateDebt(id, updates)`: the fields present are written to the debt with that id; no other row changes. */
  function UpdateDebt(st: Store, debtId: string, u: DebtUpdate): (r: Store)
    ensures |r.debts| == |st.debts|
    ensures forall i :: 0 <= i < |r.debts| ==> r.debts[i] == if st.debts[i].id == debtId then ApplyUpdate(st.debts[i], u) else st.debts[i]
    ensures r.people == st.people && r.payments == st.payments
  {
    st.(debts := seq(|st.debts|, i requires 0 <= i < |st.debts| =>
                       if st.debts[i].id == debtId then ApplyUpdate(st.debts[i], u) else st.debts[i]))
  }

  /** `markDebtSettled(id)`: the debt with that id becomes settled, whatever its balance. */
  function MarkDebtSettled(st: Store, debtId: string): (r: Store)
    ensures |r.debts| == |st.debts|
    ensures forall i :: 0 <= i < |r.debts| ==> r.debts[i] == if st.debts[i].id == debtId then st.debts[i].(status := Settled) else st.debts[i]
    ensures r.people == st.people && r.payments == st.payments
  {
    st.(debts := seq(|st.debts|, i requires 0 <= i < |st.debts| =>
                       if st.debts[i].id == debtId then st.debts[i].(status := Settled) else st.debts[i]))
  }

  function RemoveDebt(debts: seq<Debt>, id: string): (r: seq<Debt>)
    ensures forall d :: d in r <==> d in debts && d.id != id
    ensures |r| <= |debts|
    ensures UniqueDebts(debts) ==> UniqueDebts(r)
  {
    if debts == [] then []
    else
      var rest := RemoveDebt(debts[1..], id);
      var r := (if debts[0].id == id then [] else [debts[0]]) + rest;
      assert UniqueDebts(debts) ==> UniqueDebts(r) by {
        if UniqueDebts(debts) && debts[0].id != id {
          forall j | 0 < j < |r|
            ensures r[0].id != r[j].id
          {
            assert r[j] in rest;
            var k :| 0 <= k < |debts| && debts[k] == r[j] && k > 0 by {
              assert r[j] in debts[1..];
              var k' :| 0 <= k' < |debts[1..]| && debts[1..][k'] == r[j];
              assert debts[k' + 1] == r[j];
            }
          }
        }
      }
      r
  }

  /** `deleteDebt(id)`: the debt with that id is removed; nothing else changes. */
  function DeleteDebt(st: Store, debtId: string): (r: Store)
    ensures !HasDebt(r.debts, debtId)
    ensures forall d :: d in st.debts && d.id != debtId ==> d in r.debts
    ensures forall d :: d in r.debts ==> d in st.debts
    ensures UniqueDebts(st.debts) ==> UniqueDebts(r.debts)
    ensures r.people == st.people && r.payments == st.payments
  {
    var debts := RemoveDebt(st.debts, debtId);
    forall i | 0 <= i < |debts|
      ensures debts[i].id != debtId
    {
      assert debts[i] in debts;
    }
    st.(debts := debts)
  }

  /** `getDebtsByPersonAndType(personId, type)`: that person's debts of that kind, in table order. */
  function GetDebtsByPersonAndType(st: Store, personId: string, kind: DebtType): (r: seq<Debt>)
    ensures forall d :: d in r <==> d in st.debts && d.personId == personId && d.kind == kind
  {
    Select(st.debts, personId, kind)
  }

  function Select(debts: seq<Debt>, personId: string, kind: DebtType): (r: seq<Debt>)
    ensures forall d :: d in r <==> d in debts && d.personId == personId && d.kind == kind
  {
    if debts == [] then []
    else
      (if debts[0].personId == personId && debts[0].kind == kind then [debts[0]] else [])
      + Select(debts[1..], personId, kind)
  }

  // ------------------------------------------------------------ balances and payments

  /** `xs.reduce((sum, a) => add(sum, a), acc)`: rounds to cents at every step. */
  function FoldAdd(acc: string, xs: seq<string>): (r: Result<string, Error>)
    ensures r.Ok? && xs == [] ==> r.value == acc
    ensures r.Ok? && xs != [] ==> IsFixed2(r.value)
    ensures AllRead(xs) && D(acc).Ok? ==> r.Ok?
    ensures r.Ok? ==> AllRead(xs)
    decreases |xs|
  {
    if xs == [] then
      Ok(acc)
    else
      match Add(acc, xs[0])
      case Err(e) => Err(e)
      case Ok(s) =>
        AllReadSplit(xs);
        FoldAdd(s, xs[1..])
  }

  /** Every amount reads iff the first does and the rest all do. */
  lemma AllReadSplit(xs: seq<string>)
    requires xs != []
    ensures AllRead(xs) <==> D(xs[0]).Ok? && AllRead(xs[1..])
  {
    if D(xs[0]).Ok? && AllRead(xs[1..]) {
      forall i | 0 <= i < |xs|
        ensures D(xs[i]).Ok?
      {
        if i > 0 {
          assert xs[i] == xs[1..][i - 1];
        }
      }
    }
    if AllRead(xs) {
      forall i | 0 <= i < |xs[1..]|
        ensures D(xs[1..][i]).Ok?
      {
        assert xs[1..][i] == xs[i + 1];
      }
    }
  }

  /** The message `getDebtBalance` throws for an unknown debt. */
  function DebtNotFound(debtId: string): Error {
    StoreError("getDebtBalance: debt not found (id=" + debtId + ")")
  }

  /**
   * `getDebtBalance(debtId)`: the original amount minus the sum of the debt's payments;
   * an unknown id throws instead of giving zero.
   */
  function GetDebtBalance(st: Store, debtId: string): (r: Result<string, Error>)
    ensures !HasDebt(st.debts, debtId) ==> r == Err(DebtNotFound(debtId))
    ensures r.Ok? ==> HasDebt(st.debts, debtId) && IsFixed2(r.value)
  {
    match FindDebt(st.debts, debtId)
    case None => Err(DebtNotFound(debtId))
    case Some(d) =>
      var paid :- FoldAdd("0", Amounts(PaymentsOf(st.payments, debtId)));
      Sub(d.amountOriginal, paid)
  }

  /** The argument of `addPayment`: everything but the id. */
  datatype PaymentInput = PaymentInput(debtId: string, amount: string, date: string, note: Option<string>)

  function Settle(d: Debt, settle: bool): Debt {
    if settle then d.(status := Settled) else d
  }

  /**
   * `addPayment(p)`: inserts one payment with a fresh id, then reads the balance back and
   * settles the debt when the balance is at most 0.01. The insert is not undone when
   * reading the balance throws (an unknown debt id).
   */
  function AddPayment(st: Store, p: PaymentInput, freshId: string): (out: Outcome<string>)
    ensures HasPayment(st.payments, freshId) ==> out == Outcome(st, Err(UniqueViolation("payments")))
    ensures !HasPayment(st.payments, freshId) ==>
              out.store.payments == st.payments + [Payment(freshId, p.debtId, p.amount, p.date, p.note)]
    ensures out.store.people == st.people
    ensures out.result.Ok? ==> out.result.value == freshId
    ensures !HasPayment(st.payments, freshId) ==>
              (out.result.Ok? <==> GetDebtBalance(st.(payments := out.store.payments), p.debtId).Ok?)
    ensures !HasPayment(st.payments, freshId) && !HasDebt(st.debts, p.debtId) ==> out.result == Err(DebtNotFound(p.debtId))
    ensures out.result.Err? ==> out.store.debts == st.debts
    ensures |out.store.debts| == |st.debts|
    ensures forall i :: 0 <= i < |st.debts| ==>
              out.store.debts[i] == (if st.debts[i].id == p.debtId then Settle(st.debts[i], out.store.debts[i].status == Settled) else st.debts[i])
    ensures out.result.Ok? ==>
              var bal := GetDebtBalance(st.(payments := out.store.payments), p.debtId);
              bal.Ok? && Lte(bal.value, AutoSettleThreshold).Ok?
              && forall i :: 0 <= i < |st.debts| && st.debts[i].id == p.debtId ==>
                   (out.store.debts[i].status == Settled <==> st.debts[i].status == Settled || Lte(bal.value, AutoSettleThreshold).value)
  {
    if HasPayment(st.payments, freshId) then Outcome(st, Err(UniqueViolation("payments")))
    else
      var inserted := st.(payments := st.payments + [Payment(freshId, p.debtId, p.amount, p.date, p.note)]);
      match GetDebtBalance(inserted, p.debtId)
      case Err(e) => Outcome(inserted, Err(e))
      case Ok(bal) =>
        Fixed2Reads(bal);
        Outcome(SettleIfDue(inserted, p.debtId, bal), Ok(freshId))
  }

  /** Settles the debt when `bal` is at most the threshold; leaves the store as it is otherwise. */
  function SettleIfDue(st: Store, debtId: string, bal: string): (r: Store)
    requires D(bal).Ok?
    ensures Lte(bal, AutoSettleThreshold).Ok?
    ensures r.people == st.people && r.payments == st.payments && |r.debts| == |st.debts|
    ensures forall i :: 0 <= i < |st.debts| ==>
              r.debts[i] == (if st.debts[i].id == debtId then Settle(st.debts[i], Lte(bal, AutoSettleThreshold).value) else st.debts[i])
  {
    assert D(AutoSettleThreshold).Ok? by {
      ThresholdReads();
    }
    if Lte(bal, AutoSettleThreshold).value then MarkDebtSettled(st, debtId) else st
  }

  lemma ThresholdReads()
    ensures D(AutoSettleThreshold) == Ok(Dec(1, 2))
  {
    Fixed2RoundTrip(false, 1);
    CentsTextOf(1, 0, 0, 1);
    assert NatToDigits(0) == "0";
    assert [DigitChar(0), DigitChar(1)] == "01";
    assert Fixed2Text(false, 1) == AutoSettleThreshold;
  }

  /** A debt together with its current balance, as `getDebtWithBalance` returns it. */
  datatype DebtWithBalance = DebtWithBalance(debt: Debt, balance: string)

  /** `getDebtWithBalance(id)`: nothing for an unknown id; otherwise the row and its balance. */
  function GetDebtWithBalance(st: Store, debtId: string): (r: Result<Option<DebtWithBalance>, Error>)
    ensures !HasDebt(st.debts, debtId) <==> r == Ok(None)
    ensures r.Err? <==> HasDebt(st.debts, debtId) && GetDebtBalance(st, debtId).Err?
    ensures r.Err? ==> r.error == GetDebtBalance(st, debtId).error
    ensures r.Ok? && r.value.Some? ==>
              (Some(r.value.value.debt) == FindDebt(st.debts, debtId)
               && Ok(r.value.value.balance) == GetDebtBalance(st, debtId))
  {
    match FindDebt(st.debts, debtId)
    case None => Ok(None)
    case Some(d) =>
      var bal :- GetDebtBalance(st, debtId);
      Ok(Some(DebtWithBalance(d, bal)))
  }

  /** `getPaymentsByDebt(id)`: the debt's payments, in table order. */
  function GetPaymentsByDebt(st: Store, debtId: string): (r: seq<Payment>)
    ensures forall p :: p in r <==> p in st.payments && p.debtId == debtId
  {
    PaymentsOf(st.payments, debtId)
  }

  // ------------------------------------------------------------ totals

  /** A row of `listPeopleWithTotals`. */
  datatype PersonTotals = PersonTotals(id: string, name: string, iouTotal: string, uomTotal: string, net: string)

  /** What `dashboardTotals` returns; a row of the people list carries the same three figures. */
  datatype Totals = Totals(totalIOU: string, totalUOM: string, net: string)

  /**
   * The last step both totals queries share: the net is UOM minus IOU, and all three are
   * printed with `toCentsStr`.
   */
  function PrintTotals(totalIOU: string, totalUOM: string): (r: Result<Totals, Error>)
    ensures r.Ok? ==> IsFixed2(r.value.totalIOU) && IsFixed2(r.value.totalUOM) && IsFixed2(r.value.net)
    ensures r.Ok? <==> BothRead(totalUOM, totalIOU)
  {
    var net :- Sub(totalUOM, totalIOU);
    Fixed2Reads(net);
    Ok(Totals(ToCentsStr(totalIOU).value, ToCentsStr(totalUOM).value, ToCentsStr(net).value))
  }

  /** `GROUP_CONCAT(amountOriginal)` over the selected rows, then `IFNULL(…, '')`. */
  function GroupConcat(amounts: seq<string>): string {
    Join(amounts, ",")
  }

  /** A concatenated list of amounts split again and added up; "0.00" when the text is empty. */
  function TotalOfConcat(concat: string): Result<string, Error> {
    if concat != "" then FoldAdd("0", Split(concat, ',')) else Ok("0.00")
  }

  function PersonRow(debts: seq<Debt>, p: Person): (r: Result<PersonTotals, Error>)
    ensures r.Ok? ==> r.value.id == p.id && r.value.name == p.name
  {
    var iouTotal :- TotalOfConcat(GroupConcat(OpenAmounts(debts, IOU, Some(p.id))));
    var uomTotal :- TotalOfConcat(GroupConcat(OpenAmounts(debts, UOM, Some(p.id))));
    var t :- PrintTotals(iouTotal, uomTotal);
    Ok(PersonTotals(p.id, p.name, t.totalIOU, t.totalUOM, t.net))
  }

  function PersonRows(debts: seq<Debt>, people: seq<Person>): (r: Result<seq<PersonTotals>, Error>)
    ensures r.Ok? ==> |r.value| == |people|
    ensures r.Ok? ==> forall i :: 0 <= i < |people| ==> PersonRow(debts, people[i]) == Ok(r.value[i])
    ensures r.Ok? ==> forall i :: 0 <= i < |people| ==> r.value[i].id == people[i].id && r.value[i].name == people[i].name
  {
    if people == [] then Ok([])
    else
      var first :- PersonRow(debts, people[0]);
      var rest :- PersonRows(debts, people[1..]);
      Ok([first] + rest)
  }

  /**
   * `listPeopleWithTotals()`: one row per person in case-insensitive name order, with the
   * person's open IOU and UOM totals and their difference.
   */
  function ListPeopleWithTotals(st: Store): (r: Result<seq<PersonTotals>, Error>)
    ensures r.Ok? ==> |r.value| == |st.people|
    ensures r.Ok? ==> forall i, j :: 0 <= i < j < |r.value| ==> NameLe(r.value[i].name, r.value[j].name)
    ensures r.Ok? ==> forall i :: 0 <= i < |r.value| ==> exists k :: 0 <= k < |st.people| && st.people[k].id == r.value[i].id
  {
    var sorted := SortByName(st.people);
    var rows :- PersonRows(st.debts, sorted);
    RowsOfPeople(st.people, sorted, rows);
    Ok(rows)
  }

  lemma RowsOfPeople(people: seq<Person>, sorted: seq<Person>, rows: seq<PersonTotals>)
    requires multiset(sorted) == multiset(people) && SortedByName(sorted) && |rows| == |sorted|
    requires forall i :: 0 <= i < |rows| ==> rows[i].id == sorted[i].id && rows[i].name == sorted[i].name
    ensures forall i, j :: 0 <= i < j < |rows| ==> NameLe(rows[i].name, rows[j].name)
    ensures forall i :: 0 <= i < |rows| ==> exists k :: 0 <= k < |people| && people[k].id == rows[i].id
  {
    forall i | 0 <= i < |rows|
      ensures exists k :: 0 <= k < |people| && people[k].id == rows[i].id
    {
      assert sorted[i] in multiset(sorted);
      assert sorted[i] in people;
      var k :| 0 <= k < |people| && people[k] == sorted[i];
      assert people[k].id == rows[i].id;
    }
    assert forall i :: 0 <= i < |rows| ==> exists k :: 0 <= k < |people| && people[k].id == rows[i].id;
  }

  /** `dashboardTotals()`: open debts of each kind added up, and UOM minus IOU. */
  function DashboardTotals(st: Store): (r: Result<Totals, Error>)
    ensures r.Ok? ==> IsFixed2(r.value.totalIOU) && IsFixed2(r.value.totalUOM) && IsFixed2(r.value.net)
    ensures r.Ok? <==> AllRead(OpenAmounts(st.debts, IOU, None)) && AllRead(OpenAmounts(st.debts, UOM, None))
  {
    ZeroReads();
    var totalIOU :- FoldAdd("0", OpenAmounts(st.debts, IOU, None));
    var totalUOM :- FoldAdd("0", OpenAmounts(st.debts, UOM, None));
    FoldReads("0", OpenAmounts(st.debts, IOU, None));
    FoldReads("0", OpenAmounts(st.debts, UOM, None));
    PrintTotals(totalIOU, totalUOM)
  }

  /** A fold from a readable seed ends in readable text. */
  lemma FoldReads(acc: string, xs: seq<string>)
    requires D(acc).Ok? && FoldAdd(acc, xs).Ok?
    ensures D(FoldAdd(acc, xs).value).Ok?
  {
    if xs != [] {
      Fixed2Reads(FoldAdd(acc, xs).value);
    }
  }
}
