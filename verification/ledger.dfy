/**
 * The ledger's data: people, debts and payments as `models/types.ts` shapes them and
 * the three tables of `db/schema.ts` hold them. A table is the sequence of its rows in
 * insertion order, which is the order an un-ordered SELECT returns them in.
 */
module Ledger {
  import opened Wrappers
  import opened Errors
  import opened Strings
  import opened Decimal
  import opened Money

  /** `IOU`: I owe the person. `UOM`: the person owes me. */
  datatype DebtType = IOU | UOM

  /** The one-way lifecycle of a debt: open, then settled. */
  datatype Status = Open | Settled

  datatype Person = Person(id: string, name: string, contact: Option<string>, notes: Option<string>)

  datatype Debt = Debt(
    id: string,
    kind: DebtType,
    personId: string,
    description: Option<string>,
    amountOriginal: string,
    createdAt: string,
    dueAt: Option<string>,
    status: Status)

  datatype Payment = Payment(id: string, debtId: string, amount: string, date: string, note: Option<string>)

  datatype Store = Store(people: seq<Person>, debts: seq<Debt>, payments: seq<Payment>)

  const EmptyStore: Store := Store([], [], [])

  /** A balance at or below one cent counts as paid off. */
  const AutoSettleThreshold: string := "0.01"

  /**
   * What a writing call leaves behind: the store after it and what it returned or threw.
   * A call can throw after it has written, so the store is kept on both paths.
   */
  datatype Outcome<T> = Outcome(store: Store, result: Result<T, Error>)

  // ------------------------------------------------------------ lookups

  predicate HasPerson(people: seq<Person>, id: string) {
    exists i :: 0 <= i < |people| && people[i].id == id
  }

  predicate HasDebt(debts: seq<Debt>, id: string) {
    exists i :: 0 <= i < |debts| && debts[i].id == id
  }

  predicate HasPayment(payments: seq<Payment>, id: string) {
    exists i :: 0 <= i < |payments| && payments[i].id == id
  }

  /** `SELECT * FROM people WHERE id=?`: the row with that id, if there is one. */
  function FindPerson(people: seq<Person>, id: string): (r: Option<Person>)
    ensures r.Some? ==> r.value in people && r.value.id == id
    ensures r.None? <==> !HasPerson(people, id)
  {
    if people == [] then None
    else if people[0].id == id then Some(people[0])
    else
      var r := FindPerson(people[1..], id);
      assert HasPerson(people, id) ==> people[0].id == id || HasPerson(people[1..], id) by {
        if HasPerson(people, id) {
          var i :| 0 <= i < |people| && people[i].id == id;
          if i > 0 {
            assert people[1..][i - 1].id == id;
          }
        }
      }
      r
  }

  /** `SELECT … FROM debts WHERE id=?`: the row with that id, if there is one. */
  function FindDebt(debts: seq<Debt>, id: string): (r: Option<Debt>)
    ensures r.Some? ==> r.value in debts && r.value.id == id
    ensures r.None? <==> !HasDebt(debts, id)
  {
    if debts == [] then None
    else if debts[0].id == id then Some(debts[0])
    else
      var r := FindDebt(debts[1..], id);
      assert HasDebt(debts, id) ==> debts[0].id == id || HasDebt(debts[1..], id) by {
        if HasDebt(debts, id) {
          var i :| 0 <= i < |debts| && debts[i].id == id;
          if i > 0 {
            assert debts[1..][i - 1].id == id;
          }
        }
      }
      r
  }

  /** Primary keys: no two rows of a table share an id. */
  predicate UniquePeople(people: seq<Person>) {
    forall i, j :: 0 <= i < j < |people| ==> people[i].id != people[j].id
  }

  predicate UniqueDebts(debts: seq<Debt>) {
    forall i, j :: 0 <= i < j < |debts| ==> debts[i].id != debts[j].id
  }

  predicate UniquePayments(payments: seq<Payment>) {
    forall i, j :: 0 <= i < j < |payments| ==> payments[i].id != payments[j].id
  }

  /** With unique ids, the row found for an id is the one at any index holding it. */
  lemma FindDebtAt(debts: seq<Debt>, k: nat)
    requires UniqueDebts(debts) && k < |debts|
    ensures FindDebt(debts, debts[k].id) == Some(debts[k])
  {
    var d := FindDebt(debts, debts[k].id).value;
    var i :| 0 <= i < |debts| && debts[i] == d;
    assert i == k;
  }

  lemma FindPersonAt(people: seq<Person>, k: nat)
    requires UniquePeople(people) && k < |people|
    ensures FindPerson(people, people[k].id) == Some(people[k])
  {
    var p := FindPerson(people, people[k].id).value;
    var i :| 0 <= i < |people| && people[i] == p;
    assert i == k;
  }

  // ------------------------------------------------------------ selections

  /** `SELECT … FROM payments WHERE debtId=?`, in table order. */
  function PaymentsOf(payments: seq<Payment>, debtId: string): (r: seq<Payment>)
    ensures |r| <= |payments|
    ensures forall p :: p in r <==> p in payments && p.debtId == debtId
  {
    if payments == [] then []
    else (if payments[0].debtId == debtId then [payments[0]] else []) + PaymentsOf(payments[1..], debtId)
  }

  function Amounts(payments: seq<Payment>): (r: seq<string>)
    ensures |r| == |payments|
    ensures forall i :: 0 <= i < |r| ==> r[i] == payments[i].amount
  {
    seq(|payments|, i requires 0 <= i < |payments| => payments[i].amount)
  }

  /** Whether a debt is counted in a total: open, of the kind, and (when given) the person's. */
  predicate Counted(d: Debt, kind: DebtType, personId: Option<string>) {
    d.status == Open && d.kind == kind && (personId.None? || d.personId == personId.value)
  }

  /**
   * `SELECT amountOriginal FROM debts WHERE type=? AND status='open' [AND personId=?]`,
   * in table order.
   */
  function OpenAmounts(debts: seq<Debt>, kind: DebtType, personId: Option<string>): (r: seq<string>)
    ensures |r| <= |debts|
    ensures forall a :: a in r ==> exists i :: 0 <= i < |debts| && Counted(debts[i], kind, personId) && debts[i].amountOriginal == a
    ensures forall i :: 0 <= i < |debts| && Counted(debts[i], kind, personId) ==> debts[i].amountOriginal in r
  {
    if debts == [] then []
    else
      var rest := OpenAmounts(debts[1..], kind, personId);
      (if Counted(debts[0], kind, personId) then [debts[0].amountOriginal] else []) + rest
  }

  // ------------------------------------------------------------ sums

  predicate AllRead(xs: seq<string>) {
    forall i :: 0 <= i < |xs| ==> D(xs[i]).Ok?
  }

  /** Every amount is a number at or above zero. */
  predicate AllNonNegative(xs: seq<string>) {
    forall i :: 0 <= i < |xs| ==> D(xs[i]).Ok? && D(xs[i]).value.mant >= 0
  }

  /** Every debt's amount is a number at or above zero. */
  predicate DebtAmountsNonNegative(debts: seq<Debt>) {
    forall i :: 0 <= i < |debts| ==> D(debts[i].amountOriginal).Ok? && D(debts[i].amountOriginal).value.mant >= 0
  }

  /** An amount in whole cents, rounded as `toFixed(2)` rounds it. */
  function AmountCents(s: string): int
    requires D(s).Ok?
  {
    Cents(D(s).value)
  }

  /** The sum of the amounts, each rounded to cents. */
  function SumCents(xs: seq<string>): int
    requires AllRead(xs)
  {
    if xs == [] then 0 else AmountCents(xs[0]) + SumCents(xs[1..])
  }

  // ------------------------------------------------------------ ordering

  predicate SortedByName(people: seq<Person>) {
    forall i, j :: 0 <= i < j < |people| ==> NameLe(people[i].name, people[j].name)
  }

  /** Places `p` after every row whose name is not above its own, keeping equal names in order. */
  function InsertByName(p: Person, sorted: seq<Person>): (r: seq<Person>)
    requires SortedByName(sorted)
    ensures SortedByName(r)
    ensures multiset(r) == multiset(sorted) + multiset{p}
    ensures |r| == |sorted| + 1
  {
    if sorted == [] then [p]
    else if !NameLe(sorted[0].name, p.name) then
      NameLeTotal(p.name, sorted[0].name);
      forall j | 0 < j < |sorted|
        ensures NameLe(p.name, sorted[j].name)
      {
        NameLeTransitive(p.name, sorted[0].name, sorted[j].name);
      }
      [p] + sorted
    else
      var rest := InsertByName(p, sorted[1..]);
      assert multiset(sorted) == multiset{sorted[0]} + multiset(sorted[1..]) by {
        assert sorted == [sorted[0]] + sorted[1..];
      }
      forall j | 0 <= j < |rest|
        ensures NameLe(sorted[0].name, rest[j].name)
      {
        assert rest[j] in multiset(rest);
        if rest[j] != p {
          assert rest[j] in multiset(sorted[1..]);
          var k :| 0 <= k < |sorted[1..]| && sorted[1..][k] == rest[j];
          assert sorted[k + 1] == rest[j];
        }
      }
      [sorted[0]] + rest
  }

  /** A stable insertion sort on case-folded names. */
  function SortByName(people: seq<Person>): (r: seq<Person>)
    ensures SortedByName(r)
    ensures multiset(r) == multiset(people)
    ensures |r| == |people|
  {
    if people == [] then []
    else
      var sortedRest := SortByName(people[..|people| - 1]);
      assert people == people[..|people| - 1] + [people[|people| - 1]];
      InsertByName(people[|people| - 1], sortedRest)
  }

  /** A row whose name is not below any sorted row's goes at the end. */
  lemma {:induction false} InsertAfterAll(p: Person, sorted: seq<Person>)
    requires SortedByName(sorted)
    requires forall k :: 0 <= k < |sorted| ==> NameLe(sorted[k].name, p.name)
    ensures InsertByName(p, sorted) == sorted + [p]
  {
    if sorted != [] {
      assert SortedByName(sorted[1..]) by {
        forall i, j | 0 <= i < j < |sorted[1..]|
          ensures NameLe(sorted[1..][i].name, sorted[1..][j].name)
        {
          assert sorted[1..][i] == sorted[i + 1] && sorted[1..][j] == sorted[j + 1];
        }
      }
      forall k | 0 <= k < |sorted[1..]|
        ensures NameLe(sorted[1..][k].name, p.name)
      {
        assert sorted[1..][k] == sorted[k + 1];
      }
      InsertAfterAll(p, sorted[1..]);
      assert sorted == [sorted[0]] + sorted[1..];
    }
  }

  /** The sort is stable: people already in name order stay exactly as they are. */
  lemma {:induction false} SortSortedIsIdentity(people: seq<Person>)
    requires SortedByName(people)
    ensures SortByName(people) == people
    decreases |people|
  {
    if people != [] {
      var init := people[..|people| - 1];
      var last := people[|people| - 1];
      assert SortedByName(init) by {
        forall i, j | 0 <= i < j < |init|
          ensures NameLe(init[i].name, init[j].name)
        {
          assert init[i] == people[i] && init[j] == people[j];
        }
      }
      SortSortedIsIdentity(init);
      forall k | 0 <= k < |init|
        ensures NameLe(init[k].name, last.name)
      {
        assert init[k] == people[k];
      }
      InsertAfterAll(last, init);
      assert init + [last] == people;
    }
  }
}
