/**
 * The ledger's totals as they print: every sum `listPeopleWithTotals` and
 * `dashboardTotals` return is the canonical two-place text of a whole number of cents,
 * unsigned for the IOU and UOM totals and signed for the net.
 */
module RepoTexts {
  import opened Wrappers
  import opened Errors
  import opened Decimal
  import opened Money
  import opened MoneyLaws
  import opened Ledger
  import opened Repo
  import opened RepoLaws

  /**
   * `dashboardTotals` prints each sum in canonical two-place form: the IOU and UOM totals
   * unsigned, the net with a '-' exactly when I owe more than I am owed.
   */
  lemma {:induction false} DashboardTotalsAreTexts(st: Store)
    requires DebtAmountsNonNegative(st.debts)
    ensures DashboardTotals(st) == Ok(DashboardText(st.debts))
  {
    TotalExact(st.debts, IOU);
    TotalExact(st.debts, UOM);
    PrintTotalsAreCents(FoldAdd("0", OpenAmounts(st.debts, IOU, None)).value,
                        FoldAdd("0", OpenAmounts(st.debts, UOM, None)).value);
  }

  /** `listPeopleWithTotals`, one row: its totals print in canonical two-place form. */
  lemma {:induction false} PersonRowAreTexts(debts: seq<Debt>, p: Person)
    requires DebtAmountsNonNegative(debts)
    ensures PersonRow(debts, p) == Ok(RowText(debts, p))
  {
    KindExact(debts, IOU, p.id);
    KindExact(debts, UOM, p.id);
    PrintTotalsAreCents(TotalOfConcat(GroupConcat(OpenAmounts(debts, IOU, Some(p.id)))).value,
                        TotalOfConcat(GroupConcat(OpenAmounts(debts, UOM, Some(p.id)))).value);
  }

  lemma {:induction false} PersonRowsAreTexts(debts: seq<Debt>, people: seq<Person>)
    requires DebtAmountsNonNegative(debts)
    ensures PersonRows(debts, people) == Ok(RowTexts(debts, people))
    decreases |people|
  {
    if people != [] {
      PersonRowAreTexts(debts, people[0]);
      PersonRowsAreTexts(debts, people[1..]);
    }
  }

  /**
   * `listPeopleWithTotals()`: every person's row, in case-insensitive name order, printed
   * in canonical two-place form.
   */
  lemma ListPeopleWithTotalsAreTexts(st: Store)
    requires DebtAmountsNonNegative(st.debts)
    ensures ListPeopleWithTotals(st) == Ok(RowTexts(st.debts, SortByName(st.people)))
  {
    PersonRowsAreTexts(st.debts, SortByName(st.people));
  }
}
