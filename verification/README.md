# iou-tracker ledger core in Dafny

iou-tracker is a mobile app that keeps a personal ledger of debts. Each debt is either
an IOU (I owe the person) or a UOM (the person owes me), is open or settled, and can
receive payments. Every amount is kept as decimal text and every sum goes through a
small decimal library (`add`, `sub`, `lt`, `toFixed(2)`, …), never through floating
point. This project models that core as pure functions over an immutable store, and
proves what the code promises about it.

The model has these modules:

- `Decimal` and `Money`: the decimal numbers of decimal.js-light and the money helpers
  built on them. A value is an exact `Dec(mant, scale)`. Printing with `toFixed(2)`
  rounds half away from zero, which is the library's rounding mode 4.
- `Ledger`: people, debts and payments, and the lookups on them.
- `Repo`: the SQLite repository as operations on three tables.
  - Each write returns the new store, together with its result or the error it throws.
  - A write that throws after it has already written keeps what it wrote, as the
    source does.
- `PersonService` and `DebtService`: the business checks in front of the repository.
  Each check throws its own message, in the order the source runs them.
- `Seed`: the demo data written on first launch.
- `AmountInput`: the amount field's sanitiser from the debt dialog.
- `SecurityStore` and `AuthGate`: the biometric lock settings and the lock screen's
  reactions to mount, resume and authentication.
- `Theme`: the colour helpers of the theme provider.
- `MoneyLaws`, `RepoLaws`, `RepoTexts` and `ServiceLaws`: properties that relate
  several operations.
  - `Sound` is the store invariant. It says that ids are unique, that amounts are
    positive whole cents, that every payment points at a debt, and that every open
    debt's person exists.
  - It also says that no debt has been paid beyond its original amount. Every write
    of the services keeps `Sound`, except `updateDebt`, which can break it (see
    below).
- `Findings`: two defects, shown on the code as written, next to corrected
  definitions.

Identifiers, the clock, the biometric prompt's answer and the persisted settings are
parameters of the operations. Nothing reads a device, a database file or a random
source.

## Model

| member | source | states |
|---|---|---|
| Money.D | iou-tracker/src/utils/money.ts:7-9 | reads exactly the numerals decimal.js-light accepts (optional '-', digits with an optional point, optional exponent); anything else fails with the library's invalid-argument message |
| Money.Add | iou-tracker/src/utils/money.ts:11-13 | succeeds iff both arguments read, else fails with the first unreadable one's error; the result is canonical two-place text whose cents are the exact sum rounded half away from zero |
| Money.Sub | iou-tracker/src/utils/money.ts:15-17 | as `add`, for the difference; the text starts with '-' exactly when the first argument is below the second |
| Money.Mul | iou-tracker/src/utils/money.ts:19-21 | as `add`, for the product |
| Money.Div | iou-tracker/src/utils/money.ts:23-25 | fails with the first unreadable argument's error, or with division by zero exactly when the divisor is zero; otherwise two-place text of the quotient rounded half away from zero |
| Money.Lte | iou-tracker/src/utils/money.ts:27-29 | `a <= b` on the exact values, after aligning both to a common scale; an unreadable argument fails |
| Money.Gte | iou-tracker/src/utils/money.ts:31-33 | `a >= b` on the exact values; an unreadable argument fails |
| Money.Lt | iou-tracker/src/utils/money.ts:35-37 | `a < b` on the exact values; an unreadable argument fails |
| Money.Gt | iou-tracker/src/utils/money.ts:39-41 | `a > b` on the exact values; an unreadable argument fails |
| Money.Eq | iou-tracker/src/utils/money.ts:43-45 | equal exact values whatever the spelling ("1.5" and "1.50"); an unreadable argument fails |
| Money.AbsMoney | iou-tracker/src/utils/money.ts:47-49 | readable iff the argument reads; unsigned two-place text whose cents are the magnitude of the rounded value |
| Money.ToCentsStr | iou-tracker/src/utils/money.ts:51-53 | readable iff the argument reads; two-place text whose cents are the rounded value, with '-' exactly when the value is below zero |
| Money.FormatMoney | iou-tracker/src/utils/money.ts:55-68 | readable iff the amount reads, failing with its error otherwise; the text ends with `abs(amount)` |
| MoneyLaws.FormatMoneySigns | iou-tracker/src/utils/money.ts:55-68 | without `showSign` the text is "$" and the magnitude; with it, "-$" for a value below zero, "+$" above zero, and "$" for zero either way; a negative value never gets '+' |
| MoneyLaws.AbsIsUnsignedCents | iou-tracker/src/utils/money.ts:47-53 | `abs(a)` is `toCentsStr(a)` with its minus sign removed |
| MoneyLaws.ToCentsStrCanonical | iou-tracker/src/utils/money.ts:51-53 | every canonical two-place text other than "-0.00" comes back unchanged |
| MoneyLaws.ToCentsStrIdempotent | iou-tracker/src/utils/money.ts:51-53 | printing a printed amount again changes nothing, unless the first print was "-0.00" |
| MoneyLaws.ToCentsStrNegativeZero | iou-tracker/src/utils/money.ts:51-53 | the exception: "-0.001" prints as "-0.00", which then prints as "0.00" |
| MoneyLaws.AddExact | iou-tracker/src/utils/money.ts:11-13 | on amounts with at most two places, `add` succeeds and the cents of the sum are the sum of the cents |
| MoneyLaws.SubExact | iou-tracker/src/utils/money.ts:15-17 | on amounts with at most two places, `sub` succeeds and the cents of the result are the difference of the cents |
| MoneyLaws.AddTenths | iou-tracker/src/utils/money.ts:11-13 | `add("0.10", "0.20")` is "0.30", with no floating-point error |
| MoneyLaws.AddCommutative | iou-tracker/src/utils/money.ts:11-13 | `add(a, b) == add(b, a)` for readable arguments |
| MoneyLaws.SubSelf | iou-tracker/src/utils/money.ts:15-17 | `sub(a, a)` is "0.00" for every readable `a` |
| MoneyLaws.SubAntisymmetric | iou-tracker/src/utils/money.ts:15-17 | the cents of `sub(a, b)` are minus those of `sub(b, a)` |
| MoneyLaws.MulOne | iou-tracker/src/utils/money.ts:19-21 | `mul(a, "1")` is `toCentsStr(a)` |
| MoneyLaws.MulCommutative | iou-tracker/src/utils/money.ts:19-21 | `mul(a, b) == mul(b, a)` for readable arguments |
| MoneyLaws.DivUndoesMul | iou-tracker/src/utils/money.ts:23-25 | dividing a whole-cent amount times `y` by a non-zero `y` gives the amount's cents back |
| MoneyLaws.ComparisonsAgree | iou-tracker/src/utils/money.ts:27-45 | `lt` is not `gte`, `gt` is not `lte`, `lte` is `lt` or `eq`, `gte` is `gt` or `eq`, `lt(a, b)` is `gt(b, a)`, and `eq` is symmetric |
| MoneyLaws.LtIffSubNegative | iou-tracker/src/utils/money.ts:35-37 | `lt(a, b)` holds exactly when `sub(a, b)` prints a minus sign |
| MoneyLaws.ComparisonIsExact | iou-tracker/src/utils/money.ts:27-29 | comparisons do not round: "0.011" is not `lte` "0.01", although it prints as "0.01" |
| Money.IsZero | iou-tracker/src/services/DebtService.ts:16 | readable iff the text reads, failing with its error otherwise; true exactly when the value is zero |
| Money.IsZeroIsEq | iou-tracker/src/services/DebtService.ts:16 | `isZero(x)` gives the same answer and the same error as `eq(x, "0")` |
| MoneyLaws.BelowZero | iou-tracker/src/services/DebtService.ts:55-57 | `lt(x, "0")` on a readable amount is whether it is below zero |
| MoneyLaws.LtInCents | iou-tracker/src/services/DebtService.ts:129 | comparing a printed balance with a two-place amount compares their cents |
| Strings.SplitJoin | iou-tracker/src/db/repo.ts:34-47 | splitting a joined list on a separator that no piece contains gives the pieces back |
| Repo.UpsertPerson | iou-tracker/src/db/repo.ts:6-21 | the given id or a fresh one is returned; the row with that id then holds the given fields, every other row is kept, no row is added when the id existed, ids stay unique, and no debt or payment changes |
| Repo.GetPersonById | iou-tracker/src/db/repo.ts:23-26 | a row is returned iff one has the id, and it is that row |
| Repo.CreateDebt | iou-tracker/src/db/repo.ts:62-73 | fails, leaving the store alone, iff the id is taken; otherwise appends the row with the defaults open and now; the person and amount are not checked |
| Repo.AddPayment | iou-tracker/src/db/repo.ts:75-88 | appends the payment under a fresh id; succeeds iff the debt's balance then reads; the debt is settled iff it was settled or that balance is at most 0.01; when the balance read throws, the payment stays and no debt changes; no other row changes |
| RepoLaws.SettlesIffAtMostOneCent | iou-tracker/src/db/repo.ts:84 | on a printed balance, `lte(bal, "0.01")` holds exactly when the balance is at most one cent |
| RepoLaws.ThresholdIsInclusive | iou-tracker/src/db/repo.ts:82-86 | a balance of "0.01" settles and one of "0.02" does not |
| Repo.GetDebtBalance | iou-tracker/src/db/repo.ts:90-111 | an unknown id throws the not-found error; otherwise a two-place balance |
| Repo.FoldAdd | iou-tracker/src/db/repo.ts:47 | succeeds when the start value and every amount read, and only when every amount reads; no amounts give the start value back, any amount gives two-place text |
| RepoLaws.FoldAddSum | iou-tracker/src/db/repo.ts:108 | a `reduce` with `add` over amounts at or above zero succeeds and adds the amounts' cents to the start value's |
| RepoLaws.FoldFromZero | iou-tracker/src/db/repo.ts:108 | starting from "0", the total is a two-place amount of exactly the sum of the cents |
| RepoLaws.BalanceIsOriginalMinusPaid | iou-tracker/src/db/repo.ts:90-111 | a debt's balance in cents is its original amount less the sum of its payments |
| Repo.ListPeopleWithTotals | iou-tracker/src/db/repo.ts:28-60 | one row per person, in case-insensitive name order, each naming a person of the table |
| RepoLaws.ReadableHasNoComma | iou-tracker/src/db/repo.ts:47 | a readable amount is not empty and contains no comma, so `split(',')` recovers the concatenated amounts |
| RepoLaws.TotalOfConcatSum | iou-tracker/src/db/repo.ts:33-49 | a person's concatenated open amounts split and added back give their exact sum, and "0.00" when there are none |
| RepoLaws.PersonRowIsSums | iou-tracker/src/db/repo.ts:45-58 | a person's row holds the cents of their open IOU debts, of their open UOM debts, and UOM minus IOU |
| RepoTexts.ListPeopleWithTotalsAreTexts | iou-tracker/src/db/repo.ts:28-60 | the result is exactly the canonical two-place texts of those sums, row by row, over the people sorted by name |
| Repo.DashboardTotals | iou-tracker/src/db/repo.ts:113-128 | succeeds iff every open IOU and UOM amount reads; the three figures are two-place texts |
| RepoLaws.DashboardTotalsAreSums | iou-tracker/src/db/repo.ts:113-128 | the dashboard holds the cents of all open IOU debts, of all open UOM debts, and UOM minus IOU |
| RepoTexts.DashboardTotalsAreTexts | iou-tracker/src/db/repo.ts:123-127 | the three figures are the canonical two-place texts of those sums |
| RepoLaws.NetOfTotals | iou-tracker/src/db/repo.ts:121 | the net printed from two-place totals is exactly UOM minus IOU in cents |
| RepoLaws.PeopleSumPermutation | iou-tracker/src/db/repo.ts:41-42 | adding per-person totals does not depend on the order of the people |
| RepoLaws.TotalsConsistent | iou-tracker/src/db/repo.ts:28-128 | when every amount is at or above zero, person ids are unique and every open debt's person exists, the people's IOU totals, UOM totals and nets each add up, in cents, to the dashboard's figure |
| Repo.DeletePerson | iou-tracker/src/services/PersonService.ts:81-91 | refused, leaving the store alone and with a message containing "open debts", iff the person has an open debt; otherwise the person's row is gone and everything else stays |
| Repo.ListAllPeople | iou-tracker/src/services/PersonService.ts:109 | every person, each as often as in the table |
| Repo.UpdateDebt | iou-tracker/src/services/DebtService.ts:103 | the fields given are written to the debt with that id; no other row or field changes |
| Repo.MarkDebtSettled | iou-tracker/src/services/DebtService.ts:160 | the debt with that id becomes settled; nothing else changes |
| Repo.DeleteDebt | iou-tracker/src/services/DebtService.ts:181 | the debt with that id is gone, every other debt stays, and no other table changes |
| Repo.GetDebtsByPersonAndType | iou-tracker/src/services/DebtService.ts:195 | a debt is listed iff it belongs to that person and has that type |
| Repo.GetDebtWithBalance | iou-tracker/src/services/DebtService.ts:122-125 | nothing iff the id is unknown; otherwise the row and its balance, or the balance's error |
| Repo.GetPaymentsByDebt | iou-tracker/src/services/DebtService.ts:174 | a payment is listed iff it is in the table and points at that debt |
| PersonService.CheckName | iou-tracker/src/services/PersonService.ts:15-21 | accepts iff the trimmed name is non-empty and at most 100 UTF-16 units, returning it trimmed; a blank name is "required", any other refusal is "too long" |
| PersonService.NameLengthBoundary | iou-tracker/src/services/PersonService.ts:19-21 | a name of 100 characters passes and one of 101 is refused |
| PersonService.NameIgnoresSurroundingSpace | iou-tracker/src/services/PersonService.ts:15-26 | whitespace around a name changes neither the verdict nor the stored name |
| PersonService.BlankNameRequired | iou-tracker/src/services/PersonService.ts:15-17 | a name of spaces is refused as missing |
| PersonService.NormalizeText | iou-tracker/src/services/PersonService.ts:27-28 | absent when absent or blank, otherwise the trimmed text |
| PersonService.NormalizeTextIdempotent | iou-tracker/src/services/PersonService.ts:27-28 | normalising twice is normalising once |
| PersonService.CreatePerson | iou-tracker/src/services/PersonService.ts:13-37 | fails iff the name check fails, leaving the store alone; otherwise the returned id holds the normalised row, other people stay, and normalised, unique people stay so |
| PersonService.CreateThenGet | iou-tracker/src/services/PersonService.ts:31-36 | a created person is found again under the returned id, normalised |
| PersonService.UpdatePerson | iou-tracker/src/services/PersonService.ts:42-69 | succeeds iff the name passes and the person exists, with name errors first; the row is overwritten with the normalised fields, and nothing is added or lost |
| PersonService.UpsertPerson | iou-tracker/src/services/PersonService.ts:118-127 | a non-empty id takes the update path and must exist; an absent or empty id is exactly `createPerson` |
| PersonService.DeletePerson | iou-tracker/src/services/PersonService.ts:74-92 | an unknown person is not found; a person with an open debt is refused with the business message; otherwise only that person's row goes |
| PersonService.GetPersonById | iou-tracker/src/services/PersonService.ts:97-103 | an empty id is refused; otherwise the row with that id, if any |
| PersonService.ListAllPeople | iou-tracker/src/services/PersonService.ts:108-113 | a permutation of the table, sorted by name |
| DebtService.CheckAmount | iou-tracker/src/services/DebtService.ts:49-57 | accepts iff the amount reads and is above zero; blank is "required", unreadable text fails with the library's error, zero is "must be greater than zero", below zero is "cannot be negative" |
| DebtService.CreateDebt | iou-tracker/src/services/DebtService.ts:44-77 | succeeds iff the description is not blank, the amount is positive and the person exists; each refusal has its message and leaves the store alone; success appends one open debt with the trimmed description |
| DebtService.UpdateDebt | iou-tracker/src/services/DebtService.ts:82-106 | succeeds iff a given description is not blank and a given amount is positive; only the fields given change, on that debt only; an unknown id changes nothing |
| DebtService.AdmitPayment | iou-tracker/src/services/DebtService.ts:112-133 | the payment checks in order: amount, debt found, not settled, not above the balance, each with its message |
| DebtService.InsertPayment | iou-tracker/src/services/DebtService.ts:135-138 | the repository insert, then the balance read back; the insert stays even when the read fails |
| DebtService.AddPaymentWithAutoSettle | iou-tracker/src/services/DebtService.ts:111-146 | every refusal leaves the store alone with its message; an admitted payment is the repository's insert and auto-settle; success returns the new id |
| DebtService.MarkDebtSettled | iou-tracker/src/services/DebtService.ts:151-163 | succeeds iff the debt exists, is open and its balance reads; then only its status changes |
| DebtService.DeleteDebt | iou-tracker/src/services/DebtService.ts:168-184 | succeeds iff the debt exists, its balance reads and it has no payments; then only that debt goes |
| DebtService.GetDebtsForPerson | iou-tracker/src/services/DebtService.ts:189-196 | the person must exist; a debt is listed iff it is that person's and of that type |
| DebtService.GetDebtWithBalanceById | iou-tracker/src/services/DebtService.ts:202-213 | an empty id is refused, an unknown one is not found; otherwise the row and its balance |
| DebtService.GetPaymentsForDebt | iou-tracker/src/services/DebtService.ts:218-225 | the debt must exist; a payment is listed iff it points at the debt |
| DebtService.CreateDebtInCents | iou-tracker/src/services/DebtService.ts:49-57 | corrected: an amount with more than two places is refused and the store is left alone; otherwise exactly `createDebt` |
| DebtService.UpdateDebtInCents | iou-tracker/src/services/DebtService.ts:90-101 | corrected `updateDebt`: sub-cent amounts refused, otherwise unchanged behaviour |
| DebtService.AddPaymentInCents | iou-tracker/src/services/DebtService.ts:112-120 | corrected `addPaymentWithAutoSettle`: sub-cent amounts refused, otherwise unchanged behaviour |
| ServiceLaws.BalanceNeverNegative | iou-tracker/src/services/DebtService.ts:129-133 | in a sound store every debt's balance reads and is at least zero |
| ServiceLaws.AddPaymentAccepted | iou-tracker/src/services/DebtService.ts:111-146 | an admitted whole-cent payment succeeds, is appended, and changes no debt but a status, and no person |
| ServiceLaws.AddPaymentSettlesAtOneCent | iou-tracker/src/services/DebtService.ts:135-141 | after an admitted payment the debt is settled exactly when at most one cent of it remains |
| ServiceLaws.AddPaymentKeepsPaidWithinOriginal | iou-tracker/src/services/DebtService.ts:129-133 | an admitted whole-cent payment never pays a debt beyond its original amount |
| ServiceLaws.AddPaymentKeepsSound | iou-tracker/src/services/DebtService.ts:111-146 | an admitted whole-cent payment keeps the store sound |
| ServiceLaws.PayingTheBalanceSettles | iou-tracker/src/services/DebtService.ts:129-141 | paying exactly the balance shown is admitted and settles the debt |
| ServiceLaws.CreatePersonKeepsSound | iou-tracker/src/services/PersonService.ts:13-37 | `createPerson` keeps the store sound |
| ServiceLaws.UpdatePersonKeepsSound | iou-tracker/src/services/PersonService.ts:42-69 | `updatePerson` keeps the store sound |
| ServiceLaws.UpsertPersonKeepsSound | iou-tracker/src/services/PersonService.ts:118-127 | `upsertPerson` keeps the store sound |
| ServiceLaws.DeletePersonKeepsSound | iou-tracker/src/services/PersonService.ts:74-92 | `deletePerson` keeps the store sound: no open debt loses its person |
| ServiceLaws.CreateDebtKeepsSound | iou-tracker/src/services/DebtService.ts:44-77 | creating a debt in whole cents keeps the store sound |
| ServiceLaws.MarkDebtSettledKeepsSound | iou-tracker/src/services/DebtService.ts:151-163 | settling by hand keeps the store sound |
| ServiceLaws.DeleteDebtKeepsSound | iou-tracker/src/services/DebtService.ts:168-184 | deleting a debt keeps the store sound: no payment is left pointing nowhere |
| ServiceLaws.UpdateDebtKeepsConsistent | iou-tracker/src/services/DebtService.ts:82-106 | a whole-cent update keeps ids unique, amounts whole, payments pointing at debts and open debts' people present |
| ServiceLaws.UpdateCanUnderrunPayments | iou-tracker/src/services/DebtService.ts:90-103 | lowering a debt's amount below what was paid is accepted and leaves a balance below zero, so `updateDebt` does not keep the store sound |
| ServiceLaws.CreateDebtKeepsSettled | iou-tracker/src/services/DebtService.ts:44-77 | creating a debt moves no row and reopens no settled debt |
| ServiceLaws.AddPaymentKeepsSettled | iou-tracker/src/services/DebtService.ts:111-146 | a payment may settle its debt but never reopens one |
| ServiceLaws.UpdateKeepsSettled | iou-tracker/src/services/DebtService.ts:82-106 | an edit moves no row and reopens nothing |
| ServiceLaws.MarkSettledKeepsSettled | iou-tracker/src/services/DebtService.ts:151-163 | settling by hand moves no row and reopens nothing |
| Seed.SeedIfEmpty | iou-tracker/src/db/seed.ts:3-18 | on any store: at most three people and four debts are added, and earlier payments are kept; when every write succeeds, exactly four debts and three payments are added and the last debt is Snacks, already settled |
| Seed.SeedRun | iou-tracker/src/db/seed.ts:3-18 | on an empty store, with distinct ids, every write succeeds and the result is the three people, four debts and three payments in the order written |
| Seed.GroceriesBalance | iou-tracker/src/db/seed.ts:8-9 | Groceries, 120.00 less 40.00, has a balance of "80.00" and stays open |
| Seed.ConcertBalance | iou-tracker/src/db/seed.ts:13-15 | Concert tickets, 200.00 less two payments of 50.00, has a balance of "100.00" and stays open |
| Seed.SeededDashboard | iou-tracker/src/db/seed.ts:3-18 | the dashboard after seeding shows "320.00" owed, "60.00" owing and "-260.00" net; the settled Snacks debt is not counted |
| Seed.SeededPeopleTotals | iou-tracker/src/db/seed.ts:4-17 | the people list after seeding: Alex 120.00 / 0.00 / -120.00, Jordan 0.00 / 60.00 / 60.00, Sam 200.00 / 0.00 / -200.00 |
| AmountInput.Clean | iou-tracker/src/components/DebtModal.tsx:69 | only digits and points remain, as many points as in the input, and the text never grows |
| AmountInput.FormatAmount | iou-tracker/src/components/DebtModal.tsx:67-80 | the result is the input with characters deleted and has at most one point |
| AmountInput.FormatAmountShape | iou-tracker/src/components/DebtModal.tsx:67-80 | the result has only digits and at most one point, and is the input with characters deleted; with at most one point in the input, at most two digits follow it |
| AmountInput.FormatAmountKeepsWellFormed | iou-tracker/src/components/DebtModal.tsx:67-80 | text with at most one point and at most two decimals is returned unchanged |
| AmountInput.FormatAmountIdempotent | iou-tracker/src/components/DebtModal.tsx:67-80 | with at most one point in the input, a second pass changes nothing |
| AmountInput.FormatAmountMerges | iou-tracker/src/components/DebtModal.tsx:72-74 | "x.y.z" in digits becomes "x.yz": the extra point is dropped |
| AmountInput.FormatAmountCuts | iou-tracker/src/components/DebtModal.tsx:76-78 | "x.w" with more than two decimals keeps two |
| AmountInput.MergedFractionNotCut | iou-tracker/src/components/DebtModal.tsx:72-78 | as written: after a merge the fraction keeps all its digits, the result is not well formed, and a second pass changes it |
| AmountInput.FormatAmountFixed | iou-tracker/src/components/DebtModal.tsx:67-80 | corrected: the result is well formed (digits, at most one point, at most two decimals) and is the input with characters deleted |
| AmountInput.FormatAmountFixedShape | iou-tracker/src/components/DebtModal.tsx:67-80 | corrected: always at most one point and two decimals, the input with characters deleted, and the same as `formatAmount` when the input has at most one point |
| AmountInput.FormatAmountFixedIdempotent | iou-tracker/src/components/DebtModal.tsx:67-80 | corrected: a second pass never changes anything |
| SecurityStore.SetEnabled | iou-tracker/src/store/securityStore.ts:32 | sets the flag and nothing else |
| SecurityStore.ClampSession | iou-tracker/src/store/securityStore.ts:35-36 | a non-finite value becomes 0; a finite one is clamped to between 0 and 86,400,000 |
| SecurityStore.SetSessionMs | iou-tracker/src/store/securityStore.ts:33-38 | the stored length lies in [0, 86,400,000] and no other field changes |
| SecurityStore.SetSessionMsIdempotent | iou-tracker/src/store/securityStore.ts:33-38 | setting the stored length again changes nothing |
| SecurityStore.ClampMonotone | iou-tracker/src/store/securityStore.ts:35-36 | a longer request never stores a shorter session |
| SecurityStore.MarkAuthed | iou-tracker/src/store/securityStore.ts:39 | records the given time and nothing else |
| SecurityStore.ClearSession | iou-tracker/src/store/securityStore.ts:40 | forgets the last authentication and nothing else |
| SecurityStore.SetHydrated | iou-tracker/src/store/securityStore.ts:41 | sets the runtime flag and nothing else |
| SecurityStore.Partialize | iou-tracker/src/store/securityStore.ts:47-52 | the three settings, without the runtime flag |
| SecurityStore.Migrate | iou-tracker/src/store/securityStore.ts:53-62 | each missing field gets its default (off, five minutes, never), each present one is kept |
| SecurityStore.MigrateRoundTrip | iou-tracker/src/store/securityStore.ts:47-62 | what `partialize` writes comes back unchanged through `migrate` |
| SecurityStore.MigrateDoesNotClamp | iou-tracker/src/store/securityStore.ts:58 | a stored session length of -1 survives `migrate` |
| SecurityStore.InitialMatchesDefaults | iou-tracker/src/store/securityStore.ts:28-31 | the initial state and the defaults of `migrate` agree; locking starts off and the store starts unhydrated |
| AuthGate.ExpiredIsNotFresh | iou-tracker/src/security/AuthGate.tsx:31-47 | the resume check `expired` is exactly the negation of the mount check `fresh` |
| AuthGate.ZeroTimestampIsStale | iou-tracker/src/security/AuthGate.tsx:31 | a last-authentication time of 0 is falsy: never fresh, always expired |
| AuthGate.InitialGate | iou-tracker/src/security/AuthGate.tsx:12 | the gate starts locked exactly when locking is on |
| AuthGate.OnMount | iou-tracker/src/security/AuthGate.tsx:26-37 | prompts exactly when locking is on and the session is not fresh, and is locked exactly then |
| AuthGate.OnChange | iou-tracker/src/security/AuthGate.tsx:40-55 | always records the new app state; prompts exactly on background or inactive to active with locking on and the session expired; otherwise `locked` is unchanged |
| AuthGate.AuthResult | iou-tracker/src/security/AuthGate.tsx:15-23 | success records the time and unlocks; failure locks and records nothing |
| AuthGate.DisabledAlwaysShows | iou-tracker/src/security/AuthGate.tsx:57 | with locking off the content always shows and nothing ever prompts |
| AuthGate.OnlyResumePrompts | iou-tracker/src/security/AuthGate.tsx:46 | a change that is not a resume never prompts and never changes `locked` |
| AuthGate.AuthenticatedSessionStaysOpen | iou-tracker/src/security/AuthGate.tsx:15-55 | after a successful authentication at a nonzero time, remounts and resumes within the session neither prompt nor lock |
| AuthGate.ZeroSessionAlwaysExpires | iou-tracker/src/security/AuthGate.tsx:47 | a session length set to zero or less, or to a non-finite value, is expired at once for any last authentication not in the future |
| Theme.HexToRgb | iou-tracker/src/theme/ThemeProvider.tsx:12-16 | a result iff the text is six hex digits, with an optional leading '#', in either case; channels below 256 |
| Theme.OtherLengthsRefused | iou-tracker/src/theme/ThemeProvider.tsx:13 | three-digit shorthand, eight digits with alpha, and any other length are refused |
| Theme.HexRoundTrip | iou-tracker/src/theme/ThemeProvider.tsx:12-16 | formatting channels as hex, with or without '#', and reading them back gives the same channels |
| Theme.CaseInsensitive | iou-tracker/src/theme/ThemeProvider.tsx:13 | folding the letters' case does not change the reading |
| Theme.WithAlpha | iou-tracker/src/theme/ThemeProvider.tsx:18-23 | `rgb(`/`rgba(` colours and anything that is not a hex colour come back unchanged; any change gives an `rgba(` colour |
| Theme.WithAlphaOfHex | iou-tracker/src/theme/ThemeProvider.tsx:20-22 | a hex colour becomes `rgba(r, g, b, alpha)` with the channels in decimal |
| Theme.WithAlphaIdempotent | iou-tracker/src/theme/ThemeProvider.tsx:18-23 | applying an alpha to a colour that already has one changes nothing |
| Findings.BalanceShownAsOneCent | iou-tracker/src/db/repo.ts:109 | a debt of "0.005" with no payments shows a balance of one cent |
| Findings.RepoSettlesHalfCent | iou-tracker/src/db/repo.ts:82-86 | a payment of "0.01" on that debt is recorded and settles it, leaving a balance of minus one cent |
| Findings.SubCentDebtOverpaid | iou-tracker/src/services/DebtService.ts:129 | as written: the service admits the "0.01" payment although it exceeds the "0.005" owed; the debt settles at minus one cent |
| Findings.SubCentDebtRefused | iou-tracker/src/services/DebtService.ts:49-57 | corrected: the "0.005" debt is refused when it is created, and the store is left as it was |

## Left out

- Money.Add: decimal.js-light is set to 28 significant digits (money.ts:5), so a result
  longer than that is rounded before `toFixed(2)`. The model computes exactly. For
  example, `add("1e30", "0.01")` gives "1000000000000000000000000000000.00" in the
  library but "…000.01" here. Amounts up to 28 significant digits are unaffected.
- Money.Sub: the same 28-digit precision is not modelled.
- Money.Mul: the same 28-digit precision is not modelled.
- Money.Div: the same 28-digit precision is not modelled. The library rounds the
  quotient to 28 significant digits before `toFixed(2)`. For example, `div("1e30", "3")`
  gives "333333333333333333333333333300.00" in the library but "…333.33" here.
- Decimal.Parse: decimal.js-light throws on exponents beyond ±9e15. Parse reads any
  exponent exactly.
- Money.IsZero: money.ts defines no `isZero`, although DebtService.ts:16 imports it.
  It is modelled as `eq(x, "0")`, which `Money.IsZeroIsEq` proves, with the same
  error for unreadable text.
- Money.D: only text arguments are modelled; `d` on a JavaScript number is not.
- DebtService.AddPaymentWithAutoSettle: `AUTO_SETTLE_THRESHOLD` comes from
  constants/money, which is not part of this model. It only gates a log line
  (DebtService.ts:139). The repository's own threshold "0.01" (repo.ts:84) is the one
  that settles.
- DebtService.CreateDebt: the services' `console.log` calls are dropped. They have no
  effect on the store or the result. The same holds for every other service operation.
- SecurityStore.Num: a finite session length is a whole number of milliseconds, so a
  fractional value such as `setSessionMs(1.5)`, which the source stores unchanged,
  cannot be expressed.
- PersonService.ListAllPeople: the source sorts with `localeCompare` (PersonService.ts:112),
  whose order depends on the device's locale. The model sorts with `NameLe`, an ASCII
  case-insensitive order. It proves only that the result is a permutation sorted by that
  order.
- Repo.ListPeopleWithTotals: SQLite does not promise any order for `GROUP_CONCAT`. The
  model takes the debts in table order. The totals do not depend on that order, since
  each whole-cent amount adds exactly (`RepoLaws.FoldAddSum`). Its `ORDER BY name
  COLLATE NOCASE` is the same ASCII case fold, sorted stably.
- Repo.DeletePerson: the repository's `deletePerson` is not part of this model's
  sources. It is modelled as refusing exactly when the person has an open debt,
  because PersonService.ts:82-88 says the repository checks for open debts and throws
  an error mentioning "open debts".
  - A stricter reading is not modelled: refusing on any debt that references the
    person, settled or not, as the schema's `REFERENCES people(id)` suggests.
  - This is the one check the model adds to a repository write. The rest are plain
    table operations.
  - `ServiceLaws.DeletePersonKeepsSound` relies on this reading. With it, a person with
    only settled debts can be deleted, and the settled debts keep a dangling person id.
- Repo.UpdateDebt: repo.ts does not show `updateDebt`, `markDebtSettled`, `deleteDebt`,
  `getDebtsByPersonAndType`, `getPaymentsByDebt`, `getDebtWithBalance` or
  `listAllPeople`. Each is modelled as the plain table operation that its callers in
  the services rely on.
- Repo.CreateDebt: foreign keys are not enforced, because db.ts never enables them.
  A debt or payment may therefore name a missing person or debt, and the model checks
  neither.
- AuthGate.OnChange: `tryAuth` is asynchronous. The model takes the lock and the
  prompt as one step and the prompt's answer (`AuthGate.AuthResult`) as a later one.
  App-state events that arrive while a prompt is open are not modelled.
- AuthGate.OnMount: `Date.now()` is the parameter `now`, and the biometric prompt's
  outcome is the parameter `ok` of `AuthResult`.
- AuthGate.ZeroTimestampIsStale: this is the source's behaviour and is kept, not
  corrected. A last authentication at time 0 counts as never having authenticated,
  because of JavaScript truthiness.
- SecurityStore.Migrate: the stored version is ignored and the session length is not
  clamped, as in the source. A hand-edited stored length outside the range survives
  (`MigrateDoesNotClamp`).
- Theme.WithAlpha: `alpha` is the text JavaScript prints for the number. How numbers
  are printed is not modelled.
- PersonService.CheckName: the message says "less than 100 characters", but a name of
  exactly 100 is accepted (`NameLengthBoundary`). The code is followed. Length counts
  UTF-16 code units.
- Money.FormatMoney: no thousands separators are inserted. Its own contract states
  readability and the magnitude suffix. The sign cases are in `MoneyLaws.FormatMoneySigns`.
- Seed.SeedIfEmpty: despite its name it does not check that the store is empty; it
  writes the same rows whatever the store holds. `Seed.SeedRun` states the outcome on
  an empty store. The ids and the clock are parameters. Every seeded timestamp is the
  one parameter `now`, while seed.ts calls `new Date().toISOString()` for each write,
  so its timestamps can differ from one another.
- DebtService.CreateDebtInCents: the message "… cannot have more than two decimal
  places" is the model's own. The source has no such check.
- DebtService.UpdateDebt: `updateDebt` neither checks that the debt exists nor looks at
  its payments. A new amount below what was already paid is accepted, and the balance
  goes negative (`ServiceLaws.UpdateCanUnderrunPayments`). This is kept as written,
  because the source has no intended bound to restore.
- RepoLaws.SettlesIffAtMostOneCent: a debt settles when at most 0.01 is left, so paying
  99.99 on a 100.00 debt settles it. The code's `lte(bal, '0.01')` is followed.
- AmountInput.FormatAmount: DebtModal.tsx:57 then stores `parseFloat(amount).toFixed(2)`,
  which is floating point. That step is not modelled.
- Identifiers (`Crypto.randomUUID`), `new Date().toISOString()` and `Date.now()` are
  parameters. Database I/O, persistence storage and the React components' rendering
  are not modelled.

## Findings

| source | as written | input that shows it | evidently intended | confidence | as-written member | corrected member |
|---|---|---|---|---|---|---|
| iou-tracker/src/services/DebtService.ts:129 | amounts are checked only for being above zero (lines 49-57), so a debt of "0.005" is accepted; its balance prints as "0.01", and `lt(balance, amount)` then lets a "0.01" payment through | create a debt of "0.005", then pay "0.01" | no payment pays a debt beyond what is owed | not executed | Findings.SubCentDebtOverpaid | DebtService.CreateDebtInCents, with ServiceLaws.AddPaymentKeepsPaidWithinOriginal |
| iou-tracker/src/components/DebtModal.tsx:72-78 | when the text has two or more points, the merge branch returns before the two-decimal cut | "1.2.345" becomes "1.2345" | at most one point and at most two decimals, as the comment at line 76 says | not executed | AmountInput.MergedFractionNotCut | AmountInput.FormatAmountFixed, with AmountInput.FormatAmountFixedShape |
