/**
 * `services/DebtService.ts`: the checks in front of the repository's debt and payment
 * operations. Every check that fails throws before anything is written.
 */
module DebtService {
  import opened Wrappers
  import opened Errors
  import opened Strings
  import opened Decimal
  import opened Money
  import opened MoneyLaws
  import opened Ledger
  import RepoLaws
  import Repo
  import PersonService

  const DescriptionRequired: string := "Debt description is required"
  const DebtNotFoundMessage: string := "Debt not found"
  const DebtIdRequired: string := "Debt ID is required"
  const SettledDebtPayment: string := "Cannot add payment to settled debt"
  const AlreadySettled: string := "Debt is already settled"
  const HasPaymentsRefusal: string := "Cannot delete debt that has payments. Mark as settled instead."

  /** The refusal of a payment larger than what is left, quoting both texts as given. */
  function ExceedsBalance(amount: string, balance: string): string {
    "Payment amount ($" + amount + ") cannot exceed remaining balance ($" + balance + ")"
  }

  /** An amount the service accepts: a number above zero. */
  predicate PositiveAmount(a: string) {
    D(a).Ok? && D(a).value.mant > 0
  }

  /**
   * The amount checks of `createDebt`, `updateDebt` and `addPaymentWithAutoSettle`, in
   * their order: present, not zero, not negative. `subject` is "Debt" or "Payment".
   * Text the library cannot read fails the zero test with the library's own error.
   */
  function CheckAmount(amt: string, subject: string): (r: Result<(), Error>)
    ensures r.Ok? <==> PositiveAmount(amt)
    ensures AllWhitespace(amt) ==> r == Err(BusinessError(subject + " amount is required"))
    ensures !AllWhitespace(amt) && D(amt).Err? ==> r == Err(D(amt).error)
    ensures D(amt).Ok? && D(amt).value.mant == 0 ==> r == Err(BusinessError(subject + " amount must be greater than zero"))
    ensures D(amt).Ok? && D(amt).value.mant < 0 ==> r == Err(BusinessError(subject + " amount cannot be negative"))
  {
    if Trim(amt) == [] then
      assert D(amt).Ok? ==> !AllWhitespace(amt) by {
        if D(amt).Ok? {
          RepoLaws.ReadableNotBlank(amt);
        }
      }
      Err(BusinessError(subject + " amount is required"))
    else
      match IsZero(amt)
      case Err(e) => Err(e)
      case Ok(zero) =>
        if zero then Err(BusinessError(subject + " amount must be greater than zero"))
        else
          BelowZero(amt);
          if Lt(amt, "0").value then Err(BusinessError(subject + " amount cannot be negative"))
          else Ok(())
  }

  // ------------------------------------------------------------ debts

  datatype CreateDebtRequest = CreateDebtRequest(
    kind: DebtType,
    personId: string,
    description: string,
    amountOriginal: string,
    dueAt: Option<string>)

  /** The debt a successful `createDebt` appends. */
  function NewDebt(req: CreateDebtRequest, id: string, now: string): Debt {
    Debt(id, req.kind, req.personId, Some(Trim(req.description)), req.amountOriginal, now, req.dueAt, Open)
  }

  /**
   * `createDebt(data)`: a description, a positive amount and an existing person are
   * required; the debt is stored open, with the trimmed description, the amount as
   * given, and the current time.
   */
  function CreateDebt(st: Store, req: CreateDebtRequest, freshId: string, now: string): (out: Outcome<string>)
    ensures out.result.Ok? <==>
              !AllWhitespace(req.description) && PositiveAmount(req.amountOriginal)
              && req.personId != "" && HasPerson(st.people, req.personId) && !HasDebt(st.debts, freshId)
    ensures out.result.Err? ==> out.store == st
    ensures AllWhitespace(req.description) ==> out.result == Err(BusinessError(DescriptionRequired))
    ensures !AllWhitespace(req.description) && !PositiveAmount(req.amountOriginal)
            ==> out.result == Err(CheckAmount(req.amountOriginal, "Debt").error)
    ensures !AllWhitespace(req.description) && PositiveAmount(req.amountOriginal) && req.personId == ""
            ==> out.result == Err(BusinessError(PersonService.IdRequired))
    ensures !AllWhitespace(req.description) && PositiveAmount(req.amountOriginal) && req.personId != ""
            && !HasPerson(st.people, req.personId)
            ==> out.result == Err(BusinessError(PersonService.PersonNotFound))
    ensures out.result.Ok? ==>
              out.result.value == freshId && out.store.debts == st.debts + [NewDebt(req, freshId, now)]
    ensures out.store.people == st.people && out.store.payments == st.payments
  {
    if Trim(req.description) == [] then Outcome(st, Err(BusinessError(DescriptionRequired)))
    else
      match CheckAmount(req.amountOriginal, "Debt")
      case Err(e) => Outcome(st, Err(e))
      case Ok(_) =>
        match PersonService.GetPersonById(st, req.personId)
        case Err(e) => Outcome(st, Err(e))
        case Ok(None) => Outcome(st, Err(BusinessError(PersonService.PersonNotFound)))
        case Ok(Some(_)) =>
          Repo.CreateDebt(st, Repo.DebtInput(None, req.kind, req.personId, Some(Trim(req.description)),
                                             req.amountOriginal, None, req.dueAt, None), freshId, now)
  }

  /** The fields `updateDebt` may change; `dueAt` may be set or cleared. */
  datatype UpdateDebtRequest = UpdateDebtRequest(
    description: Option<string>,
    amountOriginal: Option<string>,
    dueAt: Option<Option<string>>)

  /** The update written once the checks pass: the description trimmed, the rest as given. */
  function Normalized(u: UpdateDebtRequest): Repo.DebtUpdate {
    Repo.DebtUpdate(if u.description.Some? then Some(Trim(u.description.value)) else None, u.amountOriginal, u.dueAt)
  }

  predicate UpdateAccepted(u: UpdateDebtRequest) {
    (u.description.None? || !AllWhitespace(u.description.value))
    && (u.amountOriginal.None? || PositiveAmount(u.amountOriginal.value))
  }

  /**
   * `updateDebt(id, updates)`: a given description must not be blank and a given amount
   * must pass the amount checks. Whether the debt exists is not checked, and neither the
   * debt's payments nor its status are consulted.
   */
  function UpdateDebt(st: Store, debtId: string, u: UpdateDebtRequest): (out: Outcome<()>)
    ensures out.result.Ok? <==> UpdateAccepted(u)
    ensures out.result.Err? ==> out.store == st
    ensures u.description.Some? && AllWhitespace(u.description.value) ==> out.result == Err(BusinessError(DescriptionRequired))
    ensures !HasDebt(st.debts, debtId) ==> out.store == st
    ensures out.result.Ok? ==>
              |out.store.debts| == |st.debts|
              && forall i :: 0 <= i < |st.debts| ==>
                   var before := st.debts[i];
                   var after := out.store.debts[i];
                   if before.id != debtId then after == before
                   else after.id == before.id && after.personId == before.personId && after.kind == before.kind
                        && after.status == before.status && after.createdAt == before.createdAt
                        && after.amountOriginal == u.amountOriginal.GetOr(before.amountOriginal)
                        && after.dueAt == u.dueAt.GetOr(before.dueAt)
                        && (u.description.Some? ==> after.description == Some(Trim(u.description.value)))
                        && (u.description.None? ==> after.description == before.description)
    ensures out.store.people == st.people && out.store.payments == st.payments
  {
    if u.description.Some? && Trim(u.description.value) == [] then Outcome(st, Err(BusinessError(DescriptionRequired)))
    else if u.amountOriginal.Some? && CheckAmount(u.amountOriginal.value, "Debt").Err? then
      Outcome(st, Err(CheckAmount(u.amountOriginal.value, "Debt").error))
    else
      var after := Repo.UpdateDebt(st, debtId, Normalized(u));
      assert !HasDebt(st.debts, debtId) ==> after == st by {
        if !HasDebt(st.debts, debtId) {
          assert after.debts == st.debts;
        }
      }
      Outcome(after, Ok(()))
  }

  /**
   * `markDebtSettled(id)`: the debt must exist and still be open. The balance is read on
   * the way (and an unreadable amount fails there) but not compared with anything.
   */
  function MarkDebtSettled(st: Store, debtId: string): (out: Outcome<()>)
    ensures out.result.Ok? <==>
              HasDebt(st.debts, debtId) && FindDebt(st.debts, debtId).value.status == Open
              && Repo.GetDebtBalance(st, debtId).Ok?
    ensures out.result.Err? ==> out.store == st
    ensures !HasDebt(st.debts, debtId) ==> out.result == Err(BusinessError(DebtNotFoundMessage))
    ensures HasDebt(st.debts, debtId) && FindDebt(st.debts, debtId).value.status == Settled && Repo.GetDebtBalance(st, debtId).Ok?
            ==> out.result == Err(BusinessError(AlreadySettled))
    ensures out.result.Ok? ==>
              |out.store.debts| == |st.debts|
              && forall i :: 0 <= i < |st.debts| ==>
                   out.store.debts[i] == if st.debts[i].id == debtId then st.debts[i].(status := Settled) else st.debts[i]
    ensures out.store.people == st.people && out.store.payments == st.payments
  {
    var r := Repo.GetDebtWithBalance(st, debtId);
    if r.Err? then Outcome(st, Err(r.error))
    else if r.value.None? then Outcome(st, Err(BusinessError(DebtNotFoundMessage)))
    else if r.value.value.debt.status == Settled then Outcome(st, Err(BusinessError(AlreadySettled)))
    else
      var d := r.value.value.debt;
      assert d.status == Open && FindDebt(st.debts, debtId) == Some(d);
      Outcome(Repo.MarkDebtSettled(st, debtId), Ok(()))
  }

  /** `deleteDebt(id)`: the debt must exist and have no payments; then it is removed. */
  function DeleteDebt(st: Store, debtId: string): (out: Outcome<()>)
    ensures out.result.Ok? <==>
              HasDebt(st.debts, debtId) && Repo.GetDebtBalance(st, debtId).Ok? && PaymentsOf(st.payments, debtId) == []
    ensures out.result.Err? ==> out.store == st
    ensures !HasDebt(st.debts, debtId) ==> out.result == Err(BusinessError(DebtNotFoundMessage))
    ensures HasDebt(st.debts, debtId) && Repo.GetDebtBalance(st, debtId).Ok? && PaymentsOf(st.payments, debtId) != []
            ==> out.result == Err(BusinessError(HasPaymentsRefusal))
    ensures out.result.Ok? ==>
              !HasDebt(out.store.debts, debtId)
              && (forall d :: d in st.debts && d.id != debtId ==> d in out.store.debts)
              && (forall d :: d in out.store.debts ==> d in st.debts)
              && (forall p :: p in out.store.payments ==> p.debtId != debtId)
    ensures UniqueDebts(st.debts) ==> UniqueDebts(out.store.debts)
    ensures out.store.people == st.people && out.store.payments == st.payments
  {
    match Repo.GetDebtWithBalance(st, debtId)
    case Err(e) => Outcome(st, Err(e))
    case Ok(None) => Outcome(st, Err(BusinessError(DebtNotFoundMessage)))
    case Ok(Some(_)) =>
      if Repo.GetPaymentsByDebt(st, debtId) != [] then Outcome(st, Err(BusinessError(HasPaymentsRefusal)))
      else
        assert forall p :: p in st.payments ==> p.debtId != debtId;
        Outcome(Repo.DeleteDebt(st, debtId), Ok(()))
  }

  /** `getDebtsForPerson(personId, type)`: the person must exist. */
  function GetDebtsForPerson(st: Store, personId: string, kind: DebtType): (r: Result<seq<Debt>, Error>)
    ensures r.Ok? <==> personId != "" && HasPerson(st.people, personId)
    ensures personId == "" ==> r == Err(BusinessError(PersonService.IdRequired))
    ensures personId != "" && !HasPerson(st.people, personId) ==> r == Err(BusinessError(PersonService.PersonNotFound))
    ensures r.Ok? ==> forall d :: d in r.value <==> d in st.debts && d.personId == personId && d.kind == kind
  {
    match PersonService.GetPersonById(st, personId)
    case Err(e) => Err(e)
    case Ok(None) => Err(BusinessError(PersonService.PersonNotFound))
    case Ok(Some(_)) => Ok(Repo.GetDebtsByPersonAndType(st, personId, kind))
  }

  /** `getDebtWithBalanceById(id)`: an empty id is refused and an unknown one is not found. */
  function GetDebtWithBalanceById(st: Store, debtId: string): (r: Result<Repo.DebtWithBalance, Error>)
    ensures debtId == "" ==> r == Err(BusinessError(DebtIdRequired))
    ensures debtId != "" && !HasDebt(st.debts, debtId) ==> r == Err(BusinessError(DebtNotFoundMessage))
    ensures r.Ok? <==> debtId != "" && HasDebt(st.debts, debtId) && Repo.GetDebtBalance(st, debtId).Ok?
    ensures r.Ok? ==>
              Some(r.value.debt) == FindDebt(st.debts, debtId) && Ok(r.value.balance) == Repo.GetDebtBalance(st, debtId)
  {
    if debtId == "" then Err(BusinessError(DebtIdRequired))
    else
      match Repo.GetDebtWithBalance(st, debtId)
      case Err(e) => Err(e)
      case Ok(None) => Err(BusinessError(DebtNotFoundMessage))
      case Ok(Some(found)) => Ok(found)
  }

  /** `getPaymentsForDebt(id)`: the debt must exist. */
  function GetPaymentsForDebt(st: Store, debtId: string): (r: Result<seq<Payment>, Error>)
    ensures !HasDebt(st.debts, debtId) ==> r == Err(BusinessError(DebtNotFoundMessage))
    ensures r.Ok? <==> HasDebt(st.debts, debtId) && Repo.GetDebtBalance(st, debtId).Ok?
    ensures r.Ok? ==> forall p :: p in r.value <==> p in st.payments && p.debtId == debtId
  {
    match Repo.GetDebtWithBalance(st, debtId)
    case Err(e) => Err(e)
    case Ok(None) => Err(BusinessError(DebtNotFoundMessage))
    case Ok(Some(_)) => Ok(Repo.GetPaymentsByDebt(st, debtId))
  }

  // ------------------------------------------------------------ payments

  datatype PaymentRequest = PaymentRequest(debtId: string, amount: string, date: string, note: Option<string>)

  function NewPayment(p: PaymentRequest, id: string): Payment {
    Payment(id, p.debtId, p.amount, p.date, p.note)
  }

  /** Whether the checks before the insert let the payment through. */
  predicate PaymentAdmitted(st: Store, p: PaymentRequest) {
    PositiveAmount(p.amount)
    && HasDebt(st.debts, p.debtId)
    && FindDebt(st.debts, p.debtId).value.status == Open
    && Repo.GetDebtBalance(st, p.debtId).Ok?
    && Lt(Repo.GetDebtBalance(st, p.debtId).value, p.amount) == Ok(false)
  }

  /**
   * `addPaymentWithAutoSettle(payment)`: a positive amount, an existing open debt and an
   * amount not above the remaining balance are required; the repository then inserts
   * the payment and settles the debt when at most one cent is left. The balance read
   * again afterwards only feeds a log line.
   */
  function AddPaymentWithAutoSettle(st: Store, p: PaymentRequest, freshId: string): (out: Outcome<string>)
    ensures !PositiveAmount(p.amount) ==> out == Outcome(st, Err(CheckAmount(p.amount, "Payment").error))
    ensures PositiveAmount(p.amount) && !HasDebt(st.debts, p.debtId)
            ==> out == Outcome(st, Err(BusinessError(DebtNotFoundMessage)))
    ensures PositiveAmount(p.amount) && HasDebt(st.debts, p.debtId) && Repo.GetDebtBalance(st, p.debtId).Ok?
            && FindDebt(st.debts, p.debtId).value.status == Settled
            ==> out == Outcome(st, Err(BusinessError(SettledDebtPayment)))
    ensures PositiveAmount(p.amount) && HasDebt(st.debts, p.debtId) && Repo.GetDebtBalance(st, p.debtId).Ok?
            && FindDebt(st.debts, p.debtId).value.status == Open
            && Lt(Repo.GetDebtBalance(st, p.debtId).value, p.amount) == Ok(true)
            ==> out == Outcome(st, Err(BusinessError(ExceedsBalance(p.amount, Repo.GetDebtBalance(st, p.debtId).value))))
    ensures !PaymentAdmitted(st, p) ==> out.store == st && out.result.Err?
    ensures PaymentAdmitted(st, p) ==> out.store == Repo.AddPayment(st, Repo.PaymentInput(p.debtId, p.amount, p.date, p.note), freshId).store
    ensures var inserted := Repo.AddPayment(st, Repo.PaymentInput(p.debtId, p.amount, p.date, p.note), freshId);
            out.result.Ok? <==>
              PaymentAdmitted(st, p) && inserted.result.Ok? && Repo.GetDebtBalance(inserted.store, p.debtId).Ok?
    ensures out.result.Ok? ==>
              PaymentAdmitted(st, p) && out.result.value == freshId
              && out.store.payments == st.payments + [NewPayment(p, freshId)]
    ensures out.store.people == st.people
  {
    match AdmitPayment(st, p)
    case Err(e) => Outcome(st, Err(e))
    case Ok(_) => InsertPayment(st, p, freshId)
  }

  /** The checks before the insert, in their order, and the error each one throws. */
  function AdmitPayment(st: Store, p: PaymentRequest): (r: Result<(), Error>)
    ensures r.Ok? <==> PaymentAdmitted(st, p)
    ensures !PositiveAmount(p.amount) ==> r == Err(CheckAmount(p.amount, "Payment").error)
    ensures PositiveAmount(p.amount) && !HasDebt(st.debts, p.debtId) ==> r == Err(BusinessError(DebtNotFoundMessage))
    ensures PositiveAmount(p.amount) && HasDebt(st.debts, p.debtId) && Repo.GetDebtBalance(st, p.debtId).Ok?
            && FindDebt(st.debts, p.debtId).value.status == Settled
            ==> r == Err(BusinessError(SettledDebtPayment))
    ensures PositiveAmount(p.amount) && HasDebt(st.debts, p.debtId) && Repo.GetDebtBalance(st, p.debtId).Ok?
            && FindDebt(st.debts, p.debtId).value.status == Open
            && Lt(Repo.GetDebtBalance(st, p.debtId).value, p.amount) == Ok(true)
            ==> r == Err(BusinessError(ExceedsBalance(p.amount, Repo.GetDebtBalance(st, p.debtId).value)))
  {
    match CheckAmount(p.amount, "Payment")
    case Err(e) => Err(e)
    case Ok(_) =>
      match Repo.GetDebtWithBalance(st, p.debtId)
      case Err(e) => Err(e)
      case Ok(None) => Err(BusinessError(DebtNotFoundMessage))
      case Ok(Some(found)) =>
        if found.debt.status == Settled then Err(BusinessError(SettledDebtPayment))
        else
          match Lt(found.balance, p.amount)
          case Err(e) => Err(e)
          case Ok(exceeds) =>
            if exceeds then Err(BusinessError(ExceedsBalance(p.amount, found.balance))) else Ok(())
  }

  /** The repository insert, then the balance read back; a failed read-back throws after the write. */
  function InsertPayment(st: Store, p: PaymentRequest, freshId: string): (out: Outcome<string>)
    ensures var inserted := Repo.AddPayment(st, Repo.PaymentInput(p.debtId, p.amount, p.date, p.note), freshId);
            out.store == inserted.store
            && (out.result.Ok? <==> inserted.result.Ok? && Repo.GetDebtBalance(inserted.store, p.debtId).Ok?)
    ensures out.result.Ok? ==> out.result.value == freshId && out.store.payments == st.payments + [NewPayment(p, freshId)]
    ensures out.store.people == st.people
  {
    var out := Repo.AddPayment(st, Repo.PaymentInput(p.debtId, p.amount, p.date, p.note), freshId);
    if out.result.Err? then out
    else
      match Repo.GetDebtBalance(out.store, p.debtId)
      case Err(e) => Outcome(out.store, Err(e))
      case Ok(_) => out
  }

  // ------------------------------------------------------------ whole cents

  /**
   * An amount written with more than two decimal places, which the checks above let
   * through although every balance is printed and compared in whole cents.
   */
  predicate SubCent(a: string) {
    D(a).Ok? && D(a).value.scale > 2
  }

  /** An amount accepted once sub-cent amounts are refused: above zero, in whole cents. */
  predicate CentsAmount(a: string) {
    PositiveAmount(a) && D(a).value.scale <= 2
  }

  function TooPrecise(subject: string): string {
    subject + " amount cannot have more than two decimal places"
  }

  /** `createDebt` refusing sub-cent amounts. */
  function CreateDebtInCents(st: Store, req: CreateDebtRequest, freshId: string, now: string): (out: Outcome<string>)
    ensures out.result.Ok? ==> CentsAmount(req.amountOriginal) && out == CreateDebt(st, req, freshId, now)
    ensures !SubCent(req.amountOriginal) ==> out == CreateDebt(st, req, freshId, now)
    ensures SubCent(req.amountOriginal) ==> out == Outcome(st, Err(BusinessError(TooPrecise("Debt"))))
  {
    if SubCent(req.amountOriginal) then Outcome(st, Err(BusinessError(TooPrecise("Debt"))))
    else CreateDebt(st, req, freshId, now)
  }

  /** `updateDebt` refusing sub-cent amounts. */
  function UpdateDebtInCents(st: Store, debtId: string, u: UpdateDebtRequest): (out: Outcome<()>)
    ensures out.result.Ok? ==> (u.amountOriginal.Some? ==> CentsAmount(u.amountOriginal.value)) && out == UpdateDebt(st, debtId, u)
    ensures !(u.amountOriginal.Some? && SubCent(u.amountOriginal.value)) ==> out == UpdateDebt(st, debtId, u)
    ensures u.amountOriginal.Some? && SubCent(u.amountOriginal.value) ==> out == Outcome(st, Err(BusinessError(TooPrecise("Debt"))))
  {
    if u.amountOriginal.Some? && SubCent(u.amountOriginal.value) then Outcome(st, Err(BusinessError(TooPrecise("Debt"))))
    else UpdateDebt(st, debtId, u)
  }

  /** `addPaymentWithAutoSettle` refusing sub-cent amounts. */
  function AddPaymentInCents(st: Store, p: PaymentRequest, freshId: string): (out: Outcome<string>)
    ensures out.result.Ok? ==> CentsAmount(p.amount) && out == AddPaymentWithAutoSettle(st, p, freshId)
    ensures !SubCent(p.amount) ==> out == AddPaymentWithAutoSettle(st, p, freshId)
    ensures SubCent(p.amount) ==> out == Outcome(st, Err(BusinessError(TooPrecise("Payment"))))
  {
    if SubCent(p.amount) then Outcome(st, Err(BusinessError(TooPrecise("Payment"))))
    else AddPaymentWithAutoSettle(st, p, freshId)
  }
}
