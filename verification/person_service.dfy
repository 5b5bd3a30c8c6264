/**
 * `services/PersonService.ts`: validation and normalisation in front of the repository's
 * person operations. A failed check throws before anything is written.
 */
module PersonService {
  import opened Wrappers
  import opened Errors
  import opened Strings
  import opened Ledger
  import Repo

  const NameRequired: string := "Person name is required"
  const NameTooLong: string := "Person name must be less than 100 characters"
  const PersonNotFound: string := "Person not found"
  const IdRequired: string := "Person ID is required"
  const OpenDebtsMessage: string := "Cannot delete person with open debts. Settle all debts first."

  /** The longest name accepted, in UTF-16 code units; a name of exactly this length passes. */
  const MaxNameLength: nat := 100

  /** A stored name: already trimmed, not empty, and at most 100 code units long. */
  predicate ValidName(name: string) {
    name != [] && Trim(name) == name && Utf16Length(name) <= MaxNameLength
  }

  /** An optional text field as the service stores it: absent, or trimmed and not empty. */
  predicate NormalizedText(x: Option<string>) {
    x.None? || (x.value != [] && Trim(x.value) == x.value)
  }

  predicate PersonNormalized(p: Person) {
    ValidName(p.name) && NormalizedText(p.contact) && NormalizedText(p.notes)
  }

  /** Every stored person passed through the service's normalisation. */
  predicate PeopleNormalized(people: seq<Person>) {
    forall i :: 0 <= i < |people| ==> PersonNormalized(people[i])
  }

  /** The name checks of `createPerson` and `updatePerson`; the trimmed name on success. */
  function CheckName(name: string): (r: Result<string, Error>)
    ensures r.Ok? <==> ValidName(Trim(name))
    ensures r.Ok? ==> r.value == Trim(name)
    ensures r.Err? && AllWhitespace(name) ==> r.error == BusinessError(NameRequired)
    ensures r.Err? && !AllWhitespace(name) ==> r.error == BusinessError(NameTooLong)
  {
    TrimIdempotent(name);
    var t := Trim(name);
    if name == [] || |t| == 0 then Err(BusinessError(NameRequired))
    else if Utf16Length(t) > MaxNameLength then Err(BusinessError(NameTooLong))
    else Ok(t)
  }

  /** `x?.trim() || undefined`: absent, or trimmed to nothing, is absent. */
  function NormalizeText(x: Option<string>): (r: Option<string>)
    ensures NormalizedText(r)
    ensures r.None? <==> x.None? || AllWhitespace(x.value)
    ensures r.Some? ==> r.value == Trim(x.value)
  {
    match x
    case None => None
    case Some(s) =>
      TrimIdempotent(s);
      if Trim(s) == [] then None else Some(Trim(s))
  }

  /** Normalising an already normalised field changes nothing. */
  lemma NormalizeTextIdempotent(x: Option<string>)
    ensures NormalizeText(NormalizeText(x)) == NormalizeText(x)
  {
    if x.Some? && Trim(x.value) != [] {
      TrimIdempotent(x.value);
    }
  }

  /** The row the service writes for a request that passed the name checks. */
  function NormalizedPerson(id: string, name: string, contact: Option<string>, notes: Option<string>): (p: Person)
    requires ValidName(Trim(name))
    ensures PersonNormalized(p) && p.id == id
  {
    Person(id, Trim(name), NormalizeText(contact), NormalizeText(notes))
  }

  /**
   * `createPerson(data)`: checks and trims the name, normalises contact and notes, and
   * upserts. An id carried in `data` (possibly empty) is passed on and used as is.
   */
  function CreatePerson(st: Store, data: Repo.PersonInput, freshId: string): (out: Outcome<string>)
    ensures out.result.Err? <==> !ValidName(Trim(data.name))
    ensures out.result.Err? ==> out.store == st && out.result.error == CheckName(data.name).error
    ensures out.result.Ok? ==>
              out.result.value == data.id.GetOr(freshId)
              && FindPerson(out.store.people, out.result.value)
                 == Some(NormalizedPerson(out.result.value, data.name, data.contact, data.notes))
    ensures forall q :: q in st.people && out.result.Ok? && q.id != out.result.value ==> q in out.store.people
    ensures PeopleNormalized(st.people) ==> PeopleNormalized(out.store.people)
    ensures UniquePeople(st.people) ==> UniquePeople(out.store.people)
    ensures out.store.debts == st.debts && out.store.payments == st.payments
  {
    match CheckName(data.name)
    case Err(e) => Outcome(st, Err(e))
    case Ok(name) =>
      var row := NormalizedPerson(data.id.GetOr(freshId), data.name, data.contact, data.notes);
      var (people, id) := Repo.UpsertPerson(st, Repo.PersonInput(data.id, name, row.contact, row.notes), freshId);
      UpsertKeepsNormalized(st.people, people.people, row);
      Outcome(people, Ok(id))
  }

  /** An upsert of a normalised row into normalised people leaves them normalised. */
  lemma UpsertKeepsNormalized(before: seq<Person>, after: seq<Person>, row: Person)
    requires PersonNormalized(row)
    requires forall q :: q in after && q.id == row.id ==> q == row
    requires forall q :: q in after && q.id != row.id ==> q in before
    ensures PeopleNormalized(before) ==> PeopleNormalized(after)
  {
    if PeopleNormalized(before) {
      forall i | 0 <= i < |after|
        ensures PersonNormalized(after[i])
      {
        if after[i].id != row.id {
          var k :| 0 <= k < |before| && before[k] == after[i];
        }
      }
    }
  }

  /** The fields of an update: everything but the id. */
  datatype PersonRequest = PersonRequest(name: string, contact: Option<string>, notes: Option<string>)

  /**
   * `updatePerson(data)`: the name checks, then the person must exist; the row is then
   * overwritten with the normalised fields.
   */
  function UpdatePerson(st: Store, id: string, data: PersonRequest): (out: Outcome<()>)
    ensures out.result.Ok? <==> ValidName(Trim(data.name)) && HasPerson(st.people, id)
    ensures out.result.Err? ==> out.store == st
    ensures !ValidName(Trim(data.name)) ==> out.result == Err(CheckName(data.name).error)
    ensures ValidName(Trim(data.name)) && !HasPerson(st.people, id) ==> out.result == Err(BusinessError(PersonNotFound))
    ensures out.result.Ok? ==>
              FindPerson(out.store.people, id) == Some(NormalizedPerson(id, data.name, data.contact, data.notes))
              && |out.store.people| == |st.people|
    ensures forall q :: q in st.people && q.id != id ==> q in out.store.people
    ensures PeopleNormalized(st.people) ==> PeopleNormalized(out.store.people)
    ensures UniquePeople(st.people) ==> UniquePeople(out.store.people)
    ensures out.store.debts == st.debts && out.store.payments == st.payments
  {
    match CheckName(data.name)
    case Err(e) => Outcome(st, Err(e))
    case Ok(name) =>
      if Repo.GetPersonById(st, id).None? then Outcome(st, Err(BusinessError(PersonNotFound)))
      else
        var row := NormalizedPerson(id, data.name, data.contact, data.notes);
        var (after, _) := Repo.UpsertPerson(st, Repo.PersonInput(Some(id), name, row.contact, row.notes), id);
        UpsertKeepsNormalized(st.people, after.people, row);
        Outcome(after, Ok(()))
  }

  /**
   * `upsertPerson(person)`: a non-empty id takes the update path and must name an existing
   * person; an absent or empty id takes the create path.
   */
  function UpsertPerson(st: Store, person: Repo.PersonInput, freshId: string): (out: Outcome<string>)
    ensures out.result.Ok? ==> out.result.value == person.id.GetOr(freshId)
    ensures out.result.Ok? <==>
              ValidName(Trim(person.name))
              && (person.id.None? || person.id.value == "" || HasPerson(st.people, person.id.value))
    ensures out.result.Err? ==> out.store == st
    ensures person.id.Some? && person.id.value != "" && ValidName(Trim(person.name)) && !HasPerson(st.people, person.id.value)
            ==> out.result == Err(BusinessError(PersonNotFound))
    ensures (person.id.None? || person.id.value == "") ==> out == CreatePerson(st, person, freshId)
    ensures out.result.Ok? ==>
              FindPerson(out.store.people, out.result.value)
              == Some(NormalizedPerson(out.result.value, person.name, person.contact, person.notes))
    ensures PeopleNormalized(st.people) ==> PeopleNormalized(out.store.people)
    ensures UniquePeople(st.people) ==> UniquePeople(out.store.people)
    ensures out.store.debts == st.debts && out.store.payments == st.payments
  {
    if person.id.Some? && person.id.value != "" then
      var out := UpdatePerson(st, person.id.value, PersonRequest(person.name, person.contact, person.notes));
      Outcome(out.store, if out.result.Ok? then Ok(person.id.value) else Err(out.result.error))
    else
      CreatePerson(st, person, freshId)
  }

  /**
   * `deletePerson(id)`: the person must exist; the repository's refusal over open debts
   * comes back as a business error, and any other failure passes through unchanged.
   */
  function DeletePerson(st: Store, id: string): (out: Outcome<()>)
    ensures !HasPerson(st.people, id) ==> out == Outcome(st, Err(BusinessError(PersonNotFound)))
    ensures HasPerson(st.people, id) && Repo.HasOpenDebt(st.debts, id) ==> out == Outcome(st, Err(BusinessError(OpenDebtsMessage)))
    ensures out.result.Ok? <==> HasPerson(st.people, id) && !Repo.HasOpenDebt(st.debts, id)
    ensures out.result.Ok? ==> !HasPerson(out.store.people, id)
    ensures forall q :: q in st.people && q.id != id ==> q in out.store.people
    ensures forall q :: q in out.store.people ==> q in st.people
    ensures UniquePeople(st.people) ==> UniquePeople(out.store.people)
    ensures out.store.debts == st.debts && out.store.payments == st.payments
  {
    if Repo.GetPersonById(st, id).None? then Outcome(st, Err(BusinessError(PersonNotFound)))
    else
      var out := Repo.DeletePerson(st, id);
      match out.result
      case Ok(_) => out
      case Err(e) =>
        if Contains(e.Message(), "open debts") then Outcome(out.store, Err(BusinessError(OpenDebtsMessage)))
        else out
  }

  /** `getPersonById(id)`: an empty id is refused; otherwise the row, if there is one. */
  function GetPersonById(st: Store, id: string): (r: Result<Option<Person>, Error>)
    ensures r.Err? <==> id == ""
    ensures r.Err? ==> r.error == BusinessError(IdRequired)
    ensures r.Ok? ==> (r.value.Some? <==> HasPerson(st.people, id))
    ensures r.Ok? && r.value.Some? ==> r.value.value in st.people && r.value.value.id == id
  {
    if id == "" then Err(BusinessError(IdRequired)) else Ok(Repo.GetPersonById(st, id))
  }

  /** `listAllPeople()`: everyone, ordered by name. */
  function ListAllPeople(st: Store): (r: seq<Person>)
    ensures multiset(r) == multiset(st.people)
    ensures SortedByName(r)
  {
    SortByName(Repo.ListAllPeople(st))
  }

  // ------------------------------------------------------------ laws

  /** A person created through the service is found again under the returned id. */
  lemma CreateThenGet(st: Store, data: Repo.PersonInput, freshId: string)
    requires ValidName(Trim(data.name)) && data.id.GetOr(freshId) != ""
    ensures var out := CreatePerson(st, data, freshId);
            out.result.Ok?
            && GetPersonById(out.store, out.result.value)
               == Ok(Some(NormalizedPerson(out.result.value, data.name, data.contact, data.notes)))
  {
  }

  /** One hundred characters pass the length check and one hundred and one do not. */
  lemma NameLengthBoundary()
    ensures CheckName(seq(100, _ => 'a')).Ok?
    ensures CheckName(seq(101, _ => 'a')) == Err(BusinessError(NameTooLong))
  {
    var hundred: string := seq(100, _ => 'a');
    var more: string := seq(101, _ => 'a');
    AsciiUtf16Length(hundred);
    AsciiUtf16Length(more);
    assert LeadingSpace(hundred) == 0 && LeadingSpace(more) == 0;
    assert !IsWhitespace(hundred[99]) && !IsWhitespace(more[100]);
    assert TrailingSpace(hundred) == 0 && TrailingSpace(more) == 0;
    assert Trim(hundred) == hundred && Trim(more) == more;
  }

  /** Whitespace around a name neither counts towards its length nor is stored. */
  lemma NameIgnoresSurroundingSpace(w1: string, name: string, w2: string)
    requires AllWhitespace(w1) && AllWhitespace(w2) && name != [] && Trim(name) == name
    ensures CheckName(w1 + name + w2) == CheckName(name)
  {
    TrimSurrounded(w1, name, w2);
  }

  /** A name only of whitespace is refused as missing. */
  lemma BlankNameRequired()
    ensures CheckName("   ") == Err(BusinessError(NameRequired))
  {
    assert AllWhitespace("   ");
  }

  /** Characters of the Basic Multilingual Plane count once each. */
  lemma {:induction false} AsciiUtf16Length(s: string)
    requires forall i :: 0 <= i < |s| ==> s[i] as int <= 0xFFFF
    ensures Utf16Length(s) == |s|
    decreases |s|
  {
    if s != [] {
      AsciiUtf16Length(s[1..]);
    }
  }
}
