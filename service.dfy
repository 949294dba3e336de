/** `PersonService`: find, list, create, update and delete over the
    repository, with the not-found errors it raises. The pure functions say
    what `update`, `delete` and the duplicate-checking create do to a table;
    the class performs them on a `PersonRepository`. */
module Service {
  import opened Wrappers
  import opened JavaText
  import opened Errors
  import opened PersonModel
  import opened Repository

  function NotFoundMessage(id: int): string {
    "No records found for this id: " + IntToString(id)
  }

  /** Different ids give different not-found messages: the message names
      the id it was raised for. */
  lemma NotFoundMessageNamesId(a: int, b: int)
    ensures NotFoundMessage(a) == NotFoundMessage(b) <==> a == b
  {
    var prefix := "No records found for this id: ";
    if NotFoundMessage(a) == NotFoundMessage(b) {
      assert NotFoundMessage(a)[|prefix|..] == IntToString(a);
      assert NotFoundMessage(b)[|prefix|..] == IntToString(b);
      IntToStringInjective(a, b);
    }
  }

  function DuplicateMessage(email: Option<string>): string {
    "Person already exist with given email: " + ShowString(email)
  }

  /** The four setter calls `update` makes on the stored person. */
  function CopyDescriptive(existing: Person, p: Person): (r: Person)
    ensures r.id == existing.id && r.email == existing.email
    ensures r.(id := None, email := None) == p.(id := None, email := None)
    ensures Equal(r, p) <==> existing.id == p.id
  {
    existing.(firstName := p.firstName, lastName := p.lastName, address := p.address, gender := p.gender)
  }

  /** `update(p)`: look the id up, refuse it if unknown, otherwise copy the
      first name, last name, address and gender onto the stored record and
      save that record. */
  function UpdateIn(t: Table, p: Person): (s: Saved)
    ensures s.result.Failure? ==> s.table == t
  {
    match p.id
    case None => Saved(Failure(IllegalArgument(IdMustNotBeNull)), t)
    case Some(k) =>
      if k !in t.rows then Saved(Failure(ResourceNotFound(NotFoundMessage(k))), t)
      else SaveTo(t, CopyDescriptive(t.rows[k], p))
  }

  /** The outcome of a `void` call and the table after it. */
  datatype Deleted = Deleted(outcome: Outcome<Error>, table: Table)

  /** `delete(id)`: look the id up, refuse it if unknown, otherwise delete
      the stored entity. */
  function DeleteIn(t: Table, id: Option<int>): (d: Deleted)
    ensures d.outcome.Fail? ==> d.table == t
  {
    match id
    case None => Deleted(Fail(IllegalArgument(IdMustNotBeNull)), t)
    case Some(k) =>
      if k !in t.rows then Deleted(Fail(ResourceNotFound(NotFoundMessage(k))), t)
      else Deleted(Pass, DeleteFrom(t, t.rows[k]))
  }

  /** The create that PersonServiceTest expects: refuse, before any write, a
      person whose email is already stored. */
  function CreateCheckedIn(t: Table, p: Person): (s: Saved)
    ensures s.result.Failure? ==> s.table == t
  {
    if !FindByEmail(t, p.email).NoRow? then Saved(Failure(DuplicateRegistration(DuplicateMessage(p.email))), t)
    else SaveTo(t, p)
  }

  // ----- update -----

  /** An update naming an id that is not stored fails with the not-found
      message and writes nothing. */
  lemma UpdateRejectsUnknownId(t: Table, p: Person)
    requires p.id.Some? && p.id.value !in t.rows
    ensures UpdateIn(t, p) == Saved(Failure(ResourceNotFound("No records found for this id: " + IntToString(p.id.value))), t)
  {
  }

  /** A successful update leaves the stored record with the first name, last
      name, address and gender of `p` and with its own id and email; every
      other record, the set of ids and the identity counter are untouched. */
  lemma UpdateCopiesFourFields(t: Table, p: Person)
    requires Invariant(t)
    requires UpdateIn(t, p).result.Success?
    ensures p.id.Some? && p.id.value in t.rows
    ensures var s := UpdateIn(t, p); var k := p.id.value; var q := s.table.rows[k];
      && k in s.table.rows
      && q.firstName == p.firstName && q.lastName == p.lastName
      && q.address == p.address && q.gender == p.gender
      && q.id == Some(k) && q.email == t.rows[k].email
      && s.result.value == q
      && s.table.rows.Keys == t.rows.Keys
      && (forall j | j in t.rows && j != k :: s.table.rows[j] == t.rows[j])
      && s.table.nextId == t.nextId
  {
    var k := p.id.value;
    SaveExistingReplaces(t, CopyDescriptive(t.rows[k], p));
  }

  /** On a consistent table an update succeeds exactly when the id is stored
      and the four copied values fit their columns: the kept email can never
      clash, since no other record holds it. */
  lemma UpdateSucceedsIff(t: Table, p: Person)
    requires Invariant(t)
    ensures UpdateIn(t, p).result.Success? <==>
      && p.id.Some? && p.id.value in t.rows
      && FitsColumn(p.firstName, FirstNameLength) && FitsColumn(p.lastName, LastNameLength)
      && FitsColumn(p.address, AddressLength) && FitsColumn(p.gender, GenderLength)
  {
    if p.id.Some? && p.id.value in t.rows {
      var k := p.id.value;
      assert forall j | j in t.rows && Some(j) != Some(k) :: t.rows[j].email != t.rows[k].email;
      assert !EmailTaken(t.rows, t.rows[k].email, Some(k));
    }
  }

  lemma UpdatePreservesInvariant(t: Table, p: Person)
    requires Invariant(t)
    ensures Invariant(UpdateIn(t, p).table)
  {
    if p.id.Some? && p.id.value in t.rows {
      SavePreservesInvariant(t, CopyDescriptive(t.rows[p.id.value], p));
    }
  }

  // ----- delete -----

  /** Deleting a stored id removes exactly that record; afterwards the id is
      not found, and a second delete of it fails with the not-found message. */
  lemma DeleteRemovesExactlyOne(t: Table, k: int)
    requires Invariant(t) && k in t.rows
    ensures var d := DeleteIn(t, Some(k));
      && d.outcome == Pass
      && d.table.rows.Keys == t.rows.Keys - {k}
      && |d.table.rows| == |t.rows| - 1
      && (forall j | j in t.rows && j != k :: d.table.rows[j] == t.rows[j])
      && Lookup(d.table, k) == None
      && DeleteIn(d.table, Some(k)) == Deleted(Fail(ResourceNotFound(NotFoundMessage(k))), d.table)
  {
    DeleteRemovesOne(t, k);
  }

  /** Deleting an id that is not stored fails with the not-found message and
      changes nothing. */
  lemma DeleteRejectsUnknownId(t: Table, k: int)
    requires k !in t.rows
    ensures DeleteIn(t, Some(k)) == Deleted(Fail(ResourceNotFound("No records found for this id: " + IntToString(k))), t)
  {
  }

  lemma DeletePreservesInvariantIn(t: Table, id: Option<int>)
    requires Invariant(t)
    ensures Invariant(DeleteIn(t, id).table)
  {
  }

  // ----- create -----

  /** The create as written has no duplicate check: a person carrying a
      stored email and fitting its columns reaches the database, which
      refuses it with a storage failure rather than the
      DuplicateRegistrationException that PersonServiceTest expects. */
  lemma CreateAsWrittenMissesDuplicate(t: Table, k: int, p: Person)
    requires k in t.rows && p.id.None? && FitsColumns(p) && p.email == t.rows[k].email
    ensures SaveTo(t, p) == Saved(Failure(StorageFailure(DuplicateEmail)), t)
    ensures SaveTo(t, p).result != Failure(DuplicateRegistration(DuplicateMessage(p.email)))
  {
    SaveRefusesTakenEmail(t, k, p);
  }

  /** The checked create refuses a stored email with the message the tests
      expect and without writing; any other person goes straight to `save`. */
  lemma CreateCheckedRejectsDuplicate(t: Table, p: Person)
    requires Invariant(t)
    ensures (exists k | k in t.rows :: t.rows[k].email == p.email) ==>
      CreateCheckedIn(t, p) == Saved(Failure(DuplicateRegistration("Person already exist with given email: " + ShowString(p.email))), t)
    ensures (forall k | k in t.rows :: t.rows[k].email != p.email) ==> CreateCheckedIn(t, p) == SaveTo(t, p)
  {
    FindByEmailAtMostOne(t, p.email);
  }

  /** Of two sequential checked creates with the same email, the second
      fails with DuplicateRegistration and writes nothing. */
  lemma SequentialCreatesSameEmail(t: Table, a: Person, b: Person)
    requires Invariant(t)
    requires a.email == b.email
    requires CreateCheckedIn(t, a).result.Success?
    ensures var s := CreateCheckedIn(t, a).table;
      CreateCheckedIn(s, b) == Saved(Failure(DuplicateRegistration(DuplicateMessage(b.email))), s)
  {
    var s := CreateCheckedIn(t, a);
    var q := s.result.value;
    assert s == SaveTo(t, a);
    SavePreservesInvariant(t, a);
    if a.id.None? {
      SaveNewAssignsFreshId(t, a);
    } else {
      SaveExistingReplaces(t, a);
    }
    var k := q.id.value;
    assert k in s.table.rows && s.table.rows[k].email == b.email;
    CreateCheckedRejectsDuplicate(s.table, b);
  }

  // ----- A whole lifecycle -----

  const Joao: Person :=
    Person(None, Some("João"), Some("Castro"), Some("joao@x.com"), Some("Salvador"), Some("Male"))

  /** Create, duplicate create, lookup of an unknown id, update and delete,
      starting from an empty table: the first create gets id 1; the second
      is refused, leaving one record, by the checked create with the
      duplicate-registration error and by the create as written (plain
      `save`) with the database's storage failure; the update changes the
      first name and keeps the email; after the delete the id is not found. */
  lemma Lifecycle()
    ensures var created := Joao.(id := Some(1));
      var s1 := CreateCheckedIn(Empty, Joao);
      var s2 := CreateCheckedIn(s1.table, Joao);
      var u := UpdateIn(s1.table, created.(firstName := Some("José"), email := Some("jose@x.com")));
      var d := DeleteIn(u.table, Some(1));
      && s1.result == Success(created)
      && s2.result == Failure(DuplicateRegistration("Person already exist with given email: joao@x.com"))
      && SaveTo(s1.table, Joao) == Saved(Failure(StorageFailure(DuplicateEmail)), s1.table)
      && |s2.table.rows| == 1
      && Lookup(s1.table, 2) == None
      && u.result == Success(created.(firstName := Some("José")))
      && d.outcome == Pass && Lookup(d.table, 1) == None
  {
    var created := Joao.(id := Some(1));
    var s1 := CreateCheckedIn(Empty, Joao);
    assert !EmailTaken(Empty.rows, Joao.email, None);
    assert s1.table == Table(map[1 := created], 2);
    assert Invariant(s1.table);
    assert s1.table.rows[1].email == Joao.email;
    CreateCheckedRejectsDuplicate(s1.table, Joao);
    CreateAsWrittenMissesDuplicate(s1.table, 1, Joao);
    assert DuplicateMessage(Joao.email) == "Person already exist with given email: joao@x.com";
    var p := created.(firstName := Some("José"), email := Some("jose@x.com"));
    assert CopyDescriptive(s1.table.rows[1], p) == created.(firstName := Some("José"));
    assert !EmailTaken(s1.table.rows, created.email, Some(1));
  }

  // ----- The service object -----

  class PersonService {
    const repository: PersonRepository

    constructor (repository: PersonRepository)
      ensures this.repository == repository
    {
      this.repository := repository;
    }

    /** `findById(id)`: the stored person, or a not-found error naming the
        id; nothing is written. */
    method FindById(id: Option<int>) returns (r: Result<Person, Error>)
      ensures id.None? ==> r == Failure(IllegalArgument(IdMustNotBeNull))
      ensures id.Some? && id.value in repository.rows ==> r == Success(repository.rows[id.value])
      ensures id.Some? && id.value !in repository.rows ==>
        r == Failure(ResourceNotFound("No records found for this id: " + IntToString(id.value)))
    {
      var found := repository.FindById(id);
      match found
      case Failure(e) =>
        r := Failure(e);
      case Success(o) =>
        match o
        case None =>
          r := Failure(ResourceNotFound(NotFoundMessage(id.value)));
        case Some(p) =>
          r := Success(p);
    }

    /** `findAll()`: exactly the stored records; an empty table gives an
        empty list, not an error. */
    method FindAll() returns (r: seq<Person>)
      requires repository.Valid()
      ensures |r| == |repository.rows|
      ensures forall i | 0 <= i < |r| ::
        r[i].id.Some? && r[i].id.value in repository.rows && repository.rows[r[i].id.value] == r[i]
      ensures forall i, j | 0 <= i < j < |r| :: r[i].id != r[j].id
      ensures forall k | k in repository.rows :: repository.rows[k] in r
    {
      r := repository.FindAll();
    }

    /** `create(p)` as written: `save(p)` and nothing else. */
    method Create(person: Person) returns (r: Result<Person, Error>)
      requires repository.Valid()
      modifies repository
      ensures repository.Valid()
      ensures Saved(r, repository.Snapshot()) == SaveTo(old(repository.Snapshot()), person)
    {
      r := repository.Save(person);
    }

    /** The create with the duplicate check that PersonServiceTest expects. */
    method CreateChecked(person: Person) returns (r: Result<Person, Error>)
      requires repository.Valid()
      modifies repository
      ensures repository.Valid()
      ensures Saved(r, repository.Snapshot()) == CreateCheckedIn(old(repository.Snapshot()), person)
    {
      if !FindByEmail(repository.Snapshot(), person.email).NoRow? {
        return Failure(DuplicateRegistration(DuplicateMessage(person.email)));
      }
      r := repository.Save(person);
    }

    /** `update(p)`: fetch the stored record, set its four descriptive fields
        from `p`, save it. */
    method Update(person: Person) returns (r: Result<Person, Error>)
      requires repository.Valid()
      modifies repository
      ensures repository.Valid()
      ensures Saved(r, repository.Snapshot()) == UpdateIn(old(repository.Snapshot()), person)
    {
      var found := repository.FindById(person.id);
      if found.Failure? {
        return Failure(found.error);
      }
      if found.value.None? {
        return Failure(ResourceNotFound(NotFoundMessage(person.id.value)));
      }
      var stored := found.value.value;
      var existing := new PersonEntity.WithId(stored.id, stored.firstName, stored.lastName,
                                              stored.email, stored.address, stored.gender);
      existing.SetFirstName(person.firstName);
      existing.SetLastName(person.lastName);
      existing.SetAddress(person.address);
      existing.SetGender(person.gender);
      r := repository.Save(existing.Value());
    }

    /** `delete(id)`: fetch the stored record, refuse an unknown id, delete it. */
    method Delete(id: Option<int>) returns (r: Outcome<Error>)
      requires repository.Valid()
      modifies repository
      ensures repository.Valid()
      ensures Deleted(r, repository.Snapshot()) == DeleteIn(old(repository.Snapshot()), id)
    {
      var found := repository.FindById(id);
      if found.Failure? {
        return Fail(found.error);
      }
      if found.value.None? {
        return Fail(ResourceNotFound(NotFoundMessage(id.value)));
      }
      repository.Delete(found.value.value);
      r := Pass;
    }
  }
}
