/** The Person table behind `PersonRepository`: the rows keyed by id, the
    identity counter that hands out new ids, the inherited `save`, `findById`,
    `findAll`, `deleteById` and `delete`, and the declared query methods.
    The pure functions on `Table` say what each operation does; the class
    `PersonRepository` performs them in place. */
module Repository {
  import opened Wrappers
  import opened Errors
  import opened PersonModel

  /** The stored rows and the next value of the identity column. */
  datatype Table = Table(rows: map<int, Person>, nextId: int)

  const Empty: Table := Table(map[], 1)

  /** No two rows share an email (the UNIQUE column). */
  predicate UniqueEmails(rows: map<int, Person>) {
    forall a, b | a in rows && b in rows && rows[a].email == rows[b].email :: a == b
  }

  /** What the database guarantees of the table: every row is stored under
      its own positive id, below the next id to hand out, and satisfies its
      column constraints; emails are unique. */
  predicate Invariant(t: Table) {
    && 1 <= t.nextId
    && (forall k | k in t.rows :: 1 <= k < t.nextId && t.rows[k].id == Some(k) && FitsColumns(t.rows[k]))
    && UniqueEmails(t.rows)
  }

  /** On a consistent table there are fewer rows than the identity counter
      stands at: ids are handed out once and never reused. */
  lemma RowsBelowCounter(t: Table)
    requires Invariant(t)
    ensures |t.rows| < t.nextId
  {
    KeysBelow(t.rows.Keys, t.nextId);
  }

  /** A set of ids drawn from 1 up to (not including) `n` has fewer than `n`
      members. */
  lemma {:induction false} KeysBelow(keys: set<int>, n: int)
    requires 1 <= n
    requires forall k | k in keys :: 1 <= k < n
    ensures |keys| < n
    decreases n
  {
    if n > 1 {
      KeysBelow(keys - {n - 1}, n - 1);
    } else {
      assert keys == {} by {
        assert forall k :: k !in keys;
      }
    }
  }

  function Lookup(t: Table, id: int): Option<Person> {
    if id in t.rows then Some(t.rows[id]) else None
  }

  /** Some stored row other than the one with id `except` has email `e`. */
  predicate EmailTaken(rows: map<int, Person>, e: Option<string>, except: Option<int>) {
    exists k | k in rows :: Some(k) != except && rows[k].email == e
  }

  /** The result of a write and the table after it. */
  datatype Saved = Saved(result: Result<Person, Error>, table: Table)

  /** `save(p)`. A person without an id is inserted under the next identity
      value; a person whose id is stored replaces that row, email included.
      An id no row holds fails first (the merge finds nothing to merge into);
      otherwise the database refuses a row that breaks a column constraint,
      then an email another row already holds. A refused save leaves the
      rows and the identity counter as they were. */
  function SaveTo(t: Table, p: Person): (s: Saved)
    ensures s.result.Failure? ==> s.table == t && s.result.error.StorageFailure?
    ensures s.result.Success? <==>
      FitsColumns(p) && (p.id.None? || p.id.value in t.rows) && !EmailTaken(t.rows, p.email, p.id)
  {
    if p.id.Some? && p.id.value !in t.rows then Saved(Failure(StorageFailure(UnknownId)), t)
    else if !FitsColumns(p) then Saved(Failure(StorageFailure(ColumnConstraint)), t)
    else match p.id
      case None =>
        if EmailTaken(t.rows, p.email, None) then Saved(Failure(StorageFailure(DuplicateEmail)), t)
        else
          var q := p.(id := Some(t.nextId));
          Saved(Success(q), Table(t.rows[t.nextId := q], t.nextId + 1))
      case Some(k) =>
        if EmailTaken(t.rows, p.email, Some(k)) then Saved(Failure(StorageFailure(DuplicateEmail)), t)
        else Saved(Success(p), Table(t.rows[k := p], t.nextId))
  }

  /** `deleteById(id)`: the row is gone, every other row is where it was, and
      the identity counter does not move, so the id is never handed out again. */
  function DeleteByIdFrom(t: Table, id: int): (r: Table)
    ensures Lookup(r, id) == None
    ensures forall k | k != id :: Lookup(r, k) == Lookup(t, k)
    ensures r.nextId == t.nextId
  {
    Table(t.rows - {id}, t.nextId)
  }

  /** `delete(entity)`: an entity without an id, or with an id no row holds,
      is ignored; otherwise its row is removed. */
  function DeleteFrom(t: Table, p: Person): (r: Table)
    ensures p.id.None? ==> r == t
    ensures p.id.Some? && p.id.value !in t.rows ==> r == t
    ensures p.id.Some? ==>
      && Lookup(r, p.id.value) == None
      && (forall k | k != p.id.value :: Lookup(r, k) == Lookup(t, k))
      && r.nextId == t.nextId
  {
    match p.id
    case None => t
    case Some(k) => DeleteByIdFrom(t, k)
  }

  // ----- Lemmas about the write operations -----

  lemma SavePreservesInvariant(t: Table, p: Person)
    requires Invariant(t)
    ensures Invariant(SaveTo(t, p).table)
  {
    if SaveTo(t, p).result.Success? {
      assert forall b | b in t.rows && Some(b) != p.id :: t.rows[b].email != p.email;
    }
  }

  /** Saving a person without an id assigns a fresh positive id that no row
      held, keeps every other field, adds exactly that row, and `findById` of
      the new id returns the saved person. */
  lemma SaveNewAssignsFreshId(t: Table, p: Person)
    requires Invariant(t)
    requires p.id.None?
    requires SaveTo(t, p).result.Success?
    ensures var s := SaveTo(t, p); var q := s.result.value;
      && q.id.Some? && q.id.value >= 1 && q.id.value !in t.rows
      && q == p.(id := q.id)
      && Lookup(s.table, q.id.value) == Some(q)
      && s.table.rows.Keys == t.rows.Keys + {q.id.value}
      && (forall k | k in t.rows :: s.table.rows[k] == t.rows[k])
      && s.table.nextId == q.id.value + 1
  {
  }

  /** Saving a person whose id is stored replaces that row's fields, keeps
      its id, and leaves every other row and the counter as they were. */
  lemma SaveExistingReplaces(t: Table, p: Person)
    requires p.id.Some? && p.id.value in t.rows
    requires SaveTo(t, p).result.Success?
    ensures var s := SaveTo(t, p);
      && s.result.value == p
      && Lookup(s.table, p.id.value) == Some(p)
      && s.table.rows.Keys == t.rows.Keys
      && (forall k | k in t.rows && k != p.id.value :: s.table.rows[k] == t.rows[k])
      && s.table.nextId == t.nextId
  {
  }

  /** A second person with the email of a stored one cannot be inserted:
      the UNIQUE constraint refuses it and the table is unchanged. */
  lemma SaveRefusesTakenEmail(t: Table, k: int, p: Person)
    requires k in t.rows && p.id.None? && p.email == t.rows[k].email
    ensures SaveTo(t, p) == Saved(Failure(StorageFailure(if FitsColumns(p) then DuplicateEmail else ColumnConstraint)), t)
  {
    assert EmailTaken(t.rows, p.email, None);
  }

  lemma DeletePreservesInvariant(t: Table, id: int)
    requires Invariant(t)
    ensures Invariant(DeleteByIdFrom(t, id))
  {
  }

  /** Deleting a stored id removes exactly one row. */
  lemma DeleteRemovesOne(t: Table, id: int)
    requires id in t.rows
    ensures DeleteByIdFrom(t, id).rows.Keys == t.rows.Keys - {id}
    ensures |DeleteByIdFrom(t, id).rows| == |t.rows| - 1
  {
    var r := DeleteByIdFrom(t, id);
    assert r.rows.Keys == t.rows.Keys - {id};
  }

  /** Two persons with different emails saved into an empty table: both get
      ids, and the table then holds exactly two rows. */
  lemma TwoSavesIntoEmpty(a: Person, b: Person)
    requires a.id.None? && b.id.None? && FitsColumns(a) && FitsColumns(b) && a.email != b.email
    ensures var s1 := SaveTo(Empty, a); var s2 := SaveTo(s1.table, b);
      s1.result.Success? && s2.result.Success? && |s2.table.rows| == 2
  {
    var s1 := SaveTo(Empty, a);
    assert !EmailTaken(Empty.rows, a.email, None);
    assert s1.table.rows == map[1 := a.(id := Some(1))];
    assert !EmailTaken(s1.table.rows, b.email, None);
    var s2 := SaveTo(s1.table, b);
    assert s2.table.rows.Keys == {1, 2};
  }

  // ----- Queries -----

  /** A query that the repository declares with a single `Person` (or
      `Optional<Person>`) result: no row gives null (empty), one row gives
      that row, more than one makes Spring Data throw. */
  datatype Single = NoRow | OneRow(person: Person) | TooManyRows

  lemma SingletonIs(s: set<int>, a: int)
    requires |s| == 1 && a in s
    ensures s == {a}
  {
    assert |s - {a}| == 0;
  }

  lemma SingletonUnique(s: set<int>)
    requires |s| == 1
    ensures forall a, b | a in s && b in s :: a == b
  {
    forall a, b | a in s && b in s ensures a == b {
      SingletonIs(s, a);
    }
  }

  lemma HasMember(s: set<int>)
    requires s != {}
    ensures exists x :: x in s
  {
    if forall x :: x !in s {
      assert false;
    }
  }

  /** The rows a query's WHERE clause selects, as a single result. */
  function Select(rows: map<int, Person>, P: Person -> bool): (r: Single)
    ensures r.OneRow? ==> r.person in rows.Values && P(r.person)
    ensures r.NoRow? <==> forall k | k in rows :: !P(rows[k])
    ensures r.TooManyRows? <==> |Selected(rows, P)| > 1
  {
    var ks := Selected(rows, P);
    SelectedEmpty(rows, P);
    if |ks| == 0 then NoRow
    else if |ks| > 1 then TooManyRows
    else
      SingletonUnique(ks);
      HasMember(ks);
      var k :| k in ks;
      OneRow(rows[k])
  }

  function Selected(rows: map<int, Person>, P: Person -> bool): set<int> {
    set k | k in rows && P(rows[k])
  }

  lemma SelectedEmpty(rows: map<int, Person>, P: Person -> bool)
    ensures Selected(rows, P) == {} <==> forall k | k in rows :: !P(rows[k])
  {
    var ks := Selected(rows, P);
    if forall k | k in rows :: !P(rows[k]) {
      assert forall x :: x in ks <==> x in {};
    } else {
      var k :| k in rows && P(rows[k]);
      assert k in ks;
    }
  }

  /** `=` in a query: SQL never matches a null parameter or a null column. */
  predicate SqlEquals(column: Option<string>, parameter: Option<string>) {
    column.Some? && parameter.Some? && column == parameter
  }

  /** `findByEmail(e)`, a derived query: a null `e` selects rows whose email
      IS NULL. */
  function FindByEmail(t: Table, e: Option<string>): (r: Single)
    ensures r.OneRow? ==> r.person in t.rows.Values && r.person.email == e
    ensures r.NoRow? <==> forall k | k in t.rows :: t.rows[k].email != e
  {
    Select(t.rows, (p: Person) => p.email == e)
  }

  /** `findByJPQL(firstName, lastName)`. */
  function FindByJpql(t: Table, firstName: Option<string>, lastName: Option<string>): (r: Single)
    ensures r.OneRow? ==>
      && r.person in t.rows.Values
      && SqlEquals(r.person.firstName, firstName) && SqlEquals(r.person.lastName, lastName)
    ensures r.NoRow? <==>
      forall k | k in t.rows :: !(SqlEquals(t.rows[k].firstName, firstName) && SqlEquals(t.rows[k].lastName, lastName))
  {
    Select(t.rows, (p: Person) => SqlEquals(p.firstName, firstName) && SqlEquals(p.lastName, lastName))
  }

  /** `findByJPQLNamedParameters(firstName, lastName, gender)`: the JPQL
      query with the gender as a third condition. */
  function FindByJpqlNamedParameters(t: Table, firstName: Option<string>, lastName: Option<string>,
                                     gender: Option<string>): (r: Single)
    ensures r.OneRow? ==>
      && r.person in t.rows.Values
      && SqlEquals(r.person.firstName, firstName) && SqlEquals(r.person.lastName, lastName)
      && SqlEquals(r.person.gender, gender)
    ensures r.NoRow? <==>
      forall k | k in t.rows :: !(SqlEquals(t.rows[k].firstName, firstName) && SqlEquals(t.rows[k].lastName, lastName)
                                  && SqlEquals(t.rows[k].gender, gender))
  {
    Select(t.rows, (p: Person) => SqlEquals(p.firstName, firstName) && SqlEquals(p.lastName, lastName)
                        && SqlEquals(p.gender, gender))
  }

  /** `findByNativeSQL(firstName, email)` and
      `findByNativeSQLWithNamedParameters(firstName, email)`: the same
      selection, with positional and with named parameters. */
  function FindByNativeSql(t: Table, firstName: Option<string>, email: Option<string>): (r: Single)
    ensures r.OneRow? ==>
      && r.person in t.rows.Values
      && SqlEquals(r.person.firstName, firstName) && SqlEquals(r.person.email, email)
    ensures r.NoRow? <==>
      forall k | k in t.rows :: !(SqlEquals(t.rows[k].firstName, firstName) && SqlEquals(t.rows[k].email, email))
  {
    Select(t.rows, (p: Person) => SqlEquals(p.firstName, firstName) && SqlEquals(p.email, email))
  }

  /** When emails are unique, a WHERE clause that pins the email selects at
      most one row. */
  lemma SelectByEmailAtMostOne(rows: map<int, Person>, P: Person -> bool, e: Option<string>)
    requires UniqueEmails(rows)
    requires forall p :: P(p) ==> p.email == e
    ensures |Selected(rows, P)| <= 1
  {
    var ks := Selected(rows, P);
    if ks != {} {
      HasMember(ks);
      var a :| a in ks;
      assert forall x | x in ks :: x in rows && rows[x].email == e;
      assert forall x :: x in ks <==> x in {a};
      assert ks == {a};
    }
  }

  /** By the unique email, `findByEmail` never finds two rows: it finds the
      row with that email if one exists and nothing otherwise. */
  lemma FindByEmailAtMostOne(t: Table, e: Option<string>)
    requires Invariant(t)
    ensures !FindByEmail(t, e).TooManyRows?
    ensures FindByEmail(t, e).OneRow? <==> exists k | k in t.rows :: t.rows[k].email == e
  {
    SelectByEmailAtMostOne(t.rows, (p: Person) => p.email == e, e);
  }

  /** By the unique email, the native queries never find two rows either. */
  lemma FindByNativeSqlAtMostOne(t: Table, firstName: Option<string>, email: Option<string>)
    requires Invariant(t)
    ensures !FindByNativeSql(t, firstName, email).TooManyRows?
  {
    SelectByEmailAtMostOne(t.rows, (p: Person) => SqlEquals(p.firstName, firstName) && SqlEquals(p.email, email), email);
  }

  /** A person saved into an empty table is found again by every query
      given its own values, and what `save` returns equals the caller's
      object once that object carries the assigned id. */
  lemma SavedPersonIsFound(p: Person)
    requires p.id.None? && FitsColumns(p)
    ensures var s := SaveTo(Empty, p); var q := p.(id := Some(1));
      && s.result == Success(q)
      && Equal(p.(id := s.result.value.id), s.result.value)
      && FindByEmail(s.table, p.email) == OneRow(q)
      && FindByJpql(s.table, p.firstName, p.lastName) == OneRow(q)
      && FindByJpqlNamedParameters(s.table, p.firstName, p.lastName, p.gender) == OneRow(q)
      && FindByNativeSql(s.table, p.firstName, p.email) == OneRow(q)
  {
    var q := p.(id := Some(1));
    assert !EmailTaken(Empty.rows, p.email, None);
    var t := SaveTo(Empty, p).table;
    assert t.rows == map[1 := q];
    SelectOneRow(1, q, (r: Person) => r.email == p.email);
    SelectOneRow(1, q, (r: Person) => SqlEquals(r.firstName, p.firstName) && SqlEquals(r.lastName, p.lastName));
    SelectOneRow(1, q, (r: Person) => SqlEquals(r.firstName, p.firstName) && SqlEquals(r.lastName, p.lastName)
                        && SqlEquals(r.gender, p.gender));
    SelectOneRow(1, q, (r: Person) => SqlEquals(r.firstName, p.firstName) && SqlEquals(r.email, p.email));
  }

  /** On a table of one row, a query returns that row exactly when the row
      satisfies its condition. */
  lemma SelectOneRow(k: int, q: Person, P: Person -> bool)
    ensures Select(map[k := q], P) == if P(q) then OneRow(q) else NoRow
  {
    var rows := map[k := q];
    assert rows[k] == q;
    assert forall v :: v in rows.Values <==> v in {q};
    if P(q) {
      assert Selected(rows, P) == {k} by {
        assert forall x :: x in Selected(rows, P) <==> x in {k};
      }
    }
  }

  // ----- The repository object -----

  /** The Spring Data repository as an object owning the table. */
  class PersonRepository {
    var rows: map<int, Person>
    var nextId: int

    function Snapshot(): Table
      reads this
    {
      Table(rows, nextId)
    }

    predicate Valid()
      reads this
    {
      Invariant(Snapshot())
    }

    constructor ()
      ensures Snapshot() == Empty && Valid()
    {
      rows, nextId := map[], 1;
    }

    method Save(p: Person) returns (r: Result<Person, Error>)
      requires Valid()
      modifies this
      ensures Valid()
      ensures Saved(r, Snapshot()) == SaveTo(old(Snapshot()), p)
    {
      SavePreservesInvariant(Snapshot(), p);
      if p.id.Some? && p.id.value !in rows {
        return Failure(StorageFailure(UnknownId));
      }
      if !FitsColumns(p) {
        return Failure(StorageFailure(ColumnConstraint));
      }
      if p.id.None? {
        if EmailTaken(rows, p.email, None) {
          return Failure(StorageFailure(DuplicateEmail));
        }
        var q := p.(id := Some(nextId));
        rows := rows[nextId := q];
        nextId := nextId + 1;
        r := Success(q);
      } else {
        var k := p.id.value;
        if EmailTaken(rows, p.email, Some(k)) {
          return Failure(StorageFailure(DuplicateEmail));
        }
        rows := rows[k := p];
        r := Success(p);
      }
    }

    /** `findById(id)`: a null id is refused before the table is consulted. */
    method FindById(id: Option<int>) returns (r: Result<Option<Person>, Error>)
      ensures id.None? ==> r == Failure(IllegalArgument(IdMustNotBeNull))
      ensures id.Some? ==> r == Success(Lookup(Snapshot(), id.value))
    {
      if id.None? {
        return Failure(IllegalArgument(IdMustNotBeNull));
      }
      if id.value in rows {
        r := Success(Some(rows[id.value]));
      } else {
        r := Success(None);
      }
    }

    /** `findAll()`: every stored row exactly once. The model lists the rows
        by ascending id. */
    method FindAll() returns (r: seq<Person>)
      requires Valid()
      ensures |r| == |rows|
      ensures forall i | 0 <= i < |r| :: r[i].id.Some? && r[i].id.value in rows && rows[r[i].id.value] == r[i]
      ensures forall i, j | 0 <= i < j < |r| :: r[i].id != r[j].id
      ensures forall k | k in rows :: rows[k] in r
    {
      r := [];
      var k := 1;
      ghost var seen: set<int> := {};
      while k < nextId
        invariant 1 <= k <= nextId
        invariant forall j :: j in seen <==> j in rows && j < k
        invariant |r| == |seen|
        invariant forall i | 0 <= i < |r| :: r[i].id.Some? && r[i].id.value in rows && r[i].id.value in seen && rows[r[i].id.value] == r[i]
        invariant forall i, j | 0 <= i < j < |r| :: r[i].id.value < r[j].id.value
        invariant forall j | j in seen :: rows[j] in r
      {
        if k in rows {
          r := r + [rows[k]];
          seen := seen + {k};
        }
        k := k + 1;
      }
      assert forall j :: j in seen <==> j in rows.Keys;
      assert seen == rows.Keys;
    }

    method DeleteById(id: int)
      requires Valid()
      modifies this
      ensures Valid()
      ensures Snapshot() == DeleteByIdFrom(old(Snapshot()), id)
    {
      rows := rows - {id};
    }

    method Delete(p: Person)
      requires Valid()
      modifies this
      ensures Valid()
      ensures Snapshot() == DeleteFrom(old(Snapshot()), p)
    {
      if p.id.Some? {
        rows := rows - {p.id.value};
      }
    }
  }

  /** Spring Data's message for a null id. */
  const IdMustNotBeNull: string := "The given id must not be null"
}
