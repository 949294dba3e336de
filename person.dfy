/** The Person entity: its six columns and their constraints, value equality
    (which leaves the email out), the hash code, and the mutable entity object
    with its three constructors and six setters. */
module PersonModel {
  import opened Wrappers
  import opened JavaText

  /** The state of one Person object. Every field is a nullable Java reference:
      `id` is a `Long`, the rest are `String`s. */
  datatype Person = Person(
    id: Option<int>,
    firstName: Option<string>,
    lastName: Option<string>,
    email: Option<string>,
    address: Option<string>,
    gender: Option<string>)

  const FirstNameLength: nat := 80
  const LastNameLength: nat := 80
  const EmailLength: nat := 150
  const AddressLength: nat := 100
  const GenderLength: nat := 15

  /** A NOT NULL column of the given length accepts the value. */
  predicate FitsColumn(v: Option<string>, length: nat) {
    v.Some? && |v.value| <= length
  }

  /** The column constraints on one row, apart from the uniqueness of the
      email, which is a property of the whole table. */
  predicate FitsColumns(p: Person) {
    && FitsColumn(p.firstName, FirstNameLength)
    && FitsColumn(p.lastName, LastNameLength)
    && FitsColumn(p.email, EmailLength)
    && FitsColumn(p.address, AddressLength)
    && FitsColumn(p.gender, GenderLength)
  }

  /** `Person.equals` on two distinct non-null objects of the same class:
      address, first name, gender, id and last name, compared with
      `Objects.equals`. The email takes no part: two persons are equal
      exactly when they agree once the email is forgotten. */
  predicate Equal(a: Person, b: Person): (r: bool)
    ensures r <==> a.(email := None) == b.(email := None)
  {
    && a.address == b.address
    && a.firstName == b.firstName
    && a.gender == b.gender
    && a.id == b.id
    && a.lastName == b.lastName
  }

  lemma EqualIsEquivalence(a: Person, b: Person, c: Person)
    ensures Equal(a, a)
    ensures Equal(a, b) ==> Equal(b, a)
    ensures Equal(a, b) && Equal(b, c) ==> Equal(a, c)
  {
  }

  function NullableStringHash(s: Option<string>): (r: int)
    ensures InIntRange(r)
  {
    match s
    case None => 0
    case Some(v) => StringHash(v)
  }

  function NullableLongHash(v: Option<int>): (r: int)
    ensures InIntRange(r)
  {
    match v
    case None => 0
    case Some(x) => LongHash(x)
  }

  /** `Objects.hash(address, firstName, gender, id, lastName)`, which is
      `Arrays.hashCode` over the five values: start at 1, then
      h := 31 * h + element hash, null hashing to 0. */
  function HashOf(p: Person): (r: int)
    ensures InIntRange(r)
  {
    HashUnits(1, [NullableStringHash(p.address), NullableStringHash(p.firstName),
                  NullableStringHash(p.gender), NullableLongHash(p.id),
                  NullableStringHash(p.lastName)])
  }

  /** `hashCode` is consistent with `equals`: it reads the same five fields. */
  lemma EqualPersonsHashEqually(a: Person, b: Person)
    requires Equal(a, b)
    ensures HashOf(a) == HashOf(b)
  {
  }

  lemma HashIgnoresEmail(p: Person, e: Option<string>)
    ensures HashOf(p.(email := e)) == HashOf(p)
  {
  }

  /** A Person object: six mutable fields set by constructors and setters. */
  class PersonEntity {
    var id: Option<int>
    var firstName: Option<string>
    var lastName: Option<string>
    var email: Option<string>
    var address: Option<string>
    var gender: Option<string>

    /** The object's current field values. */
    function Value(): Person
      reads this
    {
      Person(id, firstName, lastName, email, address, gender)
    }

    /** `new Person()`: every field null. */
    constructor Blank()
      ensures Value() == Person(None, None, None, None, None, None)
    {
      id, firstName, lastName, email, address, gender := None, None, None, None, None, None;
    }

    /** The five-argument constructor: the id is left null. */
    constructor (firstName: Option<string>, lastName: Option<string>, email: Option<string>,
                 address: Option<string>, gender: Option<string>)
      ensures Value() == Person(None, firstName, lastName, email, address, gender)
    {
      this.id := None;
      this.firstName := firstName;
      this.lastName := lastName;
      this.email := email;
      this.address := address;
      this.gender := gender;
    }

    /** The six-argument constructor: every field as given. */
    constructor WithId(id: Option<int>, firstName: Option<string>, lastName: Option<string>,
                       email: Option<string>, address: Option<string>, gender: Option<string>)
      ensures Value() == Person(id, firstName, lastName, email, address, gender)
    {
      this.id := id;
      this.firstName := firstName;
      this.lastName := lastName;
      this.email := email;
      this.address := address;
      this.gender := gender;
    }

    method SetId(id: Option<int>)
      modifies this
      ensures Value() == old(Value()).(id := id)
    {
      this.id := id;
    }

    method SetFirstName(firstName: Option<string>)
      modifies this
      ensures Value() == old(Value()).(firstName := firstName)
    {
      this.firstName := firstName;
    }

    method SetLastName(lastName: Option<string>)
      modifies this
      ensures Value() == old(Value()).(lastName := lastName)
    {
      this.lastName := lastName;
    }

    method SetEmail(email: Option<string>)
      modifies this
      ensures Value() == old(Value()).(email := email)
    {
      this.email := email;
    }

    method SetAddress(address: Option<string>)
      modifies this
      ensures Value() == old(Value()).(address := address)
    {
      this.address := address;
    }

    method SetGender(gender: Option<string>)
      modifies this
      ensures Value() == old(Value()).(gender := gender)
    {
      this.gender := gender;
    }

    /** `equals(Object)`: true on the very same object, false on null,
        otherwise the five-field comparison. The identity shortcut never
        changes the answer, and the email never matters. */
    function Equals(obj: PersonEntity?): (r: bool)
      reads this, obj
      ensures r <==> obj != null && Equal(Value(), obj.Value())
    {
      if this == obj then true
      else if obj == null then false
      else Equal(Value(), obj.Value())
    }

    function HashCode(): (r: int)
      reads this
      ensures InIntRange(r)
    {
      HashOf(Value())
    }
  }

  /** `equals` is reflexive and symmetric on non-null objects, false against
      null, and consistent with `hashCode`. */
  lemma EqualsContract(a: PersonEntity, b: PersonEntity)
    ensures a.Equals(a)
    ensures !a.Equals(null)
    ensures a.Equals(b) <==> b.Equals(a)
    ensures a.Equals(b) ==> a.HashCode() == b.HashCode()
  {
  }
}
