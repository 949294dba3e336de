/** `PersonServiceMock`: a stand-in service that invents people, numbering
    them from a counter it shares between `findById` and `findAll`. */
module ServiceMock {
  import opened Wrappers
  import opened JavaText
  import opened PersonModel

  /** The person `findById` builds under the given id; the email stays null. */
  function FixedPerson(id: int): Person {
    Person(Some(id), Some("João"), Some("Leal"), None, Some("Salvador - Bahia - Brasil"), Some("Male"))
  }

  /** The person `mockPerson(i)` builds under the given id. */
  function MockPerson(id: int, i: int): Person {
    Person(Some(id), Some("Person name " + IntToString(i)), Some("Last Name " + IntToString(i)), None,
           Some("Some address in Brazil " + IntToString(i)), Some(if i % 2 == 0 then "Male" else "Female"))
  }

  /** The list `findAll` returns when the counter stood at `c` before the call. */
  function MockList(c: int): (r: seq<Person>)
    ensures |r| == 8
  {
    seq(8, i => MockPerson(c + 1 + i, i))
  }

  function MaleCount(s: seq<Person>): nat {
    if s == [] then 0 else (if s[0].gender == Some("Male") then 1 else 0) + MaleCount(s[1..])
  }

  /** The eight persons carry consecutive (so strictly increasing) ids after
      `c`, the i-th is named after i and is "Male" for even i and "Female"
      for odd i, so the genders alternate. */
  lemma MockListShape(c: int)
    ensures forall i | 0 <= i < 8 :: MockList(c)[i].id == Some(c + 1 + i)
    ensures forall i, j | 0 <= i < j < 8 :: MockList(c)[i].id.value < MockList(c)[j].id.value
    ensures forall i | 0 <= i < 8 ::
      && MockList(c)[i].firstName == Some("Person name " + [DigitChar(i)])
      && MockList(c)[i].lastName == Some("Last Name " + [DigitChar(i)])
      && MockList(c)[i].address == Some("Some address in Brazil " + [DigitChar(i)])
      && MockList(c)[i].email == None
    ensures forall i | 0 <= i < 8 :: MockList(c)[i].gender == Some(if i % 2 == 0 then "Male" else "Female")
    ensures forall i | 0 <= i < 7 :: MockList(c)[i].gender != MockList(c)[i + 1].gender
  {
    forall i | 0 <= i < 8
      ensures MockList(c)[i] == MockPerson(c + 1 + i, i) && IntToString(i) == [DigitChar(i)]
    {
    }
  }

  /** The digit in the name tells the eight persons apart, and half of them
      are male. */
  lemma {:induction false} MockListDistinctAndBalanced(c: int)
    ensures forall i, j | 0 <= i < j < 8 :: MockList(c)[i].firstName != MockList(c)[j].firstName
    ensures MaleCount(MockList(c)) == 4
  {
    var s := MockList(c);
    MockListShape(c);
    forall i, j | 0 <= i < j < 8 ensures s[i].firstName != s[j].firstName {
      var a, b := "Person name " + [DigitChar(i)], "Person name " + [DigitChar(j)];
      assert a[12] != b[12];
    }
    assert MaleCount(s[8..]) == 0;
    assert MaleCount(s[7..]) == 0 by { assert s[7..][1..] == s[8..]; }
    assert MaleCount(s[6..]) == 1 by { assert s[6..][1..] == s[7..]; }
    assert MaleCount(s[5..]) == 1 by { assert s[5..][1..] == s[6..]; }
    assert MaleCount(s[4..]) == 2 by { assert s[4..][1..] == s[5..]; }
    assert MaleCount(s[3..]) == 2 by { assert s[3..][1..] == s[4..]; }
    assert MaleCount(s[2..]) == 3 by { assert s[2..][1..] == s[3..]; }
    assert MaleCount(s[1..]) == 3 by { assert s[1..][1..] == s[2..]; }
    assert MaleCount(s[0..]) == 4 by { assert s[0..][1..] == s[1..]; }
    assert s[0..] == s;
  }

  class PersonServiceMock {
    var counter: int

    constructor ()
      ensures counter == 0
    {
      counter := 0;
    }

    /** `findById`: the argument is ignored; one more id is drawn. */
    method FindById(id: string) returns (p: Person)
      modifies this
      ensures counter == old(counter) + 1
      ensures p == FixedPerson(counter)
    {
      var person := new PersonEntity.Blank();
      counter := counter + 1;
      person.SetId(Some(counter));
      person.SetFirstName(Some("João"));
      person.SetLastName(Some("Leal"));
      person.SetAddress(Some("Salvador - Bahia - Brasil"));
      person.SetGender(Some("Male"));
      p := person.Value();
    }

    /** `findAll`: eight persons built by `mockPerson(0)` to `mockPerson(7)`. */
    method FindAll() returns (persons: seq<Person>)
      modifies this
      ensures counter == old(counter) + 8
      ensures persons == MockList(old(counter))
    {
      persons := [];
      for i := 0 to 8
        invariant counter == old(counter) + i
        invariant persons == MockList(old(counter))[..i]
      {
        var person := NextMockPerson(i);
        persons := persons + [person];
      }
    }

    /** `mockPerson(i)`: one more id is drawn. */
    method NextMockPerson(i: int) returns (p: Person)
      modifies this
      ensures counter == old(counter) + 1
      ensures p == MockPerson(counter, i)
    {
      var person := new PersonEntity.Blank();
      counter := counter + 1;
      person.SetId(Some(counter));
      person.SetFirstName(Some("Person name " + IntToString(i)));
      person.SetLastName(Some("Last Name " + IntToString(i)));
      person.SetAddress(Some("Some address in Brazil " + IntToString(i)));
      if i % 2 == 0 {
        person.SetGender(Some("Male"));
      } else {
        person.SetGender(Some("Female"));
      }
      p := person.Value();
    }

    /** `create` hands its argument back; the counter is not touched. */
    method Create(person: Person) returns (r: Person)
      ensures r == person
    {
      r := person;
    }

    /** `update` hands its argument back; the counter is not touched. */
    method Update(person: Person) returns (r: Person)
      ensures r == person
    {
      r := person;
    }

    /** `delete` only logs: the counter does not move. */
    method Delete(id: string)
      ensures counter == old(counter)
    {
    }
  }

  /** A fresh mock numbers from 1, and the ids keep rising from `findById`
      into `findAll`. */
  method IdsKeepRising() returns (first: Person, all: seq<Person>)
    ensures first.id == Some(1)
    ensures |all| == 8 && forall i | 0 <= i < 8 :: all[i].id == Some(i + 2)
  {
    var mock := new PersonServiceMock();
    first := mock.FindById("1");
    all := mock.FindAll();
    MockListShape(1);
  }
}
