# Person registry and numeric input check, modelled in Dafny

This project models the core of a small Spring Boot REST service that keeps
a registry of people. It covers five parts:

- **`Person`**: the JPA entity with its column constraints, its setters and
  its `equals`/`hashCode`.
- **`PersonRepository`**: the Spring Data repository. This covers `save`,
  `findById`, `findAll`, `deleteById` and `delete`, the derived
  `findByEmail`, and the JPQL and native SQL queries.
- **`PersonService`**: the service layer. It offers `findById`, `findAll`,
  `create`, `update` and `delete`, and fails with `ResourceNotFoundException`
  on an unknown id.
- **`PersonServiceMock`**: the stand-in service. Its ids come from an
  `AtomicLong` counter and it builds eight fixed people.
- **`MathController`**: its `isNumeric` check, its comma-to-point
  normalisation and the guard that `sum` puts on its two path variables.

## How the model is built

**Values and classes.** A person is a value (`PersonModel.Person`), and a
Java `null` is `None`. The entity with its setters is a class
(`PersonModel.PersonEntity`). The database is a pure table
(`Repository.Table`). The rows are keyed by id, and there is an identity
counter for the next id. `SaveTo`, `DeleteByIdFrom`, `Select` and the
`FindBy…` functions specify the repository. The `PersonRepository` class
holds the same table in fields. `Save`, `DeleteById` and `Delete` are
proved against `SaveTo`, `DeleteByIdFrom` and `DeleteFrom`. `FindById`
states its result directly through `Lookup`. `FindAll` states directly
that it lists every stored row exactly once.

**The service.** `PersonService` has the same method names as the source.
`Create` is proved against `SaveTo`, `CreateChecked` against
`CreateCheckedIn`, `Update` against `UpdateIn` and `Delete` against
`DeleteIn`. `FindById` and `FindAll` state their results directly in terms
of the repository's rows. Lemmas about those specifications state what the service promises:
ids are fresh, updates copy four fields and keep the email, deletes remove
exactly one row, and the table invariant is kept.

**The numeric check.** `MathController` has a reference definition that
follows the shape of the regular expression `[-+]?[0-9]*\.?[0-9]+`. A
deterministic recogniser is proved to accept exactly the same strings.

**The error handler.** `CustomizedResponseEntityExceptionHandler` is modelled
only as the mapping from an exception to its HTTP status.

**Persistence behaviour.** Several persistence behaviours come from Spring
Data and Hibernate rather than from code in the repository. The model fixes
them as follows:

- `findById(null)` fails with an illegal-argument error whose message is
  "The given id must not be null".
- `delete` of an entity whose id is null, or is not stored, does nothing.
- `save` inserts a person without an id under the next id.
- `save` replaces the stored row when the id is known. The email is replaced
  too.
- `save` fails when any of the following holds, checked in this order:
  - the id is unknown;
  - a column constraint is broken (a value is null or longer than its
    `length`);
  - the email is already held by another row.

  A failed save leaves the rows and the identity counter unchanged. "## Left
  out" says how the database's counter differs.

**Single-result queries.** A query declared to return a single `Person`
returns no row, one row, or fails because more than one row matches. The
JPQL and native queries use SQL `=`, which never matches a null parameter.
The derived `findByEmail(null)` selects the rows whose email is null.

**Where the code and the documented intent disagree.** `PersonService.create`
does not check for a duplicate email, although the service tests expect a
`DuplicateRegistrationException`. The model follows the code, and
"## Findings" records the discrepancy.

`ResourceNotFoundException.java` is not part of this model. Its message is
taken from the calls in `PersonService.java`.

## Model

| member | source | states |
|---|---|---|
| Errors.HttpStatus | src/main/java/io/github/joaoVitorLeal/exceptions/handler/CustomizedResponseEntityExceptionHandler.java:23-50 | a not-found exception maps to 404 and every other exception to 500, and nothing else is produced |
| JavaText.NatToString | src/main/java/io/github/joaoVitorLeal/services/PersonServiceMock.java:61-63 | the decimal rendering of a non-negative number, as `Long.toString` and `Integer.toString` write it: non-empty, digits only, no leading zero, and its value is the number |
| JavaText.IntToString | src/main/java/io/github/joaoVitorLeal/services/PersonService.java:27 | the decimal rendering of the id that is concatenated into the not-found message: digits only, with a minus sign exactly for negative ids, no leading zero, and value equal to the number |
| JavaText.IntToStringInjective | src/main/java/io/github/joaoVitorLeal/services/PersonService.java:27 | different integers are rendered as different strings |
| JavaText.StringHash | src/main/java/io/github/joaoVitorLeal/model/Person.java:107 | `String.hashCode` over UTF-16 units with 32-bit wrap-around: stays in the int range, and the empty string hashes to 0 |
| JavaText.LongHash | src/main/java/io/github/joaoVitorLeal/model/Person.java:107 | `Long.hashCode` of the id, the low 32 bits of `v ^ (v >>> 32)`: its value is in the int range |
| PersonModel.EqualIsEquivalence | src/main/java/io/github/joaoVitorLeal/model/Person.java:110-122 | field-wise person equality is reflexive, symmetric and transitive |
| PersonModel.Equal | src/main/java/io/github/joaoVitorLeal/model/Person.java:119-121 | two persons are equal exactly when they agree once the email is blanked: address, first name, gender, id and last name are compared, and the email is not |
| PersonModel.FitsColumns | src/main/java/io/github/joaoVitorLeal/model/Person.java:23-36 | defines the column constraints of one row: first name, last name, email, address and gender are non-null and at most 80, 80, 150, 100 and 15 characters long |
| PersonModel.HashOf | src/main/java/io/github/joaoVitorLeal/model/Person.java:105-108 | `Objects.hash(address, firstName, gender, id, lastName)` stays in the 32-bit int range |
| PersonModel.EqualPersonsHashEqually | src/main/java/io/github/joaoVitorLeal/model/Person.java:105-122 | equal persons have equal hash codes |
| PersonModel.HashIgnoresEmail | src/main/java/io/github/joaoVitorLeal/model/Person.java:105-108 | changing the email never changes the hash code |
| PersonModel.PersonEntity.Blank | src/main/java/io/github/joaoVitorLeal/model/Person.java:38 | the no-argument constructor leaves every field null |
| PersonModel.PersonEntity.constructor | src/main/java/io/github/joaoVitorLeal/model/Person.java:40-46 | the five-argument constructor sets the five descriptive fields and leaves the id null |
| PersonModel.PersonEntity.WithId | src/main/java/io/github/joaoVitorLeal/model/Person.java:48-55 | the six-argument constructor sets every field, the id included |
| PersonModel.PersonEntity.SetId | src/main/java/io/github/joaoVitorLeal/model/Person.java:61-63 | changes the id and no other field |
| PersonModel.PersonEntity.SetFirstName | src/main/java/io/github/joaoVitorLeal/model/Person.java:69-71 | changes the first name and no other field |
| PersonModel.PersonEntity.SetLastName | src/main/java/io/github/joaoVitorLeal/model/Person.java:77-79 | changes the last name and no other field |
| PersonModel.PersonEntity.SetEmail | src/main/java/io/github/joaoVitorLeal/model/Person.java:85-87 | changes the email and no other field |
| PersonModel.PersonEntity.SetAddress | src/main/java/io/github/joaoVitorLeal/model/Person.java:93-95 | changes the address and no other field |
| PersonModel.PersonEntity.SetGender | src/main/java/io/github/joaoVitorLeal/model/Person.java:101-103 | changes the gender and no other field |
| PersonModel.PersonEntity.Equals | src/main/java/io/github/joaoVitorLeal/model/Person.java:110-122 | true exactly when the other object is not null and agrees on the five compared fields |
| PersonModel.PersonEntity.HashCode | src/main/java/io/github/joaoVitorLeal/model/Person.java:105-108 | the entity's hash code is an int |
| PersonModel.EqualsContract | src/main/java/io/github/joaoVitorLeal/model/Person.java:105-122 | the `equals`/`hashCode` contract: reflexive, false for null, symmetric, and equal objects hash equally |
| Repository.SaveTo | src/test/java/io/github/joaoVitorLeal/repositories/PersonRepositoryTest.java:43-57 | `save` succeeds exactly when the columns fit, the id is null or stored, and no other row holds the email; a failure is a storage failure and leaves the rows and the identity counter as they were |
| Repository.Invariant | src/main/java/io/github/joaoVitorLeal/model/Person.java:19-36 | defines a consistent table: every row is stored under its own id, which is positive and below the identity counter; every row meets its column constraints; no two rows share an email |
| Repository.RowsBelowCounter | src/main/java/io/github/joaoVitorLeal/model/Person.java:19-21 | on a consistent table there are fewer rows than the value of the identity counter, since ids are handed out once and never reused |
| Repository.SavePreservesInvariant | src/main/java/io/github/joaoVitorLeal/model/Person.java:19-36 | every save keeps the table consistent: ids positive and below the counter, each row under its own id, the column constraints met, and emails unique |
| Repository.SaveNewAssignsFreshId | src/test/java/io/github/joaoVitorLeal/repositories/PersonRepositoryTest.java:43-57 | saving a person without an id assigns a positive id that was not in use, returns the person with that id, stores it, and leaves the other rows alone |
| Repository.SaveExistingReplaces | src/test/java/io/github/joaoVitorLeal/repositories/PersonRepositoryTest.java:112-130 | saving a person whose id is stored replaces exactly that row and returns it; the other rows and the counter are unchanged |
| Repository.SaveRefusesTakenEmail | src/main/java/io/github/joaoVitorLeal/model/Person.java:29-30 | a new person carrying a stored email is refused (by the unique constraint when its columns fit, by the column constraints otherwise), and the table is unchanged |
| Repository.DeleteByIdFrom | src/test/java/io/github/joaoVitorLeal/repositories/PersonRepositoryTest.java:132-144 | after `deleteById` the id is not found, every other id looks up as before, and the counter is unchanged |
| Repository.DeleteFrom | src/main/java/io/github/joaoVitorLeal/services/PersonService.java:62 | `delete(entity)` with a null id, or with an id no row holds, changes nothing; otherwise the entity's id is no longer found, every other id looks up as before, and the counter is unchanged |
| Repository.DeletePreservesInvariant | src/main/java/io/github/joaoVitorLeal/services/PersonService.java:62 | deleting keeps the table consistent |
| Repository.DeleteRemovesOne | src/test/java/io/github/joaoVitorLeal/repositories/PersonRepositoryTest.java:132-144 | deleting a stored id removes exactly that key, so the table shrinks by one |
| Repository.TwoSavesIntoEmpty | src/test/java/io/github/joaoVitorLeal/repositories/PersonRepositoryTest.java:94-110 | two persons with different emails saved into an empty table both succeed, and the table then holds two rows |
| Repository.Select | src/main/java/io/github/joaoVitorLeal/repositories/PersonRepository.java:16-32 | a single-result query returns one stored row satisfying its condition, no row exactly when none satisfies it, and fails exactly when more than one does |
| Repository.FindByEmail | src/main/java/io/github/joaoVitorLeal/repositories/PersonRepository.java:16 | a found person is stored and has the given email; nothing is found exactly when no row has that email |
| Repository.FindByJpql | src/main/java/io/github/joaoVitorLeal/repositories/PersonRepository.java:18-20 | a found person is stored and matches both names with SQL equality; nothing is found exactly when no row matches both |
| Repository.FindByJpqlNamedParameters | src/main/java/io/github/joaoVitorLeal/repositories/PersonRepository.java:22-24 | a found person matches first name, last name and gender with SQL equality; nothing is found exactly when no row matches all three |
| Repository.FindByNativeSql | src/main/java/io/github/joaoVitorLeal/repositories/PersonRepository.java:26-32 | both native queries: a found person matches first name and email with SQL equality; nothing is found exactly when no row matches both |
| Repository.SelectByEmailAtMostOne | src/main/java/io/github/joaoVitorLeal/model/Person.java:29-30 | with unique emails, a condition that pins the email selects at most one row |
| Repository.FindByEmailAtMostOne | src/main/java/io/github/joaoVitorLeal/repositories/PersonRepository.java:16 | on a consistent table `findByEmail` never finds more than one row, and finds one exactly when some row has the email |
| Repository.FindByNativeSqlAtMostOne | src/main/java/io/github/joaoVitorLeal/repositories/PersonRepository.java:26-32 | on a consistent table the native queries never find more than one row |
| Repository.SavedPersonIsFound | src/test/java/io/github/joaoVitorLeal/repositories/PersonRepositoryTest.java:146-220 | a person saved into a new table (counter at 1) gets id 1, equals the caller's object once that object carries the id, and is found by `findByEmail`, both JPQL queries and the native query, each given the person's own values |
| Repository.SelectOneRow | src/main/java/io/github/joaoVitorLeal/repositories/PersonRepository.java:16-32 | on a one-row table a query returns that row exactly when the row meets its condition, and no row otherwise |
| Repository.PersonRepository.constructor | src/main/java/io/github/joaoVitorLeal/repositories/PersonRepository.java:13-14 | a new repository is empty, and its counter starts at 1 |
| Repository.PersonRepository.Save | src/test/java/io/github/joaoVitorLeal/repositories/PersonRepositoryTest.java:43-57 | the returned result and the new table are those of `SaveTo` on the old table, and the table stays consistent |
| Repository.PersonRepository.FindById | src/test/java/io/github/joaoVitorLeal/repositories/PersonRepositoryTest.java:59-71 | a null id fails with the illegal-argument message; otherwise the result is the stored person under that id, or empty |
| Repository.PersonRepository.FindAll | src/test/java/io/github/joaoVitorLeal/repositories/PersonRepositoryTest.java:94-110 | returns every stored person exactly once: one entry per row, each entry the row under its own id, no id twice, and no row missing |
| Repository.PersonRepository.DeleteById | src/test/java/io/github/joaoVitorLeal/repositories/PersonRepositoryTest.java:132-144 | the new table is `DeleteByIdFrom` of the old one, and it stays consistent |
| Repository.PersonRepository.Delete | src/main/java/io/github/joaoVitorLeal/services/PersonService.java:62 | the new table is `DeleteFrom` of the old one, and it stays consistent |
| Service.NotFoundMessage | src/main/java/io/github/joaoVitorLeal/services/PersonService.java:27 | defines the not-found message: "No records found for this id: " followed by the id in decimal |
| Service.NotFoundMessageNamesId | src/main/java/io/github/joaoVitorLeal/services/PersonService.java:27 | two not-found messages are equal exactly when their ids are, so the message identifies the id it was raised for |
| Service.CopyDescriptive | src/main/java/io/github/joaoVitorLeal/services/PersonService.java:48-51 | the four setter calls: the result keeps the stored record's id and email, takes every other field from the caller's person, and equals that person (in the sense of `equals`) exactly when the ids agree |
| Service.UpdateIn | src/main/java/io/github/joaoVitorLeal/services/PersonService.java:42-54 | a failed update writes nothing |
| Service.DeleteIn | src/main/java/io/github/joaoVitorLeal/services/PersonService.java:57-63 | a failed delete writes nothing |
| Service.CreateCheckedIn | src/test/java/io/github/joaoVitorLeal/services/PersonServiceTest.java:68-117 | a refused create writes nothing |
| Service.UpdateRejectsUnknownId | src/main/java/io/github/joaoVitorLeal/services/PersonService.java:45-46 | updating an id that is not stored fails with "No records found for this id: " and the id, and writes nothing |
| Service.UpdateCopiesFourFields | src/main/java/io/github/joaoVitorLeal/services/PersonService.java:45-53 | a successful update was given a stored id; the row then has the caller's first name, last name, address and gender, and keeps its id and its old email; it is what is returned, and every other row and the counter are unchanged |
| Service.UpdateSucceedsIff | src/main/java/io/github/joaoVitorLeal/services/PersonService.java:45-53 | on a consistent table an update succeeds exactly when the id is stored and the four copied values fit their columns |
| Service.UpdatePreservesInvariant | src/main/java/io/github/joaoVitorLeal/services/PersonService.java:42-54 | an update keeps the table consistent |
| Service.DeleteRemovesExactlyOne | src/main/java/io/github/joaoVitorLeal/services/PersonService.java:57-63 | deleting a stored id succeeds and removes exactly that row; the other rows are unchanged, the id is not found afterwards, and a second delete of it fails with the not-found message |
| Service.DeleteRejectsUnknownId | src/main/java/io/github/joaoVitorLeal/services/PersonService.java:60-61 | deleting an id that is not stored fails with the not-found message and writes nothing |
| Service.DeletePreservesInvariantIn | src/main/java/io/github/joaoVitorLeal/services/PersonService.java:57-63 | a delete keeps the table consistent |
| Service.CreateAsWrittenMissesDuplicate | src/main/java/io/github/joaoVitorLeal/services/PersonService.java:36-39 | `create` as written passes a person with a stored email to `save`, which refuses it with a storage failure, not with the duplicate-registration error |
| Service.CreateCheckedRejectsDuplicate | src/test/java/io/github/joaoVitorLeal/services/PersonServiceTest.java:68-117 | the checked create refuses a stored email with "Person already exist with given email: " and the email, and writes nothing; any other person goes to `save` unchanged |
| Service.SequentialCreatesSameEmail | src/test/java/io/github/joaoVitorLeal/services/PersonServiceTest.java:87-100 | after one successful create, a second create with the same email fails with the duplicate-registration error and writes nothing |
| Service.Lifecycle | src/main/java/io/github/joaoVitorLeal/services/PersonService.java:24-63 | a scenario starting from a new table (counter at 1): the first create gets id 1; a second create with the same email leaves one row, refused by the checked create (the behaviour PersonServiceTest.java:87-117 expects) with the duplicate-registration error and by the code's create, plain `save`, with a storage failure; id 2 is not found; an update changes the first name and keeps the email; after the delete, id 1 is gone |
| Service.PersonService.constructor | src/main/java/io/github/joaoVitorLeal/services/PersonService.java:20-22 | the service keeps the repository it is given |
| Service.PersonService.FindById | src/main/java/io/github/joaoVitorLeal/services/PersonService.java:24-28 | a null id fails with the illegal-argument message; a stored id returns its row; an unknown id fails with the not-found message naming it |
| Service.PersonService.FindAll | src/main/java/io/github/joaoVitorLeal/services/PersonService.java:30-33 | returns every stored person exactly once |
| Service.PersonService.Create | src/main/java/io/github/joaoVitorLeal/services/PersonService.java:35-39 | the result and the new table are those of `save` on the old table |
| Service.PersonService.CreateChecked | src/test/java/io/github/joaoVitorLeal/services/PersonServiceTest.java:68-117 | the result and the new table are those of `CreateCheckedIn` on the old table |
| Service.PersonService.Update | src/main/java/io/github/joaoVitorLeal/services/PersonService.java:41-54 | the result and the new table are those of `UpdateIn` on the old table, and the table stays consistent |
| Service.PersonService.Delete | src/main/java/io/github/joaoVitorLeal/services/PersonService.java:56-63 | the outcome and the new table are those of `DeleteIn` on the old table, and the table stays consistent |
| ServiceMock.FixedPerson | src/main/java/io/github/joaoVitorLeal/services/PersonServiceMock.java:22-29 | defines the person `findById` builds: the given id, "João", "Leal", "Salvador - Bahia - Brasil", "Male", and a null email |
| ServiceMock.MockPerson | src/main/java/io/github/joaoVitorLeal/services/PersonServiceMock.java:58-70 | defines the i-th person of `mockPerson`: the given id, name, last name and address ending in i, a null email, and "Male" for even i and "Female" for odd i |
| ServiceMock.MockList | src/main/java/io/github/joaoVitorLeal/services/PersonServiceMock.java:36-41 | `findAll` of the mock always lists eight people |
| ServiceMock.MockListShape | src/main/java/io/github/joaoVitorLeal/services/PersonServiceMock.java:58-70 | the eight mock people take ids counter+1 to counter+8, in increasing order; each name ends in its index; the email is null; even indices are "Male" and odd ones "Female", so the genders alternate |
| ServiceMock.MockListDistinctAndBalanced | src/main/java/io/github/joaoVitorLeal/services/PersonServiceMock.java:36-41 | the eight first names are pairwise distinct, and exactly four of the people are male |
| ServiceMock.PersonServiceMock.constructor | src/main/java/io/github/joaoVitorLeal/services/PersonServiceMock.java:13 | the counter starts at 0 |
| ServiceMock.PersonServiceMock.FindById | src/main/java/io/github/joaoVitorLeal/services/PersonServiceMock.java:17-30 | each call advances the counter by one and returns the fixed person under the new counter value, whatever id was asked for |
| ServiceMock.PersonServiceMock.FindAll | src/main/java/io/github/joaoVitorLeal/services/PersonServiceMock.java:32-42 | advances the counter by eight and returns the eight mock people numbered from the old counter |
| ServiceMock.PersonServiceMock.NextMockPerson | src/main/java/io/github/joaoVitorLeal/services/PersonServiceMock.java:58-70 | advances the counter by one and returns the i-th mock person under the new counter value |
| ServiceMock.PersonServiceMock.Create | src/main/java/io/github/joaoVitorLeal/services/PersonServiceMock.java:44-47 | returns the person it was given |
| ServiceMock.PersonServiceMock.Update | src/main/java/io/github/joaoVitorLeal/services/PersonServiceMock.java:49-52 | returns the person it was given |
| ServiceMock.PersonServiceMock.Delete | src/main/java/io/github/joaoVitorLeal/services/PersonServiceMock.java:54-56 | `delete` only logs: the counter does not move and nothing else can change |
| ServiceMock.IdsKeepRising | src/main/java/io/github/joaoVitorLeal/services/PersonServiceMock.java:13-42 | on a new mock, `findById` yields id 1 and a following `findAll` yields ids 2 to 9: the shared counter never repeats an id |
| MathController.Pattern | src/main/java/io/github/joaoVitorLeal/MathController.java:45 | defines the language of `[-+]?[0-9]*\.?[0-9]+`: an optional sign, then a run of digits, then an optional point, then at least one digit |
| MathController.RecogniseIsPattern | src/main/java/io/github/joaoVitorLeal/MathController.java:45 | the recogniser accepts exactly the strings of `[-+]?[0-9]*\.?[0-9]+` |
| MathController.RejectStays | src/main/java/io/github/joaoVitorLeal/MathController.java:45 | once the recogniser has rejected, no further input brings it back |
| MathController.FractionAccepts | src/main/java/io/github/joaoVitorLeal/MathController.java:45 | after the point and at least one digit, what is left is accepted exactly when it is all digits |
| MathController.PointAccepts | src/main/java/io/github/joaoVitorLeal/MathController.java:45 | right after the point, what is left is accepted exactly when it is one digit or more |
| MathController.UnsignedAfterDigit | src/main/java/io/github/joaoVitorLeal/MathController.java:45 | an unsigned number that starts with a digit continues as nothing or as an unsigned number |
| MathController.UnsignedAfterPoint | src/main/java/io/github/joaoVitorLeal/MathController.java:45 | an unsigned number that starts with the point continues as one digit or more |
| MathController.UnsignedHead | src/main/java/io/github/joaoVitorLeal/MathController.java:45 | an unsigned number is non-empty and starts with a digit or the point |
| MathController.WholeAccepts | src/main/java/io/github/joaoVitorLeal/MathController.java:45 | after a digit of the whole part, what is left is accepted exactly when it is empty or an unsigned number |
| MathController.SignedAccepts | src/main/java/io/github/joaoVitorLeal/MathController.java:45 | after a sign, what is left is accepted exactly when it is an unsigned number |
| MathController.Normalize | src/main/java/io/github/joaoVitorLeal/MathController.java:44 | `replaceAll(",", ".")`: same length, each comma becomes a point, every other character is kept |
| MathController.IsNumeric | src/main/java/io/github/joaoVitorLeal/MathController.java:39-46 | true exactly when the input is not null and its comma-normalised form matches the pattern |
| MathController.NormalizeIdempotent | src/main/java/io/github/joaoVitorLeal/MathController.java:32-33 | normalising twice is normalising once, so the re-check in `convertToDouble` gives the same verdict as the first |
| MathController.AcceptedEndsWithDigit | src/main/java/io/github/joaoVitorLeal/MathController.java:45 | an accepted input is non-empty and ends with a digit, so "1." is never numeric |
| MathController.UnsignedTail | src/main/java/io/github/joaoVitorLeal/MathController.java:45 | an unsigned number is non-empty and ends with a digit |
| MathController.PointRejectsPoint | src/main/java/io/github/joaoVitorLeal/MathController.java:45 | once the point has been read, a second point anywhere later rejects |
| MathController.TwoPointsReject | src/main/java/io/github/joaoVitorLeal/MathController.java:45 | a string with two points is rejected from any state |
| MathController.TwoSeparatorsRejected | src/main/java/io/github/joaoVitorLeal/MathController.java:44-45 | an input containing two separators, commas or points in any mix, is never numeric |
| MathController.RejectedExamples | src/main/java/io/github/joaoVitorLeal/MathController.java:39-46 | null, "", "1." and "-" are not numeric |
| MathController.AcceptedExamples | src/main/java/io/github/joaoVitorLeal/MathController.java:39-46 | ".5" and "+0,75" are numeric |
| MathController.SeparatorExamples | src/main/java/io/github/joaoVitorLeal/MathController.java:39-46 | "1,2,3" and "1.2,3" are not numeric |
| MathController.SumGuard | src/main/java/io/github/joaoVitorLeal/MathController.java:18-24 | `sum` throws exactly when either argument is not numeric; otherwise it goes on with the two arguments, each with its commas turned into points, and both match the pattern |
| MathController.ConvertInput | src/main/java/io/github/joaoVitorLeal/MathController.java:27-37 | `convertToDouble` parses something exactly when the input is numeric, and what it parses is the normalised input, which matches the pattern |

## Left out

- `Double` arithmetic and `Double.parseDouble`: floating point is not modelled. `ConvertInput` stops at the normalised string that would be parsed, where `None` stands for the `0D` fallback. `SumGuard` stops at the two strings that would be added.
- The REST controller (`PersonController`) and the HTTP routing are not modelled. Its PUT route calls `service.create`, not `service.update`.
- Logging, `ExceptionResponse` and its timestamp, and `request.getDescription` are left out: they are I/O and the clock.
- `OpenAPIConfig` is not modelled. Neither is the `AtomicLong counter` field of `MathController`, which nothing in the controller uses.
- JPA and Hibernate internals (sessions, flushing, proxies, dirty checking) are left out. So is the database's IDENTITY generator, which is modelled as a counter that starts at 1 and never reuses a value.
- Repository.SaveTo: a detached entity whose id is not stored is modelled as a storage failure. Hibernate 6.6 behaves this way, while some older versions insert the entity under a fresh id instead.
- Repository.SaveTo: a refused or rolled-back insert leaves the model's identity counter where it was. On the MySQL/InnoDB database of the integration tests, an insert refused by the unique email index still uses up its AUTO_INCREMENT value, and a rollback never resets the counter. So after a refused insert the database hands out a higher id than the model. For the same reason, a table emptied by rolled-back tests no longer starts at id 1.
- Repository.SaveTo: the model reports a single fault. An unknown id fails first, the way Hibernate's merge does before any column is checked. Then a null or over-long value is refused before the email is checked.
- The 64-bit width of `Long` ids and of the mock counter is not modelled: ids are unbounded integers, because no realistic run reaches 2^63.
- The atomicity of `AtomicLong` and any concurrency between requests are not modelled. Each call is sequential.
- Java object identity and aliasing are not modelled. For example, after `save` the caller's own object and the returned entity are the same object. `Repository.SavedPersonIsFound` instead states value equality between the returned person and the caller's person once it carries the id. Similarly, the Mockito stubs in the service tests hand back the caller's object.
- PersonModel.PersonEntity.Equals: the `getClass()` comparison and Hibernate proxies are not modelled. Only `PersonEntity` objects are compared. Identity implies field equality, so the `this == obj` shortcut never changes the answer.
- `Repository.PersonRepository.FindAll` lists rows by ascending id. The source promises no order, so the ensures clauses state only that the rows are complete and distinct.
- `Repository.PersonRepository.DeleteById` takes a non-null id. Spring Data's exception for `deleteById(null)` is not modelled, because the service never calls `deleteById`: PersonService.java:62 calls `delete(entity)`.
- Strings are compared exactly: emails and query parameters match only when they are the same character sequence. The integration tests run on MySQL 8, whose default collation (utf8mb4_0900_ai_ci) ignores case and accents both in the unique email index and in `=`. On that database "JOAO@x.com" could not be stored beside "joao@x.com" and a query for "Joao" would find "João"; the model accepts the first and does not find the second.
- JavaText.LongHash: the contract states only that the hash is an int. The bit-level value of `v ^ (v >>> 32)` is not stated, because relating `bv64` values to integers is beyond what the proofs here can afford.
- Strings are sequences of Unicode scalar values. Column lengths count those values, and `String.hashCode` converts them to UTF-16 units.
- The `DuplicateRegistrationException` class itself is only its message. `ResourceNotFoundException.java` is not part of this model.

## Findings

| source | as written | input that shows it | evidently intended | confidence | as-written member | corrected member |
|---|---|---|---|---|---|---|
| src/main/java/io/github/joaoVitorLeal/services/PersonService.java:36-39 | `create` calls `repository.save` without looking the email up first | a store that holds a person with email e, then `create` of a new person with the same email e | refuse with `DuplicateRegistrationException("Person already exist with given email: " + e)` and never call `save`, as PersonServiceTest.java:68-117 expects | not executed | Service.CreateAsWrittenMissesDuplicate | Service.CreateCheckedRejectsDuplicate |
