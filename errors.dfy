/** The exceptions the core raises or lets through, and the HTTP status the
    application's exception handler answers each of them with. */
module Errors {

  /** Why the database refused a write. */
  datatype StorageFault =
    | ColumnConstraint   // a NOT NULL column left null, or a value longer than its column
    | DuplicateEmail     // the UNIQUE constraint on the email column
    | UnknownId          // a merge of an entity whose id names no stored row

  datatype Error =
    | ResourceNotFound(message: string)       // ResourceNotFoundException
    | DuplicateRegistration(message: string)  // DuplicateRegistrationException
    | IllegalArgument(message: string)        // the repository refusing a null id
    | StorageFailure(fault: StorageFault)     // a data-access exception from the database

  /** The handler answers a ResourceNotFoundException with 404 and every other
      exception, DuplicateRegistrationException included, with 500. */
  function HttpStatus(e: Error): (code: int)
    ensures code == 404 <==> e.ResourceNotFound?
    ensures code == 404 || code == 500
  {
    if e.ResourceNotFound? then 404 else 500
  }
}
