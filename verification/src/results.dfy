/** Failure-compatible outcome types shared by the stores, services and controllers. */
module Results {

  /** The kinds of exception the modelled Java code raises. */
  datatype Error =
    | NotFound       // NotFoundException
    | NoRow          // EmptyResultDataAccessException: a catalog lookup found no row
    | IllegalState   // IllegalStateException from a friendship precondition
    | Validation     // ValidationException thrown by a controller
    | NullReference  // NullPointerException on a field that is null

  /** A Java reference that may be null. */
  datatype Option<+T> = None | Some(value: T)

  /** A value, or the exception that replaced it. Usable with `:-`. */
  datatype Result<+T> = Ok(value: T) | Err(error: Error) {

    predicate IsFailure() {
      Err?
    }

    function PropagateFailure<U>(): Result<U>
      requires Err?
    {
      Err(error)
    }

    function Extract(): T
      requires Ok?
    {
      value
    }
  }

  /** A check that returns normally or throws. */
  datatype Outcome = Pass | Fail(error: Error)
}
