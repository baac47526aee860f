/**
 * Result values that replace the exceptions the services throw. Both
 * services report a missing row (ResponseStatusException NOT_FOUND in the
 * student rules, NoSuchElementException in the attendance rules, which the
 * HTTP layer turns into 404) and a duplicate student number (CONFLICT, 409).
 * A bean-validation constraint that fails when a transaction flushes
 * (ConstraintViolationException) is `Invalid`; the transaction rolls back.
 */
module Outcomes {

  datatype Option<T> = None | Some(value: T)

  datatype Error = NotFound | Conflict | Invalid

  /** The result of an operation that returns a value. */
  datatype Result<T> = Ok(value: T) | Fail(error: Error)

  /** The result of an operation declared `void`. */
  datatype Outcome = Done | Failed(error: Error)
}
