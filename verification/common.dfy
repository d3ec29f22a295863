/** Failure values and argument shapes shared by every stage of the name
    type.  The three exception classes of the repository become the
    constructors of `Exception`; an operation that may throw returns a
    `Result` (or an `Outcome` when it returns nothing). */
module Common {

  /** IllegalArgument: a precondition failed; InvalidState: the class
      invariant failed; MethodFailed: a postcondition failed. */
  datatype Exception = IllegalArgument | InvalidState | MethodFailed

  datatype Result<+T> = Ok(value: T) | Err(error: Exception)

  datatype Outcome = Pass | Fail(error: Exception)

  datatype Option<+T> = None | Some(value: T)

  /** A JavaScript parameter that may be left out (`undefined`, so that a
      default applies), passed as `null`, or given a value. */
  datatype Arg<+T> = Omitted | Null | Given(value: T)
}
