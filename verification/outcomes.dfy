/** The two kinds of exception the driver lets escape to a test: a missing
    key in an event mapping (Python's KeyError) and the assertion failures
    its wait primitives raise on purpose. */
module Outcomes {

  datatype Failure =
    | KeyError(key: string)
    | AssertionError(message: string)

  /** A key that may be missing from an event mapping. */
  datatype Option<T> = None | Some(value: T)

  /** A computation that either yields a value or raises. */
  datatype Result<+T> = Ok(value: T) | Err(error: Failure)

  /** A computation that yields nothing and either completes or raises. */
  datatype Outcome = Pass | Fail(error: Failure)
}
