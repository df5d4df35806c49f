/** The failure-carrying datatypes the model uses in place of null and of thrown exceptions. */
module Wrappers {

  /** A value that may be absent: `None` stands for a null reference. */
  datatype Option<+T> = None | Some(value: T)

  /** The outcome of an operation that either returns a value or throws. */
  datatype Result<+T, +E> = Success(value: T) | Failure(error: E)

  /** The outcome of an operation that returns nothing or throws. */
  datatype Outcome<+E> = Pass | Fail(error: E)
}
