/** Option and failure-carrying outcomes, used where the C++ returns a null
    pointer or throws. */
module Wrappers {

  datatype Option<+T> = None | Some(value: T)

  /** A value or the error that the C++ code would have thrown instead. */
  datatype Result<+T, +E> = Success(value: T) | Failure(error: E)

  /** The outcome of an operation that returns nothing but may throw. */
  datatype Outcome<+E> = Pass | Fail(error: E)
}
