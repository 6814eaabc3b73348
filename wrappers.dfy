/** Option and Result values used in place of null references and exceptions. */
module Wrappers {

  /** A value that may be absent (a C# nullable reference or `char?`). */
  datatype Option<+T> = None | Some(value: T)

  /** The outcome of an operation that may throw: its value, or the error it raises. */
  datatype Result<+T, +E> = Success(value: T) | Failure(error: E)
}
