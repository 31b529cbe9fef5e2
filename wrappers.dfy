/** Plain wrapper datatypes shared by the model: a null-or-value, and the outcome of an
    operation that may throw. */
module Wrappers {

  /** `None` stands for a C# `null` reference where the source accepts one. */
  datatype Option<+T> = None | Some(value: T)

  /** The value an operation returns, or the exception it throws. */
  datatype Result<+T, +E> = Success(value: T) | Failure(error: E)

  /** The outcome of a `void` operation: it returns, or it throws. */
  datatype Outcome<+E> = Pass | Fail(error: E)
}
