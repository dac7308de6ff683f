/** Option, Result and Outcome, shared by every module of the model. */
module Wrappers {

  /** A value that may be absent; in the database model `None` is SQL NULL. */
  datatype Option<+T> = None | Some(value: T)

  /** The outcome of an operation that returns a value or raises an error. */
  datatype Result<+T, +E> = Success(value: T) | Failure(error: E)

  /** The outcome of an operation that returns nothing or raises an error. */
  datatype Outcome<+E> = Pass | Fail(error: E)
}
