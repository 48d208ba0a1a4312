/** Option, Result and Outcome: the model's stand-ins for Python's None and
    for operations that either return or raise. */
module Wrappers {

  datatype Option<+T> = None | Some(value: T)

  /** A call that returns a value or raises an error. */
  datatype Result<+R, +E> = Success(value: R) | Failure(error: E)

  /** A call that returns nothing or raises an error. */
  datatype Outcome<+E> = Pass | Fail(error: E)
}
