/** Optional values and success/failure results, used wherever the source
    returns null or throws a checked or unchecked exception. */
module Wrappers {

  datatype Option<+T> = None | Some(value: T)

  /** The outcome of an operation that returns a value or fails with an error. */
  datatype Result<+R, +E> = Ok(value: R) | Err(error: E)

  /** The outcome of an operation that returns nothing or fails with an error. */
  datatype Outcome<+E> = Pass | Fail(error: E)
}
