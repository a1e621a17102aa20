/** Optional values, and outcomes of operations that either complete or throw. */
module Wrappers {

  datatype Option<+T> = None | Some(value: T)

  /** The outcome of a Java call that returns nothing or throws `error`. */
  datatype Outcome<+E> = Pass | Fail(error: E)

  /** The outcome of a Java call that returns `value` or throws `error`. */
  datatype Result<+T, +E> = Ok(value: T) | Err(error: E)
}
