/** Optional values and pass/fail outcomes, used where the source has an
    optional argument or throws. */
module Wrappers {

  /** A value that may be absent, such as the optional `label` argument. */
  datatype Option<+T> = None | Some(value: T)

  /** The result of an operation that either completes or fails with an error. */
  datatype Outcome<+E> = Pass | Fail(error: E)
}
