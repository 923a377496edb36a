/** Optional values and the outcome of a remote call or a JSON parse. */
module Wrappers {

  /** A value that may be absent: JavaScript's `null`. */
  datatype Option<+T> = None | Some(value: T)

  /** The result of an operation that can fail (a rejected promise or a thrown exception). */
  datatype Outcome<+T> = Success(value: T) | Failure
}
