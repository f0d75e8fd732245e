/** Failure-carrying result types shared by the models. */
module Wrappers {

  /** A value that may be absent (Python's None). */
  datatype Option<+T> = None | Some(value: T)

  /** The outcome of an operation that either completes or raises an error. */
  datatype Outcome<+E> = Pass | Fail(error: E)
}
