/** Failure-aware result types shared by the validators. */
module Wrappers {

  /** An optional value; stands for a Go pointer field that may be nil. */
  datatype Option<+T> = None | Some(value: T)

  /** What an admission entry point returns: accept (a nil error) or reject with an error. */
  datatype Outcome<+E> = Pass | Fail(error: E)
}
