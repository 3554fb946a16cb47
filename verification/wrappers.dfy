/** Failure-carrying result types used by the label parser and the command pipeline. */
module Wrappers {

  /** A value that may be absent (a regex that did not match, a missing tab field). */
  datatype Option<+T> = None | Some(value: T)

  /** Either the computed value or the reason the computation stopped early. */
  datatype Result<+R, +E> = Success(value: R) | Failure(error: E)
}
