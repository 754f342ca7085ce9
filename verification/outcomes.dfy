/** Failure-carrying values used by the configuration facade: `Option` stands
    for a reference that may be null, `Result` for a call that either returns
    or raises one of the facade's exceptions. */
module Outcomes {

  /** A possibly-null reference. */
  datatype Option<+T> = None | Some(value: T)

  /** A call that returned `value` or raised `error`. */
  datatype Result<+R, +E> = Success(value: R) | Failure(error: E)
}
