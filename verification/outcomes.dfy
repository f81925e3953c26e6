/** Failure-carrying result types shared by the views of the dashboard. */
module Outcomes {

  /** An optional value: a lookup that may find nothing. */
  datatype Option<+T> = None | Some(value: T)

  /** A computation that either produces a value or fails with an error. */
  datatype Result<+T, +E> = Ok(value: T) | Err(error: E)
}
