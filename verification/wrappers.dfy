/** Failure-carrying datatypes shared by the model.
    `Option` stands in for JavaScript's `null` (and `NaN` from `parseInt`),
    `Result` for a call that throws instead of returning. */
module Wrappers {

  datatype Option<+T> = None | Some(value: T)

  datatype Result<+R, +E> = Success(value: R) | Failure(error: E)
}
