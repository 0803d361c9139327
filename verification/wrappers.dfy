/** Failure-carrying result types used where the modelled code either has no
    value (a missing map key) or throws. */
module Wrappers {

  datatype Option<+T> = None | Some(value: T)

  datatype Result<+R, +E> = Success(value: R) | Failure(error: E)
}
