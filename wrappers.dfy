/** Optional values and results with an error, as fp-ts's `Option` and `Either`. */
module Wrappers {

  datatype Option<+T> = None | Some(value: T)

  /** `Success` is fp-ts `right`, `Failure` is `left`. */
  datatype Result<+R, +E> = Success(value: R) | Failure(error: E)
}
