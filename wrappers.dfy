/** Option and Result, used for the engine's lazy caches, its
    "not found" lookups and the logarithm's domain error. */
module Wrappers {

  datatype Option<+T> = None | Some(value: T)

  datatype Result<+R, +E> = Success(value: R) | Failure(error: E)
}
