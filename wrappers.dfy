/** Option and Result, the failure-carrying values the detector's Go
    `(value, error)` pairs are modelled with where the pair shape itself
    carries no property worth stating. */
module Wrappers {

  datatype Option<+T> = None | Some(value: T)

  datatype Result<+T, +E> = Success(value: T) | Failure(error: E)
}
