/** Failure-compatible result types used by the hash table model. */
module Wrappers {

  /** An optional value: the model of `std::optional`. */
  datatype Option<+T> = None | Some(value: T)

  /** Either a value or an error: the model of a constructor that may throw. */
  datatype Result<+T, +E> = Success(value: T) | Failure(error: E)
}
