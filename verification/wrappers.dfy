/** Optional values and error-carrying results, standing in for
    `std::optional` and for the exceptions and crashes of the C++ code. */
module Wrappers {

  /** `std::optional<T>`: a node's value slot, a missing child, a missing marker. */
  datatype Option<+T> = None | Some(value: T)

  /** The outcome of an operation that can fail instead of returning. */
  datatype Result<+T, +E> = Success(value: T) | Failure(error: E)
}
