/** Failure-carrying results, standing in for Go's `(value, error)` return pairs. */
module Wrappers {

  datatype Result<+T, +E> = Ok(value: T) | Err(error: E)

}
