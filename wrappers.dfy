/** Option and Result: absence of a value, and the Python exceptions of the sampler as values. */
module Wrappers {

  datatype Option<+T> = None | Some(value: T)

  datatype Result<+R, +E> = Success(value: R) | Failure(error: E)
}
