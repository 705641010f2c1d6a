/** Option and Result, the two failure-aware shapes the model needs: `std::optional`
    for queue family indices, and success-or-thrown-error for each initialisation step. */
module Wrappers {

  /** A value that may be absent, as `std::optional` is. */
  datatype Option<+T> = None | Some(value: T)

  /** Either a value or the error the C++ code would have thrown instead. */
  datatype Result<+R, +E> = Success(value: R) | Failure(error: E)
}
