/** Optional values and error-or-value results, standing in for Python's
    `None` and for the `ValueError`s the genome operations raise. */
module Wrappers {

  datatype Option<+T> = None | Some(value: T)

  datatype Result<+T, +E> = Ok(value: T) | Err(error: E)
}
