/** Option and Result, the return shapes of the source's "value or None" and
    "value or raised exception" paths. */
module Wrappers {

  datatype Option<+T> = None | Some(value: T)

  datatype Result<+T, +E> = Success(value: T) | Failure(error: E)
}
