/** Option and Result, the two wrappers the rest of the model uses for
    Python's `None` and for an operation that may raise. */
module Wrappers {

  datatype Option<+T> = None | Some(value: T)

  datatype Result<+T, +E> = Ok(value: T) | Err(error: E)
}
