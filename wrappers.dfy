/** Option and Result: a value that may be absent, and the outcome of an operation that
    raises an exception in the modelled program. */
module Wrappers {

  datatype Option<+T> = None | Some(value: T)

  datatype Result<+T, +E> = Ok(value: T) | Err(error: E)
}
