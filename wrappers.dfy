/** Option and Result values used for the error returns of the modelled Go functions
    (a Go `(T, error)` pair becomes a `Result<T, E>`, a bare `error` an `Outcome<E>`). */
module Wrappers {

  datatype Option<+T> = None | Some(value: T)

  datatype Result<+T, +E> = Ok(value: T) | Err(error: E)

  datatype Outcome<+E> = Pass | Fail(error: E)
}
