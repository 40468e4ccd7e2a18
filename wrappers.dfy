/** Value types shared by the model: an optional value (Python's `None` or
    a value) and the success-or-error outcome of an operation that can raise. */
module Wrappers {

  datatype Option<+T> = None | Some(value: T)

  /** `Ok` is a normal return; `Err` stands for the exception the source raises. */
  datatype Result<+T, +E> = Ok(value: T) | Err(error: E)
}
