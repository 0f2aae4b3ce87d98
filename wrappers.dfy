/** Option and Result, used for the absent options of a bare rule name and for
    the evaluation errors that the source raises as exceptions. */
module Wrappers {

  datatype Option<+T> = None | Some(value: T)

  datatype Result<+T, +E> = Ok(value: T) | Err(error: E)
}
