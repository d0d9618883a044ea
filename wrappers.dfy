/** Option and Result values, standing in for JavaScript's `undefined`-or-value
    fields and for the early `return` of a rejected request. */
module Wrappers {

  datatype Option<+T> = None | Some(value: T)

  datatype Result<+T, +E> = Ok(value: T) | Err(error: E)
}
