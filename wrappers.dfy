/** Option and Result, the shapes the source's `Option<T>` and `syn::Result<T>` take here. */
module Wrappers {

  datatype Option<+T> = None | Some(value: T)

  datatype Result<+R, +E> = Ok(value: R) | Err(error: E)
}
