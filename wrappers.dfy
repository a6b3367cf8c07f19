/** Option and Result values for the absent fields and raised exceptions of the pipeline. */
module Wrappers {

  datatype Option<T> = None | Some(value: T)

  datatype Result<T, E> = Ok(value: T) | Err(error: E)
}
