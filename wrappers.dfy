/** Optional values and failures shared by the modules of the model. */
module Wrappers {
  datatype Option<+T> = None | Some(value: T)

  /** The outcome of a step that the scripts can abort with an exception. */
  datatype Result<+T, +E> = Ok(value: T) | Err(error: E)
}
