/** Outcomes of operations that can fail. */
module Wrappers {

  datatype Option<+T> = None | Some(value: T)

  /** The source's `Result<T, ()>`. */
  datatype Result<+T> = Err | Ok(value: T)
}
