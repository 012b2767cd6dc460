/** Optional values and results, shared by every other module. */
module Wrappers {

  datatype Option<+T> = None | Some(value: T)

  /** What an operation that can fail returns. The source's error texts carry no
      data that any caller branches on, so an error is one of a few kinds. */
  datatype Result<+T, +E> = Ok(value: T) | Err(error: E)
}
