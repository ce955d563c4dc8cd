/** Option and Result, the two failure-carrying shapes the collector uses
    (`Option<T>` and `anyhow::Result<T>` with a message). */
module Wrappers {

  datatype Option<+T> = None | Some(value: T)

  /** An `anyhow::Result`: either a value or the error message the source builds. */
  datatype Result<+T> = Ok(value: T) | Err(message: string)
}
