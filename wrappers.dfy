/** Failure-carrying results for the source's exceptions and assertion errors. */
module Wrappers {

  datatype Option<+T> = None | Some(value: T)

  /** The Python exception a failing operation raises, with its message. */
  datatype Error =
    | AssertionError(message: string)
    | FileNotFoundError(message: string)
    | ValueError(message: string)

  datatype Result<+T> = Ok(value: T) | Err(error: Error)
}
