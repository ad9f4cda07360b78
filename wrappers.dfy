/** Failure-carrying results shared by every module of the model. */
module Wrappers {

  datatype Option<+T> = None | Some(value: T)

  datatype Result<+R, +E> = Ok(value: R) | Err(error: E)

  /** The exceptions the modelled Python code raises, with their messages where it gives one. */
  datatype Failure =
    | AssertionError(msg: string)
    | KeyError
    | IndexError
    | ValueError(msg: string)
    | RuntimeError(msg: string)
}
