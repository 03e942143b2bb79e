/** Shared result types: Python's `None`, return-or-raise, and the exception kinds the modelled code raises. */
module Wrappers {

  datatype Option<T> = None | Some(value: T)

  /** The exception classes raised by the modelled code, with their message where the code gives one. */
  datatype Error =
    | ValueError(message: string)
    | TypeError(message: string)
    | KeyError
    | IndexError(message: string)
    | OverflowError(message: string)
    | AttributeError
    | ZeroDivisionError

  /** A call that either returns a value or raises. */
  datatype Result<T> = Ok(value: T) | Err(error: Error)
}
