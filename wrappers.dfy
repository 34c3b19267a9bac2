/** Small value types shared by the route-planning modules. */
module Wrappers {

  /** Python's `None` or a present value. */
  datatype Option<+T> = None | Some(value: T)

  /** The outcome of an operation that may raise: its value, or the exception it raises. */
  datatype Result<+T> = Ok(value: T) | Err(error: Exception)

  /** The Python exceptions the route-planning layer raises. */
  datatype Exception =
    | KeyError(key: string)
    | ValueError(message: string)
}
