/** Failure-carrying results, standing in for the exceptions the Python code raises. */
module Wrappers {

  datatype Option<+T> = None | Some(value: T)

  /** The one exception the modelled code can raise: `max()` of an empty sequence (a ValueError). */
  datatype Error = EmptyMax

  datatype Result<+T> = Ok(value: T) | Err(error: Error)
}
