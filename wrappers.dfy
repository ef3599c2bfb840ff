/** Failure-carrying results shared by the containers. */
module Wrappers {

  datatype Option<T> = None | Some(value: T)

  /** The only exception the containers raise is std::out_of_range. */
  datatype Error = OutOfRange

  datatype Result<T> = Ok(value: T) | Err(error: Error)

  datatype Outcome = Pass | Fail(error: Error)
}
