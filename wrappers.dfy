/** Optional values and results that may carry an error, used where the dashboard's code
    yields NaN, a sentinel, or raises. */
module Wrappers {

  datatype Option<+T> = None | Some(value: T)

  /** `Err` carries the message of the exception the original code raises. */
  datatype Result<+T> = Ok(value: T) | Err(message: string)
}
