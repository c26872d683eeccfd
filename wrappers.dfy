/** Option and Result, the two ways the modelled functions report a missing value
    (pandas NA / NaN) or a raised exception. */
module Wrappers {

  datatype Option<+T> = None | Some(value: T)

  datatype Result<+T> = Ok(value: T) | Err(message: string)
}
