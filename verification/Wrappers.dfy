/** The two small result types every other module shares. */
module Wrappers {

  /** A value that may be null or missing in a stored document. */
  datatype Option<+T> = None | Some(value: T) {
    function GetOr(default: T): (r: T)
    {
      if Some? then value else default
    }
  }

  /** What an operation returns, or the error it throws. */
  datatype Result<+T, +E> = Ok(value: T) | Err(error: E)
}
