/** The two exceptions the modelled code raises, as values. A call that
    raises in the source returns `Err(...)` here and changes nothing. */
module Outcomes {

  datatype Error =
    | IndexError  // an index outside the operation's valid range
    | ValueError  // an argument outside the function's domain

  datatype Result<+T> = Ok(value: T) | Err(error: Error)
}
