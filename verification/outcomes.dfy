/** Failure-carrying datatypes shared by the rest of the model. */
module Outcomes {

  /** Python's `None` versus a present value. */
  datatype Option<+T> = None | Some(value: T)

  /** The two Python exceptions the modelled handlers can raise. */
  datatype PyError =
    | IndexError  // a list subscript outside the list
    | TypeError   // subscripting `None`

  /** The outcome of a handler: the new state, or the exception it raised. */
  datatype Result<+T> = Ok(value: T) | Err(error: PyError)
}
