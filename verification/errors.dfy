/** The outcomes shared by the whole model: an optional value, and a result that
    either carries a value or names the Python exception the code would raise.
    Only the three exception kinds the core can raise are distinguished. */
module Errors {

  /** The Python exceptions raised by the modelled code. */
  datatype Error =
    | IndexError   // `[1]` or `[0]` on a list that is too short
    | KeyError     // a DataFrame column that does not exist
    | ValueError   // an empty separator, a table asked for before loading, a cell that is not a float

  datatype Option<T> = None | Some(value: T)

  datatype Result<T> = Ok(value: T) | Err(error: Error)
}
