/** The two ways a Python call in this model can end: a value, or one of the
    built-in exceptions the modelled code raises. */
module PyResults {

  /** The built-in exceptions raised by the modelled code. */
  datatype PyError = ValueError | IndexError

  /** A value that may be absent, as a dictionary lookup returns. */
  datatype Option<+T> = None | Some(value: T)

  /** The outcome of a call that returns a value or raises. */
  datatype Outcome<+T> = Ok(value: T) | Err(error: PyError)
}
