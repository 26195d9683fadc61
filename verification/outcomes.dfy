/** Optional values and the failures of the modelled Python code.
    A Python exception that aborts an operation is modelled as an `Err`
    carrying the exception's kind; nothing is caught anywhere in the core. */
module Outcomes {

  datatype Option<+T> = None | Some(value: T)

  /** The exceptions the core can raise. */
  datatype Error =
    | IndexError(what: string)      // indexing past the end of a list or array
    | KeyError(key: string)         // a failed dictionary or column lookup
    | AssertionError(what: string)  // a failed `assert` statement
    | ValueError(what: string)      // an argument of the right type but a wrong value

  datatype Result<+T> = Ok(value: T) | Err(error: Error)
}
