/** Optional values and error-carrying results shared by the whole model. */
module Wrappers {

  /** Python's `None` or a present value. */
  datatype Option<+T> = None | Some(value: T)

  /** A value or the exception the Python code would raise. */
  datatype Result<+T, +E> = Ok(value: T) | Err(error: E)

  /** The Python exceptions that the modelled code can raise. */
  datatype PyError =
    | KeyError          // a dictionary lookup of an absent key
    | TypeError         // `os.path.join` called with `None`
    | AttributeError    // a method called on `None`
    | IndexError        // indexing an empty string
    | FlopyException    // the library's own configuration error
}
