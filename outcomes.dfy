/** Optional values, the Python exceptions the modelled code can raise, and
    a result type that carries either a value or the exception raised
    instead. */
module Outcomes {

  datatype Option<T> = None | Some(value: T)

  datatype Error =
    | KeyError(key: string)   // a dictionary key or a column name that is not there
    | IndexError              // indexing past the end of a list
    | AttributeError(name: string)  // an attribute the object does not have
    | ValueError              // an argument of the right type but a wrong value

  datatype Result<T> = Ok(value: T) | Raised(error: Error)
}
