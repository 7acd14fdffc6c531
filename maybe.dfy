/** Optional values, Python exceptions as values, and the Result of an
    operation that may raise. */
module Maybe {

  datatype Option<+T> = None | Some(value: T)

  /** The exceptions the modelled code can raise. */
  datatype Error =
    | ZeroDivisionError
    | ValueError(message: string)
    | ColumnNotFoundError(column: string)
    | IndexError
    | AttributeError

  datatype Result<+T> = Ok(value: T) | Err(error: Error)
}
