/** The few Python value shapes the sync script relies on: `None`-or-value
    results and raised exceptions, made explicit. */
module PyTypes {

  /** A Python value that may be `None`. */
  datatype Option<+T> = None | Some(value: T)

  /** The exceptions the modelled code can raise. */
  datatype Exception =
    | RuntimeError(message: string)
    | IndexError

  /** Either a returned value or a raised exception. */
  datatype Result<+T> = Ok(value: T) | Raise(error: Exception)
}
