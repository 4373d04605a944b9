/** Outcome of a codec call: a value, or the exception the implementation raises. */
module Results {

  /** The exceptions raised on the paths the model covers, named as each runtime names them. */
  datatype Failure =
    // Python
    | ValueError
    | UnicodeEncodeError
    | UnicodeDecodeError
    | IndexError
    // C#
    | ArgumentException
    | IndexOutOfRangeException
    | OverflowException
    | ArgumentOutOfRangeException

  datatype Result<+T> = Ok(value: T) | Err(failure: Failure)
}
