/** The optional values and results the model uses for Java's `null`
    returns and for the exceptions the source lets escape. */
module Wrappers {

  datatype Option<+T> = None | Some(value: T)

  datatype Result<+T, +E> = Ok(value: T) | Err(error: E)

  /** The Java exceptions a modelled operation can end with. */
  datatype JavaException =
    | ArrayIndexOutOfBounds
    | NegativeArraySize
    | NullPointer
    | UnsupportedOperation
    | StringIndexOutOfBounds
    | ArithmeticException
    | ClassCast
    | DataFormat
    | NumberFormat(message: string)
}
