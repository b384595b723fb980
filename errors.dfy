/** Values shared by every module: bytes, the Python exceptions the core can
    raise, and the Option/Result wrappers that stand for them. */
module Errors {

  /** One byte of a Python `bytes` object. */
  type Byte = x: int | 0 <= x < 256

  /** A Python `bytes` object. */
  type Bytes = seq<Byte>

  /** The exceptions the modelled code raises, named after their Python classes. */
  datatype Error =
    | IndexError                       // `list index out of range` and numpy bounds errors
    | KeyError(key: string)            // a `dict` lookup of a missing key
    | AttributeError(attribute: string)
    | TypeError
    | ValueError(message: string)
    | UnicodeDecodeError               // `bytes.decode("utf-8")` of malformed input
    | InvalidArgumentError             // a TensorFlow op refused its input
    | ImageDecodeError                 // PIL could not identify the image bytes
    | OSError(message: string)

  datatype Option<+T> = None | Some(value: T)

  /** A value, or the exception raised while computing it. */
  datatype Result<+T> = Ok(value: T) | Err(error: Error) {
    predicate IsFailure() { Err? }

    function PropagateFailure<U>(): Result<U>
      requires Err?
    {
      Err(error)
    }

    function Extract(): T
      requires Ok?
    {
      value
    }
  }
}
