/** Option and error-carrying results shared by the modules of this model. */
module Wrappers {

  /** A value that may be absent; stands for a Java reference that may be null. */
  datatype Option<+T> = None | Some(value: T)

  /** The exceptions the modelled Java code throws, as data. */
  datatype Error =
    | IllegalArgument
    | IndexOutOfBounds
    | NoSuchElement
    | NullPointer
    | AssertionFailed

  /** Either a value or the exception that the Java code would have thrown. */
  datatype Result<+T> = Ok(value: T) | Err(error: Error)
}
