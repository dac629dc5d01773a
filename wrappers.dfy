/** Values for Java's nullable references and thrown exceptions. */
module Wrappers {

  /** A Java reference that may be null. */
  datatype Option<+T> = None | Some(value: T)

  /** Either the value a Java call returns or the exception it throws. */
  datatype Result<+R, +E> = Success(value: R) | Failure(error: E)

  /** The unchecked runtime exceptions the modelled code can raise. */
  datatype Fault =
    | NullPointer            // a method called on a null reference
    | IndexOutOfBounds       // an array read past its end
}
