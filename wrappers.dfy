/** Option and Result values standing in for Java's null returns and thrown exceptions. */
module Wrappers {

  /** A reference that may be null. */
  datatype Option<+T> = None | Some(value: T)

  /** The runtime exceptions the modelled Java code can raise. */
  datatype Fault =
    | NullPointer        // a method called on null
    | IndexOutOfBounds   // charAt or substring outside the string
    | NumberFormat       // Integer.parseInt on a non-digit

  /** Either a value or the exception that ended the computation. */
  datatype Result<+T> = Ok(value: T) | Err(fault: Fault)

  /** The value a loop ends with, or the report that it never ends. */
  datatype Run<+T> = Halts(value: T) | Diverges
}
