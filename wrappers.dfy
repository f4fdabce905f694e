/** Option and Result values standing in for Java's nullable references,
    java.util.Optional and thrown exceptions. */
module Wrappers {

  /** An absent (null / empty Optional) or present value. */
  datatype Option<+T> = None | Some(value: T)

  /** A normal return (Ok) or an exception thrown to the caller (Err). */
  datatype Result<+R, +E> = Ok(value: R) | Err(error: E)
}
