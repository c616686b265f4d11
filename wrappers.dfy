/** Option and Result, used for Java's null and for thrown exceptions. */
module Wrappers {

  /** `None` stands for a Java `null` reference. */
  datatype Option<+T> = None | Some(value: T)

  /** `Err` stands for an exception thrown instead of returning a value. */
  datatype Result<+R, +E> = Ok(value: R) | Err(error: E)
}
