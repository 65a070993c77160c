/** Option, Result and Outcome wrappers: the Java code's `Optional`, value-or-exception
    and void-or-exception results. */
module Wrappers {

  /** `Optional<T>`: empty, or a value. */
  datatype Option<+T> = None | Some(value: T)

  /** A value, or the exception that a Java method would have thrown instead. */
  datatype Result<+T, +E> = Ok(value: T) | Err(error: E)

  /** A `void` Java method: it returns normally, or throws `error`. */
  datatype Outcome<+E> = Pass | Fail(error: E)
}
