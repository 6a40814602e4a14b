/** Optional values and Java's thrown exceptions, as plain datatypes. */
module Wrappers {

  /** A value that may be absent; also stands for a Java reference that may be null. */
  datatype Option<+T> = None | Some(value: T)

  /** The unchecked exceptions that the modelled code can let escape. */
  datatype JavaException = NumberFormatException

  /** The outcome of a Java call that either returns a value or throws. */
  datatype Result<+T> = Ok(value: T) | Thrown(exception: JavaException)
}
