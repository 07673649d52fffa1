/** Option and Result values standing for Java's nullable references,
    `Optional` and thrown exceptions. */
module Wrappers {

  datatype Option<+T> = None | Some(value: T) {
    function GetOr(default: T): T {
      match this
      case Some(v) => v
      case None => default
    }
  }

  /** `Err` stands for an exception that the Java code lets propagate. */
  datatype Result<+T> = Ok(value: T) | Err
}
