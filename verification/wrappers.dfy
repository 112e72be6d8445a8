/** The optional value used wherever the Java code allows `null`. */
module Wrappers {

  /** `None` stands for a Java `null`, `Some(v)` for a present value. */
  datatype Option<+T> = None | Some(value: T) {

    /** The present value, or `default` when the value is null. */
    function GetOr(default: T): T {
      match this
      case Some(v) => v
      case None => default
    }
  }
}
