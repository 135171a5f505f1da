/** Values that Java represents with `null` or with a thrown exception. */
module Wrappers {

  /** A Java reference that may be `null`. */
  datatype Option<+T> = None | Some(value: T) {
    function GetOr(default: T): T {
      match this
      case Some(v) => v
      case None => default
    }
  }

  /** The result of a Java call that either returns a value or throws. */
  datatype Outcome<+T> = Returned(value: T) | Thrown(exception: string)

  const IndexOutOfBounds := "ArrayIndexOutOfBoundsException"
}
