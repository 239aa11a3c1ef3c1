/** Small shared datatypes used by every component of the model. */
module Common {

  /** The conventional optional value: `None` stands for Python's `None`,
      a missing key, or an operation that raised. */
  datatype Option<+T> = None | Some(value: T) {
    function GetOr(default: T): T {
      match this
      case Some(v) => v
      case None => default
    }
  }

  /** One octet, as found in a `bytes` object. */
  type Byte = b: int | 0 <= b < 256
}
