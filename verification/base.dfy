/** Small value wrappers shared by the rest of the model. */
module Base {

  /** An optional value: a JSON key that may be absent, or Python's `None`. */
  datatype Option<+T> = None | Some(value: T) {

    /** The carried value, or `default` when absent (Python's `d.get(key, default)`). */
    function GetOr(default: T): T {
      match this
      case Some(v) => v
      case None => default
    }
  }

  /** Either a value or the error that aborted the computation. */
  datatype Result<+T, +E> = Ok(value: T) | Err(error: E)

  /** One octet of a file's contents. */
  newtype byte = x: int | 0 <= x < 256
}
