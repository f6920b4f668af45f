/** Small value types shared by the fan controller model. */
module Common {

  /** Rust's `Option`: a value that may be absent. */
  datatype Option<+T> = None | Some(value: T) {

    /** `unwrap_or`: the carried value, or `default` when absent. */
    function UnwrapOr(default: T): (r: T)
      ensures Some? ==> r == value
      ensures None? ==> r == default
    {
      match this
      case Some(v) => v
      case None => default
    }
  }

  /** Rust's `u8`: one byte of command output, or a pin value. */
  newtype uint8 = b: int | 0 <= b < 0x100
}
