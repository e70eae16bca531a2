/** Primitive types shared by the whole model: the fixed-width integers the
    windowing runtime reports, an opaque scale factor and an Option type. */
module Types {

  /** Unsigned 32-bit pixel counts and refresh rates. */
  newtype U32 = x: int | 0 <= x < 0x1_0000_0000

  /** Signed 32-bit screen coordinates. */
  newtype I32 = x: int | -0x8000_0000 <= x < 0x8000_0000

  /** A display scale factor. The model never does arithmetic on it, so it is
      an exact value here rather than a floating-point number. */
  type Scale = real

  /** Some value, or nothing. */
  datatype Option<+T> = None | Some(value: T) {

    /** The wrapped value, or `default` when there is none. */
    function GetOr(default: T): T {
      match this
      case Some(v) => v
      case None => default
    }
  }
}
