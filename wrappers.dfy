/** Option and Result types for the source's nulls and exceptions, and the
    integer widths the source works with. */
module Wrappers {

  datatype Option<+T> = None | Some(value: T) {
    /** The source's `x ?? d`. */
    function GetOr(default: T): T {
      match this
      case Some(v) => v
      case None => default
    }
  }

  datatype Result<+T, +E> = Success(value: T) | Failure(error: E)

  /** An unsigned 8-bit value. */
  type byte = x: int | 0 <= x < 0x100

  /** A UTF-16 code unit: one element of a .NET `string`. */
  type CodeUnit = x: int | 0 <= x < 0x1_0000
}
