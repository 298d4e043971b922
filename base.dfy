/** Java primitive types and the error-carrying result used throughout the model. */
module Base {

  /** A Java `byte`: a signed 8-bit value. */
  type JByte = b: int | -128 <= b < 128

  /** A Java `int`: a signed 32-bit value. */
  type Int32 = x: int | -0x8000_0000 <= x < 0x8000_0000

  /** The value of a byte read as unsigned, as `b & 0xFF` gives it in Java. */
  function Unsigned(b: JByte): (u: int)
    ensures 0 <= u < 256
    ensures u % 256 == b % 256
  {
    if b < 0 then b + 256 else b
  }

  /** The Java byte whose unsigned reading is `u`, as the cast `(byte) u` gives it. */
  function ToJByte(u: int): (b: JByte)
    requires 0 <= u < 256
    ensures Unsigned(b) == u
  {
    if u < 128 then u else u - 256
  }

  /** A method or function either returns a value or throws. */
  datatype Result<+R, +E> = Success(value: R) | Failure(error: E)
}
