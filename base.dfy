/** Shared vocabulary: the byte type and the exceptions the encoder can raise. */
module Base {

  /** An 8-bit unsigned value; `bv8` arithmetic truncates exactly like a C# `(byte)` cast. */
  type byte = bv8

  /** The .NET exceptions thrown by the core, and the admission rejections shown to the user. */
  datatype Exception =
    | NotSupported          // operation not allowed in the stream's mode
    | ArgumentOutOfRange    // bad offset/count, or a pixel outside the bitmap
    | InvalidOperation      // outer stream lacks the capability, or truncated input
    | IndexOutOfRange       // an array index past the end of the caller's buffer
    | FileTooLarge
    | FileTooSmall
    | NameTooLong

  /** Outcome of a call that returns nothing: it completes or it throws. */
  datatype Outcome = Done | Thrown(error: Exception)

  datatype Option<T> = None | Some(value: T)

  /** Outcome of a call that returns a value. */
  datatype Result<T> = Success(value: T) | Failure(error: Exception)

  /**
   * `x` as a C# `int` after unchecked 32-bit arithmetic: the value in
   * [-2^31, 2^31) that agrees with `x` modulo 2^32.
   */
  function Wrap32(x: int): (r: int)
    ensures -0x8000_0000 <= r <= 0x7FFF_FFFF
    ensures 0 <= x <= 0x7FFF_FFFF ==> r == x
    ensures 0x8000_0000 <= x < 0x1_0000_0000 ==> r == x - 0x1_0000_0000
    ensures -0x8000_0000 <= x ==> r <= x
  {
    (x + 0x8000_0000) % 0x1_0000_0000 - 0x8000_0000
  }

  /** `n` zero bytes. */
  function Zeros(n: nat): (z: seq<byte>)
    ensures |z| == n && forall i :: 0 <= i < n ==> z[i] == 0
  {
    if n == 0 then [] else Zeros(n - 1) + [0]
  }
}
