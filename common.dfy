/** Values shared by every module: the nullable wrapper, the exceptions the
    modelled code can raise, and the 32-bit integer type of C#. */
module Common {

  /** A C# reference that may be null, or a value that may be absent. */
  datatype Option<+T> = None | Some(value: T)

  /** The exceptions the modelled code raises or lets through.  A transport
      exception is opaque: the engine never inspects it. */
  datatype Exception =
    | ArgumentException(message: string)
    | ArgumentNullException(paramName: string)
    | ArgumentOutOfRangeException(paramName: string)
    | NullReferenceException
    | FormatException(message: string)
    | UriFormatException
    | OverflowException
    | TargetInvocationException(inner: Exception)
    | TransportException(detail: string)

  /** The result of an operation that may throw. */
  datatype Result<+T> = Ok(value: T) | Threw(error: Exception)

  /** How a `void` operation ended: normally, or by an exception. */
  datatype Outcome = Completed | Failed(error: Exception)

  const INT32_MIN: int := -0x8000_0000
  const INT32_MAX: int := 0x7FFF_FFFF

  /** C#'s `byte`. */
  type byte = x: int | 0 <= x < 0x100

  /** C#'s `int`. */
  newtype int32 = x: int | -0x8000_0000 <= x < 0x8000_0000

  /** Unchecked 32-bit arithmetic: the two's-complement value of `x`. */
  function Wrap32(x: int): (r: int32)
    ensures (r as int - x) % 0x1_0000_0000 == 0
    ensures INT32_MIN <= x <= INT32_MAX ==> r as int == x
  {
    var m := x % 0x1_0000_0000;
    if m < 0x8000_0000 then m as int32 else (m - 0x1_0000_0000) as int32
  }

  function Abs(x: int): nat { if x < 0 then -x else x }

  /** C#'s `/` on integers: the quotient truncated toward zero. */
  function TruncDiv(a: int, b: int): int
    requires b != 0
  {
    var q := Abs(a) / Abs(b);
    if (a < 0) == (b < 0) then q else -q
  }

  /** C#'s `%` on integers: the remainder takes the sign of the dividend. */
  function TruncRem(a: int, b: int): int
    requires b != 0
  {
    a - b * TruncDiv(a, b)
  }
}
