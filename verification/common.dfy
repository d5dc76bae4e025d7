/**
 Shared vocabulary of the model: the .NET integer types the code relies on,
 option and result wrappers for null returns and exceptions, and colours.
 */
module Common {

  /** A .NET `byte`. */
  newtype byte = x: int | 0 <= x < 0x100

  /** A .NET `int` (System.Int32). */
  type int32 = x: int | -0x8000_0000 <= x < 0x8000_0000

  /** A .NET `uint` (System.UInt32). */
  type uint32 = x: int | 0 <= x < 0x1_0000_0000

  /** A reference that may be null. */
  datatype Option<+T> = None | Some(value: T)

  /** A call that either returns a value or throws. */
  datatype Result<+T, +E> = Success(value: T) | Failure(error: E)

  function Min(a: int, b: int): (m: int)
    ensures m <= a && m <= b
    ensures m == a || m == b
  {
    if a < b then a else b
  }

  /** Two's-complement wrap-around of an unchecked 32-bit `int` expression. */
  function Wrap32(x: int): (r: int32)
    ensures (r - x) % 0x1_0000_0000 == 0
    ensures -0x8000_0000 <= x < 0x8000_0000 ==> r == x
  {
    var m := x % 0x1_0000_0000;
    if m < 0x8000_0000 then m else m - 0x1_0000_0000
  }

  /** `n` zero bytes, the content of a freshly allocated `byte[n]`. */
  function Zeros(n: nat): (z: seq<byte>)
    ensures |z| == n
    ensures forall i :: 0 <= i < n ==> z[i] == 0
  {
    seq(n, _ => 0)
  }

  /**
   A System.Windows.Media.Color, reduced to its sRGB channels with alpha.
   Only equality of colours matters to the model.
   */
  datatype Color = Color(a: byte, r: byte, g: byte, b: byte)

  /** Colors.Black, #FF000000. */
  const Black: Color := Color(0xFF, 0x00, 0x00, 0x00)

  /** Colors.DarkOrchid, #FF9932CC. */
  const DarkOrchid: Color := Color(0xFF, 0x99, 0x32, 0xCC)
}
