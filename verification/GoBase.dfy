/** Go's value types as this model uses them: byte strings, 64-bit signed integers and results. */
module GoBase {

  datatype Option<+T> = None | Some(value: T)

  datatype Result<+T, +E> = Ok(value: T) | Err(error: E)

  /** One byte of a Go string. A Go string is any sequence of bytes, not necessarily UTF-8. */
  type byte = c: char | c as int < 256 witness 'a'

  type bytes = seq<byte>

  const MAX_INT64: int := 0x7FFF_FFFF_FFFF_FFFF
  const MIN_INT64: int := -0x8000_0000_0000_0000

  /** Go's int, int64 and time.Duration. Storing a result here is a proof that it did not overflow. */
  type int64 = x: int | MIN_INT64 <= x <= MAX_INT64

  /** Two's complement wrap-around, for the Go operations that may overflow. */
  function Wrap64(x: int): (r: int64)
    ensures MIN_INT64 <= x <= MAX_INT64 ==> r == x
  {
    var m := x % 0x1_0000_0000_0000_0000;
    if m > MAX_INT64 then m - 0x1_0000_0000_0000_0000 else m
  }

  /** Go's integer division, which truncates toward zero. */
  function TruncDiv(a: int, b: int): int
    requires b > 0
  {
    if a >= 0 then a / b else -(-a / b)
  }

  function Min(a: int, b: int): int { if a <= b then a else b }

  function Max(a: int, b: int): int { if a >= b then a else b }
}
