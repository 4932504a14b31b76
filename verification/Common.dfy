/** Option and Result values, and the saturating 64-bit arithmetic that every timestamp goes through. */
module Common {
  datatype Option<+T> = None | Some(value: T)

  datatype Result<+T, +E> = Ok(value: T) | Err(error: E)

  const MIN_I64: int := -0x8000_0000_0000_0000
  const MAX_I64: int := 0x7FFF_FFFF_FFFF_FFFF

  type I64 = x: int | MIN_I64 <= x <= MAX_I64

  function Clamp(x: int): (r: I64)
    ensures MIN_I64 <= x <= MAX_I64 ==> r == x
    ensures x < MIN_I64 ==> r == MIN_I64
    ensures x > MAX_I64 ==> r == MAX_I64
  {
    if x < MIN_I64 then MIN_I64 else if x > MAX_I64 then MAX_I64 else x
  }

  function SaturatingAdd(a: I64, b: I64): I64 { Clamp(a + b) }

  function SaturatingSub(a: I64, b: I64): I64 { Clamp(a - b) }

  function Max(a: I64, b: I64): I64 { if a < b then b else a }

  function Reverse<T>(s: seq<T>): seq<T> {
    if s == [] then [] else Reverse(s[1..]) + [s[0]]
  }
}
