/** Octets, 16-bit values and the small list helpers shared by all modules. */
module Bytes {

  type byte = x: int | 0 <= x < 256

  const U16_MAX := 65535

  datatype Option<+T> = None | Some(value: T)

  /** A 16-bit value as it lies in memory on the little-endian targets. */
  function LE16(n: nat): (r: seq<byte>)
    requires n <= U16_MAX
    ensures |r| == 2 && r[0] as int + 256 * r[1] as int == n
  {
    [n % 256, n / 256]
  }

  function Min(a: int, b: int): int {
    if a <= b then a else b
  }

  function Max(a: int, b: int): int {
    if a >= b then a else b
  }

  /** n copies of one octet. */
  function Fill(n: nat, b: byte): (r: seq<byte>)
    ensures |r| == n && forall i :: 0 <= i < n ==> r[i] == b
  {
    seq(n, i => b)
  }
}
