/** Bytes and zero-filled buffers. */
module Bytes {
  type Byte = x: nat | x < 256

  function Zeros(n: nat): (z: seq<Byte>)
    ensures |z| == n
  {
    seq(n, _ => 0)
  }
}
