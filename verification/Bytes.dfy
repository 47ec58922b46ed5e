/** Bytes, fixed-size buffers and optional values shared by every component. */
module Bytes {

  type byte = bv8

  type bytes = seq<byte>

  datatype Option<+T> = None | Some(value: T)

  /** A zeroed buffer, as memset or tesla_secure_zero leave it. */
  function Zeros(n: nat): (z: bytes)
    ensures |z| == n
    ensures forall i :: 0 <= i < n ==> z[i] == 0
  {
    seq(n, _ => 0)
  }
}
