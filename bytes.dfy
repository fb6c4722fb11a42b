/** Bytes of the in-memory archive buffer. */
module Bytes {
  /** An unsigned 8-bit value (Rust's `u8`). */
  newtype byte = b: int | 0 <= b < 256

  /** `n` zero bytes, as written by `[0u8; n]`. */
  function Zeros(n: nat): (z: seq<byte>)
    ensures |z| == n
    ensures forall i :: 0 <= i < n ==> z[i] == 0
  {
    seq(n, _ => 0)
  }

  /** The bytes of a string literal whose characters are all single bytes. */
  function Ascii(s: string): (b: seq<byte>)
    requires forall i :: 0 <= i < |s| ==> s[i] as int < 256
    ensures |b| == |s|
    ensures forall i :: 0 <= i < |s| ==> b[i] as int == s[i] as int
  {
    seq(|s|, i requires 0 <= i < |s| => s[i] as int as byte)
  }
}
