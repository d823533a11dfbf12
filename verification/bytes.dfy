/** Byte strings and the fixed buffer sizes of the two codecs. */
module Bytes {

  /** An unsigned 8-bit value (Rust's `u8`). */
  newtype byte = b: int | 0 <= b < 0x100

  /** Length of a scalar's canonical encoding (`SCALAR_SIZE`). */
  const ScalarSize: nat := 32

  /** Length of a compressed G1 point (`G1_SIZE`). */
  const G1Size: nat := 48

  /** A zero-initialised fixed-size buffer (`[0u8; N]`). */
  function Zeros(n: nat): (z: seq<byte>)
    ensures |z| == n
    ensures forall i :: 0 <= i < n ==> z[i] == 0
  {
    seq(n, _ => 0)
  }

  /** The copy loop of both `visit_bytes` implementations: a zeroed buffer of
      `n` bytes is filled element by element from `value`. The buffer ends up
      holding exactly the first `n` input bytes. */
  method CopyIn(value: seq<byte>, n: nat) returns (buf: seq<byte>)
    requires n <= |value|
    ensures buf == value[..n]
  {
    buf := Zeros(n);
    var i := 0;
    while i < n
      invariant 0 <= i <= n
      invariant |buf| == n
      invariant buf[..i] == value[..i]
    {
      buf := buf[i := value[i]];
      i := i + 1;
    }
  }
}
