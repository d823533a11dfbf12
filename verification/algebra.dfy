/** The external algebra library, seen only through its byte conversions.
    `Scalar` and `G1Affine` are type parameters: nothing about field or curve
    arithmetic is modelled. The library's promises that the codecs rely on are
    stated as predicates and appear as explicit hypotheses of the lemmas that
    need them; they are assumptions about code that is not part of this
    model. */
module Algebra {
  import opened Bytes

  /** `Option` stands for the library's validity-flagged results: `is_some`
      is `Some?` and `unwrap` is `.value`. */
  datatype Option<T> = None | Some(value: T)

  /** A byte array of the scalar size (`[u8; 32]`). */
  type ScalarBytes = b: seq<byte> | |b| == ScalarSize witness seq(32, _ => 0)

  /** A byte array of the compressed point size (`[u8; 48]`). */
  type G1Bytes = b: seq<byte> | |b| == G1Size witness seq(48, _ => 0)

  /** `Scalar::from_bytes` and `Scalar::to_bytes`. */
  datatype ScalarLib<!Scalar(!new)> = ScalarLib(fromBytes: ScalarBytes -> Option<Scalar>, toBytes: Scalar -> ScalarBytes)
  {
    /** Assumed of the library: a scalar's canonical bytes parse back to it. */
    ghost predicate RoundTrips()
    {
      forall s :: fromBytes(toBytes(s)) == Some(s)
    }

    /** Assumed of the library: only canonical encodings parse, so a parsed
        scalar re-encodes to the very bytes it came from. */
    ghost predicate Canonical()
    {
      forall b :: fromBytes(b).Some? ==> toBytes(fromBytes(b).value) == b
    }
  }

  /** `G1Affine::from_compressed` and `G1Affine::to_compressed`. */
  datatype G1Lib<!G1Affine(!new)> = G1Lib(fromCompressed: G1Bytes -> Option<G1Affine>, toCompressed: G1Affine -> G1Bytes)
  {
    /** Assumed of the library: decompressing a point's compressed form gives the point. */
    ghost predicate RoundTrips()
    {
      forall p :: fromCompressed(toCompressed(p)) == Some(p)
    }

    /** Assumed of the library: only canonical compressed forms decompress. */
    ghost predicate Canonical()
    {
      forall b :: fromCompressed(b).Some? ==> toCompressed(fromCompressed(b).value) == b
    }
  }
}
