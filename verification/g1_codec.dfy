/** Serialization of `G1Affine` as its 48-byte compressed form, and the
    `G1AffineVisitor` that reads it back. */
module G1Codec {
  import opened Bytes
  import opened Serde
  import opened SerdeErrors
  import opened Algebra

  /** Message passed to `custom` when decompression rejects the bytes. */
  const ParseMessage := "couldn't parse G1Affine bytes"

  /** Prefix `deserialize` puts before the text of any error it wraps. */
  const DeserializePrefix := "couldn't deserialize G1Affine bytes: "

  /** `Serialize for G1Affine`: the serializer is handed exactly the point's
      compressed form, whose length is what `visit_bytes` admits. */
  function Serialize<G1Affine(!new)>(lib: G1Lib<G1Affine>, p: G1Affine): (out: seq<byte>)
    ensures |out| == G1Size
  {
    lib.toCompressed(p)
  }

  /** `G1AffineVisitor::visit_bytes`. Any length but 48 is rejected before
      the library is consulted; a 48-byte input yields a point exactly when
      the library decompresses it to that point; no error carries a value
      and the visitor never panics. */
  function VisitBytes<G1Affine(!new), E>(lib: G1Lib<G1Affine>, api: ErrorApi<E>, value: seq<byte>): (r: Outcome<G1Affine, E>)
    ensures !r.Panic?
    ensures |value| != G1Size ==> r == Err(api.custom(LengthMessage))
    ensures |value| == G1Size ==> (r.Ok? <==> lib.fromCompressed(value).Some?)
    ensures r.Ok? ==> |value| == G1Size && lib.fromCompressed(value) == Some(r.value)
    ensures |value| == G1Size && r.Err? ==> r.error == api.custom(ParseMessage)
  {
    if |value| != G1Size then
      Err(api.custom(LengthMessage))
    else
      match lib.fromCompressed(value)
      case None => Err(api.custom(ParseMessage))
      case Some(p) => Ok(p)
  }

  /** `visit_bytes` as written: the input is copied into a fixed buffer and
      the buffer is decompressed. The copy hands the library exactly the
      input bytes, so the result is the one `VisitBytes` describes. */
  method VisitBytesBuffered<G1Affine(!new), E>(lib: G1Lib<G1Affine>, api: ErrorApi<E>, value: seq<byte>)
    returns (r: Outcome<G1Affine, E>)
    ensures r == VisitBytes(lib, api, value)
  {
    if |value| != G1Size {
      return Err(api.custom(LengthMessage));
    }
    var buf := CopyIn(value, G1Size);
    assert buf == value;
    var g1 := lib.fromCompressed(buf);
    if !g1.Some? {
      return Err(api.custom(ParseMessage));
    }
    return Ok(g1.value);
  }

  /** The visitor for every shape of input. `G1AffineVisitor` defines only
      `visit_bytes`; serde's default `visit_borrowed_bytes` and
      `visit_byte_buf` forward to it, so the shape never matters. */
  function Visit<G1Affine(!new), E>(lib: G1Lib<G1Affine>, api: ErrorApi<E>, shape: Shape, value: seq<byte>): (r: Outcome<G1Affine, E>)
    ensures !r.Panic?
    ensures r == VisitBytes(lib, api, value)
  {
    VisitBytes(lib, api, value)
  }

  /** `Deserialize for G1Affine`: whatever `deserialize_bytes` produces, from
      the visitor or from the deserializer itself, a point is returned as is
      and an error is re-raised with the G1 prefix. */
  function Deserialize<G1Affine(!new), E>(lib: G1Lib<G1Affine>, api: ErrorApi<E>, d: Delivery<E>): (r: Outcome<G1Affine, E>)
    ensures !r.Panic?
    ensures d.Delivered? ==> r == WrapError(api, DeserializePrefix, VisitBytes(lib, api, d.bytes))
    ensures d.Failed? ==> r == Err(api.custom(DeserializePrefix + api.display(d.error)))
  {
    match d
    case Delivered(shape, bytes) => WrapError(api, DeserializePrefix, Visit(lib, api, shape, bytes))
    case Failed(e) => WrapError(api, DeserializePrefix, Err(e))
  }

  /** Every input shape is decoded by the same length-checked path. */
  lemma ShapesAgree<G1Affine(!new), E>(lib: G1Lib<G1Affine>, api: ErrorApi<E>, a: Shape, b: Shape, value: seq<byte>)
    ensures Visit(lib, api, a, value) == Visit(lib, api, b, value)
    ensures Visit(lib, api, a, value) == VisitBytes(lib, api, value)
  {
  }

  /** A wrong-length input is rejected whatever the library would have said
      about it: the outcome is the same for any two libraries. */
  lemma LengthGateIgnoresLibrary<G1Affine(!new), E>(lib1: G1Lib<G1Affine>, lib2: G1Lib<G1Affine>, api: ErrorApi<E>, value: seq<byte>)
    requires |value| != G1Size
    ensures VisitBytes(lib1, api, value) == VisitBytes(lib2, api, value)
  {
  }

  /** Under the library's round-trip promise, deserializing what `Serialize`
      emitted gives back the original point, whatever shape the bytes arrive in. */
  lemma RoundTrip<G1Affine(!new), E>(lib: G1Lib<G1Affine>, api: ErrorApi<E>, shape: Shape, p: G1Affine)
    requires lib.RoundTrips()
    ensures Deserialize(lib, api, Delivered(shape, Serialize(lib, p))) == Ok(p)
  {
  }

  /** Under the library's canonicity promise, an accepted byte string is
      exactly the serialization of the point it decodes to. */
  lemma AcceptedBytesAreCanonical<G1Affine(!new), E>(lib: G1Lib<G1Affine>, api: ErrorApi<E>, shape: Shape, value: seq<byte>)
    requires lib.Canonical()
    requires Deserialize(lib, api, Delivered(shape, value)).Ok?
    ensures Serialize(lib, Deserialize(lib, api, Delivered(shape, value)).value) == value
  {
  }

  /** With `E = SerdeError`, the complete set of outcomes of deserializing a
      byte string: "couldn't deserialize G1Affine bytes: incorrect data length"
      for a wrong length, "couldn't deserialize G1Affine bytes: couldn't parse
      G1Affine bytes" for bytes the library rejects, the decompressed point
      otherwise. */
  lemma SerdeOutcomes<G1Affine(!new)>(lib: G1Lib<G1Affine>, shape: Shape, value: seq<byte>)
    ensures |value| != G1Size ==>
      Deserialize(lib, SerdeApi, Delivered(shape, value)) == Err(Message(DeserializePrefix + LengthMessage))
    ensures |value| == G1Size && lib.fromCompressed(value).None? ==>
      Deserialize(lib, SerdeApi, Delivered(shape, value)) == Err(Message(DeserializePrefix + ParseMessage))
    ensures |value| == G1Size && lib.fromCompressed(value).Some? ==>
      Deserialize(lib, SerdeApi, Delivered(shape, value)) == Ok(lib.fromCompressed(value).value)
  {
  }

  /** With `E = SerdeError`, every error the visitor or `deserialize` returns
      is a `Message`: `ParsingError`, `DataLengthError` and `Other` never
      arise on these paths, even when the deserializer itself fails. */
  lemma OnlyMessageErrors<G1Affine(!new)>(lib: G1Lib<G1Affine>, d: Delivery<SerdeError>)
    ensures d.Delivered? && Visit(lib, SerdeApi, d.shape, d.bytes).Err? ==>
      Visit(lib, SerdeApi, d.shape, d.bytes).error.Message?
    ensures Deserialize(lib, SerdeApi, d).Err? ==> Deserialize(lib, SerdeApi, d).error.Message?
  {
  }
}
