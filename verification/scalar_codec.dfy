/** Serialization of `Scalar` as its 32-byte canonical form, and the
    `ScalarVisitor` that reads it back through three entry points. */
module ScalarCodec {
  import opened Bytes
  import opened Serde
  import opened SerdeErrors
  import opened Algebra

  /** Message passed to `custom` when the library rejects the bytes. */
  const ParseMessage := "couldn't parse Scalar bytes"

  /** Prefix `deserialize` puts before the text of any error it wraps. */
  const DeserializePrefix := "couldn't deserialize Scalar bytes: "

  /** `Serialize for Scalar`: the serializer is handed exactly the scalar's
      canonical bytes, whose length is what `visit_bytes` admits. */
  function Serialize<Scalar(!new)>(lib: ScalarLib<Scalar>, s: Scalar): (out: seq<byte>)
    ensures |out| == ScalarSize
  {
    lib.toBytes(s)
  }

  /** `ScalarVisitor::visit_bytes`. Any length but 32 is rejected before the
      library is consulted; a 32-byte input yields a scalar exactly when the
      library parses it to that scalar; no error carries a value and the
      visitor never panics. */
  function VisitBytes<Scalar(!new), E>(lib: ScalarLib<Scalar>, api: ErrorApi<E>, value: seq<byte>): (r: Outcome<Scalar, E>)
    ensures !r.Panic?
    ensures |value| != ScalarSize ==> r == Err(api.custom(LengthMessage))
    ensures |value| == ScalarSize ==> (r.Ok? <==> lib.fromBytes(value).Some?)
    ensures r.Ok? ==> |value| == ScalarSize && lib.fromBytes(value) == Some(r.value)
    ensures |value| == ScalarSize && r.Err? ==> r.error == api.custom(ParseMessage)
  {
    if |value| != ScalarSize then
      Err(api.custom(LengthMessage))
    else
      match lib.fromBytes(value)
      case None => Err(api.custom(ParseMessage))
      case Some(s) => Ok(s)
  }

  /** `visit_bytes` as written: the input is copied into a fixed buffer and
      the buffer is parsed. The copy hands the library exactly the input
      bytes, so the result is the one `VisitBytes` describes. */
  method VisitBytesBuffered<Scalar(!new), E>(lib: ScalarLib<Scalar>, api: ErrorApi<E>, value: seq<byte>)
    returns (r: Outcome<Scalar, E>)
    ensures r == VisitBytes(lib, api, value)
  {
    if |value| != ScalarSize {
      return Err(api.custom(LengthMessage));
    }
    var buf := CopyIn(value, ScalarSize);
    assert buf == value;
    var scalar := lib.fromBytes(buf);
    if !scalar.Some? {
      return Err(api.custom(ParseMessage));
    }
    return Ok(scalar.value);
  }

  /** The common body of `visit_borrowed_bytes` and `visit_byte_buf`: no
      length check; the slice `v[0..32]` panics when `v` is shorter, and is
      otherwise parsed, so anything past the first 32 bytes is ignored.
      (The `expect` on the array conversion cannot fire: a 32-byte slice
      always converts.) On long enough input it behaves as `visit_bytes` on
      the first 32 bytes. */
  function VisitUnchecked<Scalar(!new), E>(lib: ScalarLib<Scalar>, api: ErrorApi<E>, v: seq<byte>): (r: Outcome<Scalar, E>)
    ensures r.Panic? <==> |v| < ScalarSize
    ensures |v| >= ScalarSize ==> r == VisitBytes(lib, api, v[..ScalarSize])
  {
    if |v| < ScalarSize then
      Panic
    else
      match lib.fromBytes(v[..ScalarSize])
      case None => Err(api.custom(ParseMessage))
      case Some(s) => Ok(s)
  }

  /** The visitor entry point the deserializer picks for each shape. */
  function Visit<Scalar(!new), E>(lib: ScalarLib<Scalar>, api: ErrorApi<E>, shape: Shape, v: seq<byte>): (r: Outcome<Scalar, E>)
    ensures r.Panic? <==> shape != Transient && |v| < ScalarSize
    ensures shape == Transient ==> r == VisitBytes(lib, api, v)
    ensures shape != Transient && |v| >= ScalarSize ==> r == VisitBytes(lib, api, v[..ScalarSize])
  {
    match shape
    case Transient => VisitBytes(lib, api, v)
    case Borrowed => VisitUnchecked(lib, api, v)
    case Owned => VisitUnchecked(lib, api, v)
  }

  /** `Deserialize for Scalar`: a scalar is returned as is, an error from the
      visitor or from the deserializer itself is re-raised with the Scalar
      prefix, and a panic in the visitor propagates. */
  function Deserialize<Scalar(!new), E>(lib: ScalarLib<Scalar>, api: ErrorApi<E>, d: Delivery<E>): (r: Outcome<Scalar, E>)
    ensures r.Panic? <==> d.Delivered? && d.shape != Transient && |d.bytes| < ScalarSize
    ensures d.Delivered? ==> r == WrapError(api, DeserializePrefix, Visit(lib, api, d.shape, d.bytes))
    ensures d.Failed? ==> r == Err(api.custom(DeserializePrefix + api.display(d.error)))
  {
    match d
    case Delivered(shape, bytes) => WrapError(api, DeserializePrefix, Visit(lib, api, shape, bytes))
    case Failed(e) => WrapError(api, DeserializePrefix, Err(e))
  }

  /** The decoder the three entry points were evidently meant to share: every
      shape goes through the length-checked `visit_bytes`, so no input
      panics and a byte string is decoded the same way however it arrives. */
  function Decode<Scalar(!new), E>(lib: ScalarLib<Scalar>, api: ErrorApi<E>, shape: Shape, v: seq<byte>): (r: Outcome<Scalar, E>)
    ensures !r.Panic?
    ensures |v| != ScalarSize ==> r == Err(api.custom(LengthMessage))
    ensures r.Ok? ==> |v| == ScalarSize && lib.fromBytes(v) == Some(r.value)
    ensures |v| == ScalarSize ==> (r.Ok? <==> lib.fromBytes(v).Some?)
    ensures |v| == ScalarSize && r.Err? ==> r.error == api.custom(ParseMessage)
  {
    VisitBytes(lib, api, v)
  }

  /** The unchecked entry points read only the first 32 bytes: two inputs
      that share them are decoded alike, whatever follows. */
  lemma UncheckedReadsOnlyPrefix<Scalar(!new), E>(lib: ScalarLib<Scalar>, api: ErrorApi<E>, v: seq<byte>, w: seq<byte>)
    requires |v| >= ScalarSize && |w| >= ScalarSize
    requires v[..ScalarSize] == w[..ScalarSize]
    ensures VisitUnchecked(lib, api, v) == VisitUnchecked(lib, api, w)
  {
  }

  /** On exactly 32 bytes the three entry points agree. */
  lemma ShapesAgreeAtExactSize<Scalar(!new), E>(lib: ScalarLib<Scalar>, api: ErrorApi<E>, a: Shape, b: Shape, v: seq<byte>)
    requires |v| == ScalarSize
    ensures Visit(lib, api, a, v) == Visit(lib, api, b, v)
  {
    assert v[..ScalarSize] == v;
  }

  /** As written, a too-short byte string panics on the borrowed and owned
      paths where `visit_bytes` returns the length error. */
  lemma ShortInputPanics<Scalar(!new), E>(lib: ScalarLib<Scalar>, api: ErrorApi<E>, shape: Shape, v: seq<byte>)
    requires shape != Transient && |v| < ScalarSize
    ensures Visit(lib, api, shape, v) == Panic
    ensures Visit(lib, api, Transient, v) == Err(api.custom(LengthMessage))
    ensures Deserialize(lib, api, Delivered(shape, v)) == Panic
  {
  }

  /** As written, a too-long byte string whose first 32 bytes parse is
      accepted on the borrowed and owned paths, while `visit_bytes` rejects
      it with the length error. */
  lemma OversizedInputAccepted<Scalar(!new), E>(lib: ScalarLib<Scalar>, api: ErrorApi<E>, shape: Shape, v: seq<byte>)
    requires shape != Transient && |v| > ScalarSize
    requires lib.fromBytes(v[..ScalarSize]).Some?
    ensures Visit(lib, api, shape, v) == Ok(lib.fromBytes(v[..ScalarSize]).value)
    ensures Visit(lib, api, Transient, v) == Err(api.custom(LengthMessage))
  {
  }

  /** The corrected decoder never depends on the shape and agrees with the
      code as written wherever the code as written checks the length. */
  lemma DecodeIsUniform<Scalar(!new), E>(lib: ScalarLib<Scalar>, api: ErrorApi<E>, a: Shape, b: Shape, v: seq<byte>)
    ensures Decode(lib, api, a, v) == Decode(lib, api, b, v)
    ensures Decode(lib, api, a, v) == Visit(lib, api, Transient, v)
    ensures |v| == ScalarSize ==> Decode(lib, api, a, v) == Visit(lib, api, a, v)
  {
    if |v| == ScalarSize {
      assert v[..ScalarSize] == v;
    }
  }

  /** Under the library's round-trip promise, deserializing what `Serialize`
      emitted gives back the original scalar, whatever shape the bytes
      arrive in; the corrected decoder does the same. */
  lemma RoundTrip<Scalar(!new), E>(lib: ScalarLib<Scalar>, api: ErrorApi<E>, shape: Shape, s: Scalar)
    requires lib.RoundTrips()
    ensures Deserialize(lib, api, Delivered(shape, Serialize(lib, s))) == Ok(s)
    ensures Decode(lib, api, shape, Serialize(lib, s)) == Ok(s)
  {
    var out := Serialize(lib, s);
    assert out[..ScalarSize] == out;
  }

  /** Under the library's canonicity promise, an accepted byte string starts
      with the serialization of the scalar it decodes to; through
      `visit_bytes` it is exactly that serialization, while the unchecked
      paths may have ignored a tail. */
  lemma AcceptedBytesAreCanonical<Scalar(!new), E>(lib: ScalarLib<Scalar>, api: ErrorApi<E>, shape: Shape, v: seq<byte>)
    requires lib.Canonical()
    requires Deserialize(lib, api, Delivered(shape, v)).Ok?
    ensures |v| >= ScalarSize
    ensures Serialize(lib, Deserialize(lib, api, Delivered(shape, v)).value) == v[..ScalarSize]
    ensures shape == Transient ==> Serialize(lib, Deserialize(lib, api, Delivered(shape, v)).value) == v
  {
  }

  /** With `E = SerdeError`, the complete set of outcomes of deserializing a
      byte string through `visit_bytes`: "couldn't deserialize Scalar bytes:
      incorrect data length" for a wrong length, "couldn't deserialize Scalar
      bytes: couldn't parse Scalar bytes" for bytes the library rejects, the
      parsed scalar otherwise. */
  lemma SerdeOutcomes<Scalar(!new)>(lib: ScalarLib<Scalar>, value: seq<byte>)
    ensures |value| != ScalarSize ==>
      Deserialize(lib, SerdeApi, Delivered(Transient, value)) == Err(Message(DeserializePrefix + LengthMessage))
    ensures |value| == ScalarSize && lib.fromBytes(value).None? ==>
      Deserialize(lib, SerdeApi, Delivered(Transient, value)) == Err(Message(DeserializePrefix + ParseMessage))
    ensures |value| == ScalarSize && lib.fromBytes(value).Some? ==>
      Deserialize(lib, SerdeApi, Delivered(Transient, value)) == Ok(lib.fromBytes(value).value)
  {
  }

  /** With `E = SerdeError`, every error any entry point or `deserialize`
      returns is a `Message`: `ParsingError`, `DataLengthError` and `Other`
      never arise on these paths, even when the deserializer itself fails. */
  lemma OnlyMessageErrors<Scalar(!new)>(lib: ScalarLib<Scalar>, d: Delivery<SerdeError>)
    ensures d.Delivered? && Visit(lib, SerdeApi, d.shape, d.bytes).Err? ==>
      Visit(lib, SerdeApi, d.shape, d.bytes).error.Message?
    ensures Deserialize(lib, SerdeApi, d).Err? ==> Deserialize(lib, SerdeApi, d).error.Message?
  {
  }
}
