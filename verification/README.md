# serde codecs for BLS12-381 scalars and G1 points

A Dafny model of `src/serdes.rs`, the serde glue of a BLS12-381 crate. It
turns a `Scalar` into its 32-byte canonical form and a `G1Affine` point into
its 48-byte compressed form, and reads such byte strings back through serde
visitors that check the length, copy the bytes into a fixed buffer, ask the
algebra library to parse them and map its validity flag to `Ok` or to an
error built by `custom`. `deserialize` re-raises any error with a
type-specific prefix. The crate's own error type `SerdeError` has four kinds,
but its `custom` constructors only ever build `Message`. The kind names
suggest that a wrong length should be reported as `DataLengthError` and an
unparsable input as `ParsingError`; the code reports both as `Message` texts,
and the model follows the code.

Modules:

- `Bytes` (`bytes.dfy`): the `byte` type, the sizes 32 and 48, and the copy
  loop shared by both `visit_bytes`.
- `Serde` (`serde.dfy`): the framework seen by the codecs: the generic error
  type's `custom` and `Display` (`ErrorApi<E>`), the three input shapes a
  deserializer may use (`visit_bytes`, `visit_borrowed_bytes`,
  `visit_byte_buf`), a failed `deserialize_bytes`, the outcome type with an
  explicit `Panic`, and the error wrapping done by `deserialize`.
- `SerdeErrors` (`serde_error.dfy`): `SerdeError`, its `Display` and `custom`.
- `Algebra` (`algebra.dfy`): the algebra library as two records of
  functions, `ScalarLib` (`from_bytes`, `to_bytes`) and `G1Lib`
  (`from_compressed`, `to_compressed`). `Scalar` and `G1Affine` are type
  parameters. The library's round-trip and canonicity promises are the
  predicates `RoundTrips` and `Canonical`; they are assumptions about code
  outside this model and appear only as hypotheses of the lemmas that use them.
- `G1Codec` (`g1_codec.dfy`) and `ScalarCodec` (`scalar_codec.dfy`): the two
  codecs and their properties.

Every visitor and `deserialize` is generic in the error type, as in the
source. The lemmas about `SerdeError` instantiate it with `SerdeApi`.

The scalar visitor's `visit_borrowed_bytes` and `visit_byte_buf` skip the
length check. The model keeps them as written (`ScalarCodec.VisitUnchecked`):
a short input panics and a long one is truncated to its first 32 bytes. The
panic comes from the slice expression `v[0..32]`. The `expect("OHNOES")`
after it can never fire, because a 32-byte slice always converts to a
32-byte array. A uniform, length-checked decoder is given as
`ScalarCodec.Decode` (see Findings). The G1 visitor defines only
`visit_bytes`; serde's default `visit_borrowed_bytes` and `visit_byte_buf`
forward to it, so every input shape takes the checked path for points.

## Model

| member | source | states |
|---|---|---|
| Bytes.CopyIn | src/serdes.rs:125-128 | after the copy loop the zeroed fixed buffer holds exactly the first `n` input bytes (the same loop is at src/serdes.rs:167-170) |
| Bytes.Zeros | src/serdes.rs:125 | the fixed buffer `[0u8; N]` has exactly `n` bytes, all zero (also `[0u8; SCALAR_SIZE]` at src/serdes.rs:167) |
| SerdeErrors.Display | src/serdes.rs:27-36 | a `Message` displays as its text verbatim; `Other`, `ParsingError` and `DataLengthError` display as "unknown error", "parsing error" and "data length error" |
| SerdeErrors.Custom | src/serdes.rs:38-48 | `custom` always builds a `Message`, and displaying it gives back the message verbatim |
| Serde.WrapError | src/serdes.rs:59-66 | `deserialize` returns a visitor's value unchanged, turns an error `e` into `custom(prefix + e)`, and lets a panic through |
| G1Codec.Serialize | src/serdes.rs:52-57 | the serializer is handed the compressed form, always 48 bytes, so it always passes the visitor's length gate |
| G1Codec.VisitBytes | src/serdes.rs:121-134 | lengths other than 48 give `custom("incorrect data length")`; a 48-byte input gives `Ok(p)` exactly when `from_compressed` yields `p`, and otherwise `custom("couldn't parse G1Affine bytes")`; never a panic |
| G1Codec.VisitBytesBuffered | src/serdes.rs:121-134 | the code with its buffer copy computes the same outcome as `VisitBytes`: the library parses exactly the input bytes |
| G1Codec.Visit | src/serdes.rs:115-135 | whatever shape the bytes arrive in, the G1 visitor never panics and behaves as `visit_bytes`, since it overrides no other byte entry point |
| G1Codec.Deserialize | src/serdes.rs:59-66 | a delivered byte string is decoded by `visit_bytes` and wrapped with "couldn't deserialize G1Affine bytes: "; a failure of the deserializer itself is wrapped the same way; never a panic |
| G1Codec.ShapesAgree | src/serdes.rs:115-135 | a byte string decodes the same whether it arrives transient, borrowed or owned, and always through `visit_bytes` |
| G1Codec.LengthGateIgnoresLibrary | src/serdes.rs:121-124 | on a wrong length the outcome does not depend on the library at all: `from_compressed` is never consulted |
| G1Codec.RoundTrip | src/serdes.rs:52-66 | if the library round-trips, deserializing a point's serialization gives the point back, for every input shape |
| G1Codec.AcceptedBytesAreCanonical | src/serdes.rs:121-134 | if the library is canonical, any accepted byte string is exactly the serialization of the decoded point |
| G1Codec.SerdeOutcomes | src/serdes.rs:59-66 | with `SerdeError`, `deserialize` yields `Message("couldn't deserialize G1Affine bytes: incorrect data length")` for a wrong length, `Message("couldn't deserialize G1Affine bytes: couldn't parse G1Affine bytes")` for rejected bytes, the point otherwise |
| G1Codec.OnlyMessageErrors | src/serdes.rs:121-133 | with `SerdeError`, every error of the visitor and of `deserialize` is a `Message`; `DataLengthError` and `ParsingError` never occur |
| ScalarCodec.Serialize | src/serdes.rs:137-142 | the serializer is handed the canonical bytes, always 32, so they always pass the visitor's length gate |
| ScalarCodec.VisitBytes | src/serdes.rs:163-176 | lengths other than 32 give `custom("incorrect data length")`; a 32-byte input gives `Ok(s)` exactly when `from_bytes` yields `s`, and otherwise `custom("couldn't parse Scalar bytes")`; never a panic |
| ScalarCodec.VisitBytesBuffered | src/serdes.rs:163-176 | the code with its buffer copy computes the same outcome as `VisitBytes` |
| ScalarCodec.VisitUnchecked | src/serdes.rs:178-192 | `visit_borrowed_bytes` / `visit_byte_buf` panic exactly on inputs shorter than 32 bytes, and otherwise behave as `visit_bytes` on the first 32 bytes |
| ScalarCodec.Visit | src/serdes.rs:157-193 | the scalar visitor panics exactly on a borrowed or owned input shorter than 32 bytes; a transient slice is decoded by `visit_bytes`, and a long enough borrowed or owned input as `visit_bytes` on its first 32 bytes |
| ScalarCodec.Deserialize | src/serdes.rs:144-151 | `deserialize` panics exactly when a borrowed or owned input is shorter than 32 bytes; otherwise it wraps the visitor's error with "couldn't deserialize Scalar bytes: " and returns its value unchanged; deserializer failures are wrapped too |
| ScalarCodec.Decode | src/serdes.rs:163-176 | the corrected decoder: never panics, rejects every length but 32 with the length error, accepts a 32-byte input exactly when `from_bytes` parses it and returns what it parsed, and otherwise gives the parse error |
| ScalarCodec.UncheckedReadsOnlyPrefix | src/serdes.rs:178-192 | the unchecked paths depend only on the first 32 bytes of their input |
| ScalarCodec.ShapesAgreeAtExactSize | src/serdes.rs:163-192 | on exactly 32 bytes all three entry points give the same outcome |
| ScalarCodec.ShortInputPanics | src/serdes.rs:178-192 | a short borrowed or owned input panics, and so does `deserialize`, where `visit_bytes` returns the length error |
| ScalarCodec.OversizedInputAccepted | src/serdes.rs:178-192 | a long borrowed or owned input whose first 32 bytes parse is accepted, where `visit_bytes` returns the length error |
| ScalarCodec.DecodeIsUniform | src/serdes.rs:163-176 | the corrected decoder gives the same outcome for every shape, equal to `visit_bytes`, and equal to the code as written on 32-byte inputs |
| ScalarCodec.RoundTrip | src/serdes.rs:137-151 | if the library round-trips, deserializing a scalar's serialization gives it back on every entry point, and so does the corrected decoder |
| ScalarCodec.AcceptedBytesAreCanonical | src/serdes.rs:163-192 | if the library is canonical, an accepted input starts with the scalar's serialization, and through `visit_bytes` is exactly it |
| ScalarCodec.SerdeOutcomes | src/serdes.rs:144-151 | with `SerdeError`, `deserialize` of a transient slice yields `Message("couldn't deserialize Scalar bytes: incorrect data length")`, `Message("couldn't deserialize Scalar bytes: couldn't parse Scalar bytes")` or the parsed scalar |
| ScalarCodec.OnlyMessageErrors | src/serdes.rs:163-192 | with `SerdeError`, every error of any entry point and of `deserialize` is a `Message` |

## Left out

- The algebra library itself (`Scalar::from_bytes`, `to_bytes`, `G1Affine::from_compressed`, `to_compressed`): canonicity, decompression and subgroup checks are external; the functions are parameters and their promises are explicit hypotheses.
- The library's constant-time `CtOption` is modelled as a plain `Option`; `is_some` and `unwrap` become `Some?` and `.value`.
- The concrete encoding of a particular scalar such as 1: it depends on the library's byte order, which is not modelled.
- serde's dispatch machinery: how a deserializer chooses an entry point, and the visitor methods other than the byte ones, are not modelled; the shape of the input and a failed `deserialize_bytes` are inputs of the model.
- `Visitor::expecting` and `fmt::Formatter` plumbing, including the scalar visitor's `expecting` text, which says "G1Affine".
- A serializer's own failure (`S::Error` from `serialize_bytes`): serialization is modelled as emitting the byte string.
- G1Codec.Visit: serde's default `visit_borrowed_bytes` and `visit_byte_buf`, which forward to `visit_bytes`, are framework code outside this model; their forwarding is assumed by the definition, so `G1Codec.ShapesAgree` holds by definition rather than being proved about serde.
- G1Codec.Serialize: states only the length of the output; its relation to decoding is in `G1Codec.RoundTrip`.
- ScalarCodec.Serialize: states only the length of the output; its relation to decoding is in `ScalarCodec.RoundTrip`.
- The commented-out `G1Compressed` serializer and visitor, which are dead code.
- The `std::error::Error` impl for `SerdeError`, which adds no behaviour.
- Panic messages: `Panic` carries no text.
- Determinism of encoding is not stated separately: every member is a pure function.

## Findings

| source | as written | input that shows it | evidently intended | confidence | as-written member | corrected member |
|---|---|---|---|---|---|---|
| src/serdes.rs:178-192 | `visit_borrowed_bytes` and `visit_byte_buf` index `v[0..32]` with no length check, so a short input panics | any byte string shorter than 32 bytes delivered borrowed or owned | return `custom("incorrect data length")` as `visit_bytes` does | high; not executed | ScalarCodec.ShortInputPanics | ScalarCodec.Decode |
| src/serdes.rs:178-192 | the same entry points parse only the first 32 bytes, so a longer input is silently truncated and accepted | a 33-byte string whose first 32 bytes are a canonical scalar, delivered borrowed or owned | reject every length but 32 | high; not executed | ScalarCodec.OversizedInputAccepted | ScalarCodec.Decode |
