/** The parts of the serialization framework the codecs talk to: the generic
    error type's constructor and formatter, the three ways a deserializer
    hands over a byte string, and the outcome of a visitor call. */
module Serde {
  import opened Bytes

  /** What a deserializer needs from its error type `E`: the `custom`
      constructor from a message, and the `Display` text used by `{}`. */
  datatype ErrorApi<!E> = ErrorApi(custom: string -> E, display: E -> string)

  /** The result of a visitor or of `deserialize`. `Panic` stands for a Rust
      panic, which unwinds past every caller instead of returning. */
  datatype Outcome<T, E> = Ok(value: T) | Err(error: E) | Panic

  /** How a byte string reaches a visitor: a transient slice (`visit_bytes`),
      a slice borrowed from the input (`visit_borrowed_bytes`) or an owned
      buffer (`visit_byte_buf`). */
  datatype Shape = Transient | Borrowed | Owned

  /** What `deserialize_bytes` does with the visitor: either it delivers a
      byte string of some shape, or it fails on its own (wrong token, end of
      input, ...) with an error of type `E`. */
  datatype Delivery<E> = Delivered(shape: Shape, bytes: seq<byte>) | Failed(error: E)

  /** Message passed to `custom` when the byte string has the wrong length. */
  const LengthMessage := "incorrect data length"

  /** The `match` in both `Deserialize` impls: a value is returned unchanged,
      an error `e` becomes `custom(prefix + e)`, and a panic propagates. */
  function WrapError<T, E>(api: ErrorApi<E>, prefix: string, r: Outcome<T, E>): (d: Outcome<T, E>)
    ensures d.Ok? <==> r.Ok?
    ensures d.Ok? ==> d.value == r.value
    ensures d.Panic? <==> r.Panic?
    ensures r.Err? ==> d.Err? && d.error == api.custom(prefix + api.display(r.error))
  {
    match r
    case Ok(v) => Ok(v)
    case Err(e) => Err(api.custom(prefix + api.display(e)))
    case Panic => Panic
  }
}
