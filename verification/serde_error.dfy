/** `SerdeError`, the error type the crate defines for the framework. */
module SerdeErrors {
  import opened Serde

  /** The four error kinds. Only `Message` is ever built by the crate. */
  datatype SerdeError = Message(text: string) | ParsingError | DataLengthError | Other

  /** The `Display` text of each kind: a `Message` shows its text verbatim,
      the other kinds a fixed description. */
  function Display(e: SerdeError): (text: string)
    ensures e.Message? ==> text == e.text
    ensures e.Other? ==> text == "unknown error"
    ensures e.ParsingError? ==> text == "parsing error"
    ensures e.DataLengthError? ==> text == "data length error"
  {
    match e
    case Other => "unknown error"
    case ParsingError => "parsing error"
    case DataLengthError => "data length error"
    case Message(x) => x
  }

  /** `custom`, identical in the deserialization and serialization error
      traits: the message is kept verbatim, so displaying the error gives back
      exactly the message it was built from. */
  function Custom(msg: string): (e: SerdeError)
    ensures e.Message?
    ensures Display(e) == msg
  {
    Message(msg)
  }

  /** The error API the visitors see when `E = SerdeError`. */
  const SerdeApi: ErrorApi<SerdeError> := ErrorApi(Custom, Display)
}
