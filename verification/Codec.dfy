/** The codec-independent vocabulary: error codes, decoded frames and response payloads. */
module Codec {
  import opened Common

  datatype ResponseError =
    | Unknown
    | InvalidArgument
    | Unauthorized
    | Busy
    | MethodNotFound
    | Aborted
    | Unhandled
    | NonUtf8MethodName
    | ParseFailed

  /** The UTF-8 form of an ASCII string. */
  function Ascii(s: string): (bytes: Bytes)
    ensures |bytes| == |s|
  {
    seq(|s|, i requires 0 <= i < |s| => s[i] as int % 128)
  }

  /** `to_str`. */
  function CodeString(code: ResponseError): string {
    match code
    case Unknown => "RPC_IT_UNKNOWN"
    case InvalidArgument => "RPC_IT_INVALID_ARGUMENT"
    case Unauthorized => "RPC_IT_UNAUTHORIZED"
    case Busy => "RPC_IT_BUSY"
    case MethodNotFound => "RPC_IT_METHOD_NOT_FOUND"
    case Aborted => "RPC_IT_ABORTED"
    case Unhandled => "RPC_IT_UNHANDLED"
    case NonUtf8MethodName => "RPC_IT_NON_UTF8_METHOD_NAME"
    case ParseFailed => "RPC_IT_PARSE_FAILED"
  }

  /** A code's name as the bytes that go on the wire. */
  function CodeName(code: ResponseError): Bytes {
    Ascii(CodeString(code))
  }

  /** `FromStr`: the nine known names, anything else is no code. */
  function CodeFromName(name: Bytes): Option<ResponseError> {
    if name == CodeName(Unknown) then Some(Unknown)
    else if name == CodeName(InvalidArgument) then Some(InvalidArgument)
    else if name == CodeName(Unauthorized) then Some(Unauthorized)
    else if name == CodeName(Busy) then Some(Busy)
    else if name == CodeName(MethodNotFound) then Some(MethodNotFound)
    else if name == CodeName(Aborted) then Some(Aborted)
    else if name == CodeName(Unhandled) then Some(Unhandled)
    else if name == CodeName(NonUtf8MethodName) then Some(NonUtf8MethodName)
    else if name == CodeName(ParseFailed) then Some(ParseFailed)
    else None
  }

  /** The names are told apart by their length and their first letter after the common prefix. */
  lemma CodeNameFacts(code: ResponseError)
    ensures 11 <= |CodeName(code)| < 32
    ensures CodeName(code)[|CodeName(code)| - 1] < 128
    ensures CodeName(code)[7] == CodeString(code)[7] as int
  {
  }

  /** `from_str` and `to_str` are inverse: a name parses as a code exactly when it is that code's name. */
  lemma CodeNameRoundTrip(name: Bytes, code: ResponseError)
    ensures CodeFromName(name) == Some(code) <==> name == CodeName(code)
  {
    forall c: ResponseError
      ensures |CodeName(c)| == |CodeString(c)| && |CodeName(c)| > 7 && CodeName(c)[7] == CodeString(c)[7] as int
    {
      CodeNameFacts(c);
    }
  }

  /** `From<ResponseError> for u8`. */
  function CodeNumber(code: ResponseError): Byte {
    match code
    case Unknown => 0
    case InvalidArgument => 1
    case Unauthorized => 2
    case Busy => 3
    case MethodNotFound => 4
    case Aborted => 5
    case Unhandled => 6
    case NonUtf8MethodName => 7
    case ParseFailed => 8
  }

  /** `From<u8> for ResponseError`. */
  function CodeFromNumber(n: Byte): ResponseError {
    match n
    case 1 => InvalidArgument
    case 2 => Unauthorized
    case 3 => Busy
    case 4 => MethodNotFound
    case 5 => Aborted
    case 6 => Unhandled
    case 7 => NonUtf8MethodName
    case 8 => ParseFailed
    case _ => Unknown
  }

  /** `EncodeResponsePayload`. */
  datatype EncodeResponsePayload<+T> =
    | Ok(obj: T)
    | ErrCodeOnly(code: ResponseError)
    | ErrObjectOnly(obj: T)
    | Err(code: ResponseError, obj: T)

  /** A payload whose object serialises to the end. */
  type ResponsePayload = EncodeResponsePayload<Bytes>

  /** A payload as the codec gets it: serialising the object may stop half-way. */
  type Outgoing = EncodeResponsePayload<Serialized>

  predicate Complete(payload: Outgoing) {
    match payload
    case Ok(obj) => obj.complete
    case ErrCodeOnly(_) => true
    case ErrObjectOnly(obj) => obj.complete
    case Err(_, obj) => obj.complete
  }

  function Written(payload: Outgoing): ResponsePayload {
    match payload
    case Ok(obj) => EncodeResponsePayload.Ok(obj.bytes)
    case ErrCodeOnly(code) => ErrCodeOnly(code)
    case ErrObjectOnly(obj) => ErrObjectOnly(obj.bytes)
    case Err(code, obj) => EncodeResponsePayload.Err(code, obj.bytes)
  }

  datatype EncodeError = InvalidRequestId | SerializeFailed | RequestIdAllocationFailed

  /** `InboundFrameType`. */
  datatype InboundFrame =
    | Request(rawId: Range, name: Range, params: Range)
    | Notify(name: Range, params: Range)
    | Response(id: RequestId, errc: Option<ResponseError>, payload: Range)

  /** Decoding yields a frame or an error, or stops the reader: `advance` and `unwrap` check their arguments. */
  datatype Decoded =
    | Frame(frame: InboundFrame)
    | Malformed
    | Panicked

  /** What a response says to whoever reads it: success or an error code, and the payload bytes. */
  datatype Verdict = Verdict(errc: Option<ResponseError>, payload: Bytes)

  /** `d` is a request whose in-bounds, ordered ranges of `frame` hold these three byte strings. */
  predicate IsRequestOf(d: Decoded, frame: Bytes, rawId: Bytes, name: Bytes, params: Bytes) {
    && d.Frame? && d.frame.Request?
    && d.frame.rawId.Within(frame) && d.frame.name.Within(frame) && d.frame.params.Within(frame)
    && 0 < d.frame.rawId.end <= d.frame.name.begin && d.frame.name.end <= d.frame.params.begin
    && d.frame.rawId.Of(frame) == rawId
    && d.frame.name.Of(frame) == name
    && d.frame.params.Of(frame) == params
  }

  predicate IsNotifyOf(d: Decoded, frame: Bytes, name: Bytes, params: Bytes) {
    && d.Frame? && d.frame.Notify?
    && d.frame.name.Within(frame) && d.frame.params.Within(frame) && d.frame.name.end <= d.frame.params.begin
    && d.frame.name.Of(frame) == name
    && d.frame.params.Of(frame) == params
  }

  predicate IsResponseOf(d: Decoded, frame: Bytes, id: RequestId, verdict: Verdict) {
    && d.Frame? && d.frame.Response?
    && d.frame.id == id && d.frame.errc == verdict.errc
    && d.frame.payload.Within(frame) && d.frame.payload.Of(frame) == verdict.payload
  }
}
