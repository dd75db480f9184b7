/** The rawrpc codec: a postcard-encoded head followed by the payload, byte for byte. */
module RawRpc {
  import opened Common
  import opened Codec
  import Utf8

  const NOTIFY := 0
  const REQUEST := 1
  const RESPONSE := 2
  const RESPONSE_ERR := 3

  /** A byte of a varint carries 7 bits; a 64-bit one has at most 10 bytes, a 32-bit one at most 5. */
  const USIZE_VARINT_MAX := 10
  const USIZE_LAST_BYTE_MAX := 1
  const U32_VARINT_MAX := 5
  const U32_LAST_BYTE_MAX := 15

  // ---- Encoding ----

  function Varint(n: nat): Bytes {
    if n < 128 then [n] else [n % 128 + 128] + Varint(n / 128)
  }

  function EncodeBytes(s: Bytes): Bytes {
    Varint(|s|) + s
  }

  /** `RequestId::as_bytes`. */
  function IdBytes(id: RequestId): Bytes {
    ToLittleEndian(id, 8)
  }

  /** `RequestId::from_bytes`: the first eight bytes, not all zero; bytes behind them are ignored. */
  function RestoreRequestId(raw: Bytes): Option<RequestId> {
    Pow256Values();
    if |raw| < 8 || FromLittleEndian(raw[..8]) == 0 then None else Some(FromLittleEndian(raw[..8]))
  }

  function RequestFrame(id: RequestId, name: Bytes, params: Bytes): Bytes {
    Varint(REQUEST) + EncodeBytes(IdBytes(id)) + EncodeBytes(name) + params
  }

  function NotifyFrame(name: Bytes, params: Bytes): Bytes {
    Varint(NOTIFY) + EncodeBytes(name) + params
  }

  function ErrorFrame(id: RequestId, code: ResponseError, obj: Bytes): Bytes {
    Varint(RESPONSE_ERR) + EncodeBytes(IdBytes(id)) + [CodeNumber(code)] + obj
  }

  function ResponseFrame(rawId: Bytes, payload: ResponsePayload): Option<Bytes> {
    match RestoreRequestId(rawId)
    case None => None
    case Some(id) =>
      match payload
      case Ok(obj) => Some(Varint(RESPONSE) + EncodeBytes(IdBytes(id)) + obj)
      case ErrCodeOnly(code) => Some(ErrorFrame(id, code, [CodeNumber(code)]))
      case ErrObjectOnly(obj) => Some(ErrorFrame(id, Unknown, obj))
      case Err(code, obj) => Some(ErrorFrame(id, code, obj))
  }

  // ---- Decoding ----

  /** Reads a varint of at most `left` bytes; the last possible byte must not exceed `lastMax`. */
  function TakeVarint(frame: Bytes, pos: nat, left: nat, lastMax: nat): (read: Option<(nat, nat)>)
    ensures read.Some? ==> pos < read.value.1 <= |frame|
    decreases left
  {
    if left == 0 || pos >= |frame| then None
    else if frame[pos] < 128 then
      if left == 1 && frame[pos] > lastMax then None else Some((frame[pos], pos + 1))
    else
      match TakeVarint(frame, pos + 1, left - 1, lastMax)
      case None => None
      case Some((high, next)) => Some((frame[pos] - 128 + 128 * high, next))
  }

  /** A length-prefixed slice: where it starts and where it ends. */
  function TakeBytes(frame: Bytes, pos: nat): (read: Option<(nat, nat)>)
    ensures read.Some? ==> pos < read.value.0 <= read.value.1 <= |frame|
  {
    match TakeVarint(frame, pos, USIZE_VARINT_MAX, USIZE_LAST_BYTE_MAX)
    case None => None
    case Some((len, start)) => if start + len <= |frame| then Some((start, start + len)) else None
  }

  function TakeStr(frame: Bytes, pos: nat): (read: Option<(nat, nat)>)
    ensures read.Some? ==> pos < read.value.0 <= read.value.1 <= |frame|
  {
    match TakeBytes(frame, pos)
    case None => None
    case Some((start, end)) => if Utf8.Valid(frame[start..end]) then Some((start, end)) else None
  }

  /** `range_of`, with its two assertions. */
  function RangeOf(frame: Bytes, start: nat, end: nat): Option<Range>
    requires start <= end
  {
    var offset, len := AsU32(start), AsU32(end - start);
    if offset + len <= AsU32(|frame|) then Some(Range(offset, offset + len)) else None
  }

  function DecodeNotify(frame: Bytes, pos: nat): Decoded {
    match TakeStr(frame, pos)
    case None => Malformed
    case Some((start, end)) =>
      match (RangeOf(frame, start, end), RangeOf(frame, end, |frame|))
      case (Some(name), Some(params)) => Frame(Notify(name, params))
      case _ => Panicked
  }

  function DecodeRequest(frame: Bytes, pos: nat): Decoded {
    match TakeBytes(frame, pos)
    case None => Malformed
    case Some((idStart, idEnd)) =>
      match TakeStr(frame, idEnd)
      case None => Malformed
      case Some((start, end)) =>
        match (RangeOf(frame, idStart, idEnd), RangeOf(frame, start, end), RangeOf(frame, end, |frame|))
        case (Some(rawId), Some(name), Some(params)) => Frame(Request(rawId, name, params))
        case _ => Panicked
  }

  function DecodeAnswer(frame: Bytes, rawId: Bytes, errc: Option<ResponseError>, start: nat): Decoded
    requires start <= |frame|
  {
    match RestoreRequestId(rawId)
    case None => Malformed
    case Some(id) =>
      match RangeOf(frame, start, |frame|)
      case Some(payload) => Frame(Response(id, errc, payload))
      case None => Panicked
  }

  function DecodeResponse(frame: Bytes, pos: nat): Decoded {
    match TakeBytes(frame, pos)
    case None => Malformed
    case Some((start, end)) => DecodeAnswer(frame, frame[start..end], None, end)
  }

  function DecodeResponseErr(frame: Bytes, pos: nat): Decoded {
    match TakeBytes(frame, pos)
    case None => Malformed
    case Some((start, end)) =>
      if end < |frame| then DecodeAnswer(frame, frame[start..end], Some(CodeFromNumber(frame[end])), end + 1)
      else Malformed
  }

  /** `decode_inbound`. */
  function Decode(frame: Bytes): Decoded {
    match TakeVarint(frame, 0, U32_VARINT_MAX, U32_LAST_BYTE_MAX)
    case None => Malformed
    case Some((variant, pos)) =>
      if variant == NOTIFY then DecodeNotify(frame, pos)
      else if variant == REQUEST then DecodeRequest(frame, pos)
      else if variant == RESPONSE then DecodeResponse(frame, pos)
      else if variant == RESPONSE_ERR then DecodeResponseErr(frame, pos)
      else Malformed
  }

  // ---- The codec's entry points ----

  lemma AppendTwice(before: Bytes, a: Bytes, b: Bytes)
    ensures before + a + b == before + (a + b)
  {
  }

  /** `serialize`: takes the buffer away and puts it back only if the item serialises to the end. */
  method Serialize(item: Serialized, buf: BytesMut) returns (error: Option<EncodeError>)
    modifies buf
    ensures error == if item.complete then None else Some(SerializeFailed)
    ensures buf.data == if item.complete then old(buf.data) + item.bytes else []
  {
    var taken := buf.Split();
    if !item.complete {
      return Some(SerializeFailed);
    }
    buf.Extend(taken);
    buf.Extend(item.bytes);
    return None;
  }

  /** `encode_notify`. */
  method EncodeNotify(name: Bytes, params: Serialized, buf: BytesMut) returns (error: Option<EncodeError>)
    modifies buf
    ensures error == if params.complete then None else Some(SerializeFailed)
    ensures buf.data == if params.complete then old(buf.data) + NotifyFrame(name, params.bytes) else []
  {
    hide Varint, EncodeBytes;
    var lead := Varint(NOTIFY) + EncodeBytes(name);
    AppendTwice(buf.data, lead, params.bytes);
    var head := Serialize(Serialized(lead, true), buf);
    error := Serialize(params, buf);
  }

  /** `encode_request`. */
  method EncodeRequest(reqId: RequestId, name: Bytes, params: Serialized, buf: BytesMut)
    returns (error: Option<EncodeError>, id: RequestId)
    modifies buf
    ensures error == if params.complete then None else Some(SerializeFailed)
    ensures buf.data == if params.complete then old(buf.data) + RequestFrame(reqId, name, params.bytes) else []
    ensures id == reqId
  {
    hide Varint, EncodeBytes, IdBytes;
    var lead := Varint(REQUEST) + EncodeBytes(IdBytes(reqId)) + EncodeBytes(name);
    AppendTwice(buf.data, lead, params.bytes);
    var head := Serialize(Serialized(lead, true), buf);
    error := Serialize(params, buf);
    id := reqId;
  }

  /** `encode_response`: an object that does not serialise to the end costs everything that was in the buffer. */
  method EncodeResponse(rawId: Bytes, payload: Outgoing, buf: BytesMut) returns (error: Option<EncodeError>)
    modifies buf
    ensures ResponseFrame(rawId, Written(payload)).None? ==>
              error == Some(InvalidRequestId) && buf.data == old(buf.data)
    ensures ResponseFrame(rawId, Written(payload)).Some? && Complete(payload) ==>
              error == None && buf.data == old(buf.data) + ResponseFrame(rawId, Written(payload)).value
    ensures ResponseFrame(rawId, Written(payload)).Some? && !Complete(payload) ==>
              error == Some(SerializeFailed) && buf.data == []
  {
    hide RestoreRequestId, Varint, ErrorFrame, IdBytes, EncodeBytes;
    var id := RestoreRequestId(rawId);
    if id.None? {
      return Some(InvalidRequestId);
    }
    match payload {
      case Ok(obj) =>
        var lead := Varint(RESPONSE) + EncodeBytes(IdBytes(id.value));
        AppendTwice(buf.data, lead, obj.bytes);
        var head := Serialize(Serialized(lead, true), buf);
        error := Serialize(obj, buf);
      case ErrCodeOnly(code) => error := EncodeErrorFrame(id.value, code, Serialized([CodeNumber(code)], true), buf);
      case ErrObjectOnly(obj) => error := EncodeErrorFrame(id.value, Unknown, obj, buf);
      case Err(code, obj) => error := EncodeErrorFrame(id.value, code, obj, buf);
    }
  }

  method EncodeErrorFrame(id: RequestId, code: ResponseError, obj: Serialized, buf: BytesMut)
    returns (error: Option<EncodeError>)
    modifies buf
    ensures error == if obj.complete then None else Some(SerializeFailed)
    ensures buf.data == if obj.complete then old(buf.data) + ErrorFrame(id, code, obj.bytes) else []
  {
    hide Varint, EncodeBytes, IdBytes;
    var lead := Varint(RESPONSE_ERR) + EncodeBytes(IdBytes(id)) + [CodeNumber(code)];
    AppendTwice(buf.data, lead, obj.bytes);
    var head := Serialize(Serialized(lead, true), buf);
    error := Serialize(obj, buf);
  }
}
