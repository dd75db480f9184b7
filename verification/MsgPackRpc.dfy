/** The msgpack-rpc codec, byte for byte: the shortest-form encoder and the permissive decoder. */
module MsgPackRpc {
  import opened Common
  import opened Codec

  const TYPE_REQUEST := 0
  const TYPE_RESPONSE := 1
  const TYPE_NOTIFICATION := 2
  const NIL := 0xC0

  // ---- Encoding ----

  /** An unsigned integer in its shortest form. */
  function EncodeUint(n: nat): Bytes
    requires n < U64_SIZE
  {
    if n < 128 then [n]
    else if n < 256 then [0xCC, n]
    else if n < 65536 then [0xCD] + ToBigEndian(n, 2)
    else if n < U32_SIZE then [0xCE] + ToBigEndian(n, 4)
    else [0xCF] + ToBigEndian(n, 8)
  }

  function EncodeStrHead(len: nat): Bytes {
    if len < 32 then [0xA0 + len]
    else if len < 256 then [0xD9, len]
    else if len < 65536 then [0xDA] + ToBigEndian(len, 2)
    else [0xDB] + ToBigEndian(AsU32(len), 4)
  }

  function EncodeStr(s: Bytes): Bytes {
    EncodeStrHead(|s|) + s
  }

  function EncodeArrayHead(len: nat): Bytes
    requires len < 16
  {
    [0x90 + len]
  }

  /** The id that goes on the wire: the low 32 bits, with 0 replaced by 1. */
  function NarrowId(id: RequestId): RequestId {
    if id >= U32_SIZE then (if id % U32_SIZE == 0 then 1 else id % U32_SIZE) else id
  }

  function RequestFrame(id: RequestId, name: Bytes, params: Bytes): Bytes {
    EncodeArrayHead(4) + EncodeUint(TYPE_REQUEST) + EncodeUint(NarrowId(id)) + EncodeStr(name) + params
  }

  function NotifyFrame(name: Bytes, params: Bytes): Bytes {
    EncodeArrayHead(3) + EncodeUint(TYPE_NOTIFICATION) + EncodeStr(name) + params
  }

  /** The error slot and the result slot of a response. */
  function ResponseSlots(payload: ResponsePayload): Bytes {
    match payload
    case Ok(obj) => [NIL] + obj
    case ErrCodeOnly(code) => EncodeArrayHead(2) + EncodeStr(CodeName(code)) + [NIL] + [NIL]
    case ErrObjectOnly(obj) => obj + [NIL]
    case Err(code, obj) => EncodeArrayHead(2) + EncodeStr(CodeName(code)) + obj + [NIL]
  }

  /** The slots as far as they get written when serialising the object stops half-way. */
  function PartialSlots(payload: Outgoing): Bytes {
    match payload
    case Ok(obj) => [NIL] + obj.bytes
    case ErrCodeOnly(_) => []
    case ErrObjectOnly(obj) => obj.bytes
    case Err(code, obj) => EncodeArrayHead(2) + EncodeStr(CodeName(code)) + obj.bytes
  }

  /** `retrieve_req_id`: only the five-byte uint32 form is accepted; bytes behind it are ignored. */
  function RetrieveId(raw: Bytes): (id: Option<nat>)
    ensures id.Some? ==> id.value < U32_SIZE
  {
    Pow256Values();
    if |raw| >= 5 && raw[0] == 0xCE then Some(FromBigEndian(raw[1..5])) else None
  }

  function ResponseFrame(rawId: Bytes, payload: ResponsePayload): Option<Bytes> {
    match RetrieveId(rawId)
    case None => None
    case Some(id) => Some(EncodeArrayHead(4) + EncodeUint(TYPE_RESPONSE) + EncodeUint(id) + ResponseSlots(payload))
  }

  /** What a refused encoding leaves in the buffer behind what was there. */
  function LeftBehind(rawId: Bytes, payload: Outgoing): Bytes {
    match RetrieveId(rawId)
    case None => []
    case Some(id) =>
      if Complete(payload) then []
      else EncodeArrayHead(4) + EncodeUint(TYPE_RESPONSE) + EncodeUint(id) + PartialSlots(payload)
  }

  function RestoreRequestId(raw: Bytes): Option<RequestId> {
    match RetrieveId(raw)
    case None => None
    case Some(id) => if id > 0 then Some(id) else None
  }

  // ---- Decoding: each reader takes a cursor into the frame and returns the value and the next cursor ----

  /** The big-endian number of `k` bytes at the cursor. */
  function ReadBytes(frame: Bytes, pos: nat, k: nat): (read: Option<(nat, nat)>)
    ensures read.Some? ==> read.value.1 == pos + k <= |frame|
  {
    if pos + k <= |frame| then Some((FromBigEndian(frame[pos..pos + k]), pos + k)) else None
  }

  /** The two's-complement value of a `size`-valued word, when it is not negative. */
  function NonNegative(read: Option<(nat, nat)>, size: nat): Option<(nat, nat)> {
    match read
    case Some((v, next)) => if v < size / 2 then Some((v, next)) else None
    case None => None
  }

  /** `read_int` into an unsigned type of `size` values: any integer format, out-of-range values refused. */
  function ReadInt(frame: Bytes, pos: nat, size: nat): (read: Option<(nat, nat)>)
    ensures read.Some? ==> pos < read.value.1 <= |frame| && read.value.0 < size
  {
    if pos >= |frame| then None else
    var marker := frame[pos];
    var word: Option<(nat, nat)> :=
      if marker < 0x80 then Some((marker, pos + 1))
      else if marker == 0xCC then ReadBytes(frame, pos + 1, 1)
      else if marker == 0xCD then ReadBytes(frame, pos + 1, 2)
      else if marker == 0xCE then ReadBytes(frame, pos + 1, 4)
      else if marker == 0xCF then ReadBytes(frame, pos + 1, 8)
      else if marker == 0xD0 then NonNegative(ReadBytes(frame, pos + 1, 1), 256)
      else if marker == 0xD1 then NonNegative(ReadBytes(frame, pos + 1, 2), 65536)
      else if marker == 0xD2 then NonNegative(ReadBytes(frame, pos + 1, 4), U32_SIZE)
      else if marker == 0xD3 then NonNegative(ReadBytes(frame, pos + 1, 8), U64_SIZE)
      else None;
    match word
    case Some((v, next)) => if v < size then Some((v, next)) else None
    case None => None
  }

  function ReadArrayLen(frame: Bytes, pos: nat): (read: Option<(nat, nat)>)
    ensures read.Some? ==> pos < read.value.1 <= |frame|
  {
    if pos >= |frame| then None
    else if 0x90 <= frame[pos] < 0xA0 then Some((frame[pos] - 0x90, pos + 1))
    else if frame[pos] == 0xDC then ReadBytes(frame, pos + 1, 2)
    else if frame[pos] == 0xDD then ReadBytes(frame, pos + 1, 4)
    else None
  }

  function ReadStrLen(frame: Bytes, pos: nat): (read: Option<(nat, nat)>)
    ensures read.Some? ==> pos < read.value.1 <= |frame|
  {
    if pos >= |frame| then None
    else if 0xA0 <= frame[pos] < 0xC0 then Some((frame[pos] - 0xA0, pos + 1))
    else if frame[pos] == 0xD9 then ReadBytes(frame, pos + 1, 1)
    else if frame[pos] == 0xDA then ReadBytes(frame, pos + 1, 2)
    else if frame[pos] == 0xDB then ReadBytes(frame, pos + 1, 4)
    else None
  }

  /** Tries to read the error object as the pair (code, object): the code and the cursor behind its name. */
  function ReadErrorCode(frame: Bytes, pos: nat): (read: Option<(ResponseError, nat)>)
    ensures read.Some? ==> pos < read.value.1 <= |frame|
  {
    match ReadArrayLen(frame, pos)
    case None => None
    case Some((count, afterHead)) =>
      if count != 2 then None else
      match ReadStrLen(frame, afterHead)
      case None => None
      case Some((len, start)) =>
        if start + len > |frame| then None else
        match CodeFromName(frame[start..start + len])
        case None => None
        case Some(code) => Some((code, start + len))
  }

  function DecodeCall(frame: Bytes, pos: nat, rawId: Option<Range>): Decoded {
    match ReadStrLen(frame, pos)
    case None => Malformed
    case Some((len, start)) =>
      if start + len > |frame| then Panicked else  // `advance` past the end of the frame
      var name := Range(AsU32(start), AsU32(start + len));
      var params := Range(AsU32(start + len), AsU32(|frame|));
      match rawId
      case Some(id) => Frame(Request(id, name, params))
      case None => Frame(Notify(name, params))
  }

  function DecodeResponse(frame: Bytes, pos: nat): Decoded
    requires |frame| > 0
  {
    match ReadInt(frame, pos, U32_SIZE)
    case None => Malformed
    case Some((id, slot)) =>
      if id == 0 then Malformed else
      if slot < |frame| && frame[slot] == NIL then
        Frame(Response(id, None, Range(AsU32(slot + 1), AsU32(|frame|))))
      else if frame[|frame| - 1] != NIL then Malformed
      else
        match ReadErrorCode(frame, slot)
        case Some((code, next)) => Frame(Response(id, Some(code), Range(AsU32(next), AsU32(|frame| - 1))))
        case None => Frame(Response(id, Some(Unknown), Range(AsU32(slot), AsU32(|frame| - 1))))
  }

  /** `decode_inbound`. */
  function Decode(frame: Bytes): Decoded {
    match ReadArrayLen(frame, 0)
    case None => Malformed
    case Some((count, typePos)) =>
      match ReadInt(frame, typePos, 256)
      case None => Malformed
      case Some((ty, pos)) =>
        if count == 4 && ty == TYPE_REQUEST then
          match ReadInt(frame, pos, U32_SIZE) {
            case None => Malformed
            case Some((_, next)) => DecodeCall(frame, next, Some(Range(AsU32(pos), AsU32(next))))
          }
        else if count == 3 && ty == TYPE_NOTIFICATION then DecodeCall(frame, pos, None)
        else if count == 4 && ty == TYPE_RESPONSE then DecodeResponse(frame, pos)
        else Malformed
  }

  // ---- The codec's entry points ----

  /** `encode_notify`. */
  method EncodeNotify(name: Bytes, params: Serialized, buf: BytesMut) returns (error: Option<EncodeError>)
    modifies buf
    ensures buf.data == old(buf.data) + NotifyFrame(name, params.bytes)
    ensures error == if params.complete then None else Some(SerializeFailed)
  {
    buf.Extend(EncodeArrayHead(3));
    buf.Extend(EncodeUint(TYPE_NOTIFICATION));
    buf.Extend(EncodeStr(name));
    buf.Extend(params.bytes);
    return if params.complete then None else Some(SerializeFailed);
  }

  /** `encode_request`: narrows the id in place, appends the frame and returns the id that went on the wire. */
  method EncodeRequest(reqId: RequestId, name: Bytes, params: Serialized, buf: BytesMut)
    returns (error: Option<EncodeError>, id: RequestId)
    modifies buf
    ensures buf.data == old(buf.data) + RequestFrame(reqId, name, params.bytes)
    ensures error == if params.complete then None else Some(SerializeFailed)
    ensures id == NarrowId(reqId)
  {
    hide EncodeStr, EncodeUint;
    id := reqId;
    if id >= U32_SIZE {
      var low := id % U32_SIZE;
      id := if low == 0 then 1 else low;
    }
    buf.Extend(EncodeArrayHead(4));
    buf.Extend(EncodeUint(TYPE_REQUEST));
    buf.Extend(EncodeUint(id));
    buf.Extend(EncodeStr(name));
    buf.Extend(params.bytes);
    return if params.complete then None else Some(SerializeFailed), id;
  }

  /** The slots of a response, up to where serialising the object stops. */
  method EncodeSlots(payload: Outgoing, buf: BytesMut) returns (done: bool)
    modifies buf
    ensures done == Complete(payload)
    ensures buf.data == old(buf.data) + if done then ResponseSlots(Written(payload)) else PartialSlots(payload)
  {
    hide CodeName, EncodeStr, EncodeArrayHead;
    match payload {
      case Ok(obj) =>
        buf.Extend([NIL]);
        buf.Extend(obj.bytes);
        return obj.complete;
      case ErrCodeOnly(code) =>
        done := EncodeCodedSlots(code, Serialized([NIL], true), buf);
      case ErrObjectOnly(obj) =>
        buf.Extend(obj.bytes);
        if !obj.complete {
          return false;
        }
        buf.Extend([NIL]);
        return true;
      case Err(code, obj) =>
        done := EncodeCodedSlots(code, obj, buf);
    }
  }

  method EncodeCodedSlots(code: ResponseError, obj: Serialized, buf: BytesMut) returns (done: bool)
    modifies buf
    ensures done == obj.complete
    ensures var lead := EncodeArrayHead(2) + EncodeStr(CodeName(code)) + obj.bytes;
            buf.data == old(buf.data) + if done then lead + [NIL] else lead
  {
    hide CodeName, EncodeStr;
    buf.Extend(EncodeArrayHead(2));
    buf.Extend(EncodeStr(CodeName(code)));
    buf.Extend(obj.bytes);
    if !obj.complete {
      return false;
    }
    buf.Extend([NIL]);
    return true;
  }

  /** `encode_response`: nothing is written for an id that is not in the five-byte form; when serialising the object
      stops half-way, what was written so far stays in the buffer. */
  method EncodeResponse(rawId: Bytes, payload: Outgoing, buf: BytesMut) returns (error: Option<EncodeError>)
    modifies buf
    ensures ResponseFrame(rawId, Written(payload)).None? ==>
              error == Some(InvalidRequestId) && buf.data == old(buf.data)
    ensures ResponseFrame(rawId, Written(payload)).Some? && Complete(payload) ==>
              error == None && buf.data == old(buf.data) + ResponseFrame(rawId, Written(payload)).value
    ensures ResponseFrame(rawId, Written(payload)).Some? && !Complete(payload) ==>
              error == Some(SerializeFailed) && buf.data == old(buf.data) + LeftBehind(rawId, payload)
  {
    hide ResponseSlots, PartialSlots, EncodeUint, EncodeArrayHead, RetrieveId, Complete, Written;
    ghost var before := buf.data;
    var id := RetrieveId(rawId);
    if id.None? {
      return Some(InvalidRequestId);
    }
    buf.Extend(EncodeArrayHead(4));
    buf.Extend(EncodeUint(TYPE_RESPONSE));
    buf.Extend(EncodeUint(id.value));
    ghost var lead := EncodeArrayHead(4) + EncodeUint(TYPE_RESPONSE) + EncodeUint(id.value);
    assert buf.data == before + lead;
    var done := EncodeSlots(payload, buf);
    return if done then None else Some(SerializeFailed);
  }
}
