/** The two codecs behind one interface, and what sending and answering a request comes to with either. */
module Codecs {
  import opened Common
  import opened Codec
  import MsgPackRpc
  import MsgPackRoundTrip
  import RawRpc
  import RawRoundTrip
  import Utf8

  datatype Kind = MsgPack | Raw

  /** The id under which a request is sent, given the generated one. */
  function WireId(kind: Kind, id: RequestId): RequestId {
    match kind
    case MsgPack => MsgPackRpc.NarrowId(id)
    case Raw => id
  }

  function RequestFrame(kind: Kind, id: RequestId, name: Bytes, params: Bytes): Bytes {
    match kind
    case MsgPack => MsgPackRpc.RequestFrame(id, name, params)
    case Raw => RawRpc.RequestFrame(id, name, params)
  }

  function ResponseFrame(kind: Kind, rawId: Bytes, payload: ResponsePayload): Option<Bytes> {
    match kind
    case MsgPack => MsgPackRpc.ResponseFrame(rawId, payload)
    case Raw => RawRpc.ResponseFrame(rawId, payload)
  }

  function Decode(kind: Kind, frame: Bytes): Decoded {
    match kind
    case MsgPack => MsgPackRpc.Decode(frame)
    case Raw => RawRpc.Decode(frame)
  }

  function NotifyFrame(kind: Kind, name: Bytes, params: Bytes): Bytes {
    match kind
    case MsgPack => MsgPackRpc.NotifyFrame(name, params)
    case Raw => RawRpc.NotifyFrame(name, params)
  }

  /** The id bytes inside a request frame. */
  function RawIdOf(kind: Kind, id: RequestId): Bytes {
    match kind
    case MsgPack => MsgPackRpc.EncodeUint(MsgPackRpc.NarrowId(id))
    case Raw => RawRpc.IdBytes(id)
  }

  /** What the requesting peer reads when `payload` is sent. */
  function Received(kind: Kind, payload: ResponsePayload): Verdict {
    match kind
    case MsgPack => MsgPackRoundTrip.Received(payload)
    case Raw => RawRoundTrip.Received(payload)
  }

  /** A request arrives with its id bytes, its name and its parameters in place. */
  lemma RequestArrives(kind: Kind, id: RequestId, name: Bytes, params: Bytes)
    requires |RequestFrame(kind, id, name, params)| < U32_SIZE && Utf8.Valid(name)
    ensures IsRequestOf(Decode(kind, RequestFrame(kind, id, name, params)), RequestFrame(kind, id, name, params),
                        RawIdOf(kind, id), name, params)
  {
    hide Utf8.Valid;
    match kind
    case MsgPack => MsgPackRoundTrip.RequestRoundTrip(id, name, params);
    case Raw => RawRoundTrip.RequestRoundTrip(id, name, params);
  }

  lemma NotifyArrives(kind: Kind, name: Bytes, params: Bytes)
    requires |NotifyFrame(kind, name, params)| < U32_SIZE && Utf8.Valid(name)
    ensures IsNotifyOf(Decode(kind, NotifyFrame(kind, name, params)), NotifyFrame(kind, name, params), name, params)
  {
    hide Utf8.Valid;
    match kind
    case MsgPack => MsgPackRoundTrip.NotifyRoundTrip(name, params);
    case Raw => RawRoundTrip.NotifyRoundTrip(name, params);
  }

  /** Whether a request can be answered at all: with msgpack only when its wire id needs 32 bits. */
  lemma AnswerableIff(kind: Kind, id: RequestId, payload: ResponsePayload)
    ensures ResponseFrame(kind, RawIdOf(kind, id), payload).Some? <==> kind.Raw? || WireId(kind, id) >= 65536
  {
    match kind
    case MsgPack => MsgPackRoundTrip.WireId(id);
    case Raw =>
      RawRoundTrip.IdBytesRoundTrip(id, []);
      assert RawRpc.IdBytes(id) + [] == RawRpc.IdBytes(id);
  }

  /** The answer to a request, built from the request's own id bytes, decodes to the wire id and to what `Received`
      says about its payload. */
  lemma AnswerArrives(kind: Kind, id: RequestId, payload: ResponsePayload, frame: Bytes)
    requires ResponseFrame(kind, RawIdOf(kind, id), payload) == Some(frame) && |frame| < U32_SIZE
    ensures IsResponseOf(Decode(kind, frame), frame, WireId(kind, id), Received(kind, payload))
  {
    AnswerableIff(kind, id, payload);
    match kind
    case MsgPack =>
      MsgPackRoundTrip.WireId(id);
      MsgPackRoundTrip.ResponseRoundTrip(RawIdOf(kind, id), payload, frame);
    case Raw =>
      RawRoundTrip.IdBytesRoundTrip(id, []);
      assert RawRpc.IdBytes(id) + [] == RawRpc.IdBytes(id);
      RawRoundTrip.ResponseRoundTrip(RawIdOf(kind, id), payload, frame);
  }

  /** The id that a peer reads from the id bytes of an answer. */
  function RestoreRequestId(kind: Kind, rawId: Bytes): Option<RequestId> {
    match kind
    case MsgPack => MsgPackRpc.RestoreRequestId(rawId)
    case Raw => RawRpc.RestoreRequestId(rawId)
  }

  /** The same for whatever id bytes a request came with. */
  lemma AnswerArrivesFor(kind: Kind, rawId: Bytes, id: RequestId, payload: ResponsePayload, frame: Bytes)
    requires ResponseFrame(kind, rawId, payload) == Some(frame) && |frame| < U32_SIZE
    requires RestoreRequestId(kind, rawId) == Some(id)
    ensures IsResponseOf(Decode(kind, frame), frame, id, Received(kind, payload))
  {
    match kind
    case MsgPack => MsgPackRoundTrip.ResponseRoundTrip(rawId, payload, frame);
    case Raw => RawRoundTrip.ResponseRoundTrip(rawId, payload, frame);
  }

  /** Different wire ids have different id bytes. */
  lemma RawIdInjective(kind: Kind, i: RequestId, j: RequestId)
    requires RawIdOf(kind, i) == RawIdOf(kind, j)
    ensures WireId(kind, i) == WireId(kind, j)
  {
    match kind
    case MsgPack =>
      MsgPackRoundTrip.ReadEncodedUint([], MsgPackRpc.NarrowId(i), [], U64_SIZE);
      MsgPackRoundTrip.ReadEncodedUint([], MsgPackRpc.NarrowId(j), [], U64_SIZE);
    case Raw =>
      RawRoundTrip.IdBytesRoundTrip(i, []);
      RawRoundTrip.IdBytesRoundTrip(j, []);
  }

  /** Whatever frame comes in: the ranges of a decoded call are in bounds, and the raw id of a request does not end
      at 0. */
  lemma DecodedCallInBounds(kind: Kind, frame: Bytes)
    requires |frame| < U32_SIZE
    ensures match Decode(kind, frame)
            case Frame(Request(id, name, params)) =>
              && 0 < id.end && id.Within(frame) && name.Within(frame) && params.Within(frame)
            case Frame(Notify(name, params)) => name.Within(frame) && params.Within(frame)
            case _ => true
  {
    hide MsgPackRpc.Decode, RawRpc.Decode, Utf8.Valid;
    match kind
    case MsgPack => MsgPackRoundTrip.DecodedRangesInBounds(frame);
    case Raw => RawRoundTrip.DecodedRangesInBounds(frame);
  }

  /** The buffer behind the encoding of a request whose parameters may not serialise to the end. */
  function AfterRequest(kind: Kind, before: Bytes, id: RequestId, name: Bytes, params: Serialized): Bytes {
    if kind.Raw? && !params.complete then [] else before + RequestFrame(kind, id, name, params.bytes)
  }

  /** The buffer behind the encoding of a notification whose parameters may not serialise to the end. */
  function AfterNotify(kind: Kind, before: Bytes, name: Bytes, params: Serialized): Bytes {
    if kind.Raw? && !params.complete then [] else before + NotifyFrame(kind, name, params.bytes)
  }

  /** The buffer behind an encoding of a response that was refused. */
  function AfterRefusal(kind: Kind, before: Bytes, rawId: Bytes, payload: Outgoing): Bytes {
    match kind
    case MsgPack => before + MsgPackRpc.LeftBehind(rawId, payload)
    case Raw => if ResponseFrame(Raw, rawId, Written(payload)).None? || Complete(payload) then before else []
  }

  /** An encoding is refused for its id, or because its object does not serialise to the end. */
  function Refusal(kind: Kind, rawId: Bytes, payload: Outgoing): Option<EncodeError> {
    if ResponseFrame(kind, rawId, Written(payload)).None? then Some(InvalidRequestId)
    else if !Complete(payload) then Some(SerializeFailed)
    else None
  }

  method EncodeRequest(kind: Kind, reqId: RequestId, name: Bytes, params: Serialized, buf: BytesMut)
    returns (error: Option<EncodeError>, id: RequestId)
    modifies buf
    ensures buf.data == AfterRequest(kind, old(buf.data), reqId, name, params)
    ensures error == if params.complete then None else Some(SerializeFailed)
    ensures id == WireId(kind, reqId)
  {
    match kind {
      case MsgPack => error, id := MsgPackRpc.EncodeRequest(reqId, name, params, buf);
      case Raw => error, id := RawRpc.EncodeRequest(reqId, name, params, buf);
    }
  }

  method EncodeNotify(kind: Kind, name: Bytes, params: Serialized, buf: BytesMut) returns (error: Option<EncodeError>)
    modifies buf
    ensures buf.data == AfterNotify(kind, old(buf.data), name, params)
    ensures error == if params.complete then None else Some(SerializeFailed)
  {
    match kind {
      case MsgPack => error := MsgPackRpc.EncodeNotify(name, params, buf);
      case Raw => error := RawRpc.EncodeNotify(name, params, buf);
    }
  }

  method EncodeResponse(kind: Kind, rawId: Bytes, payload: Outgoing, buf: BytesMut)
    returns (error: Option<EncodeError>)
    modifies buf
    ensures error == Refusal(kind, rawId, payload)
    ensures error.None? ==> ResponseFrame(kind, rawId, Written(payload)).Some?
    ensures error.None? ==> buf.data == old(buf.data) + ResponseFrame(kind, rawId, Written(payload)).value
    ensures error.Some? ==> buf.data == AfterRefusal(kind, old(buf.data), rawId, payload)
  {
    hide Complete, Written;
    match kind {
      case MsgPack => error := MsgPackRpc.EncodeResponse(rawId, payload, buf);
      case Raw => error := RawRpc.EncodeResponse(rawId, payload, buf);
    }
  }
}
