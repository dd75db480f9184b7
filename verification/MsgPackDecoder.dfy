/** The msgpack-rpc decoder as it runs: one cursor moves through the frame. */
module MsgPackDecoder {
  import opened Common
  import opened Codec
  import opened MsgPackRpc
  import MsgPackRoundTrip

  /** The frame was encoded as one of the three kinds of message, and `d` reads it back. */
  ghost predicate ReadsBack(frame: Bytes, d: Decoded) {
    && (forall id, name, params :: frame == RequestFrame(id, name, params) ==>
          IsRequestOf(d, frame, EncodeUint(NarrowId(id)), name, params))
    && (forall name, params :: frame == NotifyFrame(name, params) ==> IsNotifyOf(d, frame, name, params))
    && (forall rawId, payload :: RestoreRequestId(rawId).Some? && ResponseFrame(rawId, payload) == Some(frame) ==>
          IsResponseOf(d, frame, RestoreRequestId(rawId).value, MsgPackRoundTrip.Received(payload)))
  }

  lemma DecodeReadsBack(frame: Bytes)
    requires |frame| < U32_SIZE
    ensures ReadsBack(frame, Decode(frame))
  {
    hide Decode, RequestFrame, NotifyFrame, ResponseFrame, RestoreRequestId, EncodeUint;
    forall id, name, params | frame == RequestFrame(id, name, params)
      ensures IsRequestOf(Decode(frame), frame, EncodeUint(NarrowId(id)), name, params)
    {
      MsgPackRoundTrip.RequestRoundTrip(id, name, params);
    }
    forall name, params | frame == NotifyFrame(name, params)
      ensures IsNotifyOf(Decode(frame), frame, name, params)
    {
      MsgPackRoundTrip.NotifyRoundTrip(name, params);
    }
    forall rawId, payload | RestoreRequestId(rawId).Some? && ResponseFrame(rawId, payload) == Some(frame)
      ensures IsResponseOf(Decode(frame), frame, RestoreRequestId(rawId).value, MsgPackRoundTrip.Received(payload))
    {
      MsgPackRoundTrip.ResponseRoundTrip(rawId, payload, frame);
    }
  }

  /** `decode_inbound`: reads back every encoded request, notification and response. */
  method DecodeInbound(frame: Bytes) returns (d: Decoded)
    ensures d == Decode(frame)
    ensures |frame| < U32_SIZE ==> ReadsBack(frame, d)
  {
    hide ReadArrayLen, ReadInt, ReadsBack;
    if |frame| < U32_SIZE {
      DecodeReadsBack(frame);
    }
    var rd := 0;
    var count := ReadArrayLen(frame, rd);
    if count.None? {
      return Malformed;
    }
    rd := count.value.1;
    var ty := ReadInt(frame, rd, 256);
    if ty.None? {
      return Malformed;
    }
    rd := ty.value.1;
    match (count.value.0, ty.value.0) {
      case (4, TYPE_REQUEST) =>
        var start := rd;
        var id := ReadInt(frame, rd, U32_SIZE);
        if id.None? {
          return Malformed;
        }
        rd := id.value.1;
        d := DecodeCallAt(frame, rd, Some(Range(AsU32(start), AsU32(rd))));
      case (3, TYPE_NOTIFICATION) => d := DecodeCallAt(frame, rd, None);
      case (4, TYPE_RESPONSE) => d := DecodeResponseAt(frame, rd);
      case _ => d := Malformed;
    }
  }

  /** The rest of a request or a notification. */
  method DecodeCallAt(frame: Bytes, pos: nat, rawId: Option<Range>) returns (d: Decoded)
    ensures d == DecodeCall(frame, pos, rawId)
  {
    hide ReadStrLen;
    var rd := pos;
    var len := ReadStrLen(frame, rd);
    if len.None? {
      return Malformed;
    }
    rd := len.value.1;
    var start := rd;
    if rd + len.value.0 > |frame| {
      return Panicked;
    }
    rd := rd + len.value.0;
    var name, params := Range(AsU32(start), AsU32(rd)), Range(AsU32(rd), AsU32(|frame|));
    return Frame(if rawId.Some? then Request(rawId.value, name, params) else Notify(name, params));
  }

  /** The rest of a response. */
  method DecodeResponseAt(frame: Bytes, pos: nat) returns (d: Decoded)
    requires |frame| > 0
    ensures d == DecodeResponse(frame, pos)
  {
    hide ReadInt, ReadErrorCode;
    var rd := pos;
    var id := ReadInt(frame, rd, U32_SIZE);
    if id.None? || id.value.0 == 0 {
      return Malformed;
    }
    rd := id.value.1;
    var isOk := rd < |frame| && frame[rd] == NIL;
    if isOk {
      rd := rd + 1;
    } else if frame[|frame| - 1] != NIL {
      return Malformed;
    }
    var end := if isOk then |frame| else |frame| - 1;
    if isOk {
      return Frame(Response(id.value.0, None, Range(AsU32(rd), AsU32(end))));
    }
    var code := FindErrorCode(frame, rd);
    if code.Some? {
      return Frame(Response(id.value.0, Some(code.value.0), Range(AsU32(code.value.1), AsU32(end))));
    }
    return Frame(Response(id.value.0, Some(Unknown), Range(AsU32(rd), AsU32(end))));
  }

  /** The labelled block that looks for a code in front of the error object, on a cursor of its own. */
  method FindErrorCode(frame: Bytes, pos: nat) returns (found: Option<(ResponseError, nat)>)
    ensures found == ReadErrorCode(frame, pos)
  {
    hide CodeFromName, ReadArrayLen, ReadStrLen;
    var rd := pos;
    var count := ReadArrayLen(frame, rd);
    if count.None? || count.value.0 != 2 {
      return None;
    }
    rd := count.value.1;
    var len := ReadStrLen(frame, rd);
    if len.None? || len.value.1 + len.value.0 > |frame| {
      return None;
    }
    rd := len.value.1;
    var code := CodeFromName(frame[rd..rd + len.value.0]);
    if code.None? {
      return None;
    }
    rd := rd + len.value.0;
    return Some((code.value, rd));
  }
}
