/** Answers encoded behind what refused calls left in the same buffer. */
module Leftovers {
  import opened Common
  import opened Codec
  import opened Codecs
  import opened Retries
  import Utf8
  import MsgPackRpc
  import MsgPackRoundTrip

  /** The first byte of an answer over msgpack: an array of four. */
  const OPENING := 0x94

  /** A response that has been opened: its id is written, its slots are not. */
  function Opened(id: nat): Bytes
    requires id < U32_SIZE
  {
    [OPENING, 1] + MsgPackRpc.EncodeUint(id)
  }

  lemma LeftBehindOpens(rawId: Bytes, payload: Outgoing)
    requires Refusal(MsgPack, rawId, payload) == Some(SerializeFailed)
    ensures MsgPackRpc.RetrieveId(rawId).Some?
    ensures MsgPackRpc.LeftBehind(rawId, payload)
         == Opened(MsgPackRpc.RetrieveId(rawId).value) + MsgPackRpc.PartialSlots(payload)
  {
    hide MsgPackRpc.RetrieveId, MsgPackRpc.PartialSlots;
  }

  lemma AnswerOpens(rawId: Bytes, payload: ResponsePayload, frame: Bytes)
    requires MsgPackRpc.ResponseFrame(rawId, payload) == Some(frame)
    ensures |frame| > 0 && frame[0] == OPENING && |MsgPackRoundTrip.Received(payload).payload| + 4 <= |frame|
  {
    hide MsgPackRpc.RetrieveId, MsgPackRpc.ReadErrorCode, CodeName;
    match payload
    case Ok(_) =>
    case ErrCodeOnly(code) => CodeNameFacts(code);
    case Err(code, _) => CodeNameFacts(code);
    case ErrObjectOnly(_) =>
  }

  /** No way of writing a code name in front of an error object contains the byte that opens an answer. */
  lemma LeadAvoidsOpening(lead: Bytes, code: ResponseError)
    requires MsgPackRoundTrip.OpensCodedPair(lead, code)
    ensures OPENING !in lead
  {
    hide CodeName;
    CodeNameFacts(code);
    CodeNameIsAscii(code);
  }

  lemma CodeNameIsAscii(code: ResponseError)
    ensures forall b :: b in CodeName(code) ==> b < 128
  {
  }

  lemma SliceHas(frame: Bytes, begin: nat, end: nat, k: nat)
    requires begin <= k < end <= |frame|
    ensures frame[k] in frame[begin..end]
  {
    assert frame[begin..end][k - begin] == frame[k];
  }

  /** Whatever stands behind an opened response becomes part of its payload, but for its last byte at most. */
  lemma OpenResponseSwallows(frame: Bytes, id: nat, slots: Bytes, more: Bytes)
    requires id < U32_SIZE && |frame| < U32_SIZE && frame == Opened(id) + (slots + more)
    requires more != [] && more[0] == OPENING
    ensures var d := MsgPackRpc.Decode(frame);
            d.Frame? && d.frame.Response? && d.frame.payload.Within(frame) ==>
              |more| <= |d.frame.payload.Of(frame)| + 1
  {
    hide MsgPackRpc.Decode, MsgPackRpc.ReadInt, MsgPackRpc.ReadErrorCode, MsgPackRpc.EncodeUint, AsU32;
    hide MsgPackRoundTrip.OpensCodedPair;
    MsgPackRoundTrip.DecodeEncodedResponse(frame, id, slots + more);
    var slot := 2 + |MsgPackRpc.EncodeUint(id)|;
    AsU32Fits(slot);
    AsU32Fits(slot + 1);
    AsU32Fits(|frame|);
    AsU32Fits(|frame| - 1);
    var read := MsgPackRpc.ReadErrorCode(frame, slot);
    if read.Some? {
      var (code, next) := read.value;
      AsU32Fits(next);
      MsgPackRoundTrip.ReadErrorCodeIff(frame, slot, code, next);
      LeadAvoidsOpening(frame[slot..next], code);
      assert frame[slot + |slots|] == OPENING;
      if slot + |slots| < next {
        SliceHas(frame, slot, next, slot + |slots|);
      }
    }
  }

  // ---- A buffer after refused encodings ----

  /** A call that used the buffer and was refused: an answer, a request after some attempts, or a notification. */
  datatype Call =
    | Answer(rawId: Bytes, payload: Outgoing)
    | Send(ids: seq<RequestId>, attempts: nat, name: Bytes, params: Serialized)
    | Notify(name: Bytes, params: Serialized)

  /** An answer is refused for its id or its object; a request after any number of attempts, the first one included if
      its parameters do not serialise to the end; a notification only for its parameters. */
  predicate IsRefused(kind: Kind, call: Call) {
    match call
    case Answer(rawId, payload) => Refusal(kind, rawId, payload).Some?
    case Send(ids, attempts, name, params) =>
      attempts <= |ids| && Utf8.Valid(name) && (!params.complete ==> attempts <= 1)
    case Notify(name, params) => Utf8.Valid(name) && !params.complete
  }

  predicate AllRefused(kind: Kind, calls: seq<Call>) {
    forall i :: 0 <= i < |calls| ==> IsRefused(kind, calls[i])
  }

  /** Sending clears the buffer first, answering does not. */
  function AfterCall(kind: Kind, before: Bytes, call: Call): Bytes {
    match call
    case Answer(rawId, payload) => AfterRefusal(kind, before, rawId, payload)
    case Send(ids, attempts, name, params) =>
      if attempts == 0 || |ids| < attempts then []
      else if params.complete then Encodings(kind, ids, attempts, name, params.bytes)
      else AfterRequest(kind, [], ids[0], name, params)
    case Notify(name, params) => AfterNotify(kind, [], name, params)
  }

  /** What refused calls leave in a buffer that was empty before. */
  function Leftover(kind: Kind, calls: seq<Call>): Bytes {
    if calls == [] then [] else AfterCall(kind, Leftover(kind, calls[..|calls| - 1]), calls[|calls| - 1])
  }

  /** What the calls returned tells whether anything is left: an answer refused for its id changes nothing; anything
      else over rawrpc leaves something only if whole requests were encoded, and over msgpack if anything was. */
  predicate NothingLeft(kind: Kind, calls: seq<Call>) {
    calls == [] ||
    match calls[|calls| - 1]
    case Answer(rawId, payload) =>
      if Refusal(kind, rawId, payload) == Some(InvalidRequestId) then NothingLeft(kind, calls[..|calls| - 1])
      else kind.Raw?
    case Send(_, attempts, _, params) => attempts == 0 || (kind.Raw? && !params.complete)
    case Notify(_, _) => kind.Raw?
  }

  /** What a buffer that is not empty holds: a request or a notification, or over msgpack an opened answer; anything
      behind it becomes part of it. */
  datatype Shape =
    | ARequest(id: RequestId, name: Bytes, params: Bytes)
    | ANotification(name: Bytes, params: Bytes)
    | AnOpenedAnswer(wireId: nat, slots: Bytes, more: Bytes)

  predicate ShapeOk(kind: Kind, shape: Shape) {
    match shape
    case ARequest(_, name, _) => Utf8.Valid(name)
    case ANotification(name, _) => Utf8.Valid(name)
    case AnOpenedAnswer(wireId, _, more) => kind.MsgPack? && wireId < U32_SIZE && (more == [] || more[0] == OPENING)
  }

  function ShapeBytes(kind: Kind, shape: Shape): Bytes
    requires ShapeOk(kind, shape)
  {
    match shape
    case ARequest(id, name, params) => RequestFrame(kind, id, name, params)
    case ANotification(name, params) => NotifyFrame(kind, name, params)
    case AnOpenedAnswer(wireId, slots, more) => Opened(wireId) + (slots + more)
  }

  lemma ShapeAbsorbs(kind: Kind, shape: Shape, bytes: Bytes) returns (longer: Shape)
    requires ShapeOk(kind, shape) && (bytes == [] || bytes[0] == OPENING)
    ensures ShapeOk(kind, longer) && ShapeBytes(kind, longer) == ShapeBytes(kind, shape) + bytes
  {
    hide Utf8.Valid, RequestFrame, NotifyFrame, Opened;
    match shape
    case ARequest(id, name, params) =>
      FrameAbsorbs(kind, id, name, params, bytes);
      longer := ARequest(id, name, params + bytes);
    case ANotification(name, params) =>
      NotifyAbsorbs(kind, name, params, bytes);
      longer := ANotification(name, params + bytes);
    case AnOpenedAnswer(wireId, slots, more) =>
      assert (Opened(wireId) + (slots + more)) + bytes == Opened(wireId) + (slots + (more + bytes));
      longer := AnOpenedAnswer(wireId, slots, more + bytes);
  }

  lemma ShapeIsNotEmpty(kind: Kind, shape: Shape)
    requires ShapeOk(kind, shape)
    ensures ShapeBytes(kind, shape) != []
  {
    hide Utf8.Valid;
  }

  lemma RefusedForItsId(rawId: Bytes, payload: Outgoing)
    ensures Refusal(MsgPack, rawId, payload) == Some(InvalidRequestId) ==> MsgPackRpc.LeftBehind(rawId, payload) == []
  {
  }

  lemma LeftBehindShape(rawId: Bytes, payload: Outgoing)
    requires Refusal(MsgPack, rawId, payload).Some?
    ensures var left := MsgPackRpc.LeftBehind(rawId, payload);
            if Refusal(MsgPack, rawId, payload) == Some(InvalidRequestId) then left == []
            else MsgPackRpc.RetrieveId(rawId).Some? && left != [] && left[0] == OPENING
                 && left == Opened(MsgPackRpc.RetrieveId(rawId).value) + MsgPackRpc.PartialSlots(payload)
  {
    hide MsgPackRpc.RetrieveId, MsgPackRpc.PartialSlots, MsgPackRpc.EncodeUint;
    RefusedForItsId(rawId, payload);
    if Refusal(MsgPack, rawId, payload) == Some(SerializeFailed) {
      LeftBehindOpens(rawId, payload);
    }
  }

  lemma SendShape(kind: Kind, call: Call) returns (shape: Shape)
    requires call.Send? && IsRefused(kind, call) && call.attempts > 0 && (kind.Raw? ==> call.params.complete)
    ensures ShapeOk(kind, shape) && ShapeBytes(kind, shape) == AfterCall(kind, [], call)
  {
    hide Utf8.Valid, RequestFrame, Encodings;
    if call.params.complete {
      var rest := EncodingsSplit(kind, call.ids, call.attempts, call.name, call.params.bytes);
      FrameAbsorbs(kind, call.ids[0], call.name, call.params.bytes, rest);
      shape := ARequest(call.ids[0], call.name, call.params.bytes + rest);
    } else {
      assert [] + RequestFrame(kind, call.ids[0], call.name, call.params.bytes)
          == RequestFrame(kind, call.ids[0], call.name, call.params.bytes);
      shape := ARequest(call.ids[0], call.name, call.params.bytes);
    }
  }

  lemma {:induction false} LeftoverIsEmpty(kind: Kind, calls: seq<Call>)
    requires AllRefused(kind, calls) && NothingLeft(kind, calls)
    ensures Leftover(kind, calls) == []
  {
    hide ResponseFrame, Complete, Written, MsgPackRpc.LeftBehind, Utf8.Valid;
    if calls == [] {
    } else {
      var last := calls[|calls| - 1];
      assert IsRefused(kind, last);
      if last.Answer? {
        RefusedForItsId(last.rawId, last.payload);
        if Refusal(kind, last.rawId, last.payload) == Some(InvalidRequestId) {
          LeftoverIsEmpty(kind, calls[..|calls| - 1]);
        }
      }
    }
  }

  lemma {:induction false} LeftoverShape(kind: Kind, calls: seq<Call>) returns (shape: Shape)
    requires AllRefused(kind, calls) && !NothingLeft(kind, calls)
    ensures ShapeOk(kind, shape) && ShapeBytes(kind, shape) == Leftover(kind, calls)
    decreases |calls|, 0
  {
    hide Refusal, Opened, MsgPackRpc.LeftBehind, MsgPackRpc.PartialSlots, MsgPackRpc.RetrieveId, Utf8.Valid;
    hide RequestFrame, NotifyFrame, Encodings, ShapeBytes, ShapeOk;
    var init, last := calls[..|calls| - 1], calls[|calls| - 1];
    assert IsRefused(kind, last);
    match last
    case Answer(rawId, payload) => shape := AnswerShape(kind, init, rawId, payload);
    case Send(_, _, _, _) => shape := SendShape(kind, last);
    case Notify(name, params) => shape := NotifyShape(kind, name, params);
  }

  lemma NotifyShape(kind: Kind, name: Bytes, params: Serialized) returns (shape: Shape)
    requires kind.MsgPack? && Utf8.Valid(name)
    ensures ShapeOk(kind, shape) && ShapeBytes(kind, shape) == AfterNotify(kind, [], name, params)
  {
    hide Utf8.Valid, NotifyFrame;
    assert [] + NotifyFrame(kind, name, params.bytes) == NotifyFrame(kind, name, params.bytes);
    shape := ANotification(name, params.bytes);
  }

  /** A refused answer behind other calls. */
  lemma {:induction false} AnswerShape(kind: Kind, calls: seq<Call>, rawId: Bytes, payload: Outgoing)
    returns (shape: Shape)
    requires AllRefused(kind, calls) && Refusal(kind, rawId, payload).Some?
    requires if Refusal(kind, rawId, payload) == Some(InvalidRequestId) then !NothingLeft(kind, calls)
             else kind.MsgPack?
    ensures ShapeOk(kind, shape) && ShapeBytes(kind, shape) == AfterRefusal(kind, Leftover(kind, calls), rawId, payload)
    decreases |calls|, 1
  {
    hide Opened, MsgPackRpc.LeftBehind, MsgPackRpc.PartialSlots, MsgPackRpc.RetrieveId, Utf8.Valid, NothingLeft;
    hide RequestFrame, NotifyFrame, Encodings, Leftover, AllRefused, ResponseFrame, Complete, Written;
    var before, left := Leftover(kind, calls), MsgPackRpc.LeftBehind(rawId, payload);
    if kind.MsgPack? {
      LeftBehindShape(rawId, payload);
    }
    if !NothingLeft(kind, calls) {
      var inner := LeftoverShape(kind, calls);
      if kind.MsgPack? {
        shape := ShapeAbsorbs(kind, inner, left);
      } else {
        shape := inner;
      }
    } else {
      LeftoverIsEmpty(kind, calls);
      assert [] + left == left;
      shape := AnOpenedAnswer(MsgPackRpc.RetrieveId(rawId).value, MsgPackRpc.PartialSlots(payload), []);
      assert MsgPackRpc.PartialSlots(payload) + [] == MsgPackRpc.PartialSlots(payload);
    }
  }

  /** What the calls returned tells exactly whether the buffer is empty. */
  lemma LeftoverEmptyIff(kind: Kind, calls: seq<Call>)
    requires AllRefused(kind, calls)
    ensures Leftover(kind, calls) == [] <==> NothingLeft(kind, calls)
  {
    hide Leftover, NothingLeft, AllRefused, ShapeOk, ShapeBytes;
    if NothingLeft(kind, calls) {
      LeftoverIsEmpty(kind, calls);
    } else {
      var shape := LeftoverShape(kind, calls);
      ShapeIsNotEmpty(kind, shape);
    }
  }

  /** The answer-side twin of a retried request: an answer sent in a buffer that was empty before some refused calls
      arrives as the answer it is exactly when they left nothing there. */
  lemma OwnAnswerIff(kind: Kind, calls: seq<Call>, id: RequestId, payload: ResponsePayload, frame: Bytes)
    requires AllRefused(kind, calls)
    requires ResponseFrame(kind, RawIdOf(kind, id), payload) == Some(frame)
    requires |Leftover(kind, calls) + frame| < U32_SIZE
    ensures var sent := Leftover(kind, calls) + frame;
            IsResponseOf(Decode(kind, sent), sent, WireId(kind, id), Received(kind, payload))
            <==> NothingLeft(kind, calls)
  {
    hide Decode, RawIdOf, WireId, Leftover, AllRefused, NothingLeft, Received, ResponseFrame, ShapeOk, ShapeBytes;
    if NothingLeft(kind, calls) {
      LeftoverIsEmpty(kind, calls);
      assert [] + frame == frame;
      AnswerArrives(kind, id, payload, frame);
    } else {
      var shape := LeftoverShape(kind, calls);
      NotItself(kind, shape, id, payload, frame);
    }
  }

  /** Behind a request, a notification or an opened answer an answer does not arrive as itself. */
  lemma NotItself(kind: Kind, shape: Shape, id: RequestId, payload: ResponsePayload, frame: Bytes)
    requires ShapeOk(kind, shape)
    requires ResponseFrame(kind, RawIdOf(kind, id), payload) == Some(frame)
    requires |ShapeBytes(kind, shape) + frame| < U32_SIZE
    ensures var sent := ShapeBytes(kind, shape) + frame;
            !IsResponseOf(Decode(kind, sent), sent, WireId(kind, id), Received(kind, payload))
  {
    hide RawIdOf, Opened, ResponseFrame, Decode, Received, Utf8.Valid, RequestFrame, NotifyFrame, WireId;
    match shape
    case ARequest(first, name, params) =>
      FrameAbsorbs(kind, first, name, params, frame);
      RequestArrives(kind, first, name, params + frame);
    case ANotification(name, params) =>
      NotifyAbsorbs(kind, name, params, frame);
      NotifyArrives(kind, name, params + frame);
    case AnOpenedAnswer(wireId, slots, more) => NotItselfBehindAnswer(wireId, slots, more, id, payload, frame);
  }

  lemma NotItselfBehindAnswer(wireId: nat, slots: Bytes, more: Bytes, id: RequestId, payload: ResponsePayload,
                              frame: Bytes)
    requires wireId < U32_SIZE && (more == [] || more[0] == OPENING)
    requires ResponseFrame(MsgPack, RawIdOf(MsgPack, id), payload) == Some(frame)
    requires |(Opened(wireId) + (slots + more)) + frame| < U32_SIZE
    ensures var sent := (Opened(wireId) + (slots + more)) + frame;
            !IsResponseOf(Decode(MsgPack, sent), sent, WireId(MsgPack, id), Received(MsgPack, payload))
  {
    hide RawIdOf, Opened, MsgPackRpc.ResponseFrame, MsgPackRpc.Decode, MsgPackRoundTrip.Received;
    var sent := (Opened(wireId) + (slots + more)) + frame;
    AnswerOpens(RawIdOf(MsgPack, id), payload, frame);
    assert sent == Opened(wireId) + (slots + (more + frame));
    OpenResponseSwallows(sent, wireId, slots, more + frame);
  }

  /** In a buffer used for answers only, nothing is left over rawrpc, and over msgpack exactly if every answer was
      refused for its id. */
  lemma {:induction false} AnswersOnly(kind: Kind, calls: seq<Call>)
    requires AllRefused(kind, calls) && forall i :: 0 <= i < |calls| ==> calls[i].Answer?
    ensures NothingLeft(kind, calls) <==> kind.Raw? || AllForTheirIds(calls)
  {
    hide Refusal;
    if calls == [] {
    } else {
      var init, last := calls[..|calls| - 1], calls[|calls| - 1];
      assert IsRefused(kind, last) && last.Answer?;
      AnswersOnly(kind, init);
      assert AllForTheirIds(calls) <==> AllForTheirIds(init) && ForItsId(last);
    }
  }

  predicate ForItsId(call: Call) {
    call.Answer? && Refusal(MsgPack, call.rawId, call.payload) == Some(InvalidRequestId)
  }

  predicate AllForTheirIds(calls: seq<Call>) {
    forall i :: 0 <= i < |calls| ==> ForItsId(calls[i])
  }

  /** Behind a request that was encoded and then refused by the context, with either codec, an answer is lost: the peer
      takes both for a request under the first candidate. */
  lemma AnswerLostBehindRequest(kind: Kind, ids: seq<RequestId>, attempts: nat, name: Bytes, params: Bytes,
                                answer: Bytes)
    requires 0 < attempts <= |ids| && Utf8.Valid(name)
    requires |Encodings(kind, ids, attempts, name, params) + answer| < U32_SIZE
    ensures ArrivesUnder(kind, Encodings(kind, ids, attempts, name, params) + answer, ids[0])
  {
    hide Utf8.Valid, RequestFrame, Encodings, Decode, RawIdOf;
    var rest := EncodingsSplit(kind, ids, attempts, name, params);
    FrameAbsorbs(kind, ids[0], name, params, rest);
    FrameAbsorbs(kind, ids[0], name, params + rest, answer);
    RequestArrives(kind, ids[0], name, (params + rest) + answer);
  }

  /** What becomes of it: behind a result that stopped serialising half-way, whatever follows in the buffer arrives as
      the rest of that result, under the id of the request that was never answered. */
  lemma StolenAnswer(rawId: Bytes, id: RequestId, part: Bytes, more: Bytes)
    requires MsgPackRpc.RestoreRequestId(rawId) == Some(id)
    requires var left := MsgPackRpc.LeftBehind(rawId, EncodeResponsePayload.Ok(Serialized(part, false)));
             |left + more| < U32_SIZE
    ensures var sent := MsgPackRpc.LeftBehind(rawId, EncodeResponsePayload.Ok(Serialized(part, false))) + more;
            IsResponseOf(MsgPackRpc.Decode(sent), sent, id, Verdict(None, part + more))
  {
    hide MsgPackRpc.Decode, MsgPackRpc.EncodeUint, MsgPackRpc.RetrieveId;
    var sent := MsgPackRpc.LeftBehind(rawId, EncodeResponsePayload.Ok(Serialized(part, false))) + more;
    MsgPackRoundTrip.FixUint(MsgPackRpc.TYPE_RESPONSE);
    assert sent == [0x94, 1] + MsgPackRpc.EncodeUint(id) + ([MsgPackRpc.NIL] + (part + more));
    MsgPackRoundTrip.DecodeOkSlot(sent, id, part + more);
  }

  /** What a half-written answer leaves is the complete answer short of its end: nothing is missing of a result, and the
      empty result slot of an error. */
  lemma LeftBehindIsPrefix(rawId: Bytes, payload: Outgoing)
    requires Refusal(MsgPack, rawId, payload) == Some(SerializeFailed)
    ensures MsgPackRpc.ResponseFrame(rawId, Written(payload))
         == Some(MsgPackRpc.LeftBehind(rawId, payload) + (if payload.Ok? then [] else [0xC0]))
  {
    LeftBehindOpens(rawId, payload);
    MsgPackRoundTrip.FixUint(MsgPackRpc.TYPE_RESPONSE);
    var rest: Bytes := if payload.Ok? then [] else [0xC0];
    var slots := MsgPackRpc.PartialSlots(payload);
    SlotsBehindPartial(payload, rest);
    hide MsgPackRpc.RetrieveId, MsgPackRpc.EncodeUint, MsgPackRpc.ResponseSlots, MsgPackRpc.PartialSlots;
    hide MsgPackRpc.LeftBehind;
    var id := MsgPackRpc.RetrieveId(rawId).value;
    var frame := MsgPackRpc.ResponseFrame(rawId, Written(payload)).value;
    assert frame == Opened(id) + (slots + rest);
    assert MsgPackRpc.LeftBehind(rawId, payload) == Opened(id) + slots;
    assert frame == MsgPackRpc.LeftBehind(rawId, payload) + rest;
  }

  lemma SlotsBehindPartial(payload: Outgoing, rest: Bytes)
    requires !Complete(payload) && rest == if payload.Ok? then [] else [0xC0]
    ensures MsgPackRpc.ResponseSlots(Written(payload)) == MsgPackRpc.PartialSlots(payload) + rest
  {
    hide MsgPackRpc.EncodeStr;
  }
}
