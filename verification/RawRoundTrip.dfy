/** Round trips of the rawrpc codec: varints, calls, responses, the echoed id, and arbitrary frames. */
module RawRoundTrip {
  import opened Common
  import opened Codec
  import opened RawRpc
  import Utf8

  /** The first value a varint of at most `left` bytes cannot carry. */
  function VarintBound(left: nat, lastMax: nat): nat {
    if left == 0 then 0 else if left == 1 then lastMax + 1 else 128 * VarintBound(left - 1, lastMax)
  }

  /** A ten-byte varint carries exactly the 64-bit numbers, a five-byte one exactly the 32-bit numbers. */
  lemma VarintBounds()
    ensures VarintBound(USIZE_VARINT_MAX, USIZE_LAST_BYTE_MAX) == U64_SIZE
    ensures VarintBound(U32_VARINT_MAX, U32_LAST_BYTE_MAX) == U32_SIZE
  {
  }

  /** What is left of a number behind its first seven bits fits into one byte less. */
  lemma HighPartFits(n: nat, left: nat, lastMax: nat)
    requires 128 <= n < VarintBound(left, lastMax) && lastMax < 128
    ensures left > 1 && n / 128 < VarintBound(left - 1, lastMax)
  {
  }

  /** One turn of the decoder, behind a byte that says that more follow. */
  lemma TakeContinued(frame: Bytes, pos: nat, left: nat, lastMax: nat, high: nat, next: nat)
    requires left > 0 && pos < |frame| && frame[pos] >= 128
    requires TakeVarint(frame, pos + 1, left - 1, lastMax) == Some((high, next))
    ensures TakeVarint(frame, pos, left, lastMax) == Some((frame[pos] - 128 + 128 * high, next))
  {
  }

  lemma VarintHead(pre: Bytes, n: nat, post: Bytes)
    requires n >= 128
    ensures pre + Varint(n) + post == (pre + [n % 128 + 128]) + Varint(n / 128) + post
  {
    assert Varint(n) == [n % 128 + 128] + Varint(n / 128);
  }

  lemma VarintLength(n: nat)
    requires n >= 128
    ensures |Varint(n)| == 1 + |Varint(n / 128)|
  {
  }

  lemma {:induction false} VarintRoundTrip(pre: Bytes, n: nat, post: Bytes, left: nat, lastMax: nat)
    requires n < VarintBound(left, lastMax) && lastMax < 128
    ensures TakeVarint(pre + Varint(n) + post, |pre|, left, lastMax) == Some((n, |pre| + |Varint(n)|))
    decreases n
  {
    if n < 128 {
    } else {
      var low := [n % 128 + 128];
      var frame := pre + Varint(n) + post;
      HighPartFits(n, left, lastMax);
      assert frame == (pre + low) + Varint(n / 128) + post by { VarintHead(pre, n, post); }
      hide Varint, TakeVarint, VarintBound;
      VarintRoundTrip(pre + low, n / 128, post, left - 1, lastMax);
      TakeContinued(frame, |pre|, left, lastMax, n / 128, |pre| + 1 + |Varint(n / 128)|);
      VarintLength(n);
    }
  }

  /** Nothing the decoder accepts as a varint exceeds the bound, so its accumulator never overflows. */
  lemma {:induction false} TakenVarintInRange(frame: Bytes, pos: nat, left: nat, lastMax: nat)
    requires lastMax < 128
    ensures match TakeVarint(frame, pos, left, lastMax)
            case Some((n, _)) => n < VarintBound(left, lastMax)
            case None => true
    decreases left
  {
    if left <= 1 || |frame| <= pos {
    } else {
      BoundAtLeast128(left, lastMax);
      if frame[pos] >= 128 {
        TakenVarintInRange(frame, pos + 1, left - 1, lastMax);
      }
    }
  }

  lemma {:induction false} BoundAtLeast128(left: nat, lastMax: nat)
    requires left > 1
    ensures VarintBound(left, lastMax) >= 128
    decreases left
  {
    if left == 2 {
    } else {
      BoundAtLeast128(left - 1, lastMax);
    }
  }

  lemma TakeEncodedBytes(frame: Bytes, pre: Bytes, s: Bytes, post: Bytes)
    requires frame == pre + EncodeBytes(s) + post && |s| < U64_SIZE
    ensures TakeBytes(frame, |pre|) == Some((|pre| + |Varint(|s|)|, |pre| + |EncodeBytes(s)|))
    ensures frame[|pre| + |Varint(|s|)|..|pre| + |EncodeBytes(s)|] == s
  {
    hide Varint, TakeVarint, VarintBound;
    VarintBounds();
    VarintRoundTrip(pre, |s|, s + post, USIZE_VARINT_MAX, USIZE_LAST_BYTE_MAX);
    assert frame == pre + Varint(|s|) + (s + post);
    assert frame == (pre + Varint(|s|)) + s + post;
    SliceMiddle(pre + Varint(|s|), s, post);
  }

  lemma RangeOfFits(frame: Bytes, start: nat, end: nat)
    requires start <= end <= |frame| < U32_SIZE
    ensures RangeOf(frame, start, end) == Some(Range(start, end))
  {
  }

  lemma TakeHead(variant: Byte, rest: Bytes)
    requires variant < 128
    ensures Varint(variant) == [variant]
    ensures TakeVarint([variant] + rest, 0, U32_VARINT_MAX, U32_LAST_BYTE_MAX) == Some((variant, 1))
  {
  }

  lemma IdBytesRoundTrip(id: RequestId, tail: Bytes)
    ensures RestoreRequestId(IdBytes(id) + tail) == Some(id)
  {
    Pow256Values();
    LittleEndianRoundTrip(id, 8);
    assert (IdBytes(id) + tail)[..8] == IdBytes(id);
  }

  lemma RequestRoundTrip(id: RequestId, name: Bytes, params: Bytes)
    requires |RequestFrame(id, name, params)| < U32_SIZE && Utf8.Valid(name)
    ensures IsRequestOf(Decode(RequestFrame(id, name, params)), RequestFrame(id, name, params),
                        IdBytes(id), name, params)
  {
    hide Utf8.Valid, TakeBytes, TakeVarint, Varint, RangeOf, ToLittleEndian;
    var frame := RequestFrame(id, name, params);
    var rest := EncodeBytes(IdBytes(id)) + EncodeBytes(name) + params;
    TakeHead(REQUEST, rest);
    assert frame == [REQUEST] + rest;
    TakeEncodedBytes(frame, [REQUEST], IdBytes(id), EncodeBytes(name) + params);
    var pre := [REQUEST] + EncodeBytes(IdBytes(id));
    assert frame == pre + EncodeBytes(name) + params;
    TakeEncodedBytes(frame, pre, name, params);
    var (idStart, idEnd) := TakeBytes(frame, 1).value;
    var (start, end) := TakeBytes(frame, |pre|).value;
    RangeOfFits(frame, idStart, idEnd);
    RangeOfFits(frame, start, end);
    RangeOfFits(frame, end, |frame|);
  }

  lemma NotifyRoundTrip(name: Bytes, params: Bytes)
    requires |NotifyFrame(name, params)| < U32_SIZE && Utf8.Valid(name)
    ensures IsNotifyOf(Decode(NotifyFrame(name, params)), NotifyFrame(name, params), name, params)
  {
    hide Utf8.Valid, TakeBytes, TakeVarint, Varint, RangeOf;
    var frame := NotifyFrame(name, params);
    TakeHead(NOTIFY, EncodeBytes(name) + params);
    assert frame == [NOTIFY] + (EncodeBytes(name) + params);
    assert frame == [NOTIFY] + EncodeBytes(name) + params;
    TakeEncodedBytes(frame, [NOTIFY], name, params);
    var (start, end) := TakeBytes(frame, 1).value;
    RangeOfFits(frame, start, end);
    RangeOfFits(frame, end, |frame|);
  }

  /** What the peer reads when a response is sent: an error without an object carries its number as payload. */
  function Received(payload: ResponsePayload): Verdict {
    match payload
    case Ok(obj) => Verdict(None, obj)
    case ErrCodeOnly(code) => Verdict(Some(code), [CodeNumber(code)])
    case ErrObjectOnly(obj) => Verdict(Some(Unknown), obj)
    case Err(code, obj) => Verdict(Some(code), obj)
  }

  lemma DecodeOkFrame(frame: Bytes, id: RequestId, obj: Bytes)
    requires frame == Varint(RESPONSE) + EncodeBytes(IdBytes(id)) + obj && |frame| < U32_SIZE
    ensures IsResponseOf(Decode(frame), frame, id, Verdict(None, obj))
  {
    hide TakeBytes, TakeVarint, Varint, RangeOf, ToLittleEndian, RestoreRequestId;
    TakeHead(RESPONSE, EncodeBytes(IdBytes(id)) + obj);
    assert frame == [RESPONSE] + (EncodeBytes(IdBytes(id)) + obj);
    TakeEncodedBytes(frame, [RESPONSE], IdBytes(id), obj);
    IdBytesRoundTrip(id, []);
    assert IdBytes(id) + [] == IdBytes(id);
    RangeOfFits(frame, |frame| - |obj|, |frame|);
  }

  lemma DecodeErrorFrame(frame: Bytes, id: RequestId, code: ResponseError, obj: Bytes)
    requires frame == ErrorFrame(id, code, obj) && |frame| < U32_SIZE
    ensures IsResponseOf(Decode(frame), frame, id, Verdict(Some(code), obj))
  {
    hide TakeBytes, TakeVarint, Varint, RangeOf, ToLittleEndian, RestoreRequestId;
    var tail := [CodeNumber(code)] + obj;
    TakeHead(RESPONSE_ERR, EncodeBytes(IdBytes(id)) + tail);
    assert frame == [RESPONSE_ERR] + (EncodeBytes(IdBytes(id)) + tail);
    assert frame == [RESPONSE_ERR] + EncodeBytes(IdBytes(id)) + tail;
    TakeEncodedBytes(frame, [RESPONSE_ERR], IdBytes(id), tail);
    IdBytesRoundTrip(id, []);
    assert IdBytes(id) + [] == IdBytes(id);
    RangeOfFits(frame, |frame| - |obj|, |frame|);
  }

  lemma ResponseRoundTrip(rawId: Bytes, payload: ResponsePayload, frame: Bytes)
    requires ResponseFrame(rawId, payload) == Some(frame) && |frame| < U32_SIZE
    ensures RestoreRequestId(rawId).Some?
    ensures IsResponseOf(Decode(frame), frame, RestoreRequestId(rawId).value, Received(payload))
  {
    hide RestoreRequestId, Decode, Varint;
    var id := RestoreRequestId(rawId).value;
    match payload
    case Ok(obj) => DecodeOkFrame(frame, id, obj);
    case ErrCodeOnly(code) => DecodeErrorFrame(frame, id, code, [CodeNumber(code)]);
    case ErrObjectOnly(obj) => DecodeErrorFrame(frame, id, Unknown, obj);
    case Err(code, obj) => DecodeErrorFrame(frame, id, code, obj);
  }

  /** The full circle: answering with the raw id slice of a decoded request yields a response that decodes to the
      id the request was sent with, the error code, and the payload. */
  lemma EchoedIdRoundTrip(id: RequestId, name: Bytes, params: Bytes, payload: ResponsePayload)
    requires |RequestFrame(id, name, params)| < U32_SIZE && Utf8.Valid(name)
    requires ResponseFrame(IdBytes(id), payload).Some? ==> |ResponseFrame(IdBytes(id), payload).value| < U32_SIZE
    ensures var frame := RequestFrame(id, name, params);
            var request := Decode(frame);
            && request.Frame? && request.frame.Request? && request.frame.rawId.Within(frame)
            && var reply := ResponseFrame(request.frame.rawId.Of(frame), payload);
               reply.Some? && IsResponseOf(Decode(reply.value), reply.value, id, Received(payload))
  {
    hide Decode, RestoreRequestId, Utf8.Valid;
    RequestRoundTrip(id, name, params);
    IdBytesRoundTrip(id, []);
    assert IdBytes(id) + [] == IdBytes(id);
    ResponseRoundTrip(IdBytes(id), payload, ResponseFrame(IdBytes(id), payload).value);
  }

  /** Arbitrary frames: every range of a decoded frame is in bounds, the ranges of a call are ordered, the raw id
      ends behind 0, the method name is UTF-8, and no assertion of `range_of` fires. */
  lemma DecodedRangesInBounds(frame: Bytes)
    requires |frame| < U32_SIZE
    ensures match Decode(frame)
            case Frame(Request(id, name, params)) =>
              && 0 < id.begin <= id.end < name.begin <= name.end == params.begin <= params.end == |frame|
              && Utf8.Valid(name.Of(frame))
            case Frame(Notify(name, params)) =>
              && name.begin <= name.end == params.begin <= params.end == |frame|
              && Utf8.Valid(name.Of(frame))
            case Frame(Response(_, _, payload)) => payload.Within(frame)
            case Malformed => true
            case Panicked => false
  {
    hide TakeVarint, Utf8.Valid, RangeOf, RestoreRequestId;
    forall start, end | 0 <= start <= end <= |frame|
      ensures RangeOf(frame, start, end) == Some(Range(start, end))
    {
      RangeOfFits(frame, start, end);
    }
  }
}
