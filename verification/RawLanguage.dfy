/** The frames that rawrpc takes for requests, notifications and responses, exactly: the postcard wire format (sections
    "Varint Encoded Integers", "String", "Byte Array" and "Tagged Unions") in all the ways its decoder allows. */
module RawLanguage {
  import opened Common
  import opened Codec
  import opened RawRpc
  import RawRoundTrip
  import Utf8
  import WireFormat

  // ---- Integers ----

  /** Seven bits a byte, lowest first. */
  function Value(form: Bytes): nat {
    if form == [] then 0 else form[0] % 128 + 128 * Value(form[1..])
  }

  /** Every byte but the last one says that more follow. */
  predicate Continued(form: Bytes) {
    form != [] && form[|form| - 1] < 128 && forall i :: 0 <= i < |form| - 1 ==> form[i] >= 128
  }

  predicate IsVarint(form: Bytes, n: nat, longest: nat, bound: nat) {
    |form| <= longest && Continued(form) && Value(form) == n && n < bound
  }

  /** A length. */
  predicate IsLength(form: Bytes, n: nat) {
    IsVarint(form, n, 10, 0x1_0000_0000_0000_0000)
  }

  /** The number of a variant. */
  predicate IsTag(form: Bytes, n: nat) {
    IsVarint(form, n, 5, 0x1_0000_0000)
  }

  /** The reader stops behind the first byte that says so. */
  lemma {:induction false} TakenForm(frame: Bytes, pos: nat, left: nat, lastMax: nat)
    requires TakeVarint(frame, pos, left, lastMax).Some?
    ensures var (n, next) := TakeVarint(frame, pos, left, lastMax).value;
            && next - pos <= left && Continued(frame[pos..next]) && Value(frame[pos..next]) == n
            && (next - pos == left ==> frame[next - 1] <= lastMax)
    decreases left
  {
    var (n, next) := TakeVarint(frame, pos, left, lastMax).value;
    var form := frame[pos..next];
    if frame[pos] >= 128 {
      TakenForm(frame, pos + 1, left - 1, lastMax);
      assert form[1..] == frame[pos + 1..next];
    } else {
      assert form == [frame[pos]] && form[1..] == [];
    }
  }

  lemma {:induction false} FormTaken(frame: Bytes, pos: nat, next: nat, left: nat, lastMax: nat)
    requires pos < next <= |frame| && next - pos <= left && Continued(frame[pos..next])
    requires next - pos == left ==> frame[next - 1] <= lastMax
    ensures TakeVarint(frame, pos, left, lastMax) == Some((Value(frame[pos..next]), next))
    decreases left
  {
    var form := frame[pos..next];
    if next == pos + 1 {
      assert form == [frame[pos]] && form[1..] == [];
    } else {
      assert form[0] >= 128;
      assert form[1..] == frame[pos + 1..next];
      ContinuedBehind(form);
      FormTaken(frame, pos + 1, next, left - 1, lastMax);
    }
  }

  lemma ContinuedBehind(form: Bytes)
    requires Continued(form) && |form| > 1
    ensures Continued(form[1..])
  {
  }

  /** The limit on the last possible byte is the limit on the number. */
  lemma {:induction false} LastByteIsBound(form: Bytes, left: nat, lastMax: nat)
    requires Continued(form) && |form| <= left && lastMax < 128
    ensures Value(form) < RawRoundTrip.VarintBound(left, lastMax) <==>
            (|form| == left ==> form[|form| - 1] <= lastMax)
    decreases left
  {
    if |form| == 1 {
      assert Value(form) == form[0] by { assert form[1..] == []; }
      if left > 1 {
        RawRoundTrip.BoundAtLeast128(left, lastMax);
      }
    } else {
      ContinuedBehind(form);
      LastByteIsBound(form[1..], left - 1, lastMax);
    }
  }

  lemma VarintIff(frame: Bytes, pos: nat, left: nat, lastMax: nat, n: nat, next: nat)
    requires lastMax < 128
    ensures TakeVarint(frame, pos, left, lastMax) == Some((n, next)) <==>
            pos < next <= |frame| && IsVarint(frame[pos..next], n, left, RawRoundTrip.VarintBound(left, lastMax))
  {
    hide TakeVarint, Value, Continued, RawRoundTrip.VarintBound;
    if TakeVarint(frame, pos, left, lastMax) == Some((n, next)) {
      TakenForm(frame, pos, left, lastMax);
      LastByteIsBound(frame[pos..next], left, lastMax);
    }
    if pos < next <= |frame| && IsVarint(frame[pos..next], n, left, RawRoundTrip.VarintBound(left, lastMax)) {
      LastByteIsBound(frame[pos..next], left, lastMax);
      FormTaken(frame, pos, next, left, lastMax);
    }
  }

  lemma TagIff(frame: Bytes, n: nat, next: nat)
    ensures TakeVarint(frame, 0, U32_VARINT_MAX, U32_LAST_BYTE_MAX) == Some((n, next)) <==>
            0 < next <= |frame| && IsTag(frame[..next], n)
  {
    hide TakeVarint, IsVarint;
    RawRoundTrip.VarintBounds();
    VarintIff(frame, 0, U32_VARINT_MAX, U32_LAST_BYTE_MAX, n, next);
    if next <= |frame| {
      assert frame[0..next] == frame[..next];
    }
  }

  // ---- Fields ----

  lemma BytesIff(frame: Bytes, pos: nat, start: nat, end: nat)
    ensures TakeBytes(frame, pos) == Some((start, end)) <==>
            pos < start <= end <= |frame| && IsLength(frame[pos..start], end - start)
  {
    hide TakeVarint, IsVarint;
    RawRoundTrip.VarintBounds();
    if start <= end {
      VarintIff(frame, pos, USIZE_VARINT_MAX, USIZE_LAST_BYTE_MAX, end - start, start);
    }
  }

  lemma {:induction false} LittleEndianBack(s: Bytes)
    ensures ToLittleEndian(FromLittleEndian(s), |s|) == s
  {
    if s == [] {
    } else {
      LittleEndianBack(s[1..]);
      WireFormat.LowestFirst(FromLittleEndian(s), |s|);
    }
  }

  /** An id is restored from its eight bytes, and from nothing else. */
  lemma IdIff(raw: Bytes, id: RequestId)
    ensures RestoreRequestId(raw) == Some(id) <==> |raw| >= 8 && raw[..8] == WireFormat.Id8(id)
  {
    hide WireFormat.Id8, ToLittleEndian, FromLittleEndian;
    WireFormat.IdForm(id);
    if |raw| >= 8 {
      LittleEndianBack(raw[..8]);
      RawRoundTrip.IdBytesRoundTrip(id, raw[8..]);
      assert raw == raw[..8] + raw[8..];
    }
  }

  // ---- Frames ----

  ghost predicate NotifyForm(frame: Bytes, name: Bytes, params: Bytes) {
    exists tag, len :: IsTag(tag, 0) && IsLength(len, |name|) && Utf8.Valid(name) && frame == tag + len + name + params
  }

  ghost predicate RequestForm(frame: Bytes, rawId: Bytes, name: Bytes, params: Bytes) {
    exists tag, idLen, len :: IsTag(tag, 1) && IsLength(idLen, |rawId|) && IsLength(len, |name|) && Utf8.Valid(name)
      && frame == tag + idLen + rawId + len + name + params
  }

  /** A result, or an error with the number of its code. */
  ghost predicate ResponseForm(frame: Bytes, id: RequestId, verdict: Verdict) {
    exists tag, idLen, rawId, number :: IsLength(idLen, |rawId|)
      && |rawId| >= 8 && rawId[..8] == WireFormat.Id8(id)
      && frame == tag + idLen + rawId + number + verdict.payload
      && match verdict.errc
         case None => IsTag(tag, 2) && number == []
         case Some(code) => IsTag(tag, 3) && |number| == 1 && CodeFromNumber(number[0]) == code
  }

  lemma TaggedFrame(frame: Bytes, tag: Bytes, rest: Bytes, n: nat)
    requires frame == tag + rest && IsTag(tag, n)
    ensures tag != [] && TakeVarint(frame, 0, U32_VARINT_MAX, U32_LAST_BYTE_MAX) == Some((n, |tag|))
  {
    hide TakeVarint;
    TagIff(frame, n, |tag|);
  }

  lemma FieldAt(frame: Bytes, pre: Bytes, len: Bytes, s: Bytes, post: Bytes)
    requires frame == pre + len + s + post && IsLength(len, |s|)
    ensures len != [] && TakeBytes(frame, |pre|) == Some((|pre + len|, |pre + len + s|))
    ensures frame[|pre + len|..|pre + len + s|] == s
  {
    hide TakeBytes;
    assert frame[|pre|..|pre + len|] == len;
    BytesIff(frame, |pre|, |pre + len|, |pre + len + s|);
  }

  /** The bytes of a field that was read. */
  lemma FieldOf(frame: Bytes, pos: nat) returns (len: Bytes, s: Bytes)
    requires pos <= |frame| && TakeBytes(frame, pos).Some?
    ensures var (start, end) := TakeBytes(frame, pos).value;
            && IsLength(len, |s|) && s == frame[start..end]
            && frame[..end] == frame[..pos] + len + s
  {
    hide TakeBytes, IsLength;
    var (start, end) := TakeBytes(frame, pos).value;
    BytesIff(frame, pos, start, end);
    len, s := frame[pos..start], frame[start..end];
  }

  lemma TagOf(frame: Bytes) returns (tag: Bytes)
    requires TakeVarint(frame, 0, U32_VARINT_MAX, U32_LAST_BYTE_MAX).Some?
    ensures var (n, next) := TakeVarint(frame, 0, U32_VARINT_MAX, U32_LAST_BYTE_MAX).value;
            IsTag(tag, n) && next <= |frame| && tag == frame[..next]
  {
    hide TakeVarint, IsTag;
    var (n, next) := TakeVarint(frame, 0, U32_VARINT_MAX, U32_LAST_BYTE_MAX).value;
    TagIff(frame, n, next);
    tag := frame[..next];
  }

  lemma NotifyFormDecodes(frame: Bytes, name: Bytes, params: Bytes)
    requires |frame| < U32_SIZE && NotifyForm(frame, name, params)
    ensures IsNotifyOf(Decode(frame), frame, name, params)
  {
    hide IsTag, IsLength, Utf8.Valid, TakeVarint, TakeBytes, RangeOf;
    var tag, len :| IsTag(tag, 0) && IsLength(len, |name|) && Utf8.Valid(name) && frame == tag + len + name + params;
    assert frame == tag + (len + name + params);
    TaggedFrame(frame, tag, len + name + params, 0);
    FieldAt(frame, tag, len, name, params);
    RawRoundTrip.RangeOfFits(frame, |tag + len|, |tag + len + name|);
    RawRoundTrip.RangeOfFits(frame, |tag + len + name|, |frame|);
  }

  lemma RequestFormDecodes(frame: Bytes, rawId: Bytes, name: Bytes, params: Bytes)
    requires |frame| < U32_SIZE && RequestForm(frame, rawId, name, params)
    ensures IsRequestOf(Decode(frame), frame, rawId, name, params)
  {
    hide IsTag, IsLength, Utf8.Valid, TakeVarint, TakeBytes, RangeOf;
    var tag, idLen, len :| IsTag(tag, 1) && IsLength(idLen, |rawId|) && IsLength(len, |name|) && Utf8.Valid(name)
      && frame == tag + idLen + rawId + len + name + params;
    var pre := tag + idLen + rawId;
    assert frame == tag + (idLen + rawId + len + name + params);
    TaggedFrame(frame, tag, idLen + rawId + len + name + params, 1);
    assert frame == tag + idLen + rawId + (len + name + params);
    FieldAt(frame, tag, idLen, rawId, len + name + params);
    FieldAt(frame, pre, len, name, params);
    RawRoundTrip.RangeOfFits(frame, |tag + idLen|, |pre|);
    RawRoundTrip.RangeOfFits(frame, |pre + len|, |pre + len + name|);
    RawRoundTrip.RangeOfFits(frame, |pre + len + name|, |frame|);
  }

  lemma ResultDecodes(frame: Bytes, tag: Bytes, idLen: Bytes, rawId: Bytes, id: RequestId, payload: Bytes)
    requires |frame| < U32_SIZE && IsTag(tag, 2) && IsLength(idLen, |rawId|) && RestoreRequestId(rawId) == Some(id)
    requires frame == tag + idLen + rawId + payload
    ensures IsResponseOf(Decode(frame), frame, id, Verdict(None, payload))
  {
    hide IsTag, IsLength, TakeVarint, TakeBytes, RangeOf, RestoreRequestId;
    assert frame == tag + (idLen + rawId + payload);
    TaggedFrame(frame, tag, idLen + rawId + payload, 2);
    FieldAt(frame, tag, idLen, rawId, payload);
    RawRoundTrip.RangeOfFits(frame, |tag + idLen + rawId|, |frame|);
  }

  lemma ErrorDecodes(frame: Bytes, tag: Bytes, idLen: Bytes, rawId: Bytes, id: RequestId, number: Byte, payload: Bytes)
    requires |frame| < U32_SIZE && IsTag(tag, 3) && IsLength(idLen, |rawId|) && RestoreRequestId(rawId) == Some(id)
    requires frame == tag + idLen + rawId + [number] + payload
    ensures IsResponseOf(Decode(frame), frame, id, Verdict(Some(CodeFromNumber(number)), payload))
  {
    hide IsTag, IsLength, TakeVarint, TakeBytes, RangeOf, RestoreRequestId, CodeFromNumber;
    assert frame == tag + (idLen + rawId + [number] + payload);
    TaggedFrame(frame, tag, idLen + rawId + [number] + payload, 3);
    assert frame == tag + idLen + rawId + ([number] + payload);
    FieldAt(frame, tag, idLen, rawId, [number] + payload);
    RawRoundTrip.RangeOfFits(frame, |tag + idLen + rawId| + 1, |frame|);
  }

  lemma ResponseFormDecodes(frame: Bytes, id: RequestId, verdict: Verdict)
    requires |frame| < U32_SIZE && ResponseForm(frame, id, verdict)
    ensures IsResponseOf(Decode(frame), frame, id, verdict)
  {
    hide IsTag, IsLength, Decode, IsResponseOf, WireFormat.Id8, RestoreRequestId, CodeFromNumber;
    var tag, idLen, rawId, number :| IsLength(idLen, |rawId|)
      && |rawId| >= 8 && rawId[..8] == WireFormat.Id8(id)
      && frame == tag + idLen + rawId + number + verdict.payload
      && match verdict.errc
         case None => IsTag(tag, 2) && number == []
         case Some(code) => IsTag(tag, 3) && |number| == 1 && CodeFromNumber(number[0]) == code;
    IdIff(rawId, id);
    if verdict.errc.None? {
      assert tag + idLen + rawId + [] == tag + idLen + rawId;
      ResultDecodes(frame, tag, idLen, rawId, id, verdict.payload);
    } else {
      assert number == [number[0]];
      ErrorDecodes(frame, tag, idLen, rawId, id, number[0], verdict.payload);
    }
  }

  lemma NotifyHead(frame: Bytes)
    requires |frame| < U32_SIZE && Decode(frame).Frame? && Decode(frame).frame.Notify?
    ensures TakeVarint(frame, 0, U32_VARINT_MAX, U32_LAST_BYTE_MAX).Some?
    ensures var (n, next) := TakeVarint(frame, 0, U32_VARINT_MAX, U32_LAST_BYTE_MAX).value;
            && n == 0 && TakeStr(frame, next).Some? && TakeBytes(frame, next) == TakeStr(frame, next)
            && var (start, end) := TakeStr(frame, next).value;
               Utf8.Valid(frame[start..end]) && Decode(frame).frame == Notify(Range(start, end), Range(end, |frame|))
  {
    hide TakeVarint, TakeBytes, RangeOf, RestoreRequestId, CodeFromNumber, Utf8.Valid;
    var next := TakeVarint(frame, 0, U32_VARINT_MAX, U32_LAST_BYTE_MAX).value.1;
    assert Decode(frame) == DecodeNotify(frame, next);
    var (start, end) := TakeStr(frame, next).value;
    RawRoundTrip.RangeOfFits(frame, start, end);
    RawRoundTrip.RangeOfFits(frame, end, |frame|);
  }

  lemma RequestHead(frame: Bytes)
    requires |frame| < U32_SIZE && Decode(frame).Frame? && Decode(frame).frame.Request?
    ensures TakeVarint(frame, 0, U32_VARINT_MAX, U32_LAST_BYTE_MAX).Some?
    ensures var (n, next) := TakeVarint(frame, 0, U32_VARINT_MAX, U32_LAST_BYTE_MAX).value;
            && n == 1 && TakeBytes(frame, next).Some?
            && var (idStart, idEnd) := TakeBytes(frame, next).value;
               && TakeStr(frame, idEnd).Some? && TakeBytes(frame, idEnd) == TakeStr(frame, idEnd)
               && var (start, end) := TakeStr(frame, idEnd).value;
                  && Utf8.Valid(frame[start..end])
                  && Decode(frame).frame == Request(Range(idStart, idEnd), Range(start, end), Range(end, |frame|))
  {
    hide TakeVarint, TakeBytes, RangeOf, RestoreRequestId, CodeFromNumber, Utf8.Valid;
    var next := TakeVarint(frame, 0, U32_VARINT_MAX, U32_LAST_BYTE_MAX).value.1;
    assert Decode(frame) == DecodeRequest(frame, next);
    var (idStart, idEnd) := TakeBytes(frame, next).value;
    var (start, end) := TakeStr(frame, idEnd).value;
    RawRoundTrip.RangeOfFits(frame, idStart, idEnd);
    RawRoundTrip.RangeOfFits(frame, start, end);
    RawRoundTrip.RangeOfFits(frame, end, |frame|);
  }

  lemma DecodedHasNotifyForm(frame: Bytes, name: Bytes, params: Bytes)
    requires |frame| < U32_SIZE && IsNotifyOf(Decode(frame), frame, name, params)
    ensures NotifyForm(frame, name, params)
  {
    hide IsTag, IsLength, Utf8.Valid, TakeVarint, TakeBytes, TakeStr, Decode;
    NotifyHead(frame);
    var tag := TagOf(frame);
    var len, s := FieldOf(frame, |tag|);
    var end := TakeBytes(frame, |tag|).value.1;
    assert s == name && frame[end..] == params;
    assert frame == frame[..end] + frame[end..];
    assert frame == tag + len + name + params;
  }

  lemma DecodedHasRequestForm(frame: Bytes, rawId: Bytes, name: Bytes, params: Bytes)
    requires |frame| < U32_SIZE && IsRequestOf(Decode(frame), frame, rawId, name, params)
    ensures RequestForm(frame, rawId, name, params)
  {
    hide IsTag, IsLength, Utf8.Valid, TakeVarint, TakeBytes, TakeStr, Decode;
    RequestHead(frame);
    var tag := TagOf(frame);
    var idLen, raw := FieldOf(frame, |tag|);
    var idEnd := TakeBytes(frame, |tag|).value.1;
    var len, s := FieldOf(frame, idEnd);
    var end := TakeBytes(frame, idEnd).value.1;
    assert raw == rawId && s == name && frame[end..] == params;
    assert frame == frame[..end] + frame[end..];
    assert frame == tag + idLen + rawId + len + name + params;
  }

  /** Only the two last variants are responses; a success has no code, an error has one. */
  lemma ResponseHead(frame: Bytes)
    requires |frame| < U32_SIZE && Decode(frame).Frame? && Decode(frame).frame.Response?
    ensures TakeVarint(frame, 0, U32_VARINT_MAX, U32_LAST_BYTE_MAX).Some?
    ensures var (n, next) := TakeVarint(frame, 0, U32_VARINT_MAX, U32_LAST_BYTE_MAX).value;
            && (n == if Decode(frame).frame.errc.None? then 2 else 3)
            && Decode(frame) == (if n == 2 then DecodeResponse(frame, next) else DecodeResponseErr(frame, next))
            && TakeBytes(frame, next).Some?
  {
    hide TakeVarint, TakeBytes, TakeStr, RangeOf, RestoreRequestId, CodeFromNumber;
  }

  lemma DecodedHasResponseForm(frame: Bytes, id: RequestId, verdict: Verdict)
    requires |frame| < U32_SIZE && IsResponseOf(Decode(frame), frame, id, verdict)
    ensures ResponseForm(frame, id, verdict)
  {
    hide IsTag, IsLength, TakeVarint, TakeBytes, TakeStr, RangeOf, WireFormat.Id8, RestoreRequestId, CodeFromNumber;
    hide Decode;
    ResponseHead(frame);
    var tag := TagOf(frame);
    var idLen, raw := FieldOf(frame, |tag|);
    var (start, end) := TakeBytes(frame, |tag|).value;
    IdIff(raw, id);
    var number := if verdict.errc.Some? then [frame[end]] else [];
    RawRoundTrip.RangeOfFits(frame, end + |number|, |frame|);
    assert frame[end + |number|..] == verdict.payload;
    assert frame == frame[..end] + number + frame[end + |number|..];
    assert frame == tag + idLen + raw + number + verdict.payload;
  }

  /** A frame is taken for a notification exactly if it is made of these parts. */
  lemma NotifyLanguage(frame: Bytes, name: Bytes, params: Bytes)
    requires |frame| < U32_SIZE
    ensures IsNotifyOf(Decode(frame), frame, name, params) <==> NotifyForm(frame, name, params)
  {
    hide Decode, NotifyForm;
    if IsNotifyOf(Decode(frame), frame, name, params) {
      DecodedHasNotifyForm(frame, name, params);
    }
    if NotifyForm(frame, name, params) {
      NotifyFormDecodes(frame, name, params);
    }
  }

  /** The same for requests. */
  lemma RequestLanguage(frame: Bytes, rawId: Bytes, name: Bytes, params: Bytes)
    requires |frame| < U32_SIZE
    ensures IsRequestOf(Decode(frame), frame, rawId, name, params) <==> RequestForm(frame, rawId, name, params)
  {
    hide Decode, RequestForm;
    if IsRequestOf(Decode(frame), frame, rawId, name, params) {
      DecodedHasRequestForm(frame, rawId, name, params);
    }
    if RequestForm(frame, rawId, name, params) {
      RequestFormDecodes(frame, rawId, name, params);
    }
  }

  /** The same for responses: the id field may go on behind its eight bytes. */
  lemma ResponseLanguage(frame: Bytes, id: RequestId, verdict: Verdict)
    requires |frame| < U32_SIZE
    ensures IsResponseOf(Decode(frame), frame, id, verdict) <==> ResponseForm(frame, id, verdict)
  {
    hide Decode, ResponseForm;
    if IsResponseOf(Decode(frame), frame, id, verdict) {
      DecodedHasResponseForm(frame, id, verdict);
    }
    if ResponseForm(frame, id, verdict) {
      ResponseFormDecodes(frame, id, verdict);
    }
  }
}
