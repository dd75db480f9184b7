/** The messages that the msgpack-rpc decoder accepts: every way of writing each integer, length and head, and nothing
    else. */
module MsgPackLanguage {
  import opened Common
  import opened Codec
  import opened MsgPackRpc
  import opened MsgPackRoundTrip

  /** The ways of writing an unsigned integer: any width that fits, signed formats included. */
  predicate IntForm(form: Bytes, v: nat) {
    || (v < 0x80 && form == [v])
    || (v < 0x100 && form == [0xCC] + ToBigEndian(v, 1))
    || (v < 0x1_0000 && form == [0xCD] + ToBigEndian(v, 2))
    || (v < 0x1_0000_0000 && form == [0xCE] + ToBigEndian(v, 4))
    || (v < 0x1_0000_0000_0000_0000 && form == [0xCF] + ToBigEndian(v, 8))
    || (v < 0x80 && form == [0xD0] + ToBigEndian(v, 1))
    || (v < 0x8000 && form == [0xD1] + ToBigEndian(v, 2))
    || (v < 0x8000_0000 && form == [0xD2] + ToBigEndian(v, 4))
    || (v < 0x8000_0000_0000_0000 && form == [0xD3] + ToBigEndian(v, 8))
  }

  predicate ArrayForm(form: Bytes, len: nat) {
    || (len < 16 && form == [0x90 + len])
    || (len < 0x1_0000 && form == [0xDC] + ToBigEndian(len, 2))
    || (len < 0x1_0000_0000 && form == [0xDD] + ToBigEndian(len, 4))
  }

  predicate StrForm(form: Bytes, len: nat) {
    || (len < 32 && form == [0xA0 + len])
    || (len < 0x100 && form == [0xD9] + ToBigEndian(len, 1))
    || (len < 0x1_0000 && form == [0xDA] + ToBigEndian(len, 2))
    || (len < 0x1_0000_0000 && form == [0xDB] + ToBigEndian(len, 4))
  }

  /** A number of `k` bytes behind its marker. */
  lemma MarkedIff(frame: Bytes, pos: nat, next: nat, marker: Byte, k: nat, v: nat)
    requires v < Pow256(k) && pos < |frame|
    ensures frame[pos] == marker && ReadBytes(frame, pos + 1, k) == Some((v, next))
       <==> pos < next <= |frame| && frame[pos..next] == [marker] + ToBigEndian(v, k)
  {
    hide ReadBytes, ToBigEndian;
    ReadBytesIff(frame, pos + 1, k, v, next);
    if pos < next <= |frame| {
      SliceBehindMarker(frame, pos, next, marker, ToBigEndian(v, k));
      if frame[pos..next] == [marker] + ToBigEndian(v, k) {
        assert |frame[pos..next]| == 1 + k;
      }
    }
  }

  lemma ReadValueFits(frame: Bytes, pos: nat, k: nat)
    ensures ReadBytes(frame, pos, k).Some? ==> ReadBytes(frame, pos, k).value.0 < Pow256(k)
  {
  }

  lemma FixedIff(frame: Bytes, pos: nat, next: nat, marker: Byte)
    requires pos < |frame|
    ensures frame[pos] == marker && next == pos + 1 <==> pos < next <= |frame| && frame[pos..next] == [marker]
  {
    if pos < next <= |frame| && frame[pos..next] == [marker] {
      assert |frame[pos..next]| == 1;
    }
  }

  lemma ReadArrayLenIff(frame: Bytes, pos: nat, len: nat, next: nat)
    requires len < 0x1_0000_0000
    ensures ReadArrayLen(frame, pos) == Some((len, next)) <==> pos < next <= |frame| && ArrayForm(frame[pos..next], len)
  {
    hide ReadBytes, ToBigEndian, Pow256;
    Pow256Values();
    if pos < |frame| {
      ReadValueFits(frame, pos + 1, 2);
      ReadValueFits(frame, pos + 1, 4);
      if len < 16 {
        FixedIff(frame, pos, next, 0x90 + len);
      }
      if len < 0x1_0000 {
        MarkedIff(frame, pos, next, 0xDC, 2, len);
      }
      MarkedIff(frame, pos, next, 0xDD, 4, len);
    }
  }

  lemma ReadStrLenIff(frame: Bytes, pos: nat, len: nat, next: nat)
    requires len < 0x1_0000_0000
    ensures ReadStrLen(frame, pos) == Some((len, next)) <==> pos < next <= |frame| && StrForm(frame[pos..next], len)
  {
    hide ReadBytes, ToBigEndian, Pow256;
    Pow256Values();
    if pos < |frame| {
      ReadValueFits(frame, pos + 1, 1);
      ReadValueFits(frame, pos + 1, 2);
      ReadValueFits(frame, pos + 1, 4);
      if len < 32 {
        FixedIff(frame, pos, next, 0xA0 + len);
      }
      if len < 0x100 {
        MarkedIff(frame, pos, next, 0xD9, 1, len);
      }
      if len < 0x1_0000 {
        MarkedIff(frame, pos, next, 0xDA, 2, len);
      }
      MarkedIff(frame, pos, next, 0xDB, 4, len);
    }
  }

  lemma ReadIntIff(frame: Bytes, pos: nat, size: nat, v: nat, next: nat)
    requires v < size <= 0x1_0000_0000_0000_0000
    ensures ReadInt(frame, pos, size) == Some((v, next)) <==> pos < next <= |frame| && IntForm(frame[pos..next], v)
  {
    hide ReadBytes, ToBigEndian, Pow256;
    Pow256Values();
    if pos < |frame| {
      ReadValueFits(frame, pos + 1, 1);
      ReadValueFits(frame, pos + 1, 2);
      ReadValueFits(frame, pos + 1, 4);
      if v < 0x80 {
        FixedIff(frame, pos, next, v);
      }
      if v < 0x100 {
        MarkedIff(frame, pos, next, 0xCC, 1, v);
        MarkedIff(frame, pos, next, 0xD0, 1, v);
      }
      if v < 0x1_0000 {
        MarkedIff(frame, pos, next, 0xCD, 2, v);
        MarkedIff(frame, pos, next, 0xD1, 2, v);
      }
      if v < 0x1_0000_0000 {
        MarkedIff(frame, pos, next, 0xCE, 4, v);
        MarkedIff(frame, pos, next, 0xD2, 4, v);
      }
      MarkedIff(frame, pos, next, 0xCF, 8, v);
      MarkedIff(frame, pos, next, 0xD3, 8, v);
    }
  }

  // ---- Whole messages ----

  /** A request, however its parts are written. */
  ghost predicate RequestForm(frame: Bytes, rawId: Bytes, name: Bytes, params: Bytes) {
    exists head, ty, nameHead, id: nat ::
      && ArrayForm(head, 4) && IntForm(ty, 0) && id < 0x1_0000_0000 && IntForm(rawId, id)
      && StrForm(nameHead, |name|) && frame == head + ty + rawId + nameHead + name + params
  }

  ghost predicate NotifyForm(frame: Bytes, name: Bytes, params: Bytes) {
    exists head, ty, nameHead ::
      && ArrayForm(head, 3) && IntForm(ty, 2)
      && StrForm(nameHead, |name|) && frame == head + ty + nameHead + name + params
  }

  lemma Parts(frame: Bytes, a: nat, b: nat)
    requires a <= b <= |frame|
    ensures frame[..b] == frame[..a] + frame[a..b] && frame == frame[..b] + frame[b..]
  {
  }

  lemma PartAt(pre: Bytes, part: Bytes, post: Bytes)
    ensures (pre + part + post)[|pre|..|pre + part|] == part
  {
  }

  lemma FormsAreNotEmpty(form: Bytes, v: nat)
    ensures IntForm(form, v) || ArrayForm(form, v) || StrForm(form, v) ==> form != []
  {
  }

  lemma DecodedHead(frame: Bytes, head: Bytes, ty: Bytes, rest: Bytes, count: nat, tag: nat)
    requires frame == head + ty + rest && count < 16 && tag < 256 && ArrayForm(head, count) && IntForm(ty, tag)
    ensures ReadArrayLen(frame, 0) == Some((count, |head|))
    ensures ReadInt(frame, |head|, 256) == Some((tag, |head + ty|))
  {
    hide ArrayForm, IntForm, ReadArrayLen, ReadInt;
    FormsAreNotEmpty(head, count);
    FormsAreNotEmpty(ty, tag);
    assert frame == [] + head + (ty + rest);
    PartAt([], head, ty + rest);
    PartAt(head, ty, rest);
    ReadArrayLenIff(frame, 0, count, |head|);
    ReadIntIff(frame, |head|, 256, tag, |head + ty|);
  }

  lemma DecodedTail(frame: Bytes, pre: Bytes, nameHead: Bytes, name: Bytes, params: Bytes, rawId: Option<Range>)
    requires frame == pre + nameHead + name + params && |frame| < U32_SIZE && StrForm(nameHead, |name|)
    ensures var start := |pre + nameHead|;
            DecodeCall(frame, |pre|, rawId)
            == (var n, p := Range(start, start + |name|), Range(start + |name|, |frame|);
                Frame(if rawId.Some? then Request(rawId.value, n, p) else Notify(n, p)))
    ensures frame[|pre + nameHead|..|pre + nameHead| + |name|] == name && frame[|pre + nameHead| + |name|..] == params
  {
    hide StrForm, ReadStrLen, IntForm, ArrayForm, AsU32;
    FormsAreNotEmpty(nameHead, |name|);
    assert frame == pre + nameHead + (name + params);
    PartAt(pre, nameHead, name + params);
    ReadStrLenIff(frame, |pre|, |name|, |pre + nameHead|);
    AsU32Fits(|pre + nameHead|);
    AsU32Fits(|pre + nameHead| + |name|);
    AsU32Fits(|frame|);
    PartAt(pre + nameHead, name, params);
  }

  lemma FormDecodesAsRequest(frame: Bytes, rawId: Bytes, name: Bytes, params: Bytes)
    requires |frame| < U32_SIZE && RequestForm(frame, rawId, name, params)
    ensures IsRequestOf(Decode(frame), frame, rawId, name, params)
  {
    hide ArrayForm, IntForm, StrForm, ReadArrayLen, ReadInt, DecodeCall, AsU32;
    var head, ty, nameHead, id: nat :| ArrayForm(head, 4) && IntForm(ty, 0) && id < 0x1_0000_0000 && IntForm(rawId, id)
      && StrForm(nameHead, |name|) && frame == head + ty + rawId + nameHead + name + params;
    assert frame == head + ty + (rawId + nameHead + name + params);
    DecodedHead(frame, head, ty, rawId + nameHead + name + params, 4, 0);
    FormsAreNotEmpty(rawId, id);
    assert frame == (head + ty) + rawId + (nameHead + name + params);
    PartAt(head + ty, rawId, nameHead + name + params);
    ReadIntIff(frame, |head + ty|, U32_SIZE, id, |head + ty + rawId|);
    AsU32Fits(|head + ty|);
    AsU32Fits(|head + ty + rawId|);
    DecodedTail(frame, head + ty + rawId, nameHead, name, params, Some(Range(|head + ty|, |head + ty + rawId|)));
  }

  lemma FormDecodesAsNotify(frame: Bytes, name: Bytes, params: Bytes)
    requires |frame| < U32_SIZE && NotifyForm(frame, name, params)
    ensures IsNotifyOf(Decode(frame), frame, name, params)
  {
    hide ArrayForm, IntForm, StrForm, ReadArrayLen, ReadInt, DecodeCall, AsU32;
    var head, ty, nameHead :| ArrayForm(head, 3) && IntForm(ty, 2)
      && StrForm(nameHead, |name|) && frame == head + ty + nameHead + name + params;
    assert frame == head + ty + (nameHead + name + params);
    DecodedHead(frame, head, ty, nameHead + name + params, 3, 2);
    DecodedTail(frame, head + ty, nameHead, name, params, None);
  }

  /** What a call that was decoded looks like. */
  lemma TailOfDecoded(frame: Bytes, pos: nat, rawId: Option<Range>)
    returns (nameHead: Bytes, name: Bytes, params: Bytes)
    requires pos <= |frame| < U32_SIZE && DecodeCall(frame, pos, rawId).Frame?
    ensures StrForm(nameHead, |name|) && frame == frame[..pos] + nameHead + name + params
    ensures var d := DecodeCall(frame, pos, rawId).frame;
            && (if rawId.Some? then d.Request? && d.rawId == rawId.value else d.Notify?)
            && d.name.Within(frame) && d.params.Within(frame)
            && d.name.Of(frame) == name && d.params.Of(frame) == params
  {
    hide StrForm, ReadStrLen, AsU32;
    var (len, start) := ReadStrLen(frame, pos).value;
    ReadStrLenIff(frame, pos, len, start);
    AsU32Fits(start);
    AsU32Fits(start + len);
    AsU32Fits(|frame|);
    nameHead, name, params := frame[pos..start], frame[start..start + len], frame[start + len..];
    Parts(frame, pos, start);
    Parts(frame, start, start + len);
  }

  lemma HeadOfDecoded(frame: Bytes, count: nat, tag: nat) returns (head: Bytes, ty: Bytes)
    requires count < 16 && tag < 256 && ReadArrayLen(frame, 0).Some? && ReadArrayLen(frame, 0).value.0 == count
    requires var pos := ReadArrayLen(frame, 0).value.1;
             ReadInt(frame, pos, 256).Some? && ReadInt(frame, pos, 256).value.0 == tag
    ensures ArrayForm(head, count) && IntForm(ty, tag)
    ensures frame[..ReadInt(frame, ReadArrayLen(frame, 0).value.1, 256).value.1] == head + ty
  {
    hide ArrayForm, IntForm, ReadArrayLen, ReadInt;
    var a := ReadArrayLen(frame, 0).value.1;
    var b := ReadInt(frame, a, 256).value.1;
    ReadArrayLenIff(frame, 0, count, a);
    ReadIntIff(frame, a, 256, tag, b);
    head, ty := frame[0..a], frame[a..b];
    Parts(frame, a, b);
  }

  lemma DecodedRequestHasForm(frame: Bytes, rawId: Bytes, name: Bytes, params: Bytes)
    requires |frame| < U32_SIZE && IsRequestOf(Decode(frame), frame, rawId, name, params)
    ensures RequestForm(frame, rawId, name, params)
  {
    hide ArrayForm, IntForm, StrForm, ReadArrayLen, ReadInt, DecodeCall, DecodeResponse, AsU32;
    DecodesOnlyAs(frame);
    var head, ty := HeadOfDecoded(frame, 4, 0);
    var pos := ReadInt(frame, ReadArrayLen(frame, 0).value.1, 256).value.1;
    var (id, next) := ReadInt(frame, pos, U32_SIZE).value;
    ReadIntIff(frame, pos, U32_SIZE, id, next);
    AsU32Fits(pos);
    AsU32Fits(next);
    Parts(frame, pos, next);
    var nameHead, n, p := TailOfDecoded(frame, next, Some(Range(pos, next)));
    assert frame[..next] == head + ty + rawId;
  }

  lemma DecodedNotifyHasForm(frame: Bytes, name: Bytes, params: Bytes)
    requires |frame| < U32_SIZE && IsNotifyOf(Decode(frame), frame, name, params)
    ensures NotifyForm(frame, name, params)
  {
    hide ArrayForm, IntForm, StrForm, ReadArrayLen, ReadInt, DecodeCall, DecodeResponse, AsU32;
    DecodesOnlyAs(frame);
    var head, ty := HeadOfDecoded(frame, 3, 2);
    var pos := ReadInt(frame, ReadArrayLen(frame, 0).value.1, 256).value.1;
    var nameHead, n, p := TailOfDecoded(frame, pos, None);
  }

  /** Which head leads to which kind of message. */
  lemma DecodesOnlyAs(frame: Bytes)
    requires |frame| < U32_SIZE
    ensures Decode(frame).Frame? ==>
              && ReadArrayLen(frame, 0).Some? && ReadInt(frame, ReadArrayLen(frame, 0).value.1, 256).Some?
              && var (count, next) := ReadArrayLen(frame, 0).value;
                 var tag := ReadInt(frame, next, 256).value.0;
                 && (Decode(frame).frame.Request? <==> count == 4 && tag == 0)
                 && (Decode(frame).frame.Notify? <==> count == 3 && tag == 2)
                 && (Decode(frame).frame.Response? <==> count == 4 && tag == 1)
  {
    hide ReadArrayLen, ReadInt, AsU32;
    var head := ReadArrayLen(frame, 0);
    if head.Some? && ReadInt(frame, head.value.1, 256).Some? {
      var pos := ReadInt(frame, head.value.1, 256).value.1;
      DecodedCallInBounds(frame, pos, None);
      if |frame| > 0 {
        DecodedResponseInBounds(frame, pos);
      }
      if ReadInt(frame, pos, U32_SIZE).Some? {
        var next := ReadInt(frame, pos, U32_SIZE).value.1;
        DecodedCallInBounds(frame, next, Some(Range(AsU32(pos), AsU32(next))));
      }
    }
  }

  /** The decoder takes a frame for a request with these parts exactly if it is written as one, in whatever forms. */
  lemma RequestLanguage(frame: Bytes, rawId: Bytes, name: Bytes, params: Bytes)
    requires |frame| < U32_SIZE
    ensures IsRequestOf(Decode(frame), frame, rawId, name, params) <==> RequestForm(frame, rawId, name, params)
  {
    hide Decode, RequestForm, IsRequestOf;
    if RequestForm(frame, rawId, name, params) {
      FormDecodesAsRequest(frame, rawId, name, params);
    }
    if IsRequestOf(Decode(frame), frame, rawId, name, params) {
      DecodedRequestHasForm(frame, rawId, name, params);
    }
  }

  lemma NotifyLanguage(frame: Bytes, name: Bytes, params: Bytes)
    requires |frame| < U32_SIZE
    ensures IsNotifyOf(Decode(frame), frame, name, params) <==> NotifyForm(frame, name, params)
  {
    hide Decode, NotifyForm, IsNotifyOf;
    if NotifyForm(frame, name, params) {
      FormDecodesAsNotify(frame, name, params);
    }
    if IsNotifyOf(Decode(frame), frame, name, params) {
      DecodedNotifyHasForm(frame, name, params);
    }
  }

  // ---- Responses ----

  /** No prefix of the slots opens a pair of a code and an object. */
  ghost predicate NoCodeIn(slots: Bytes) {
    forall n: nat, code :: n <= |slots| ==> !OpensCodedPair(slots[..n], code)
  }

  /** The error slot and the result slot: nil and the result; the code's name in a pair with the object, then nil; or an
      object that is neither nil nor such a pair, then nil. */
  ghost predicate SlotsSay(slots: Bytes, verdict: Verdict) {
    match verdict.errc
    case None => slots == [0xC0] + verdict.payload
    case Some(code) =>
      && slots != [] && slots[0] != 0xC0 && slots[|slots| - 1] == 0xC0
      && ((exists lead :: OpensCodedPair(lead, code) && slots == lead + verdict.payload + [0xC0])
          || (code == Unknown && slots == verdict.payload + [0xC0] && NoCodeIn(slots)))
  }

  ghost predicate ResponseForm(frame: Bytes, id: RequestId, verdict: Verdict) {
    exists head, ty, idForm, slots :: ArrayForm(head, 4) && IntForm(ty, 1) && id < 0x1_0000_0000
      && IntForm(idForm, id) && frame == head + ty + idForm + slots && SlotsSay(slots, verdict)
  }

  /** The slots behind the id, by themselves. */
  lemma SlotsDecode(frame: Bytes, pos: nat, id: RequestId, slot: nat, verdict: Verdict)
    requires 0 < |frame| < U32_SIZE && ReadInt(frame, pos, U32_SIZE) == Some((id, slot))
    ensures slot <= |frame|
    ensures IsResponseOf(DecodeResponse(frame, pos), frame, id, verdict) <==> SlotsSay(frame[slot..], verdict)
  {
    hide ReadInt, ReadErrorCode, OpensCodedPair, AsU32;
    AsU32Fits(|frame|);
    var slots := frame[slot..];
    if slots == [] {
      AsU32Fits(slot);
      NothingBehindId(frame, pos, id, slot, verdict);
    } else if frame[slot] == NIL {
      AsU32Fits(slot + 1);
      assert slots == [0xC0] + frame[slot + 1..];
    } else if frame[|frame| - 1] == NIL {
      AsU32Fits(|frame| - 1);
      ErrorSlots(frame, pos, id, slot, verdict);
    }
  }

  lemma NothingBehindId(frame: Bytes, pos: nat, id: RequestId, slot: nat, verdict: Verdict)
    requires 0 < |frame| < U32_SIZE && ReadInt(frame, pos, U32_SIZE) == Some((id, slot)) && slot == |frame|
    ensures !IsResponseOf(DecodeResponse(frame, pos), frame, id, verdict)
  {
    hide ReadInt, ReadErrorCode, AsU32;
    AsU32Fits(|frame|);
    AsU32Fits(|frame| - 1);
  }

  lemma ErrorSlots(frame: Bytes, pos: nat, id: RequestId, slot: nat, verdict: Verdict)
    requires slot < |frame| < U32_SIZE && ReadInt(frame, pos, U32_SIZE) == Some((id, slot))
    requires frame[slot] != NIL && frame[|frame| - 1] == NIL
    ensures IsResponseOf(DecodeResponse(frame, pos), frame, id, verdict) <==> SlotsSay(frame[slot..], verdict)
  {
    hide ReadInt, ReadErrorCode, OpensCodedPair, AsU32, SlotsSay;
    AsU32Fits(slot);
    AsU32Fits(|frame| - 1);
    match ReadErrorCode(frame, slot)
    case Some((code, next)) =>
      AsU32Fits(next);
      CodedSlots(frame, slot, code, next, verdict);
    case None =>
      UncodedSlots(frame, slot, verdict);
  }

  lemma CodedSlots(frame: Bytes, slot: nat, code: ResponseError, next: nat, verdict: Verdict)
    requires slot < |frame| && frame[slot] != NIL && frame[|frame| - 1] == NIL
    requires ReadErrorCode(frame, slot) == Some((code, next))
    ensures next < |frame|
    ensures SlotsSay(frame[slot..], verdict) <==> verdict == Verdict(Some(code), frame[next..|frame| - 1])
  {
    hide ReadErrorCode, OpensCodedPair;
    var slots := frame[slot..];
    ReadErrorCodeIff(frame, slot, code, next);
    var lead := frame[slot..next];
    LeadEndsInName(lead, code);
    assert slots == lead + frame[next..|frame| - 1] + [0xC0];
    assert slots[..next - slot] == lead;
    if SlotsSay(slots, verdict) && verdict.errc.Some? {
      assert !NoCodeIn(slots);
      var other :| OpensCodedPair(other, verdict.errc.value) && slots == other + verdict.payload + [0xC0];
      assert frame[slot..slot + |other|] == other;
      ReadErrorCodeIff(frame, slot, verdict.errc.value, slot + |other|);
    }
  }

  lemma UncodedSlots(frame: Bytes, slot: nat, verdict: Verdict)
    requires slot < |frame| && frame[slot] != NIL && frame[|frame| - 1] == NIL && ReadErrorCode(frame, slot).None?
    ensures SlotsSay(frame[slot..], verdict) <==> verdict == Verdict(Some(Unknown), frame[slot..|frame| - 1])
  {
    hide ReadErrorCode, OpensCodedPair;
    var slots := frame[slot..];
    forall n: nat, code | n <= |slots|
      ensures !OpensCodedPair(slots[..n], code)
    {
      assert frame[slot..slot + n] == slots[..n];
      ReadErrorCodeIff(frame, slot, code, slot + n);
    }
    assert slots == frame[slot..|frame| - 1] + [0xC0];
    forall lead, code | slots == lead + verdict.payload + [0xC0]
      ensures !OpensCodedPair(lead, code)
    {
      assert slots[..|lead|] == lead;
    }
  }

  lemma FormDecodesAsResponse(frame: Bytes, id: RequestId, verdict: Verdict)
    requires |frame| < U32_SIZE && ResponseForm(frame, id, verdict)
    ensures IsResponseOf(Decode(frame), frame, id, verdict)
  {
    hide ArrayForm, IntForm, SlotsSay, ReadArrayLen, ReadInt, DecodeCall, DecodeResponse, AsU32, IsResponseOf;
    var head, ty, idForm, slots :| ArrayForm(head, 4) && IntForm(ty, 1) && id < 0x1_0000_0000
      && IntForm(idForm, id) && frame == head + ty + idForm + slots && SlotsSay(slots, verdict);
    assert frame == head + ty + (idForm + slots);
    DecodedHead(frame, head, ty, idForm + slots, 4, 1);
    FormsAreNotEmpty(idForm, id);
    assert frame == (head + ty) + idForm + slots;
    PartAt(head + ty, idForm, slots);
    ReadIntIff(frame, |head + ty|, U32_SIZE, id, |head + ty + idForm|);
    SlotsDecode(frame, |head + ty|, id, |head + ty + idForm|, verdict);
    assert frame[|head + ty + idForm|..] == slots;
  }

  lemma DecodedResponseHasForm(frame: Bytes, id: RequestId, verdict: Verdict)
    requires |frame| < U32_SIZE && IsResponseOf(Decode(frame), frame, id, verdict)
    ensures ResponseForm(frame, id, verdict)
  {
    hide ArrayForm, IntForm, SlotsSay, ReadArrayLen, ReadInt, DecodeCall, DecodeResponse, AsU32;
    DecodesOnlyAs(frame);
    var head, ty := HeadOfDecoded(frame, 4, 1);
    var pos := ReadInt(frame, ReadArrayLen(frame, 0).value.1, 256).value.1;
    var slot := ResponseId(frame, pos, id);
    ReadIntIff(frame, pos, U32_SIZE, id, slot);
    SlotsDecode(frame, pos, id, slot, verdict);
    Parts(frame, pos, slot);
    assert frame == head + ty + frame[pos..slot] + frame[slot..];
  }

  lemma ResponseId(frame: Bytes, pos: nat, id: RequestId) returns (slot: nat)
    requires |frame| > 0 && DecodeResponse(frame, pos).Frame? && DecodeResponse(frame, pos).frame.Response?
    requires DecodeResponse(frame, pos).frame.id == id
    ensures ReadInt(frame, pos, U32_SIZE) == Some((id, slot))
  {
    hide ReadInt, ReadErrorCode, AsU32;
    slot := ReadInt(frame, pos, U32_SIZE).value.1;
  }

  /** The same for responses, whatever they carry. */
  lemma ResponseLanguage(frame: Bytes, id: RequestId, verdict: Verdict)
    requires |frame| < U32_SIZE
    ensures IsResponseOf(Decode(frame), frame, id, verdict) <==> ResponseForm(frame, id, verdict)
  {
    hide Decode, ResponseForm, IsResponseOf;
    if ResponseForm(frame, id, verdict) {
      FormDecodesAsResponse(frame, id, verdict);
    }
    if IsResponseOf(Decode(frame), frame, id, verdict) {
      DecodedResponseHasForm(frame, id, verdict);
    }
  }
}
