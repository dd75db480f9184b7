/** Round trips of the msgpack-rpc codec: calls, wire ids, responses with their exact ambiguity, arbitrary frames. */
module MsgPackRoundTrip {
  import opened Common
  import opened Codec
  import opened MsgPackRpc

  // ---- What the readers make of what the encoder writes, anywhere in a frame ----

  lemma ReadBytesOfEncoded(pre: Bytes, n: nat, k: nat, post: Bytes)
    requires n < Pow256(k)
    ensures ReadBytes(pre + ToBigEndian(n, k) + post, |pre|, k) == Some((n, |pre| + k))
  {
  }

  /** The bytes behind a one-byte marker, for every width the encoders use. */
  lemma ReadBytesBehindMarker(pre: Bytes, marker: Byte, n: nat, k: nat, post: Bytes)
    requires n < Pow256(k)
    ensures var frame := pre + ([marker] + ToBigEndian(n, k)) + post;
            frame[|pre|] == marker && ReadBytes(frame, |pre| + 1, k) == Some((n, |pre| + 1 + k))
  {
    ReadBytesOfEncoded(pre + [marker], n, k, post);
    assert pre + ([marker] + ToBigEndian(n, k)) + post == pre + [marker] + ToBigEndian(n, k) + post;
  }

  lemma OneByteForm(n: nat)
    requires n < 256
    ensures ToBigEndian(n, 1) == [n]
  {
    assert ToBigEndian(n / 256, 0) == [];
  }

  lemma FixUint(n: nat)
    requires n < 128
    ensures EncodeUint(n) == [n]
  {
  }

  lemma ReadEncodedUint(pre: Bytes, n: nat, post: Bytes, size: nat)
    requires n < U64_SIZE && size <= U64_SIZE
    ensures ReadInt(pre + EncodeUint(n) + post, |pre|, size)
         == if n < size then Some((n, |pre| + |EncodeUint(n)|)) else None
  {
    hide ReadBytes, ToBigEndian, Pow256;
    Pow256Values();
    if n < 128 {
    } else if n < 256 {
      OneByteForm(n);
      assert EncodeUint(n) == [0xCC] + ToBigEndian(n, 1);
      ReadBytesBehindMarker(pre, 0xCC, n, 1, post);
    } else if n < 65536 {
      ReadBytesBehindMarker(pre, 0xCD, n, 2, post);
    } else if n < U32_SIZE {
      ReadBytesBehindMarker(pre, 0xCE, n, 4, post);
    } else {
      ReadBytesBehindMarker(pre, 0xCF, n, 8, post);
    }
  }

  lemma ReadEncodedStrHead(pre: Bytes, len: nat, post: Bytes)
    requires len < U32_SIZE
    ensures ReadStrLen(pre + EncodeStrHead(len) + post, |pre|) == Some((len, |pre| + |EncodeStrHead(len)|))
  {
    hide ReadBytes, ToBigEndian, Pow256;
    Pow256Values();
    if len < 32 {
    } else if len < 256 {
      OneByteForm(len);
      assert EncodeStrHead(len) == [0xD9] + ToBigEndian(len, 1);
      ReadBytesBehindMarker(pre, 0xD9, len, 1, post);
    } else if len < 65536 {
      ReadBytesBehindMarker(pre, 0xDA, len, 2, post);
    } else {
      ReadBytesBehindMarker(pre, 0xDB, len, 4, post);
    }
  }

  function CallAt(start: nat, nameLen: nat, paramsLen: nat, rawId: Option<Range>): InboundFrame {
    var name := Range(start, start + nameLen);
    var params := Range(start + nameLen, start + nameLen + paramsLen);
    match rawId
    case Some(id) => Request(id, name, params)
    case None => Notify(name, params)
  }

  lemma DecodeEncodedCall(frame: Bytes, pre: Bytes, name: Bytes, params: Bytes, rawId: Option<Range>)
    requires frame == pre + EncodeStrHead(|name|) + name + params
    requires |frame| < U32_SIZE
    ensures DecodeCall(frame, |pre|, rawId)
         == Frame(CallAt(|pre| + |EncodeStrHead(|name|)|, |name|, |params|, rawId))
    ensures frame[|pre + EncodeStrHead(|name|)|..|frame| - |params|] == name
    ensures frame[|frame| - |params|..] == params
  {
    hide ReadStrLen, EncodeStrHead, AsU32;
    ReadEncodedStrHead(pre, |name|, name + params);
    AsU32Fits(|pre + EncodeStrHead(|name|)|);
    AsU32Fits(|pre + EncodeStrHead(|name|)| + |name|);
    AsU32Fits(|frame|);
    assert frame == pre + EncodeStrHead(|name|) + (name + params);
  }

  /** Array length and message type. */
  lemma DecodeEncodedHead(count: nat, ty: nat, rest: Bytes)
    requires count < 16 && ty < 128
    ensures var frame := EncodeArrayHead(count) + EncodeUint(ty) + rest;
            ReadArrayLen(frame, 0) == Some((count, 1)) && ReadInt(frame, 1, 256) == Some((ty, 2))
  {
  }

  lemma DecodeEncodedRequest(frame: Bytes, id: nat, name: Bytes, params: Bytes)
    requires id < U32_SIZE
    requires frame == [0x94, 0] + EncodeUint(id) + EncodeStrHead(|name|) + name + params
    requires |frame| < U32_SIZE
    ensures var raw := Range(2, 2 + |EncodeUint(id)|);
            && Decode(frame) == Frame(CallAt(raw.end + |EncodeStrHead(|name|)|, |name|, |params|, Some(raw)))
            && raw.Of(frame) == EncodeUint(id)
  {
    hide EncodeUint, DecodeCall, EncodeStrHead, AsU32;
    AsU32Fits(2);
    AsU32Fits(2 + |EncodeUint(id)|);
    var wire := EncodeUint(id);
    var body := EncodeStrHead(|name|) + name + params;
    assert frame == [0x94, 0] + wire + body;
    ReadEncodedUint([0x94, 0], id, body, U32_SIZE);
    SliceMiddle([0x94, 0], wire, body);
    DecodeEncodedCall(frame, [0x94, 0] + wire, name, params, Some(Range(2, 2 + |wire|)));
  }

  lemma RequestRoundTrip(id: RequestId, name: Bytes, params: Bytes)
    requires |RequestFrame(id, name, params)| < U32_SIZE
    ensures IsRequestOf(Decode(RequestFrame(id, name, params)), RequestFrame(id, name, params),
                        EncodeUint(NarrowId(id)), name, params)
  {
    hide Decode, DecodeCall, EncodeStrHead;
    var frame := RequestFrame(id, name, params);
    var wire := EncodeUint(NarrowId(id));
    assert frame == [0x94, 0] + wire + EncodeStrHead(|name|) + name + params;
    DecodeEncodedRequest(frame, NarrowId(id), name, params);
    DecodeEncodedCall(frame, [0x94, 0] + wire, name, params, None);
  }

  lemma NotifyRoundTrip(name: Bytes, params: Bytes)
    requires |NotifyFrame(name, params)| < U32_SIZE
    ensures IsNotifyOf(Decode(NotifyFrame(name, params)), NotifyFrame(name, params), name, params)
  {
    var frame := NotifyFrame(name, params);
    var head := EncodeArrayHead(3) + EncodeUint(TYPE_NOTIFICATION);
    assert frame == head + (EncodeStr(name) + params);
    DecodeEncodedHead(3, TYPE_NOTIFICATION, EncodeStr(name) + params);
    assert frame == head + EncodeStrHead(|name|) + name + params;
    DecodeEncodedCall(frame, head, name, params, None);
  }

  /** The wire id is the input modulo 2^32 with 0 mapped to 1; the server can restore it exactly from 2^16 on. */
  lemma WireId(id: RequestId)
    ensures NarrowId(id) == (if id % U32_SIZE == 0 then 1 else id % U32_SIZE)
    ensures 1 <= NarrowId(id) < U32_SIZE
    ensures RestoreRequestId(EncodeUint(NarrowId(id)))
         == if NarrowId(id) >= 65536 then Some(NarrowId(id)) else None
  {
    var wire := NarrowId(id);
    Pow256Values();
    if wire >= 65536 {
      BigEndianRoundTrip(wire, 4);
      assert EncodeUint(wire)[1..5] == ToBigEndian(wire, 4);
    }
  }

  // ---- Responses ----

  /** The three ways of writing the head of a two-element array. */
  predicate PairHead(head: Bytes) {
    head == [0x92] || head == [0xDC, 0, 2] || head == [0xDD, 0, 0, 0, 2]
  }

  /** The four ways of writing the head of a string of `len` bytes. */
  predicate NameHead(head: Bytes, len: nat) {
    len < 32 &&
    (head == [0xA0 + len] || head == [0xD9, len] || head == [0xDA, 0, len] || head == [0xDB, 0, 0, 0, len])
  }

  /** `lead` opens a pair whose first element is the name of `code`, in one of the twelve ways of writing that. */
  ghost predicate OpensCodedPair(lead: Bytes, code: ResponseError) {
    exists head, nameHead :: PairHead(head) && NameHead(nameHead, |CodeName(code)|) &&
      lead == head + nameHead + CodeName(code)
  }

  lemma ReadBytesIff(frame: Bytes, pos: nat, k: nat, n: nat, next: nat)
    requires n < Pow256(k)
    ensures ReadBytes(frame, pos, k) == Some((n, next))
       <==> next == pos + k && next <= |frame| && frame[pos..next] == ToBigEndian(n, k)
  {
    BigEndianRoundTrip(n, k);
    if pos + k <= |frame| {
      BigEndianUnique(frame[pos..pos + k]);
    }
  }

  lemma {:induction false} LeadingZeros(n: nat, k: nat)
    requires n < 256
    ensures ToBigEndian(n, k + 1) == seq(k, _ => 0) + [n]
  {
    if k > 0 {
      LeadingZeros(0, k - 1);
      assert seq(k, _ => 0) == seq(k - 1, _ => 0) + [0];
    } else {
      OneByteForm(n);
    }
  }

  lemma SmallBigEndian(n: nat)
    requires n < 256
    ensures ToBigEndian(n, 1) == [n] && ToBigEndian(n, 2) == [0, n] && ToBigEndian(n, 4) == [0, 0, 0, n]
  {
    LeadingZeros(n, 0);
    LeadingZeros(n, 1);
    LeadingZeros(n, 3);
  }

  lemma SliceBehindMarker(frame: Bytes, pos: nat, next: nat, marker: Byte, rest: Bytes)
    requires pos < next <= |frame|
    ensures frame[pos..next] == [marker] + rest <==> frame[pos] == marker && frame[pos + 1..next] == rest
  {
  }

  lemma ReadPairHeadIff(frame: Bytes, pos: nat, next: nat)
    ensures ReadArrayLen(frame, pos) == Some((2, next))
       <==> pos < next <= |frame| && PairHead(frame[pos..next])
  {
    hide ReadBytes, ToBigEndian, Pow256;
    Pow256Values();
    SmallBigEndian(2);
    ReadBytesIff(frame, pos + 1, 2, 2, next);
    ReadBytesIff(frame, pos + 1, 4, 2, next);
    if pos < next <= |frame| {
      SliceBehindMarker(frame, pos, next, 0x92, []);
      SliceBehindMarker(frame, pos, next, 0xDC, [0, 2]);
      SliceBehindMarker(frame, pos, next, 0xDD, [0, 0, 0, 2]);
    }
  }

  lemma ReadNameHeadIff(frame: Bytes, pos: nat, len: nat, next: nat)
    requires len < 32
    ensures ReadStrLen(frame, pos) == Some((len, next))
       <==> pos < next <= |frame| && NameHead(frame[pos..next], len)
  {
    hide ReadBytes, ToBigEndian, Pow256;
    Pow256Values();
    SmallBigEndian(len);
    ReadBytesIff(frame, pos + 1, 1, len, next);
    ReadBytesIff(frame, pos + 1, 2, len, next);
    ReadBytesIff(frame, pos + 1, 4, len, next);
    if pos < next <= |frame| {
      SliceBehindMarker(frame, pos, next, 0xA0 + len, []);
      SliceBehindMarker(frame, pos, next, 0xD9, [len]);
      SliceBehindMarker(frame, pos, next, 0xDA, [0, len]);
      SliceBehindMarker(frame, pos, next, 0xDB, [0, 0, 0, len]);
    }
  }

  lemma SplitTwice(s: Bytes, a: nat, b: nat, c: nat, d: nat)
    requires a <= b <= c <= d <= |s|
    ensures s[a..d] == s[a..b] + s[b..c] + s[c..d]
  {
  }

  lemma ReadErrorCodeFindsLead(frame: Bytes, pos: nat, code: ResponseError, next: nat)
    requires ReadErrorCode(frame, pos) == Some((code, next))
    ensures OpensCodedPair(frame[pos..next], code)
  {
    hide CodeFromName, CodeName, ReadArrayLen, ReadStrLen, PairHead, NameHead;
    CodeNameFacts(code);
    var afterHead := ReadArrayLen(frame, pos).value.1;
    var (len, start) := ReadStrLen(frame, afterHead).value;
    var head, nameHead, name := frame[pos..afterHead], frame[afterHead..start], frame[start..next];
    CodeNameRoundTrip(name, code);
    ReadPairHeadIff(frame, pos, afterHead);
    ReadNameHeadIff(frame, afterHead, len, start);
    SplitTwice(frame, pos, afterHead, start, next);
    assert PairHead(head) && NameHead(nameHead, |CodeName(code)|) && frame[pos..next] == head + nameHead + name;
  }

  lemma ReadErrorCodeAcceptsLead(frame: Bytes, pos: nat, afterHead: nat, start: nat, next: nat, code: ResponseError)
    requires pos <= afterHead <= start <= next <= |frame|
    requires PairHead(frame[pos..afterHead]) && NameHead(frame[afterHead..start], |CodeName(code)|)
    requires frame[start..next] == CodeName(code)
    ensures ReadErrorCode(frame, pos) == Some((code, next))
  {
    hide CodeFromName, CodeName, ReadArrayLen, ReadStrLen, PairHead, NameHead;
    CodeNameFacts(code);
    HeadsAreNotEmpty(frame[pos..afterHead], frame[afterHead..start], |CodeName(code)|);
    ReadPairHeadIff(frame, pos, afterHead);
    ReadNameHeadIff(frame, afterHead, |CodeName(code)|, start);
    CodeNameRoundTrip(frame[start..next], code);
  }

  lemma HeadsAreNotEmpty(head: Bytes, nameHead: Bytes, len: nat)
    requires PairHead(head) && NameHead(nameHead, len)
    ensures |head| > 0 && |nameHead| > 0
  {
  }

  lemma SliceOfSlice(s: Bytes, pos: nat, next: nat, i: nat, j: nat)
    requires pos <= next <= |s| && i <= j <= next - pos
    ensures s[pos..next][i..j] == s[pos + i..pos + j]
  {
    var t, u, v := s[pos..next], s[pos..next][i..j], s[pos + i..pos + j];
    assert |u| == |v|;
    forall k | 0 <= k < |u|
      ensures u[k] == v[k]
    {
      assert u[k] == t[i + k] == s[pos + (i + k)];
    }
  }

  lemma SlicesOfConcat(s: Bytes, pos: nat, next: nat, a: Bytes, b: Bytes, c: Bytes)
    requires pos <= next <= |s| && s[pos..next] == a + b + c
    ensures next == pos + |a| + |b| + |c|
    ensures s[pos..pos + |a|] == a && s[pos + |a|..pos + |a| + |b|] == b && s[pos + |a| + |b|..next] == c
  {
    var t := s[pos..next];
    SliceOfSlice(s, pos, next, 0, |a|);
    SliceOfSlice(s, pos, next, |a|, |a| + |b|);
    SliceOfSlice(s, pos, next, |a| + |b|, |t|);
    assert t[0..|a|] == a && t[|a|..|a| + |b|] == b && t[|a| + |b|..|t|] == c;
  }

  /** The decoder finds an error code exactly behind the twelve leads that spell it. */
  lemma ReadErrorCodeIff(frame: Bytes, pos: nat, code: ResponseError, next: nat)
    ensures ReadErrorCode(frame, pos) == Some((code, next))
       <==> pos <= next <= |frame| && OpensCodedPair(frame[pos..next], code)
  {
    hide ReadErrorCode, CodeName, PairHead, NameHead;
    if ReadErrorCode(frame, pos) == Some((code, next)) {
      ReadErrorCodeFindsLead(frame, pos, code, next);
    }
    if pos <= next <= |frame| && OpensCodedPair(frame[pos..next], code) {
      var head, nameHead :| PairHead(head) && NameHead(nameHead, |CodeName(code)|) &&
        frame[pos..next] == head + nameHead + CodeName(code);
      SlicesOfConcat(frame, pos, next, head, nameHead, CodeName(code));
      ReadErrorCodeAcceptsLead(frame, pos, pos + |head|, pos + |head| + |nameHead|, next, code);
    }
  }

  lemma LeadEndsInName(lead: Bytes, code: ResponseError)
    requires OpensCodedPair(lead, code)
    ensures |lead| > 0 && lead[|lead| - 1] < 128
  {
  }

  /** Reading a code depends on the bytes up to the end of its name only. */
  lemma ErrorCodeIsLocal(f: Bytes, p: nat, g: Bytes, q: nat, code: ResponseError, k: nat)
    requires p + k <= |f| && q + k <= |g| && f[p..p + k] == g[q..q + k]
    requires ReadErrorCode(f, p) == Some((code, p + k))
    ensures ReadErrorCode(g, q) == Some((code, q + k))
  {
    hide *;
    ReadErrorCodeIff(f, p, code, p + k);
    ReadErrorCodeIff(g, q, code, q + k);
  }

  /** The trailing nil of the result slot can never complete a code name. */
  lemma ErrorCodeUnaffectedByTail(pre: Bytes, obj: Bytes, frame: Bytes)
    requires frame == pre + obj + [NIL]
    ensures ReadErrorCode(frame, |pre|)
         == match ReadErrorCode(obj, 0)
            case Some((code, k)) => Some((code, |pre| + k))
            case None => None
  {
    hide ReadErrorCode, OpensCodedPair;
    var inFrame, alone := ReadErrorCode(frame, |pre|), ReadErrorCode(obj, 0);
    if inFrame.Some? {
      var (code, next) := inFrame.value;
      ReadErrorCodeIff(frame, |pre|, code, next);
      var lead := frame[|pre|..next];
      LeadEndsInName(lead, code);
      assert lead[|lead| - 1] == frame[next - 1];
      assert lead == obj[0..|lead|];
      ErrorCodeIsLocal(frame, |pre|, obj, 0, code, |lead|);
    }
    if alone.Some? {
      var (code, k) := alone.value;
      assert frame[|pre|..|pre| + k] == obj[0..k];
      ErrorCodeIsLocal(obj, 0, frame, |pre|, code, k);
    }
  }

  /** What the peer reads when a response is sent: the identity on three payload forms, a guess on the fourth. */
  function Received(payload: ResponsePayload): Verdict {
    match payload
    case Ok(obj) => Verdict(None, obj)
    case ErrCodeOnly(code) => Verdict(Some(code), [NIL])
    case Err(code, obj) => Verdict(Some(code), obj)
    case ErrObjectOnly(obj) =>
      if obj == [] || obj[0] == NIL then Verdict(None, (obj + [NIL])[1..]) else
      match ReadErrorCode(obj, 0)
      case Some((code, k)) => Verdict(Some(code), obj[k..])
      case None => Verdict(Some(Unknown), obj)
  }

  /** Decoding behind the id: `slots` is the error slot and the result slot together. */
  lemma DecodeEncodedResponse(frame: Bytes, id: nat, slots: Bytes)
    requires id < U32_SIZE
    requires frame == [0x94, 1] + EncodeUint(id) + slots
    ensures Decode(frame) == DecodeResponse(frame, 2)
    ensures ReadInt(frame, 2, U32_SIZE) == Some((id, 2 + |EncodeUint(id)|))
    ensures frame[2 + |EncodeUint(id)|..] == slots
  {
    ReadEncodedUint([0x94, 1], id, slots, U32_SIZE);
    assert frame == [0x94] + EncodeUint(1) + (EncodeUint(id) + slots);
  }

  /** A response slot that is not nil is an error; the trailing nil is cut off. */
  lemma DecodeErrorSlot(frame: Bytes, id: nat, obj: Bytes)
    requires 0 < id < U32_SIZE && |frame| < U32_SIZE
    requires frame == [0x94, 1] + EncodeUint(id) + (obj + [NIL])
    requires obj != [] && obj[0] != NIL
    ensures IsResponseOf(Decode(frame), frame, id, Received(ErrObjectOnly(obj)))
  {
    hide Decode, ReadInt, ReadErrorCode, EncodeUint, AsU32;
    var pre := [0x94, 1] + EncodeUint(id);
    DecodeEncodedResponse(frame, id, obj + [NIL]);
    assert frame == pre + obj + [NIL];
    assert frame[|pre|] == obj[0] && frame[|frame| - 1] == NIL;
    assert frame[|pre|..|frame| - 1] == obj;
    ErrorCodeUnaffectedByTail(pre, obj, frame);
    AsU32Fits(|pre|);
    AsU32Fits(|frame| - 1);
    if ReadErrorCode(obj, 0).Some? {
      var k := ReadErrorCode(obj, 0).value.1;
      AsU32Fits(|pre| + k);
      assert frame[|pre| + k..|frame| - 1] == obj[k..];
    }
  }

  lemma DecodeOkSlot(frame: Bytes, id: nat, rest: Bytes)
    requires 0 < id < U32_SIZE && |frame| < U32_SIZE
    requires frame == [0x94, 1] + EncodeUint(id) + ([NIL] + rest)
    ensures IsResponseOf(Decode(frame), frame, id, Verdict(None, rest))
  {
    hide Decode, ReadInt, ReadErrorCode, EncodeUint;
    DecodeEncodedResponse(frame, id, [NIL] + rest);
    assert frame[2 + |EncodeUint(id)|] == NIL;
    assert frame == [0x94, 1] + EncodeUint(id) + [NIL] + rest;
  }

  /** A pair written by this encoder is read back as its code and its object. */
  lemma ReadEncodedPair(code: ResponseError, obj: Bytes)
    ensures Received(ErrObjectOnly(EncodeArrayHead(2) + EncodeStr(CodeName(code)) + obj))
         == Verdict(Some(code), obj)
  {
    hide CodeName, ReadErrorCode;
    CodeNameFacts(code);
    var head, nameHead := EncodeArrayHead(2), EncodeStrHead(|CodeName(code)|);
    var pair := head + EncodeStr(CodeName(code)) + obj;
    var next := |pair| - |obj|;
    assert pair[0..next] == head + nameHead + CodeName(code);
    SlicesOfConcat(pair, 0, next, head, nameHead, CodeName(code));
    ReadErrorCodeAcceptsLead(pair, 0, |head|, |head| + |nameHead|, next, code);
  }

  /** The response round trip: the id comes back, and what is read is `Received`, for all four payload forms. */
  lemma ResponseRoundTrip(rawId: Bytes, payload: ResponsePayload, frame: Bytes)
    requires ResponseFrame(rawId, payload) == Some(frame) && |frame| < U32_SIZE
    requires RestoreRequestId(rawId).Some?
    ensures IsResponseOf(Decode(frame), frame, RestoreRequestId(rawId).value, Received(payload))
  {
    hide Decode, EncodeUint, EncodeStr, CodeName, ReadErrorCode;
    var id := RetrieveId(rawId).value;
    var pre := [0x94, 1] + EncodeUint(id);
    FixUint(TYPE_RESPONSE);
    assert frame == pre + ResponseSlots(payload);
    match payload
    case Ok(obj) => DecodeOkSlot(frame, id, obj);
    case ErrObjectOnly(obj) =>
      if obj == [] || obj[0] == NIL {
        assert obj + [NIL] == [NIL] + (obj + [NIL])[1..];
        DecodeOkSlot(frame, id, (obj + [NIL])[1..]);
      } else {
        DecodeErrorSlot(frame, id, obj);
      }
    case ErrCodeOnly(code) => DecodeCodedResponse(frame, id, code, [NIL]);
    case Err(code, obj) => DecodeCodedResponse(frame, id, code, obj);
  }

  lemma DecodeCodedResponse(frame: Bytes, id: nat, code: ResponseError, obj: Bytes)
    requires 0 < id < U32_SIZE && |frame| < U32_SIZE
    requires frame == [0x94, 1] + EncodeUint(id) + (EncodeArrayHead(2) + EncodeStr(CodeName(code)) + obj + [NIL])
    ensures IsResponseOf(Decode(frame), frame, id, Verdict(Some(code), obj))
  {
    var pair := EncodeArrayHead(2) + EncodeStr(CodeName(code)) + obj;
    ReadEncodedPair(code, obj);
    assert pair[0] == 0x92;
    DecodeErrorSlot(frame, id, pair);
  }

  /** The exact ambiguity: an error object sent without a code survives unless it starts with nil or opens a
      pair whose first element spells one of the nine code names. */
  lemma ErrorObjectSurvivesIff(obj: Bytes)
    ensures Received(ErrObjectOnly(obj)) == Verdict(Some(Unknown), obj)
       <==> obj != [] && obj[0] != NIL && !exists code, k :: 0 <= k <= |obj| && OpensCodedPair(obj[..k], code)
  {
    if code, k :| 0 <= k <= |obj| && OpensCodedPair(obj[..k], code) {
      LeadEndsInName(obj[..k], code);
      assert obj[0..k] == obj[..k];
      ReadErrorCodeIff(obj, 0, code, k);
      assert |obj[k..]| < |obj|;
    }
    if ReadErrorCode(obj, 0).Some? {
      var (code, k) := ReadErrorCode(obj, 0).value;
      ReadErrorCodeIff(obj, 0, code, k);
      assert obj[0..k] == obj[..k];
    }
  }

  // ---- Arbitrary frames, not only this encoder's ----

  /** The cursor behind the id of a response. */
  function ResponseIdEnd(frame: Bytes): nat
    requires Decode(frame).Frame? && Decode(frame).frame.Response?
  {
    var typePos := ReadArrayLen(frame, 0).value.1;
    var pos := ReadInt(frame, typePos, 256).value.1;
    ReadInt(frame, pos, U32_SIZE).value.1
  }

  lemma DecodedCallInBounds(frame: Bytes, pos: nat, rawId: Option<Range>)
    requires pos <= |frame| < U32_SIZE
    ensures match DecodeCall(frame, pos, rawId)
            case Frame(Request(id, name, params)) =>
              rawId == Some(id) && pos < name.begin <= name.end == params.begin <= params.end == |frame|
            case Frame(Notify(name, params)) =>
              rawId == None && pos < name.begin <= name.end == params.begin <= params.end == |frame|
            case Frame(_) => false
            case _ => true
  {
    hide ReadStrLen;
  }

  lemma CodedPayloadInBounds(frame: Bytes, slot: nat)
    requires slot < |frame| && frame[|frame| - 1] == NIL
    ensures match ReadErrorCode(frame, slot) case Some((_, next)) => slot < next < |frame| case None => true
  {
    hide ReadErrorCode, OpensCodedPair;
    if ReadErrorCode(frame, slot).Some? {
      var (code, next) := ReadErrorCode(frame, slot).value;
      ReadErrorCodeIff(frame, slot, code, next);
      LeadEndsInName(frame[slot..next], code);
      assert frame[slot..next][next - slot - 1] == frame[next - 1];
    }
  }

  lemma DecodedResponseInBounds(frame: Bytes, pos: nat)
    requires pos <= |frame| < U32_SIZE && |frame| > 0
    ensures match DecodeResponse(frame, pos)
            case Frame(Response(_, _, payload)) =>
              ReadInt(frame, pos, U32_SIZE).Some? &&
              (payload.Within(frame) <==> ReadInt(frame, pos, U32_SIZE).value.1 < |frame|)
            case Frame(_) => false
            case _ => true
  {
    hide ReadInt, ReadErrorCode, AsU32;
    if ReadInt(frame, pos, U32_SIZE).Some? {
      var slot := ReadInt(frame, pos, U32_SIZE).value.1;
      AsU32Fits(slot);
      AsU32Fits(|frame| - 1);
      AsU32Fits(|frame|);
      if slot < |frame| && frame[slot] == NIL {
        AsU32Fits(slot + 1);
      } else if slot < |frame| && frame[|frame| - 1] == NIL && ReadErrorCode(frame, slot).Some? {
        CodedPayloadInBounds(frame, slot);
        AsU32Fits(ReadErrorCode(frame, slot).value.1);
      }
    }
  }

  /** Every decoded call has in-bounds, ordered ranges and a raw id range with a non-zero end. A response has an
      in-bounds payload range exactly when the frame does not stop right behind its id. */
  lemma DecodedRangesInBounds(frame: Bytes)
    requires |frame| < U32_SIZE
    ensures match Decode(frame)
            case Frame(Request(id, name, params)) =>
              && id.begin < id.end < name.begin <= name.end == params.begin <= params.end == |frame|
            case Frame(Notify(name, params)) =>
              name.begin <= name.end == params.begin <= params.end == |frame|
            case Frame(Response(_, _, payload)) =>
              payload.Within(frame) <==> ResponseIdEnd(frame) < |frame|
            case _ => true
  {
    hide ReadArrayLen, ReadInt, DecodeCall, DecodeResponse, AsU32;
    if ReadArrayLen(frame, 0).Some? {
      var typePos := ReadArrayLen(frame, 0).value.1;
      if ReadInt(frame, typePos, 256).Some? {
        var pos := ReadInt(frame, typePos, 256).value.1;
        DecodedCallInBounds(frame, pos, None);
        if ReadInt(frame, pos, U32_SIZE).Some? {
          var next := ReadInt(frame, pos, U32_SIZE).value.1;
          AsU32Fits(pos);
          AsU32Fits(next);
          DecodedCallInBounds(frame, next, Some(Range(AsU32(pos), AsU32(next))));
        }
        DecodedResponseInBounds(frame, pos);
      }
    }
    AsU32Fits(|frame|);
  }

  /** Such a response exists: the frame stops behind the id 0xC0, whose last byte passes for the closing nil, and the
      payload range begins behind its own end. */
  lemma PayloadOutOfBounds()
    ensures var frame := [0x94, 0x01, 0xCE, 0, 0, 0, 0xC0];
            Decode(frame) == Frame(Response(0xC0, Some(Unknown), Range(7, 6))) && !Range(7, 6).Within(frame)
  {
    var frame: Bytes := [0x94, 0x01, 0xCE, 0, 0, 0, 0xC0];
    assert frame[3..7] == [0, 0, 0, 0xC0];
    SmallBigEndian(0xC0);
    Pow256Values();
    BigEndianRoundTrip(0xC0, 4);
    assert ReadInt(frame, 2, U32_SIZE) == Some((0xC0, 7));
    assert ReadErrorCode(frame, 7) == None;
  }
}
