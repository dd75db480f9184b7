/** Both codecs against their formats, byte by byte: MessagePack (its specification, section "Formats"), MessagePack-RPC
    ("Request Message", "Response Message", "Notification Message") and Postcard (varint-encoded integers, tagged
    unions). Nothing here is said through the encoders' own parts. */
module WireFormat {
  import opened Common
  import opened Codec
  import opened MsgPackRpc
  import MsgPackRoundTrip
  import RawRpc
  import RawRoundTrip

  // ---- MessagePack ----

  /** The shortest form of an unsigned integer of at most 32 bits. */
  function Uint(n: nat): Bytes
    requires n < 0x1_0000_0000
  {
    if n < 0x80 then [n]
    else if n < 0x100 then [0xCC, n]
    else if n < 0x1_0000 then [0xCD, n / 0x100, n % 0x100]
    else [0xCE, n / 0x100_0000, n / 0x1_0000 % 0x100, n / 0x100 % 0x100, n % 0x100]
  }

  /** The shortest head of a string of `len` bytes. */
  function StrHead(len: nat): Bytes
    requires len < 0x1_0000_0000
  {
    if len < 32 then [0xA0 + len]
    else if len < 0x100 then [0xD9, len]
    else if len < 0x1_0000 then [0xDA, len / 0x100, len % 0x100]
    else [0xDB, len / 0x100_0000, len / 0x1_0000 % 0x100, len / 0x100 % 0x100, len % 0x100]
  }

  lemma TwoBytes(n: nat)
    requires n < 0x1_0000
    ensures ToBigEndian(n, 2) == [n / 0x100, n % 0x100]
  {
    assert ToBigEndian(n / 256, 1) == [n / 256];
  }

  lemma FourBytes(n: nat)
    requires n < 0x1_0000_0000
    ensures ToBigEndian(n, 4) == [n / 0x100_0000, n / 0x1_0000 % 0x100, n / 0x100 % 0x100, n % 0x100]
  {
    TwoBytes(n / 0x1_0000);
    assert n / 256 / 256 == n / 0x1_0000;
    assert ToBigEndian(n / 256, 3) == ToBigEndian(n / 256 / 256, 2) + [n / 256 % 256];
  }

  lemma MsgPackForms(n: nat)
    requires n < 0x1_0000_0000
    ensures EncodeUint(n) == Uint(n) && EncodeStrHead(n) == StrHead(n)
  {
    hide ToBigEndian;
    AsU32Fits(n);
    FourBytes(n);
    if n < 0x1_0000 {
      TwoBytes(n);
    }
  }

  /** Requests and notifications. */
  lemma MsgPackCalls(id: RequestId, name: Bytes, params: Bytes)
    requires |name| < 0x1_0000_0000
    ensures var wire := if id % 0x1_0000_0000 == 0 then 1 else id % 0x1_0000_0000;
            RequestFrame(id, name, params) == [0x94, 0x00] + Uint(wire) + StrHead(|name|) + name + params
    ensures NotifyFrame(name, params) == [0x93, 0x02] + StrHead(|name|) + name + params
  {
    hide EncodeUint, EncodeStrHead, Uint, StrHead;
    MsgPackForms(NarrowId(id));
    MsgPackForms(|name|);
    MsgPackRoundTrip.FixUint(0);
    MsgPackRoundTrip.FixUint(2);
  }

  /** The number in the five-byte form of an id. */
  function IdNumber(raw: Bytes): (n: nat)
    requires |raw| >= 5
    ensures n < 0x1_0000_0000
  {
    var a: nat, b: nat, c: nat, d: nat := raw[1], raw[2], raw[3], raw[4];
    a * 0x100_0000 + b * 0x1_0000 + c * 0x100 + d
  }

  lemma FromFourBytes(a: Byte, b: Byte, c: Byte, d: Byte)
    ensures var x: nat, y: nat, z: nat, u: nat := a, b, c, d;
            FromBigEndian([a, b, c, d]) == x * 0x100_0000 + y * 0x1_0000 + z * 0x100 + u
  {
    assert [a] == [] + [a] && [a, b] == [a] + [b] && [a, b, c] == [a, b] + [c] && [a, b, c, d] == [a, b, c] + [d];
    FromBigEndianSnoc([], a);
    FromBigEndianSnoc([a], b);
    FromBigEndianSnoc([a, b], c);
    FromBigEndianSnoc([a, b, c], d);
  }

  lemma RetrievedNumber(raw: Bytes)
    ensures RetrieveId(raw) == if |raw| >= 5 && raw[0] == 0xCE then Some(IdNumber(raw)) else None
  {
    if |raw| >= 5 {
      FromFourBytes(raw[1], raw[2], raw[3], raw[4]);
      assert raw[1..5] == [raw[1], raw[2], raw[3], raw[4]];
    }
  }

  /** An answer is refused exactly unless the id is in the five-byte form; results and errors without a code. */
  lemma MsgPackAnswers(raw: Bytes, obj: Bytes)
    ensures ResponseFrame(raw, Ok(obj)).Some? <==> |raw| >= 5 && raw[0] == 0xCE
    ensures |raw| >= 5 && raw[0] == 0xCE ==>
              ResponseFrame(raw, Ok(obj)) == Some([0x94, 0x01] + Uint(IdNumber(raw)) + [0xC0] + obj)
    ensures |raw| >= 5 && raw[0] == 0xCE ==>
              ResponseFrame(raw, ErrObjectOnly(obj)) == Some([0x94, 0x01] + Uint(IdNumber(raw)) + obj + [0xC0])
  {
    hide EncodeUint, Uint, RetrieveId, IdNumber;
    RetrievedNumber(raw);
    MsgPackRoundTrip.FixUint(1);
    if |raw| >= 5 && raw[0] == 0xCE {
      MsgPackForms(IdNumber(raw));
      var u := Uint(IdNumber(raw));
      assert EncodeArrayHead(4) + EncodeUint(1) + u + ([NIL] + obj) == [0x94, 0x01] + u + [0xC0] + obj;
      assert EncodeArrayHead(4) + EncodeUint(1) + u + (obj + [NIL]) == [0x94, 0x01] + u + obj + [0xC0];
    }
  }

  /** `spelled` is how a code is written: in the error slot of every answer with this code, and in whatever frame has it
      there. */
  ghost predicate OnTheWire(code: ResponseError, spelled: Bytes) {
    && (forall raw: Bytes :: |raw| >= 5 && raw[0] == 0xCE ==>
          ResponseFrame(raw, ErrCodeOnly(code))
          == Some([0x94, 0x01] + Uint(IdNumber(raw)) + [0x92] + spelled + [0xC0, 0xC0]))
    && (forall raw: Bytes, obj :: |raw| >= 5 && raw[0] == 0xCE ==>
          ResponseFrame(raw, EncodeResponsePayload.Err(code, obj))
          == Some([0x94, 0x01] + Uint(IdNumber(raw)) + [0x92] + spelled + obj + [0xC0]))
    && (forall id: nat, obj :: 0 < id < 0x1_0000_0000 && |CodedFrame(id, spelled, obj)| < U32_SIZE ==>
          var frame := CodedFrame(id, spelled, obj);
          IsResponseOf(Decode(frame), frame, id, Verdict(Some(code), obj)))
  }

  function CodedFrame(id: nat, spelled: Bytes, obj: Bytes): Bytes
    requires id < 0x1_0000_0000
  {
    [0x94, 0x01] + Uint(id) + [0x92] + spelled + obj + [0xC0]
  }

  lemma CodedAnswers(code: ResponseError, raw: Bytes, obj: Bytes)
    requires |raw| >= 5 && raw[0] == 0xCE
    ensures var lead := [0x94, 0x01] + Uint(IdNumber(raw)) + [0x92] + EncodeStr(CodeName(code));
            && ResponseFrame(raw, ErrCodeOnly(code)) == Some(lead + [0xC0, 0xC0])
            && ResponseFrame(raw, EncodeResponsePayload.Err(code, obj)) == Some(lead + obj + [0xC0])
  {
    hide EncodeUint, Uint, RetrieveId, IdNumber, EncodeStr, CodeName;
    MsgPackRoundTrip.FixUint(1);
    RetrievedNumber(raw);
    MsgPackForms(IdNumber(raw));
    var u, spelled := Uint(IdNumber(raw)), EncodeStr(CodeName(code));
    assert EncodeArrayHead(4) + EncodeUint(1) + u + (EncodeArrayHead(2) + spelled + [NIL] + [NIL])
        == [0x94, 0x01] + u + [0x92] + spelled + [0xC0, 0xC0];
    assert EncodeArrayHead(4) + EncodeUint(1) + u + (EncodeArrayHead(2) + spelled + obj + [NIL])
        == [0x94, 0x01] + u + [0x92] + spelled + obj + [0xC0];
  }

  lemma OnTheWireBecause(code: ResponseError)
    ensures OnTheWire(code, EncodeStr(CodeName(code)))
  {
    hide EncodeUint, Uint, ResponseFrame, IdNumber, EncodeStr, CodeName, Decode;
    var spelled := EncodeStr(CodeName(code));
    forall raw: Bytes | |raw| >= 5 && raw[0] == 0xCE
      ensures ResponseFrame(raw, ErrCodeOnly(code))
           == Some([0x94, 0x01] + Uint(IdNumber(raw)) + [0x92] + spelled + [0xC0, 0xC0])
    {
      CodedAnswers(code, raw, []);
    }
    forall raw: Bytes, obj | |raw| >= 5 && raw[0] == 0xCE
      ensures ResponseFrame(raw, EncodeResponsePayload.Err(code, obj))
           == Some([0x94, 0x01] + Uint(IdNumber(raw)) + [0x92] + spelled + obj + [0xC0])
    {
      CodedAnswers(code, raw, obj);
    }
    forall id: nat, obj | 0 < id < 0x1_0000_0000 && |CodedFrame(id, spelled, obj)| < U32_SIZE
      ensures IsResponseOf(Decode(CodedFrame(id, spelled, obj)), CodedFrame(id, spelled, obj), id,
                           Verdict(Some(code), obj))
    {
      MsgPackForms(id);
      assert CodedFrame(id, spelled, obj)
          == [0x94, 1] + EncodeUint(id) + (EncodeArrayHead(2) + EncodeStr(CodeName(code)) + obj + [NIL]);
      MsgPackRoundTrip.DecodeCodedResponse(CodedFrame(id, spelled, obj), id, code, obj);
    }
  }

  lemma SpellUnknown()
    ensures EncodeStr(CodeName(Unknown)) == [
              0xAE, 0x52, 0x50, 0x43, 0x5F, 0x49, 0x54, 0x5F, 0x55, 0x4E, 0x4B, 0x4E, 0x4F, 0x57, 0x4E]
  {
  }

  lemma SpellInvalidArgument()
    ensures EncodeStr(CodeName(InvalidArgument)) == [
              0xB7, 0x52, 0x50, 0x43, 0x5F, 0x49, 0x54, 0x5F, 0x49, 0x4E, 0x56, 0x41, 0x4C, 0x49, 0x44, 0x5F,
              0x41, 0x52, 0x47, 0x55, 0x4D, 0x45, 0x4E, 0x54]
  {
  }

  lemma SpellUnauthorized()
    ensures EncodeStr(CodeName(Unauthorized)) == [
              0xB3, 0x52, 0x50, 0x43, 0x5F, 0x49, 0x54, 0x5F, 0x55, 0x4E, 0x41, 0x55, 0x54, 0x48, 0x4F, 0x52,
              0x49, 0x5A, 0x45, 0x44]
  {
  }

  lemma SpellBusy()
    ensures EncodeStr(CodeName(Busy)) == [
              0xAB, 0x52, 0x50, 0x43, 0x5F, 0x49, 0x54, 0x5F, 0x42, 0x55, 0x53, 0x59]
  {
  }

  lemma SpellMethodNotFound()
    ensures EncodeStr(CodeName(MethodNotFound)) == [
              0xB7, 0x52, 0x50, 0x43, 0x5F, 0x49, 0x54, 0x5F, 0x4D, 0x45, 0x54, 0x48, 0x4F, 0x44, 0x5F, 0x4E,
              0x4F, 0x54, 0x5F, 0x46, 0x4F, 0x55, 0x4E, 0x44]
  {
  }

  lemma SpellAborted()
    ensures EncodeStr(CodeName(Aborted)) == [
              0xAE, 0x52, 0x50, 0x43, 0x5F, 0x49, 0x54, 0x5F, 0x41, 0x42, 0x4F, 0x52, 0x54, 0x45, 0x44]
  {
  }

  lemma SpellUnhandled()
    ensures EncodeStr(CodeName(Unhandled)) == [
              0xB0, 0x52, 0x50, 0x43, 0x5F, 0x49, 0x54, 0x5F, 0x55, 0x4E, 0x48, 0x41, 0x4E, 0x44, 0x4C, 0x45,
              0x44]
  {
  }

  lemma SpellNonUtf8MethodName()
    ensures EncodeStr(CodeName(NonUtf8MethodName)) == [
              0xBB, 0x52, 0x50, 0x43, 0x5F, 0x49, 0x54, 0x5F, 0x4E, 0x4F, 0x4E, 0x5F, 0x55, 0x54, 0x46, 0x38,
              0x5F, 0x4D, 0x45, 0x54, 0x48, 0x4F, 0x44, 0x5F, 0x4E, 0x41, 0x4D, 0x45]
  {
  }

  lemma SpellParseFailed()
    ensures EncodeStr(CodeName(ParseFailed)) == [
              0xB3, 0x52, 0x50, 0x43, 0x5F, 0x49, 0x54, 0x5F, 0x50, 0x41, 0x52, 0x53, 0x45, 0x5F, 0x46, 0x41,
              0x49, 0x4C, 0x45, 0x44]
  {
  }

  /** The nine codes over msgpack, each as a string of fewer than 32 bytes. */
  lemma CodesOnTheWire()
    ensures OnTheWire(Unknown, [  // RPC_IT_UNKNOWN
              0xAE, 0x52, 0x50, 0x43, 0x5F, 0x49, 0x54, 0x5F, 0x55, 0x4E, 0x4B, 0x4E, 0x4F, 0x57, 0x4E])
    ensures OnTheWire(InvalidArgument, [  // RPC_IT_INVALID_ARGUMENT
              0xB7, 0x52, 0x50, 0x43, 0x5F, 0x49, 0x54, 0x5F, 0x49, 0x4E, 0x56, 0x41, 0x4C, 0x49, 0x44, 0x5F,
              0x41, 0x52, 0x47, 0x55, 0x4D, 0x45, 0x4E, 0x54])
    ensures OnTheWire(Unauthorized, [  // RPC_IT_UNAUTHORIZED
              0xB3, 0x52, 0x50, 0x43, 0x5F, 0x49, 0x54, 0x5F, 0x55, 0x4E, 0x41, 0x55, 0x54, 0x48, 0x4F, 0x52,
              0x49, 0x5A, 0x45, 0x44])
    ensures OnTheWire(Busy, [  // RPC_IT_BUSY
              0xAB, 0x52, 0x50, 0x43, 0x5F, 0x49, 0x54, 0x5F, 0x42, 0x55, 0x53, 0x59])
    ensures OnTheWire(MethodNotFound, [  // RPC_IT_METHOD_NOT_FOUND
              0xB7, 0x52, 0x50, 0x43, 0x5F, 0x49, 0x54, 0x5F, 0x4D, 0x45, 0x54, 0x48, 0x4F, 0x44, 0x5F, 0x4E,
              0x4F, 0x54, 0x5F, 0x46, 0x4F, 0x55, 0x4E, 0x44])
    ensures OnTheWire(Aborted, [  // RPC_IT_ABORTED
              0xAE, 0x52, 0x50, 0x43, 0x5F, 0x49, 0x54, 0x5F, 0x41, 0x42, 0x4F, 0x52, 0x54, 0x45, 0x44])
    ensures OnTheWire(Unhandled, [  // RPC_IT_UNHANDLED
              0xB0, 0x52, 0x50, 0x43, 0x5F, 0x49, 0x54, 0x5F, 0x55, 0x4E, 0x48, 0x41, 0x4E, 0x44, 0x4C, 0x45,
              0x44])
    ensures OnTheWire(NonUtf8MethodName, [  // RPC_IT_NON_UTF8_METHOD_NAME
              0xBB, 0x52, 0x50, 0x43, 0x5F, 0x49, 0x54, 0x5F, 0x4E, 0x4F, 0x4E, 0x5F, 0x55, 0x54, 0x46, 0x38,
              0x5F, 0x4D, 0x45, 0x54, 0x48, 0x4F, 0x44, 0x5F, 0x4E, 0x41, 0x4D, 0x45])
    ensures OnTheWire(ParseFailed, [  // RPC_IT_PARSE_FAILED
              0xB3, 0x52, 0x50, 0x43, 0x5F, 0x49, 0x54, 0x5F, 0x50, 0x41, 0x52, 0x53, 0x45, 0x5F, 0x46, 0x41,
              0x49, 0x4C, 0x45, 0x44])
  {
    hide OnTheWire, EncodeStr, CodeName;
    SpellUnknown();
    SpellInvalidArgument();
    SpellUnauthorized();
    SpellBusy();
    SpellMethodNotFound();
    SpellAborted();
    SpellUnhandled();
    SpellNonUtf8MethodName();
    SpellParseFailed();
    OnTheWireBecause(Unknown);
    OnTheWireBecause(InvalidArgument);
    OnTheWireBecause(Unauthorized);
    OnTheWireBecause(Busy);
    OnTheWireBecause(MethodNotFound);
    OnTheWireBecause(Aborted);
    OnTheWireBecause(Unhandled);
    OnTheWireBecause(NonUtf8MethodName);
    OnTheWireBecause(ParseFailed);
  }

  // ---- Postcard ----

  /** A variable-length integer of at most five groups of seven bits, lowest first. */
  function Groups(n: nat): Bytes
    requires n < 0x8_0000_0000
  {
    if n < 0x80 then [n]
    else if n < 0x4000 then [0x80 + n % 0x80, n / 0x80]
    else if n < 0x20_0000 then [0x80 + n % 0x80, 0x80 + n / 0x80 % 0x80, n / 0x4000]
    else if n < 0x1000_0000 then
      [0x80 + n % 0x80, 0x80 + n / 0x80 % 0x80, 0x80 + n / 0x4000 % 0x80, n / 0x20_0000]
    else [0x80 + n % 0x80, 0x80 + n / 0x80 % 0x80, 0x80 + n / 0x4000 % 0x80, 0x80 + n / 0x20_0000 % 0x80,
          n / 0x1000_0000]
  }

  lemma VarintForms(n: nat)
    requires n < 0x8_0000_0000
    ensures RawRpc.Varint(n) == Groups(n)
  {
    if n >= 0x80 {
      VarintForms(n / 0x80);
      Regroup(n);
    }
  }

  lemma Regroup(n: nat)
    requires 0x80 <= n < 0x8_0000_0000
    ensures Groups(n) == [0x80 + n % 0x80] + Groups(n / 0x80)
  {
    assert n / 0x80 / 0x80 == n / 0x4000 && n / 0x80 / 0x4000 == n / 0x20_0000;
    assert n / 0x80 / 0x20_0000 == n / 0x1000_0000;
  }

  /** The eight bytes of an id, lowest first. */
  function Id8(id: RequestId): Bytes {
    [id % 0x100, id / 0x100 % 0x100, id / 0x1_0000 % 0x100, id / 0x100_0000 % 0x100,
     id / 0x1_0000_0000 % 0x100, id / 0x100_0000_0000 % 0x100, id / 0x1_0000_0000_0000 % 0x100,
     id / 0x100_0000_0000_0000 % 0x100]
  }

  lemma IdForm(id: RequestId)
    ensures RawRpc.IdBytes(id) == Id8(id)
  {
    Quotients(id);
    hide ToLittleEndian;
    LowestFirst(id, 8);
    LowestFirst(id / 0x100, 7);
    LowestFirst(id / 0x1_0000, 6);
    LowestFirst(id / 0x100_0000, 5);
    LowestFirst(id / 0x1_0000_0000, 4);
    LowestFirst(id / 0x100_0000_0000, 3);
    LowestFirst(id / 0x1_0000_0000_0000, 2);
    LowestFirst(id / 0x100_0000_0000_0000, 1);
    NoBytes(id / 0x100_0000_0000_0000 / 256);
  }

  lemma Quotients(n: nat)
    ensures n / 256 / 256 == n / 0x1_0000
    ensures n / 0x1_0000 / 256 == n / 0x100_0000
    ensures n / 0x100_0000 / 256 == n / 0x1_0000_0000
    ensures n / 0x1_0000_0000 / 256 == n / 0x100_0000_0000
    ensures n / 0x100_0000_0000 / 256 == n / 0x1_0000_0000_0000
    ensures n / 0x1_0000_0000_0000 / 256 == n / 0x100_0000_0000_0000
  {
  }

  lemma LowestFirst(n: nat, k: nat)
    requires k > 0
    ensures ToLittleEndian(n, k) == [n % 256] + ToLittleEndian(n / 256, k - 1)
  {
  }

  lemma NoBytes(n: nat)
    ensures ToLittleEndian(n, 0) == []
  {
  }

  /** The id as a field: its length and its bytes. */
  lemma IdField(id: RequestId)
    ensures RawRpc.IdBytes(id) == Id8(id) && RawRpc.EncodeBytes(RawRpc.IdBytes(id)) == [0x08] + Id8(id)
  {
    hide RawRpc.Varint, Id8;
    IdForm(id);
    SmallGroups();
  }

  /** Requests and notifications: the tag of the head's variant, its fields, the parameters. */
  lemma RawCalls(id: RequestId, name: Bytes, params: Bytes)
    requires |name| < 0x1_0000_0000
    ensures RawRpc.RequestFrame(id, name, params) == [0x01, 0x08] + Id8(id) + Groups(|name|) + name + params
    ensures RawRpc.NotifyFrame(name, params) == [0x00] + Groups(|name|) + name + params
  {
    hide RawRpc.Varint, RawRpc.IdBytes, Groups, Id8;
    IdField(id);
    VarintForms(|name|);
    SmallGroups();
    assert [0x01] + ([0x08] + Id8(id)) + (Groups(|name|) + name) + params
        == [0x01, 0x08] + Id8(id) + Groups(|name|) + name + params;
    assert [0x00] + (Groups(|name|) + name) + params == [0x00] + Groups(|name|) + name + params;
  }

  lemma SmallGroups()
    ensures RawRpc.Varint(0) == [0x00] && RawRpc.Varint(1) == [0x01] && RawRpc.Varint(2) == [0x02]
    ensures RawRpc.Varint(3) == [0x03] && RawRpc.Varint(8) == [0x08]
  {
  }

  /** Results and errors without a code. */
  lemma RawAnswers(id: RequestId, tail: Bytes, obj: Bytes)
    ensures RawRpc.ResponseFrame(Id8(id) + tail, Ok(obj)) == Some([0x02, 0x08] + Id8(id) + obj)
    ensures RawRpc.ResponseFrame(Id8(id) + tail, ErrObjectOnly(obj)) == Some([0x03, 0x08] + Id8(id) + [0x00] + obj)
  {
    hide RawRpc.Varint, RawRpc.IdBytes, RawRpc.EncodeBytes, RawRpc.RestoreRequestId, Id8;
    IdField(id);
    RawRoundTrip.IdBytesRoundTrip(id, tail);
    SmallGroups();
    assert [0x02] + ([0x08] + Id8(id)) + obj == [0x02, 0x08] + Id8(id) + obj;
    assert [0x03] + ([0x08] + Id8(id)) + [0x00] + obj == [0x03, 0x08] + Id8(id) + [0x00] + obj;
  }

  /** `number` stands for a code: in every answer with this code, twice if there is no error object, and in whatever
      frame has it there. */
  ghost predicate RawOnTheWire(code: ResponseError, number: Byte) {
    && (forall id: RequestId, tail ::
          RawRpc.ResponseFrame(Id8(id) + tail, ErrCodeOnly(code))
          == Some([0x03, 0x08] + Id8(id) + [number] + [number]))
    && (forall id: RequestId, tail, obj ::
          RawRpc.ResponseFrame(Id8(id) + tail, EncodeResponsePayload.Err(code, obj))
          == Some([0x03, 0x08] + Id8(id) + [number] + obj))
    && (forall id: RequestId, obj :: |RawCodedFrame(id, number, obj)| < U32_SIZE ==>
          IsResponseOf(RawRpc.Decode(RawCodedFrame(id, number, obj)), RawCodedFrame(id, number, obj), id,
                       Verdict(Some(code), obj)))
  }

  function RawCodedFrame(id: RequestId, number: Byte, obj: Bytes): Bytes {
    [0x03, 0x08] + Id8(id) + [number] + obj
  }

  lemma RawCodedAnswers(code: ResponseError, id: RequestId, tail: Bytes, obj: Bytes)
    ensures var lead := [0x03, 0x08] + Id8(id) + [CodeNumber(code)];
            && RawRpc.ResponseFrame(Id8(id) + tail, ErrCodeOnly(code)) == Some(lead + [CodeNumber(code)])
            && RawRpc.ResponseFrame(Id8(id) + tail, EncodeResponsePayload.Err(code, obj)) == Some(lead + obj)
  {
    hide RawRpc.Varint, RawRpc.IdBytes, RawRpc.EncodeBytes, RawRpc.RestoreRequestId, Id8, CodeNumber;
    RawErrorFrame(code, id, obj);
    RawErrorFrame(code, id, [CodeNumber(code)]);
    IdField(id);
    RawRoundTrip.IdBytesRoundTrip(id, tail);
  }

  lemma RawErrorFrame(code: ResponseError, id: RequestId, obj: Bytes)
    ensures RawRpc.ErrorFrame(id, code, obj) == [0x03, 0x08] + Id8(id) + [CodeNumber(code)] + obj
  {
    hide RawRpc.Varint, RawRpc.IdBytes, RawRpc.EncodeBytes, Id8, CodeNumber;
    IdField(id);
    SmallGroups();
    assert [0x03] + ([0x08] + Id8(id)) + [CodeNumber(code)] + obj == [0x03, 0x08] + Id8(id) + [CodeNumber(code)] + obj;
  }

  lemma RawOnTheWireBecause(code: ResponseError)
    ensures RawOnTheWire(code, CodeNumber(code))
  {
    hide RawRpc.ResponseFrame, RawRpc.ErrorFrame, RawRpc.Decode, Id8, CodeNumber;
    forall id: RequestId, tail
      ensures RawRpc.ResponseFrame(Id8(id) + tail, ErrCodeOnly(code))
           == Some([0x03, 0x08] + Id8(id) + [CodeNumber(code)] + [CodeNumber(code)])
    {
      RawCodedAnswers(code, id, tail, []);
    }
    forall id: RequestId, tail, obj
      ensures RawRpc.ResponseFrame(Id8(id) + tail, EncodeResponsePayload.Err(code, obj))
           == Some([0x03, 0x08] + Id8(id) + [CodeNumber(code)] + obj)
    {
      RawCodedAnswers(code, id, tail, obj);
    }
    forall id: RequestId, obj | |RawCodedFrame(id, CodeNumber(code), obj)| < U32_SIZE
      ensures IsResponseOf(RawRpc.Decode(RawCodedFrame(id, CodeNumber(code), obj)),
                           RawCodedFrame(id, CodeNumber(code), obj), id, Verdict(Some(code), obj))
    {
      RawErrorFrame(code, id, obj);
      RawRoundTrip.DecodeErrorFrame(RawCodedFrame(id, CodeNumber(code), obj), id, code, obj);
    }
  }

  /** The nine codes over rawrpc; any other number is read as `Unknown`. */
  lemma CodeNumbersOnTheWire(other: Byte)
    ensures RawOnTheWire(Unknown, 0)
    ensures RawOnTheWire(InvalidArgument, 1)
    ensures RawOnTheWire(Unauthorized, 2)
    ensures RawOnTheWire(Busy, 3)
    ensures RawOnTheWire(MethodNotFound, 4)
    ensures RawOnTheWire(Aborted, 5)
    ensures RawOnTheWire(Unhandled, 6)
    ensures RawOnTheWire(NonUtf8MethodName, 7)
    ensures RawOnTheWire(ParseFailed, 8)
    ensures other > 8 ==> CodeFromNumber(other) == Unknown
  {
    hide RawOnTheWire;
    RawOnTheWireBecause(Unknown);
    RawOnTheWireBecause(InvalidArgument);
    RawOnTheWireBecause(Unauthorized);
    RawOnTheWireBecause(Busy);
    RawOnTheWireBecause(MethodNotFound);
    RawOnTheWireBecause(Aborted);
    RawOnTheWireBecause(Unhandled);
    RawOnTheWireBecause(NonUtf8MethodName);
    RawOnTheWireBecause(ParseFailed);
  }
}
