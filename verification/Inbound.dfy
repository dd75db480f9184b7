/** `Inbound` as the object it is, each call proved against the token protocol. */
module Inbounds {
  import opened Common
  import opened Codec
  import Codecs
  import MsgPackRpc
  import MsgPackRoundTrip
  import Tokens = InboundTokens
  import opened Writer
  import opened WriterSpec

  // ---- What the user answers ----

  /** `ResponsePayload<T>`: a result, or an error code with or without an error object. */
  datatype UserResult = Success(obj: Serialized) | Failure(code: ResponseError, detail: Option<Serialized>)

  /** `From<ResponseError>`. */
  function FromCode(code: ResponseError): UserResult {
    Failure(code, None)
  }

  /** `From<Result<T, T>>`. */
  function FromResult(obj: Serialized, ok: bool): UserResult {
    if ok then Success(obj) else Failure(Unknown, Some(obj))
  }

  /** `From<(ResponseError, T)>`. */
  function FromCoded(code: ResponseError, obj: Serialized): UserResult {
    Failure(code, Some(obj))
  }

  /** The form handed to the codec. */
  function ToPayload(result: UserResult): Outgoing {
    match result
    case Success(obj) => EncodeResponsePayload.Ok(obj)
    case Failure(Unknown, Some(obj)) => ErrObjectOnly(obj)
    case Failure(code, Some(obj)) => EncodeResponsePayload.Err(code, obj)
    case Failure(code, None) => ErrCodeOnly(code)
  }

  /** The peer reads the user's status, code and object. */
  predicate Survives(kind: Codecs.Kind, result: UserResult) {
    var verdict := Codecs.Received(kind, Written(ToPayload(result)));
    match result
    case Success(obj) => verdict == Verdict(None, obj.bytes)
    case Failure(code, Some(obj)) => verdict == Verdict(Some(code), obj.bytes)
    case Failure(code, None) =>
      && verdict.errc == Some(code)
      && (kind.MsgPack? ==> verdict.payload == [0xC0])
      && (kind.Raw? ==> |verdict.payload| == 1 && CodeFromNumber(verdict.payload[0]) == code)
  }

  /** An error object that cannot be taken for nil or for a pair of a code and an object. */
  ghost predicate Unambiguous(obj: Bytes) {
    && obj != [] && obj[0] != MsgPackRpc.NIL
    && !exists code, k :: 0 <= k <= |obj| && MsgPackRoundTrip.OpensCodedPair(obj[..k], code)
  }

  /** What the user answers is what the peer reads, with one exception: over msgpack an error object under the code
      `Unknown`, the form plain error results take, survives exactly when it is unambiguous. */
  lemma UserResultSurvivesIff(kind: Codecs.Kind, result: UserResult)
    ensures Survives(kind, result)
       <==> (kind.MsgPack? && result.Failure? && result.code == Unknown && result.detail.Some? ==>
               Unambiguous(result.detail.value.bytes))
  {
    hide MsgPackRpc.ReadErrorCode;
    if result.Failure? && result.code == Unknown && result.detail.Some? {
      MsgPackRoundTrip.ErrorObjectSurvivesIff(result.detail.value.bytes);
    }
  }

  /** A plain error result, `Err(obj)`, over msgpack. */
  lemma ErrorResultSurvivesIff(obj: Serialized)
    ensures Survives(Codecs.MsgPack, FromResult(obj, false)) <==> Unambiguous(obj.bytes)
  {
    UserResultSurvivesIff(Codecs.MsgPack, FromResult(obj, false));
  }

  /** The conversions: an answer made from a code reads with that code, one made from a result or from a code and an
      object reads as those; codes other than `Unknown` and results always, plain errors as the lemma above says. */
  lemma ConversionsRead(kind: Codecs.Kind, code: ResponseError, obj: Serialized)
    ensures Codecs.Received(kind, Written(ToPayload(FromCode(code)))).errc == Some(code)
    ensures Codecs.Received(kind, Written(ToPayload(FromResult(obj, true)))) == Verdict(None, obj.bytes)
    ensures code != Unknown ==>
              Codecs.Received(kind, Written(ToPayload(FromCoded(code, obj)))) == Verdict(Some(code), obj.bytes)
    ensures kind.Raw? ==>
              Codecs.Received(kind, Written(ToPayload(FromResult(obj, false)))) == Verdict(Some(Unknown), obj.bytes)
  {
    UserResultSurvivesIff(kind, FromCode(code));
    UserResultSurvivesIff(kind, FromResult(obj, true));
    UserResultSurvivesIff(kind, FromCoded(code, obj));
    UserResultSurvivesIff(kind, FromResult(obj, false));
  }

  // ---- Calls on handles that no other thread disturbs ----

  function Emptied(h: Tokens.Handle): Tokens.Handle {
    h.(word := 0)
  }

  /** `take`: what is left behind, and the new handle. */
  function Moved(h: Tokens.Handle): (Tokens.Handle, Tokens.Handle) {
    (h.(word := 0, buffer := []), h)
  }

  /** `clone_message`. */
  function Cloned(h: Tokens.Handle, takeRequest: bool): (Tokens.Handle, Tokens.Handle) {
    if takeRequest then (Emptied(h), h) else (h, Emptied(h))
  }

  /** The word of a handle is zero or packs an id range of its buffer. */
  predicate WellFormed(h: Tokens.Handle, bigEndian: bool) {
    && h.alive && h.word < U64_SIZE
    && (h.word != 0 ==>
          && Tokens.FromWord(h.word, bigEndian).Some?
          && Tokens.FromWord(h.word, bigEndian).value.Within(h.buffer))
  }

  lemma Repacked(h: Tokens.Handle, bigEndian: bool)
    requires WellFormed(h, bigEndian)
    ensures Tokens.ToWord(Tokens.FromWord(h.word, bigEndian), bigEndian) == h.word
    ensures h.word == 0 ==> Tokens.FromWord(h.word, bigEndian).None?
  {
  }

  predicate Ready(s: Tokens.State, t: nat, h: nat) {
    && t < |s.threads| && s.threads[t].Idle? && h < |s.handles| && WellFormed(s.handles[h], s.bigEndian)
    && !Tokens.Borrowed(s, h)
  }

  /** An undisturbed `take` is its two steps in the token protocol. */
  lemma UndisturbedTake(s: Tokens.State, t: nat, h: nat)
    requires Ready(s, t, h)
    ensures Tokens.Enabled(s, Tokens.Swap(t, h, Tokens.Take))
    ensures var (left, taken) := Moved(s.handles[h]);
            var s1 := Tokens.Next(s, Tokens.Swap(t, h, Tokens.Take));
            && Tokens.Enabled(s1, Tokens.Finish(t, true))
            && Tokens.Next(s1, Tokens.Finish(t, true)) == s.(handles := s.handles[h := left] + [taken])
  {
  }

  lemma UndisturbedClone(s: Tokens.State, t: nat, h: nat, takeRequest: bool)
    requires Ready(s, t, h)
    ensures var purpose := if takeRequest then Tokens.CloneRequest else Tokens.CloneNotify;
            && Tokens.Enabled(s, Tokens.Swap(t, h, purpose))
            && var (left, clone) := Cloned(s.handles[h], takeRequest);
               var s1 := Tokens.Next(s, Tokens.Swap(t, h, purpose));
               && Tokens.Enabled(s1, Tokens.Finish(t, true))
               && Tokens.Next(s1, Tokens.Finish(t, true)) == s.(handles := s.handles[h := left] + [clone])
  {
  }

  /** An undisturbed response uses up the token whether or not it gets queued. */
  lemma UndisturbedResponse(s: Tokens.State, t: nat, h: nat, payload: Outgoing, queued: bool)
    requires Ready(s, t, h) && s.handles[h].delivery < |s.consumed| && (queued ==> Complete(payload))
    ensures Tokens.Enabled(s, Tokens.Swap(t, h, Tokens.Respond(payload)))
    ensures var s1 := Tokens.Next(s, Tokens.Swap(t, h, Tokens.Respond(payload)));
            Tokens.Enabled(s1, Tokens.Finish(t, queued)) &&
            var s2 := Tokens.Next(s1, Tokens.Finish(t, queued));
            && s2.handles == s.handles[h := Emptied(s.handles[h])] && s2.threads == s.threads
            && var d, range := s.handles[h].delivery, Tokens.TokenOf(s, h);
               && s2.consumed[d] == s.consumed[d] + (if s.handles[h].word != 0 then 1 else 0)
               && s2.replies == if !range.Some? || !queued then s.replies
                                else s.replies
                                     + [Tokens.Reply(d, range.value.Of(s.handles[h].buffer), Written(payload))]
  {
  }

  // ---- The object ----

  datatype ResponseOutcome = Queued | InboundNotRequest | EncodeRefused(error: EncodeError) | NotQueued(why: SendResult)

  class Inbound {
    const kind: Codecs.Kind
    const bigEndian: bool
    const channel: Channel
    var buffer: Bytes
    var name: Range
    var payload: Range
    var word: nat
    ghost const delivery: nat

    constructor (kind: Codecs.Kind, bigEndian: bool, channel: Channel, ghost delivery: nat, buffer: Bytes, name: Range,
                 payload: Range, reqId: Option<Range>)
      requires name.Within(buffer) && payload.Within(buffer)
      requires reqId.Some? ==> Tokens.IsIdRange(reqId.value) && reqId.value.Within(buffer)
      ensures Valid() && Token() == reqId && (word != 0 <==> reqId.Some?)
      ensures this.kind == kind && this.bigEndian == bigEndian && this.channel == channel && this.delivery == delivery
      ensures this.buffer == buffer && this.name == name && this.payload == payload
    {
      Tokens.WordRoundTrip(reqId, bigEndian);
      this.kind, this.bigEndian, this.channel, this.delivery := kind, bigEndian, channel, delivery;
      this.buffer, this.name, this.payload := buffer, name, payload;
      word := Tokens.ToWord(reqId, bigEndian);
    }

    ghost function View(): Tokens.Handle
      reads this
    {
      Tokens.Handle(delivery, buffer, word, true)
    }

    ghost predicate Valid()
      reads this
    {
      WellFormed(View(), bigEndian) && name.Within(buffer) && payload.Within(buffer)
    }

    /** `to_req_range` of the current word. */
    function Token(): Option<Range>
      reads this
    {
      Tokens.FromWord(word, bigEndian)
    }

    /** `atomic_take_req_range`. */
    method AtomicTakeReqRange() returns (range: Option<Range>)
      requires Valid()
      modifies this`word
      ensures Valid() && word == 0 && range == old(Token())
      ensures range.Some? <==> old(word) != 0
    {
      Tokens.UnpackedWord(word, bigEndian);
      range := Token();
      word := 0;
    }

    /** `take`. */
    method Take() returns (taken: Inbound)
      requires Valid()
      modifies this
      ensures Valid() && fresh(taken) && taken.Valid()
      ensures (View(), taken.View()) == Moved(old(View()))
      ensures taken.word == old(word) && taken.buffer == old(buffer) && word == 0 && buffer == []
      ensures taken.Token() == old(Token()) && Token() == None
      ensures taken.kind == kind && taken.channel == channel && taken.name == old(name) && taken.payload == old(payload)
    {
      Repacked(View(), bigEndian);
      Tokens.UnpackedWord(word, bigEndian);
      var reqId := AtomicTakeReqRange();
      taken := new Inbound(kind, bigEndian, channel, delivery, buffer, name, payload, reqId);
      Tokens.WordRoundTrip(reqId, bigEndian);
      Repacked(taken.View(), bigEndian);
      buffer, name, payload := [], Range(0, 0), Range(0, 0);
    }

    /** `clone_message`. */
    method CloneMessage(takeRequest: bool) returns (clone: Inbound)
      requires Valid()
      modifies this`word
      ensures Valid() && fresh(clone) && clone.Valid()
      ensures (View(), clone.View()) == Cloned(old(View()), takeRequest)
      ensures clone.buffer == buffer
      ensures if takeRequest then clone.word == old(word) && word == 0 else clone.word == 0 && word == old(word)
      ensures clone.kind == kind && clone.channel == channel && clone.name == name && clone.payload == payload
    {
      Repacked(View(), bigEndian);
      Tokens.UnpackedWord(word, bigEndian);
      var reqId := None;
      if takeRequest {
        reqId := AtomicTakeReqRange();
      }
      clone := new Inbound(kind, bigEndian, channel, delivery, buffer, name, payload, reqId);
      Tokens.WordRoundTrip(reqId, bigEndian);
      Repacked(clone.View(), bigEndian);
    }

    /** `drop_request`. */
    method DropRequest()
      requires Valid()
      modifies this`word
      ensures Valid() && View() == Emptied(old(View())) && word == 0 && Token() == None
    {
      Repacked(View(), bigEndian);
      Tokens.WordRoundTrip(None, bigEndian);
      var _ := AtomicTakeReqRange();
    }

    /** `encode_response`: nothing when there is no token; otherwise the token is gone even if encoding fails. */
    method EncodeResponse(buf: BytesMut, result: UserResult) returns (encoded: Option<Option<EncodeError>>)
      requires Valid()
      modifies this`word, buf
      ensures Valid() && View() == Emptied(old(View()))
      ensures encoded == if old(word) == 0 then None else Some(old(Refusal(result)))
      ensures buf.data == old(BufferAfter(buf.data, result))
    {
      hide Codecs.ResponseFrame, Codecs.AfterRefusal, Complete, Written;
      Repacked(View(), bigEndian);
      var range := AtomicTakeReqRange();
      if range.None? {
        return None;
      }
      var error := Codecs.EncodeResponse(kind, range.value.Of(buffer), ToPayload(result), buf);
      return Some(error);
    }

    /** The id bytes of the request. */
    ghost function RawId(): Bytes
      reads this
    {
      if Token().Some? && Token().value.Within(buffer) then Token().value.Of(buffer) else []
    }

    /** Why the codec refuses this answer, if it does: the id, or an object that does not serialise to the end. */
    ghost function Refusal(result: UserResult): Option<EncodeError>
      reads this
    {
      Codecs.Refusal(kind, RawId(), ToPayload(result))
    }

    /** The encoded answer to this request. */
    ghost function Answer(result: UserResult): Bytes
      reads this
      requires Refusal(result).None?
    {
      Codecs.ResponseFrame(kind, RawId(), Written(ToPayload(result))).value
    }

    /** The caller's buffer behind `encode_response`: what was there and the answer; or what a refusal leaves. */
    ghost function BufferAfter(before: Bytes, result: UserResult): Bytes
      reads this
    {
      if word == 0 then before
      else if Refusal(result).None? then before + Answer(result)
      else Codecs.AfterRefusal(kind, before, RawId(), ToPayload(result))
    }

    /** The peer reads the frame as the answer with this payload to the request with these id bytes. */
    ghost predicate IsAnswer(frame: Bytes, rawId: Bytes, payload: Outgoing) {
      forall id :: Codecs.RestoreRequestId(kind, rawId) == Some(id) && |frame| < U32_SIZE ==>
        IsResponseOf(Codecs.Decode(kind, frame), frame, id, Codecs.Received(kind, Written(payload)))
    }

    lemma AnswerIs(rawId: Bytes, payload: Outgoing, frame: Bytes)
      ensures Codecs.ResponseFrame(kind, rawId, Written(payload)) == Some(frame) ==> IsAnswer(frame, rawId, payload)
    {
      hide Codecs.ResponseFrame, Codecs.Decode, Codecs.Received;
      if Codecs.ResponseFrame(kind, rawId, Written(payload)) == Some(frame) {
        forall id | Codecs.RestoreRequestId(kind, rawId) == Some(id) && |frame| < U32_SIZE
          ensures IsResponseOf(Codecs.Decode(kind, frame), frame, id, Codecs.Received(kind, Written(payload)))
        {
          Codecs.AnswerArrivesFor(kind, rawId, id, Written(payload), frame);
        }
      }
    }

    /** `try_response`. The caller's buffer is sent along with everything that was in it. */
    method TryResponse(buf: BytesMut, result: UserResult) returns (outcome: ResponseOutcome)
      requires Valid()
      modifies this`word, buf, channel`queue, channel`accepted
      ensures Valid() && View() == Emptied(old(View()))
      ensures outcome.InboundNotRequest? <==> old(word) == 0
      ensures outcome.EncodeRefused? <==> old(word) != 0 && old(Refusal(result)).Some?
      ensures outcome.EncodeRefused? ==> old(Refusal(result)) == Some(outcome.error)
      ensures outcome.Queued? ==> channel.queue == old(channel.queue) + [WriteMsg(old(buf.data) + old(Answer(result)))]
      ensures !outcome.Queued? ==> channel.queue == old(channel.queue)
      ensures buf.data == if outcome.Queued? || outcome.NotQueued? then [] else old(BufferAfter(buf.data, result))
      ensures outcome.NotQueued? ==> !outcome.why.Accepted? && (channel.closed || channel.capacity.Some?)
      ensures outcome.Queued? && old(buf.data) == [] ==>
                && |channel.queue| == |old(channel.queue)| + 1 && channel.queue[|old(channel.queue)|].WriteMsg?
                && IsAnswer(channel.queue[|old(channel.queue)|].payload, old(RawId()), ToPayload(result))
    {
      hide Codecs.ResponseFrame, Codecs.AfterRefusal, WellFormed, IsAnswer;
      var encoded := EncodeResponse(buf, result);
      if encoded.None? {
        return InboundNotRequest;
      }
      if encoded.value.Some? {
        return EncodeRefused(encoded.value.value);
      }
      ghost var answer := old(Answer(result));
      AnswerIs(old(RawId()), ToPayload(result), answer);
      assert [] + answer == answer;
      var frame := buf.Split();
      var sent := channel.TrySend(WriteMsg(frame));
      return if sent.Accepted? then Queued else NotQueued(sent);
    }

    /** The drop guard: a request nobody answered is answered as unhandled, in a buffer of its own. */
    method Drop()
      requires Valid()
      modifies this`word, channel`queue, channel`accepted
      ensures Valid() && View() == Emptied(old(View())) && word == 0
      ensures channel.queue == old(channel.queue) ||
              (old(word) != 0 && |channel.queue| == |old(channel.queue)| + 1 &&
               channel.queue[..|old(channel.queue)|] == old(channel.queue) &&
               SaysUnhandled(channel.queue[|old(channel.queue)|], old(RawId())))
      ensures old(word) != 0 && CanBeAnswered(old(RawId())) && !channel.closed && channel.capacity.None? ==>
                channel.queue != old(channel.queue)
    {
      hide Codecs.Refusal, Answer, BufferAfter, WellFormed, SaysUnhandled, IsAnswer, CanBeAnswered;
      if word != 0 {
        var buf := new BytesMut();
        UnhandledIsNotRefused(RawId());
        var outcome := TryResponse(buf, FromCode(Unhandled));
        if outcome.Queued? {
          UnhandledAnswer(channel.queue[|old(channel.queue)|], old(RawId()));
        }
      }
    }

    /** The directive writes a frame that the peer reads as an error of code `Unhandled`, in answer to the request with
        these id bytes. */
    ghost predicate SaysUnhandled(d: WriterSpec.Directive, rawId: Bytes) {
      d.WriteMsg? &&
      forall id :: Codecs.RestoreRequestId(kind, rawId) == Some(id) && |d.payload| < U32_SIZE ==>
        var read := Codecs.Decode(kind, d.payload);
        read.Frame? && read.frame.Response? && read.frame.id == id && read.frame.errc == Some(Unhandled)
    }

    /** Over rawrpc at least eight bytes that are not all zero, over msgpack the five-byte form. */
    ghost predicate CanBeAnswered(rawId: Bytes) {
      match kind
      case MsgPack => |rawId| >= 5 && rawId[0] == 0xCE
      case Raw => |rawId| >= 8 && exists i :: 0 <= i < 8 && rawId[i] != 0
    }

    lemma UnhandledAnswer(d: WriterSpec.Directive, rawId: Bytes)
      requires d.WriteMsg? && IsAnswer(d.payload, rawId, ToPayload(FromCode(Unhandled)))
      ensures SaysUnhandled(d, rawId)
    {
      hide Codecs.Decode, Codecs.Received, Codecs.RestoreRequestId;
      ConversionsRead(kind, Unhandled, Serialized([], true));
    }

    lemma UnhandledIsNotRefused(rawId: Bytes)
      ensures CanBeAnswered(rawId) ==> Codecs.Refusal(kind, rawId, ToPayload(FromCode(Unhandled))).None?
    {
      if kind.Raw? && |rawId| >= 8 && FromLittleEndian(rawId[..8]) == 0 {
        ZeroBytes(rawId[..8]);
      }
    }
  }

  /** Only zero bytes make zero. */
  lemma {:induction false} ZeroBytes(s: Bytes)
    requires FromLittleEndian(s) == 0
    ensures forall i :: 0 <= i < |s| ==> s[i] == 0
  {
    if s == [] {
    } else {
      ZeroBytes(s[1..]);
      assert forall i :: 1 <= i < |s| ==> s[i] == s[1..][i - 1];
    }
  }
}
