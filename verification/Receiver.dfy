/** The reader: what each incoming frame does to the request context, and what reaches the caller. */
module Receivers {
  import opened Common
  import opened Codec
  import Codecs
  import Utf8
  import Tokens = InboundTokens
  import Requests
  import RequestSpec
  import opened RequestContexts
  import Writer
  import opened Inbounds

  datatype ReceiveError =
    | Eof
    | IoError
    | DecodeFailed(frame: Bytes)
    | UnhandledResponse(response: Requests.Reply)
    | NonUtf8MethodName(frame: Bytes, name: Range)

  /** What one frame comes to. `Crashed`: the codec ran past the end of the frame. */
  datatype Handled =
    | ResponseTaken
    | Message(frame: Bytes, name: Range, params: Range, rawId: Option<Range>)
    | Refused(error: ReceiveError)
    | Crashed

  /** What the transport delivers next: a frame, or a read error. */
  datatype Incoming = Arrived(frame: Frame) | ReadFailed

  function Judged(frame: Frame, name: Range, params: Range, rawId: Option<Range>): Handled {
    if name.Within(frame) && !Utf8.Valid(name.Of(frame)) then Refused(ReceiveError.NonUtf8MethodName(frame, name))
    else Message(frame, name, params, rawId)
  }

  /** `handle_inbound_once`; `sh` is the request context, if requests are enabled. */
  function Handle(kind: Codecs.Kind, sh: Option<Requests.Shared>, frame: Frame): (Option<Requests.Shared>, Handled)
    requires sh.Some? ==> RequestSpec.SlotsExist(sh.value)
  {
    match Codecs.Decode(kind, frame)
    case Malformed => (sh, Refused(DecodeFailed(frame)))
    case Panicked => (sh, Crashed)
    case Frame(Request(id, name, params)) => (sh, Judged(frame, name, params, Some(id)))
    case Frame(Notify(name, params)) => (sh, Judged(frame, name, params, None))
    case Frame(Response(id, errc, payload)) =>
      var reply := Requests.Reply(frame, errc, payload);
      if sh.None? then (sh, Refused(UnhandledResponse(reply)))
      else
        var (after, accepted) := RequestSpec.Responded(sh.value, id, reply);
        (Some(after), if accepted then ResponseTaken else Refused(UnhandledResponse(reply)))
  }

  // ---- What that means, by what the frame says ----

  /** A response: the waiter registered for its id gets it, and nobody else does; without one, or with the context
      expired, it goes back to the caller. */
  lemma ResponseHandled(kind: Codecs.Kind, sh: Option<Requests.Shared>, frame: Frame, id: RequestId, verdict: Verdict)
    requires sh.Some? ==> RequestSpec.SlotsExist(sh.value)
    requires IsResponseOf(Codecs.Decode(kind, frame), frame, id, verdict)
    ensures var (after, handled) := Handle(kind, sh, frame);
            if sh.Some? && id in sh.value.waitList && !sh.value.expired then
              && handled.ResponseTaken? && after.Some?
              && after.value.waitList == sh.value.waitList && |after.value.waiters| == |sh.value.waiters|
              && var slot := sh.value.waitList[id];
                 && (forall k :: 0 <= k < |sh.value.waiters| && k != slot ==>
                       after.value.waiters[k] == sh.value.waiters[k])
                 && var was, cell := sh.value.waiters[slot].cell, after.value.waiters[slot].cell;
                    if was.Vacant? || was.Ready? then
                      cell.Ready? && cell.reply.raw == frame && Requests.Reads(cell.reply, verdict)
                    else cell == was
            else
              && after == sh && handled.Refused? && handled.error.UnhandledResponse?
              && handled.error.response.raw == frame && Requests.Reads(handled.error.response, verdict)
  {
    hide Codecs.Decode;
  }

  lemma RequestHandled(kind: Codecs.Kind, sh: Option<Requests.Shared>, frame: Frame, rawId: Bytes, name: Bytes,
                       params: Bytes)
    requires sh.Some? ==> RequestSpec.SlotsExist(sh.value)
    requires IsRequestOf(Codecs.Decode(kind, frame), frame, rawId, name, params)
    ensures var (after, handled) := Handle(kind, sh, frame);
            && after == sh
            && if Utf8.Valid(name) then
                 && handled.Message? && handled.frame == frame
                 && handled.name.Within(frame) && handled.name.Of(frame) == name
                 && handled.params.Within(frame) && handled.params.Of(frame) == params
                 && handled.rawId.Some? && handled.rawId.value.Within(frame) && handled.rawId.value.Of(frame) == rawId
               else NamesTheCall(handled, frame, name)
  {
    hide Codecs.Decode, Utf8.Valid;
  }

  lemma NotifyHandled(kind: Codecs.Kind, sh: Option<Requests.Shared>, frame: Frame, name: Bytes, params: Bytes)
    requires sh.Some? ==> RequestSpec.SlotsExist(sh.value)
    requires IsNotifyOf(Codecs.Decode(kind, frame), frame, name, params)
    ensures var (after, handled) := Handle(kind, sh, frame);
            && after == sh
            && if Utf8.Valid(name) then
                 && handled.Message? && handled.frame == frame && handled.rawId.None?
                 && handled.name.Within(frame) && handled.name.Of(frame) == name
                 && handled.params.Within(frame) && handled.params.Of(frame) == params
               else NamesTheCall(handled, frame, name)
  {
    hide Codecs.Decode, Utf8.Valid;
  }

  /** The error shows the frame and where its name stands. */
  predicate NamesTheCall(handled: Handled, frame: Frame, name: Bytes) {
    && handled.Refused? && handled.error.NonUtf8MethodName? && handled.error.frame == frame
    && handled.error.name.Within(frame) && handled.error.name.Of(frame) == name
  }

  lemma MalformedHandled(kind: Codecs.Kind, sh: Option<Requests.Shared>, frame: Frame)
    requires sh.Some? ==> RequestSpec.SlotsExist(sh.value)
    ensures Codecs.Decode(kind, frame) == Malformed ==> Handle(kind, sh, frame) == (sh, Refused(DecodeFailed(frame)))
  {
    hide Codecs.Decode;
  }

  // ---- Frame after frame ----

  /** `recv`: reads on until something is to be reported. What the transport still has is returned as well. */
  function Receive(kind: Codecs.Kind, sh: Option<Requests.Shared>, incoming: seq<Incoming>)
    : (Option<Requests.Shared>, seq<Incoming>, Handled)
    requires sh.Some? ==> RequestSpec.SlotsExist(sh.value)
    decreases |incoming|
  {
    if incoming == [] then (sh, [], Refused(Eof))
    else if incoming[0].ReadFailed? then (sh, incoming[1..], Refused(IoError))
    else
      HandleKeepsEntries(kind, sh, incoming[0].frame);
      var (after, handled) := Handle(kind, sh, incoming[0].frame);
      if handled.ResponseTaken? then Receive(kind, after, incoming[1..]) else (after, incoming[1..], handled)
  }

  lemma ReceiveOne(kind: Codecs.Kind, sh: Option<Requests.Shared>, incoming: seq<Incoming>)
    requires (sh.Some? ==> RequestSpec.SlotsExist(sh.value)) && incoming != [] && incoming[0].Arrived?
    ensures var (after, handled) := Handle(kind, sh, incoming[0].frame);
            && (after.Some? ==> RequestSpec.SlotsExist(after.value))
            && Receive(kind, sh, incoming)
            == if handled.ResponseTaken? then Receive(kind, after, incoming[1..]) else (after, incoming[1..], handled)
  {
    hide Handle;
    HandleKeepsEntries(kind, sh, incoming[0].frame);
  }

  /** `ReadRunnerExitType`, the read error the task may end with, or the codec's panic. */
  datatype RunnerExit = ReachedEof | AllHandlesDropped | ReadError | RunnerPanicked

  /** How the task of `into_weak_runner_task` ends, what it reports, and the context behind it; `aliveFor` frames can be
      handled before the last strong handle goes away. */
  datatype Run = Run(sh: Option<Requests.Shared>, reports: seq<Handled>, exit: RunnerExit)

  function Collected(reports: seq<Handled>, handled: Handled): seq<Handled> {
    if handled.ResponseTaken? then reports else reports + [handled]
  }

  function RunToEnd(kind: Codecs.Kind, sh: Option<Requests.Shared>, incoming: seq<Incoming>, aliveFor: nat,
                    reports: seq<Handled>): Run
    requires sh.Some? ==> RequestSpec.SlotsExist(sh.value)
    decreases |incoming|
  {
    if incoming == [] then Run(sh, reports, ReachedEof)
    else if incoming[0].ReadFailed? then Run(sh, reports, ReadError)
    else if aliveFor == 0 then Run(sh, reports, AllHandlesDropped)
    else
      HandleKeepsEntries(kind, sh, incoming[0].frame);
      var (after, handled) := Handle(kind, sh, incoming[0].frame);
      if handled.Crashed? then Run(after, reports, RunnerPanicked)
      else RunToEnd(kind, after, incoming[1..], aliveFor - 1, Collected(reports, handled))
  }

  lemma RunOne(kind: Codecs.Kind, sh: Option<Requests.Shared>, incoming: seq<Incoming>, aliveFor: nat,
               reports: seq<Handled>)
    requires (sh.Some? ==> RequestSpec.SlotsExist(sh.value)) && incoming != [] && incoming[0].Arrived? && aliveFor > 0
    ensures var (after, handled) := Handle(kind, sh, incoming[0].frame);
            && (after.Some? ==> RequestSpec.SlotsExist(after.value))
            && RunToEnd(kind, sh, incoming, aliveFor, reports)
            == if handled.Crashed? then Run(after, reports, RunnerPanicked)
               else RunToEnd(kind, after, incoming[1..], aliveFor - 1,
                             Collected(reports, handled))
  {
    hide Handle;
    HandleKeepsEntries(kind, sh, incoming[0].frame);
  }

  lemma RunOver(kind: Codecs.Kind, sh: Option<Requests.Shared>, incoming: seq<Incoming>, aliveFor: nat,
                reports: seq<Handled>)
    requires sh.Some? ==> RequestSpec.SlotsExist(sh.value)
    requires incoming == [] || incoming[0].ReadFailed? || aliveFor == 0
    ensures RunToEnd(kind, sh, incoming, aliveFor, reports)
         == Run(sh, reports, if incoming == [] then ReachedEof else if incoming[0].ReadFailed? then ReadError
                             else AllHandlesDropped)
  {
  }

  // ---- Runs of the reader, frame by frame ----

  /** The first `n` things that arrive are frames, handled one after the other. */
  ghost predicate Trace(kind: Codecs.Kind, incoming: seq<Incoming>, contexts: seq<Option<Requests.Shared>>,
                        seen: seq<Handled>) {
    && |contexts| == |seen| + 1 && |seen| <= |incoming|
    && forall i :: 0 <= i < |seen| ==>
         && incoming[i].Arrived? && (contexts[i].Some? ==> RequestSpec.SlotsExist(contexts[i].value))
         && Handle(kind, contexts[i], incoming[i].frame) == (contexts[i + 1], seen[i])
  }

  lemma TraceCons(kind: Codecs.Kind, incoming: seq<Incoming>, first: Option<Requests.Shared>, handled: Handled,
                  contexts: seq<Option<Requests.Shared>>, seen: seq<Handled>)
    requires incoming != [] && incoming[0].Arrived? && (first.Some? ==> RequestSpec.SlotsExist(first.value))
    requires Trace(kind, incoming[1..], contexts, seen)
    requires Handle(kind, first, incoming[0].frame) == (contexts[0], handled)
    ensures Trace(kind, incoming, [first] + contexts, [handled] + seen)
  {
    hide Handle;
    var cs, hs := [first] + contexts, [handled] + seen;
    forall i | 0 <= i < |hs|
      ensures incoming[i].Arrived? && (cs[i].Some? ==> RequestSpec.SlotsExist(cs[i].value))
      ensures Handle(kind, cs[i], incoming[i].frame) == (cs[i + 1], hs[i])
    {
      if i > 0 {
        assert incoming[1..][i - 1] == incoming[i];
      }
    }
  }

  /** `recv` handles responses, all of them taken, up to the first thing that is not one: a frame that comes to
      something else, which it returns; or a read error or the end, which it reports. What is behind that stays. */
  lemma {:induction false} ReceiveIsTrace(kind: Codecs.Kind, sh: Option<Requests.Shared>, incoming: seq<Incoming>)
    returns (contexts: seq<Option<Requests.Shared>>, seen: seq<Handled>)
    requires sh.Some? ==> RequestSpec.SlotsExist(sh.value)
    ensures Trace(kind, incoming, contexts, seen) && contexts[0] == sh
    ensures Receive(kind, sh, incoming).0 == contexts[|seen|]
    ensures forall i :: 0 <= i < |seen| - 1 ==> seen[i].ResponseTaken?
    ensures var (_, left, result) := Receive(kind, sh, incoming);
            if |seen| > 0 && !seen[|seen| - 1].ResponseTaken? then
              result == seen[|seen| - 1] && left == incoming[|seen|..]
            else if |seen| == |incoming| then result == Refused(Eof) && left == []
            else incoming[|seen|].ReadFailed? && result == Refused(IoError) && left == incoming[|seen| + 1..]
    decreases |incoming|
  {
    hide Handle;
    if incoming == [] || incoming[0].ReadFailed? {
      contexts, seen := [sh], [];
    } else {
      ReceiveOne(kind, sh, incoming);
      var (after, handled) := Handle(kind, sh, incoming[0].frame);
      if handled.ResponseTaken? {
        var cs, hs := ReceiveIsTrace(kind, after, incoming[1..]);
        TraceCons(kind, incoming, sh, handled, cs, hs);
        contexts, seen := [sh] + cs, [handled] + hs;
        assert forall i :: 1 <= i < |seen| ==> seen[i] == hs[i - 1];
        assert incoming[1..][|hs|..] == incoming[|seen|..];
        if |hs| < |incoming[1..]| {
          assert incoming[1..][|hs| + 1..] == incoming[|seen| + 1..];
        }
      } else {
        contexts, seen := [sh, after], [handled];
      }
    }
  }

  /** What `on_inbound` gets to see of a trace: everything but responses that were taken. */
  function Shown(seen: seq<Handled>): seq<Handled> {
    if seen == [] then []
    else Shown(seen[..|seen| - 1]) + if seen[|seen| - 1].ResponseTaken? then [] else [seen[|seen| - 1]]
  }

  lemma {:induction false} ShownCons(first: Handled, seen: seq<Handled>)
    ensures Shown([first] + seen) == (if first.ResponseTaken? then [] else [first]) + Shown(seen)
  {
    if seen == [] {
      assert ([first] + seen)[..0] == [];
    } else {
      assert ([first] + seen)[..|seen|] == [first] + seen[..|seen| - 1];
      ShownCons(first, seen[..|seen| - 1]);
    }
  }

  /** The task of `into_weak_runner_task` handles frame after frame; everything but the responses that were taken is
      shown, in order; and it ends exactly where the stream ends or fails, where the handles are gone, or where the
      codec panics. */
  lemma {:induction false} RunIsTrace(kind: Codecs.Kind, sh: Option<Requests.Shared>, incoming: seq<Incoming>,
                                      aliveFor: nat, reports: seq<Handled>)
    returns (contexts: seq<Option<Requests.Shared>>, seen: seq<Handled>)
    requires sh.Some? ==> RequestSpec.SlotsExist(sh.value)
    ensures Trace(kind, incoming, contexts, seen) && contexts[0] == sh
    ensures forall i :: 0 <= i < |seen| - 1 ==> !seen[i].Crashed?
    ensures var run := RunToEnd(kind, sh, incoming, aliveFor, reports);
            && run.sh == contexts[|seen|]
            && if |seen| > 0 && seen[|seen| - 1].Crashed? then
                 run.exit == RunnerPanicked && run.reports == reports + Shown(seen[..|seen| - 1])
               else
                 && run.reports == reports + Shown(seen)
                 && (if |seen| == |incoming| then run.exit == ReachedEof
                     else if incoming[|seen|].ReadFailed? then run.exit == ReadError
                     else run.exit == AllHandlesDropped && |seen| == aliveFor)
    decreases |incoming|
  {
    hide Handle, Shown;
    ShownNothing();
    if incoming == [] || incoming[0].ReadFailed? || aliveFor == 0 {
      RunOver(kind, sh, incoming, aliveFor, reports);
      contexts, seen := [sh], [];
      assert reports + [] == reports;
    } else {
      RunOne(kind, sh, incoming, aliveFor, reports);
      var (after, handled) := Handle(kind, sh, incoming[0].frame);
      if handled.Crashed? {
        contexts, seen := [sh, after], [handled];
        assert seen[..0] == [] && reports + [] == reports;
      } else {
        var cs, hs := RunIsTrace(kind, after, incoming[1..], aliveFor - 1, Collected(reports, handled));
        TraceCons(kind, incoming, sh, handled, cs, hs);
        contexts, seen := [sh] + cs, [handled] + hs;
        assert forall i :: 1 <= i < |seen| ==> seen[i] == hs[i - 1];
        ShownBehind(reports, handled, hs);
        if |hs| > 0 {
          assert seen[..|seen| - 1] == [handled] + hs[..|hs| - 1];
          ShownBehind(reports, handled, hs[..|hs| - 1]);
        }
      }
    }
  }

  lemma ShownNothing()
    ensures Shown([]) == []
  {
  }

  lemma ShownBehind(reports: seq<Handled>, first: Handled, seen: seq<Handled>)
    ensures Collected(reports, first) + Shown(seen) == reports + Shown([first] + seen)
  {
    hide Shown;
    ShownCons(first, seen);
    if first.ResponseTaken? {
      assert [] + Shown(seen) == Shown(seen);
    } else {
      assert (reports + [first]) + Shown(seen) == reports + ([first] + Shown(seen));
    }
  }

  /** The reader neither adds nor removes entries, and never expires the context. */
  lemma HandleKeepsEntries(kind: Codecs.Kind, sh: Option<Requests.Shared>, frame: Frame)
    requires sh.Some? ==> RequestSpec.SlotsExist(sh.value)
    ensures sh.Some? <==> Handle(kind, sh, frame).0.Some?
    ensures sh.Some? ==> RequestSpec.SlotsExist(Handle(kind, sh, frame).0.value)
    ensures sh.Some? ==> Handle(kind, sh, frame).0.value.waitList == sh.value.waitList
    ensures sh.Some? ==> Handle(kind, sh, frame).0.value.expired == sh.value.expired
  {
    hide Codecs.Decode, Utf8.Valid;
  }

  /** Reading to the end of the stream, past every message and every error on the way, leaves every pending request
      registered and the context in use: only dropping a receiver that still has its core expires the context. */
  lemma {:induction false} ReadingNeverExpires(kind: Codecs.Kind, sh: Option<Requests.Shared>, incoming: seq<Incoming>,
                                               aliveFor: nat, reports: seq<Handled>)
    requires sh.Some? && RequestSpec.SlotsExist(sh.value)
    ensures var after := RunToEnd(kind, sh, incoming, aliveFor, reports).sh;
            after.Some? && after.value.expired == sh.value.expired && after.value.waitList == sh.value.waitList
    decreases |incoming|
  {
    hide Handle;
    if incoming == [] || incoming[0].ReadFailed? || aliveFor == 0 {
    } else {
      HandleKeepsEntries(kind, sh, incoming[0].frame);
      var (after, handled) := Handle(kind, sh, incoming[0].frame);
      if !handled.Crashed? {
        ReadingNeverExpires(kind, after, incoming[1..], aliveFor - 1,
                            Collected(reports, handled));
      }
    }
  }

  /** The same for one `recv`. */
  lemma {:induction false} ReceivingNeverExpires(kind: Codecs.Kind, sh: Option<Requests.Shared>,
                                                 incoming: seq<Incoming>)
    requires sh.Some? && RequestSpec.SlotsExist(sh.value)
    ensures var after := Receive(kind, sh, incoming).0;
            after.Some? && after.value.expired == sh.value.expired && after.value.waitList == sh.value.waitList
    decreases |incoming|
  {
    hide Handle;
    if incoming == [] || incoming[0].ReadFailed? {
    } else {
      HandleKeepsEntries(kind, sh, incoming[0].frame);
      if Handle(kind, sh, incoming[0].frame).1.ResponseTaken? {
        ReceivingNeverExpires(kind, Handle(kind, sh, incoming[0].frame).0, incoming[1..]);
      }
    }
  }

  /** A message that reaches the caller has a UTF-8 name, ranges within its frame, and a request's id packs into a
      non-zero word. In particular a request with another name gets no handle, hence no automatic answer. */
  lemma {:induction false} MessagesAreSound(kind: Codecs.Kind, sh: Option<Requests.Shared>, incoming: seq<Incoming>)
    requires sh.Some? ==> RequestSpec.SlotsExist(sh.value)
    ensures match Receive(kind, sh, incoming).2
            case Message(frame, name, params, rawId) =>
              && name.Within(frame) && params.Within(frame) && Utf8.Valid(name.Of(frame))
              && (rawId.Some? ==> rawId.value.Within(frame) && Tokens.IsIdRange(rawId.value))
            case _ => true
    decreases |incoming|
  {
    hide Codecs.Decode, Utf8.Valid, RequestSpec.Responded;
    if incoming == [] || incoming[0].ReadFailed? {
    } else {
      Codecs.DecodedCallInBounds(kind, incoming[0].frame);
      HandleKeepsEntries(kind, sh, incoming[0].frame);
      if Handle(kind, sh, incoming[0].frame).1.ResponseTaken? {
        MessagesAreSound(kind, Handle(kind, sh, incoming[0].frame).0, incoming[1..]);
      }
    }
  }

  // ---- The object ----

  datatype Outcome = NoMessage | Delivered(inbound: Inbound) | Erred(error: ReceiveError) | Stopped

  /** `Receiver`; `incoming` is what the transport will deliver before it ends. */
  class Receiver {
    const kind: Codecs.Kind
    const bigEndian: bool
    const channel: Writer.Channel
    const reqs: Option<RequestContext>
    var hasCore: bool
    var incoming: seq<Incoming>
    ghost var delivered: nat

    constructor (kind: Codecs.Kind, bigEndian: bool, channel: Writer.Channel, reqs: Option<RequestContext>,
                 incoming: seq<Incoming>)
      ensures this.kind == kind && this.bigEndian == bigEndian && this.channel == channel && this.reqs == reqs
      ensures hasCore && this.incoming == incoming
    {
      this.kind, this.bigEndian, this.channel, this.reqs := kind, bigEndian, channel, reqs;
      hasCore, this.incoming, delivered := true, incoming, 0;
    }

    ghost function Objects(): seq<WaitObject>
      reads if reqs.Some? then {reqs.value} else {}
    {
      if reqs.Some? then reqs.value.arena else []
    }

    ghost predicate Valid()
      reads if reqs.Some? then {reqs.value} else {}, Objects()
    {
      reqs.Some? ==> reqs.value.Valid()
    }

    ghost function Context(): (sh: Option<Requests.Shared>)
      reads if reqs.Some? then {reqs.value} else {}, Objects()
      requires Valid()
      ensures sh.Some? ==> RequestSpec.SlotsExist(sh.value)
    {
      if reqs.Some? then Some(reqs.value.Abs()) else None
    }

    ghost predicate Reports(outcome: Outcome, handled: Handled)
      reads if outcome.Delivered? then {outcome.inbound} else {}
    {
      match handled
      case ResponseTaken => outcome.NoMessage?
      case Refused(error) => outcome == Erred(error)
      case Crashed => outcome.Stopped?
      case Message(frame, name, params, rawId) =>
        && outcome.Delivered? && outcome.inbound.Valid() && outcome.inbound.Token() == rawId
        && outcome.inbound.buffer == frame && outcome.inbound.name == name && outcome.inbound.payload == params
        && outcome.inbound.kind == kind && outcome.inbound.channel == channel
    }

    /** `handle_inbound_once`: a response goes into the cell of the waiter registered for its id, or back to the caller;
        a call goes to the caller, with its token if it is a request. */
    method HandleInboundOnce(frame: Frame) returns (outcome: Outcome)
      requires Valid()
      modifies this`delivered, Objects()
      ensures Valid() && Objects() == old(Objects())
      ensures Context() == Handle(kind, old(Context()), frame).0
      ensures Reports(outcome, Handle(kind, old(Context()), frame).1)
      ensures outcome.Delivered? ==> fresh(outcome.inbound)
      ensures forall id, verdict :: IsResponseOf(Codecs.Decode(kind, frame), frame, id, verdict) ==>
                if Awaited(id) then
                  && outcome.NoMessage?
                  && (old(CellOf(id)).Vacant? || old(CellOf(id)).Ready? ==>
                        CellOf(id).Ready? && CellOf(id).reply.raw == frame && Requests.Reads(CellOf(id).reply, verdict))
                else ReturnsResponse(outcome, frame, verdict)
      ensures forall rawId, name, params :: IsRequestOf(Codecs.Decode(kind, frame), frame, rawId, name, params) ==>
                DeliversCall(outcome, frame, Some(rawId), name, params)
      ensures forall name, params :: IsNotifyOf(Codecs.Decode(kind, frame), frame, name, params) ==>
                DeliversCall(outcome, frame, None, name, params)
      ensures Codecs.Decode(kind, frame) == Malformed ==> outcome == Erred(DecodeFailed(frame))
    {
      hide Handle, RequestContext.Abs, IsResponseOf, IsRequestOf, IsNotifyOf, Codecs.Decode, DeliversCall, Reports;
      ghost var before := Context();
      outcome := HandleFrame(frame);
      forall id, verdict | IsResponseOf(Codecs.Decode(kind, frame), frame, id, verdict)
        ensures if Awaited(id) then
                  && outcome.NoMessage?
                  && (old(CellOf(id)).Vacant? || old(CellOf(id)).Ready? ==>
                        CellOf(id).Ready? && CellOf(id).reply.raw == frame && Requests.Reads(CellOf(id).reply, verdict))
                else ReturnsResponse(outcome, frame, verdict)
      {
        ResponseHandled(kind, before, frame, id, verdict);
        ResponseReported(outcome, Handle(kind, before, frame).1);
      }
      CallsDelivered(outcome, before, frame);
      MalformedHandled(kind, before, frame);
      ResponseReported(outcome, Handle(kind, before, frame).1);
    }

    /** Requests are enabled, the context is in use, and a future is registered under this id. */
    predicate Awaited(id: RequestId)
      reads if reqs.Some? then {reqs.value} else {}
    {
      reqs.Some? && id in reqs.value.waitList && !reqs.value.expired
    }

    function CellOf(id: RequestId): Requests.Cell
      reads if reqs.Some? then {reqs.value} else {}, if reqs.Some? then reqs.value.waitList.Values else {}
    {
      if reqs.Some? && id in reqs.value.waitList then reqs.value.waitList[id].response else Requests.Vacant
    }

    predicate ReturnsResponse(outcome: Outcome, frame: Frame, verdict: Verdict) {
      && outcome.Erred? && outcome.error.UnhandledResponse?
      && outcome.error.response.raw == frame && Requests.Reads(outcome.error.response, verdict)
    }

    /** The caller gets a handle with this name and these parameters, and with a token exactly for a request; or, if the
        name is not UTF-8, an error that shows the name. */
    ghost predicate DeliversCall(outcome: Outcome, frame: Frame, rawId: Option<Bytes>, name: Bytes, params: Bytes)
      reads if outcome.Delivered? then {outcome.inbound} else {}
    {
      if !Utf8.Valid(name) then
        && outcome.Erred? && outcome.error.NonUtf8MethodName? && outcome.error.frame == frame
        && outcome.error.name.Within(frame) && outcome.error.name.Of(frame) == name
      else
        && outcome.Delivered? && outcome.inbound.Valid() && outcome.inbound.buffer == frame
        && outcome.inbound.name.Of(frame) == name && outcome.inbound.payload.Of(frame) == params
        && outcome.inbound.kind == kind && outcome.inbound.channel == channel
        && (outcome.inbound.Token().Some? <==> rawId.Some?)
        && (rawId.Some? ==> outcome.inbound.Token().value.Within(frame)
                            && outcome.inbound.Token().value.Of(frame) == rawId.value)
    }

    lemma ResponseReported(outcome: Outcome, handled: Handled)
      requires Reports(outcome, handled)
      ensures handled.ResponseTaken? ==> outcome.NoMessage?
      ensures handled.Refused? ==> outcome == Erred(handled.error)
    {
    }

    lemma CallsDelivered(outcome: Outcome, sh: Option<Requests.Shared>, frame: Frame)
      requires sh.Some? ==> RequestSpec.SlotsExist(sh.value)
      requires Reports(outcome, Handle(kind, sh, frame).1)
      ensures forall rawId, name, params :: IsRequestOf(Codecs.Decode(kind, frame), frame, rawId, name, params) ==>
                DeliversCall(outcome, frame, Some(rawId), name, params)
      ensures forall name, params :: IsNotifyOf(Codecs.Decode(kind, frame), frame, name, params) ==>
                DeliversCall(outcome, frame, None, name, params)
    {
      hide Handle, IsRequestOf, IsNotifyOf, Codecs.Decode, Utf8.Valid;
      forall rawId, name, params | IsRequestOf(Codecs.Decode(kind, frame), frame, rawId, name, params)
        ensures DeliversCall(outcome, frame, Some(rawId), name, params)
      {
        RequestHandled(kind, sh, frame, rawId, name, params);
      }
      forall name, params | IsNotifyOf(Codecs.Decode(kind, frame), frame, name, params)
        ensures DeliversCall(outcome, frame, None, name, params)
      {
        NotifyHandled(kind, sh, frame, name, params);
      }
    }

    method HandleFrame(frame: Frame) returns (outcome: Outcome)
      requires Valid()
      modifies this`delivered, Objects()
      ensures Valid() && Objects() == old(Objects())
      ensures Context() == Handle(kind, old(Context()), frame).0
      ensures Reports(outcome, Handle(kind, old(Context()), frame).1)
      ensures outcome.Delivered? ==> fresh(outcome.inbound)
    {
      hide Codecs.Decode, RequestContext.Abs, RequestSpec.Responded, Utf8.Valid;
      Codecs.DecodedCallInBounds(kind, frame);
      match Codecs.Decode(kind, frame) {
        case Malformed => outcome := Erred(DecodeFailed(frame));
        case Panicked => outcome := Stopped;
        case Frame(Request(id, name, params)) => outcome := Deliver(frame, name, params, Some(id));
        case Frame(Notify(name, params)) => outcome := Deliver(frame, name, params, None);
        case Frame(Response(id, errc, payload)) =>
          var reply := Requests.Reply(frame, errc, payload);
          if reqs.None? {
            return Erred(UnhandledResponse(reply));
          }
          var accepted := reqs.value.SetResponse(id, reply);
          outcome := if accepted then NoMessage else Erred(UnhandledResponse(reply));
      }
    }

    /** A call: checks its name and makes the handle. */
    method Deliver(frame: Frame, name: Range, params: Range, rawId: Option<Range>) returns (outcome: Outcome)
      requires name.Within(frame) && params.Within(frame)
      requires rawId.Some? ==> rawId.value.Within(frame) && 0 < rawId.value.end
      modifies this`delivered
      ensures Reports(outcome, Judged(frame, name, params, rawId))
      ensures outcome.Delivered? ==> fresh(outcome.inbound)
    {
      if !Utf8.Valid(name.Of(frame)) {
        return Erred(ReceiveError.NonUtf8MethodName(frame, name));
      }
      var inbound := new Inbound(kind, bigEndian, channel, delivered, frame, name, params, rawId);
      delivered := delivered + 1;
      return Delivered(inbound);
    }

    /** `recv`. */
    method Recv() returns (outcome: Outcome)
      requires Valid()
      modifies this`delivered, this`incoming, Objects()
      ensures Valid()
      ensures Context() == Receive(kind, old(Context()), old(incoming)).0
      ensures incoming == Receive(kind, old(Context()), old(incoming)).1
      ensures Reports(outcome, Receive(kind, old(Context()), old(incoming)).2)
    {
      hide Handle, RequestContext.Abs;
      while incoming != []
        invariant Valid() && Objects() == old(Objects())
        invariant Receive(kind, old(Context()), old(incoming)) == Receive(kind, Context(), incoming)
        decreases |incoming|
      {
        var next := incoming[0];
        if next.ReadFailed? {
          incoming := incoming[1..];
          return Erred(IoError);
        }
        ReceiveOne(kind, Context(), incoming);
        incoming := incoming[1..];
        outcome := HandleInboundOnce(next.frame);
        if !outcome.NoMessage? {
          return;
        }
      }
      return Erred(Eof);
    }

    /** What `on_inbound` gets to see of an outcome. */
    method Seen(outcome: Outcome, ghost handled: Handled) returns (seen: Handled)
      requires Reports(outcome, handled)
      ensures seen == handled
    {
      match outcome {
        case NoMessage => return ResponseTaken;
        case Stopped => return Crashed;
        case Erred(error) => return Refused(error);
        case Delivered(inbound) =>
          return Message(inbound.buffer, inbound.name, inbound.payload, inbound.Token());
      }
    }

    /** One turn of the loop. */
    method RunTurn(frame: Frame) returns (seen: Handled)
      requires Valid()
      modifies this`delivered, Objects()
      ensures Valid() && Objects() == old(Objects())
      ensures (Context(), seen) == Handle(kind, old(Context()), frame)
    {
      hide Handle, RequestContext.Abs, Reports;
      ghost var handled := Handle(kind, Context(), frame).1;
      var outcome := HandleInboundOnce(frame);
      seen := Seen(outcome, handled);
    }

    /** `into_weak_runner_task`: the receiver gives its core away and reads to the end. `reports` is what `on_inbound`
        gets to see. */
    method IntoWeakRunnerTask(aliveFor: nat) returns (reports: seq<Handled>, exit: RunnerExit)
      requires Valid()
      modifies this, Objects()
      ensures Valid() && !hasCore
      ensures Run(Context(), reports, exit) == RunToEnd(kind, old(Context()), old(incoming), aliveFor, [])
    {
      hide Handle, RequestContext.Abs, RunToEnd, Receive, Context;
      hasCore := false;
      reports := [];
      var left := aliveFor;
      while incoming != []
        invariant Valid() && Objects() == old(Objects()) && !hasCore
        invariant RunToEnd(kind, old(Context()), old(incoming), aliveFor, [])
               == RunToEnd(kind, Context(), incoming, left, reports)
        decreases |incoming|
      {
        var next := incoming[0];
        if next.ReadFailed? || left == 0 {
          RunOver(kind, Context(), incoming, left, reports);
          return reports, if next.ReadFailed? then ReadError else AllHandlesDropped;
        }
        RunOne(kind, Context(), incoming, left, reports);
        incoming, left := incoming[1..], left - 1;
        var seen := RunTurn(next.frame);
        if seen.Crashed? {
          return reports, RunnerPanicked;
        }
        reports := Collected(reports, seen);
      }
      RunOver(kind, Context(), incoming, left, reports);
      return reports, ReachedEof;
    }

    /** The drop guard. */
    method Drop()
      requires Valid()
      modifies if reqs.Some? then {reqs.value} else {}, Objects()
      ensures Valid()
      ensures reqs.Some? ==> Context() == Some(if hasCore then RequestSpec.Expired(old(reqs.value.Abs()))
                                               else old(reqs.value.Abs()))
    {
      if hasCore && reqs.Some? {
        reqs.value.MarkExpired();
      }
    }
  }
}
