/** The sending side: allocation of request ids, sending, and bursts of prepared notifications. */
module Sender {
  import opened Common
  import opened Codec
  import opened Requests
  import opened RequestSpec
  import opened RequestContexts
  import Codecs
  import opened Retries
  import Utf8
  import opened Writer
  import opened WriterSpec
  import WriterTheorems

  // ---- Allocating an id ----

  /** The generated ids of one call, one for each possible attempt. */
  type Candidates = c: seq<RequestId> | |c| == MAX_RETRY_HEURISTIC witness [1, 1, 1, 1]

  datatype SendError =
    | EncodeFailed(error: EncodeError)
    | ReceiverExpired
    | TransmissionFailed(result: SendResult)

  datatype Encoded = Allotted(response: ReceiveResponse) | Refused(error: SendError)

  /** The first candidate whose id on the wire is not in use. */
  function FirstFree(kind: Codecs.Kind, ids: seq<RequestId>, used: set<RequestId>, from: nat): (k: nat)
    requires from <= |ids|
    ensures from <= k <= |ids|
    ensures forall i :: from <= i < k ==> Codecs.WireId(kind, ids[i]) in used
    ensures k < |ids| ==> Codecs.WireId(kind, ids[k]) !in used
    decreases |ids| - from
  {
    if from == |ids| || Codecs.WireId(kind, ids[from]) !in used then from else FirstFree(kind, ids, used, from + 1)
  }

  /** Without interference: the peer sees the id under which the request was registered exactly when the first candidate
      was free. */
  lemma SentUnderItsIdIff(kind: Codecs.Kind, ids: seq<RequestId>, used: set<RequestId>, name: Bytes, params: Bytes)
    requires ids != [] && Utf8.Valid(name)
    requires FirstFree(kind, ids, used, 0) < |ids|
    requires |Encodings(kind, ids, FirstFree(kind, ids, used, 0) + 1, name, params)| < U32_SIZE
    ensures var k := FirstFree(kind, ids, used, 0);
            ArrivesUnder(kind, Encodings(kind, ids, k + 1, name, params), ids[k])
            <==> Codecs.WireId(kind, ids[0]) !in used
  {
    hide Utf8.Valid, Codecs.WireId, Encodings, ArrivesUnder;
    SentUnderLastIdIff(kind, ids, FirstFree(kind, ids, used, 0) + 1, name, params);
  }

  // ---- Other tasks ----

  /** What other tasks do to the context between two accesses of this one. */
  datatype Rival =
    | Allocates(id: RequestId)
    | Drops(id: RequestId)
    | Answers(id: RequestId, reply: Reply)
    | FailsWrite(id: RequestId)
    | Expires

  function RivalRan(sh: Shared, rival: Rival): (after: Shared)
    requires SlotsExist(sh)
    ensures SlotsExist(after) && (sh.expired ==> after.expired)
  {
    match rival
    case Allocates(id) => Allocated(sh, id).0
    case Drops(id) => if id in sh.waitList then Unregistered(sh, Receive(id, sh.waitList[id])) else sh
    case Answers(id, reply) => Responded(sh, id, reply).0
    case FailsWrite(id) => WriteFailedFor(sh, id)
    case Expires => Expired(sh)
  }

  function RivalsRan(sh: Shared, rivals: seq<Rival>): (after: Shared)
    requires SlotsExist(sh)
    ensures SlotsExist(after) && (sh.expired ==> after.expired)
    decreases |rivals|
  {
    if rivals == [] then sh else RivalsRan(RivalRan(sh, rivals[0]), rivals[1..])
  }

  lemma {:induction false} RivalsAppend(sh: Shared, a: seq<Rival>, b: seq<Rival>)
    requires SlotsExist(sh)
    ensures RivalsRan(sh, a + b) == RivalsRan(RivalsRan(sh, a), b)
    decreases |a|
  {
    hide RivalRan;
    if a == [] {
      assert a + b == b;
    } else {
      assert (a + b)[1..] == a[1..] + b;
      RivalsAppend(RivalRan(sh, a[0]), a[1..], b);
    }
  }

  // ---- The retry loop ----

  /** The rivals in front of each check of the flag, and in front of each allocation. */
  datatype Script = Script(beforeCheck: seq<Rival>, beforeAllocation: seq<Rival>)

  type Scripts = s: seq<Script> | |s| == MAX_RETRY_HEURISTIC
    witness [Script([], []), Script([], []), Script([], []), Script([], [])]

  datatype LoopEnd = Granted(id: RequestId) | SawExpiry | NotSerialized | Exhausted

  /** Where the loop ends: the context, the number of encodings made, and why. */
  datatype Attempts = Attempts(sh: Shared, encodings: nat, end: LoopEnd)

  /** One turn: the context behind it, the encodings made, and why the loop ends here if it does. */
  function Turn(kind: Codecs.Kind, candidate: RequestId, script: Script, complete: bool, sh: Shared)
    : (Shared, nat, Option<LoopEnd>)
    requires SlotsExist(sh)
  {
    var checked := RivalsRan(sh, script.beforeCheck);
    if checked.expired then (checked, 0, Some(SawExpiry))
    else if !complete then (checked, 1, Some(NotSerialized))
    else
      var at := RivalsRan(checked, script.beforeAllocation);
      var id := Codecs.WireId(kind, candidate);
      if Allocated(at, id).1.Some? then (Allocated(at, id).0, 1, Some(Granted(id))) else (at, 1, None)
  }

  lemma TurnKeepsSlots(kind: Codecs.Kind, candidate: RequestId, script: Script, complete: bool, sh: Shared)
    requires SlotsExist(sh)
    ensures var (after, encodings, end) := Turn(kind, candidate, script, complete, sh);
            SlotsExist(after) && encodings <= 1 && (end.None? ==> complete && encodings == 1)
  {
    hide RivalsRan;
  }

  function Attempted(kind: Codecs.Kind, ids: Candidates, scripts: Scripts, complete: bool, sh: Shared, i: nat)
    : (t: Attempts)
    requires SlotsExist(sh) && i <= MAX_RETRY_HEURISTIC
    ensures i <= t.encodings <= MAX_RETRY_HEURISTIC
    decreases MAX_RETRY_HEURISTIC - i
  {
    if i == MAX_RETRY_HEURISTIC then Attempts(sh, i, Exhausted) else
    var (after, encodings, end) := Turn(kind, ids[i], scripts[i], complete, sh);
    TurnKeepsSlots(kind, ids[i], scripts[i], complete, sh);
    if end.Some? then Attempts(after, i + encodings, end.value)
    else Attempted(kind, ids, scripts, complete, after, i + 1)
  }

  /** `after` is what some actions of other tasks make of `before`. */
  ghost predicate OnlyRivals(before: Shared, after: Shared)
    requires SlotsExist(before)
  {
    exists rivals :: after == RivalsRan(before, rivals)
  }

  /** The id was free at the moment it was registered, and is the id of the last of the encodings; up to that moment
      only other tasks had changed the context. */
  ghost predicate GrantedFresh(kind: Codecs.Kind, ids: Candidates, before: Shared, t: Attempts)
    requires SlotsExist(before)
  {
    && t.end.Granted? && 0 < t.encodings <= MAX_RETRY_HEURISTIC
    && t.end.id == Codecs.WireId(kind, ids[t.encodings - 1])
    && exists at ::
         OnlyRivals(before, at) && !at.expired && t.end.id !in at.waitList && t.sh == Allocated(at, t.end.id).0
  }

  /** The contract of the loop under any interference: a granted id was free when it was registered; any other outcome
      leaves the context as the other tasks made it; and an expired context is reported, never allocated in. */
  lemma {:induction false} LoopContract(kind: Codecs.Kind, ids: Candidates, scripts: Scripts, complete: bool,
                                        sh: Shared, i: nat)
    requires SlotsExist(sh) && i <= MAX_RETRY_HEURISTIC
    ensures var t := Attempted(kind, ids, scripts, complete, sh, i);
            && (if t.end.Granted? then GrantedFresh(kind, ids, sh, t) else OnlyRivals(sh, t.sh))
            && (t.end.SawExpiry? ==> t.sh.expired)
            && (t.end.Exhausted? ==> t.encodings == MAX_RETRY_HEURISTIC)
            && (t.end.NotSerialized? <==> !complete && !t.sh.expired && i < MAX_RETRY_HEURISTIC)
            && (t.end.NotSerialized? ==> t.encodings == i + 1)
    decreases MAX_RETRY_HEURISTIC - i
  {
    hide RivalsRan, Allocated, Codecs.WireId;
    if i == MAX_RETRY_HEURISTIC {
      assert sh == RivalsRan(sh, []) by { NoRivals(sh); }
    } else {
      var checked := RivalsRan(sh, scripts[i].beforeCheck);
      var at := RivalsRan(checked, scripts[i].beforeAllocation);
      var rivals := scripts[i].beforeCheck + scripts[i].beforeAllocation;
      RivalsAppend(sh, scripts[i].beforeCheck, scripts[i].beforeAllocation);
      var id := Codecs.WireId(kind, ids[i]);
      GrantedIff(at, id);
      if !checked.expired && complete && Allocated(at, id).1.None? {
        LoopContract(kind, ids, scripts, complete, at, i + 1);
        LaterRivals(kind, ids, sh, rivals, Attempted(kind, ids, scripts, complete, at, i + 1));
      }
    }
  }

  /** A candidate is refused for a reason: at the moment it was tried, after some actions of other tasks, the context
      was expired or its id was in use. */
  ghost predicate RefusedForAReason(kind: Codecs.Kind, before: Shared, candidate: RequestId)
    requires SlotsExist(before)
  {
    exists at :: OnlyRivals(before, at) && (at.expired || Codecs.WireId(kind, candidate) in at.waitList)
  }

  /** Every candidate that was encoded and is not the granted one was refused for a reason. */
  lemma {:induction false} CandidatesRefused(kind: Codecs.Kind, ids: Candidates, scripts: Scripts, sh: Shared, i: nat,
                                             j: nat)
    requires SlotsExist(sh) && i <= j < MAX_RETRY_HEURISTIC
    requires var t := Attempted(kind, ids, scripts, true, sh, i);
             j < t.encodings && (t.end.Granted? ==> j < t.encodings - 1)
    ensures RefusedForAReason(kind, sh, ids[j])
    decreases MAX_RETRY_HEURISTIC - i
  {
    hide RivalsRan, Allocated, Codecs.WireId;
    var checked := RivalsRan(sh, scripts[i].beforeCheck);
    var at := RivalsRan(checked, scripts[i].beforeAllocation);
    var rivals := scripts[i].beforeCheck + scripts[i].beforeAllocation;
    RivalsAppend(sh, scripts[i].beforeCheck, scripts[i].beforeAllocation);
    GrantedIff(at, Codecs.WireId(kind, ids[i]));
    assert OnlyRivals(sh, at);
    if i < j {
      CandidatesRefused(kind, ids, scripts, at, i + 1, j);
      LaterReason(kind, sh, rivals, ids[j]);
    }
  }

  lemma LaterReason(kind: Codecs.Kind, sh: Shared, rivals: seq<Rival>, candidate: RequestId)
    requires SlotsExist(sh) && RefusedForAReason(kind, RivalsRan(sh, rivals), candidate)
    ensures RefusedForAReason(kind, sh, candidate)
  {
    hide RivalsRan, Codecs.WireId;
    var at :| OnlyRivals(RivalsRan(sh, rivals), at) && (at.expired || Codecs.WireId(kind, candidate) in at.waitList);
    var more :| at == RivalsRan(RivalsRan(sh, rivals), more);
    RivalsAppend(sh, rivals, more);
    assert OnlyRivals(sh, at);
  }

  lemma NoRivals(sh: Shared)
    requires SlotsExist(sh)
    ensures RivalsRan(sh, []) == sh
  {
  }

  lemma GrantedIff(sh: Shared, id: RequestId)
    ensures Allocated(sh, id).1.Some? <==> !sh.expired && id !in sh.waitList
    ensures Allocated(sh, id).1.None? ==> Allocated(sh, id).0 == sh
  {
  }

  lemma LaterRivals(kind: Codecs.Kind, ids: Candidates, sh: Shared, rivals: seq<Rival>, t: Attempts)
    requires SlotsExist(sh)
    ensures OnlyRivals(RivalsRan(sh, rivals), t.sh) ==> OnlyRivals(sh, t.sh)
    ensures GrantedFresh(kind, ids, RivalsRan(sh, rivals), t) ==> GrantedFresh(kind, ids, sh, t)
  {
    hide RivalsRan, Allocated, Codecs.WireId;
    var at := RivalsRan(sh, rivals);
    forall after | OnlyRivals(at, after)
      ensures OnlyRivals(sh, after)
    {
      var more :| after == RivalsRan(at, more);
      RivalsAppend(sh, rivals, more);
    }
  }

  function FirstFreeTaken(kind: Codecs.Kind, ids: Candidates, sh: Shared, from: nat): Attempts
    requires from <= MAX_RETRY_HEURISTIC
  {
    var k := FirstFree(kind, ids, sh.waitList.Keys, from);
    if k == MAX_RETRY_HEURISTIC then Attempts(sh, k, Exhausted)
    else Attempts(Allocated(sh, Codecs.WireId(kind, ids[k])).0, k + 1, Granted(Codecs.WireId(kind, ids[k])))
  }

  /** Without interference the first free candidate is taken, after one encoding for each candidate up to it. */
  lemma {:induction false} UndisturbedLoop(kind: Codecs.Kind, ids: Candidates, scripts: Scripts, sh: Shared, i: nat)
    requires SlotsExist(sh) && !sh.expired && i <= MAX_RETRY_HEURISTIC
    requires forall j :: 0 <= j < |scripts| ==> scripts[j] == Script([], [])
    ensures Attempted(kind, ids, scripts, true, sh, i) == FirstFreeTaken(kind, ids, sh, i)
    decreases MAX_RETRY_HEURISTIC - i
  {
    hide Codecs.WireId;
    if i == MAX_RETRY_HEURISTIC {
    } else {
      UndisturbedLoop(kind, ids, scripts, sh, i + 1);
    }
  }

  class RequestSender {
    const kind: Codecs.Kind
    const reqs: RequestContext
    const channel: Channel

    constructor (kind: Codecs.Kind, reqs: RequestContext, channel: Channel)
      ensures this.kind == kind && this.reqs == reqs && this.channel == channel
    {
      this.kind, this.reqs, this.channel := kind, reqs, channel;
    }

    /** What one other task does. */
    method LetRivalRun(rival: Rival)
      requires reqs.Valid()
      modifies reqs, reqs.arena
      ensures reqs.Valid() && reqs.Abs() == RivalRan(old(reqs.Abs()), rival)
      ensures old(reqs.arena) <= reqs.arena
      ensures forall o :: |old(reqs.arena)| <= o < |reqs.arena| ==> fresh(reqs.arena[o])
    {
      hide RequestContext.Abs, Unregistered, Responded, WriteFailedFor, Expired;
      match rival {
        case Allocates(id) =>
          var granted := reqs.TryAllocateNewRequest(id);
        case Drops(id) => DropRival(id);
        case Answers(id, reply) =>
          var accepted := reqs.SetResponse(id, reply);
        case FailsWrite(id) => reqs.SetRequestWriteFailed(id);
        case Expires => reqs.MarkExpired();
      }
    }

    /** Another task drops its future. */
    method DropRival(id: RequestId)
      requires reqs.Valid()
      modifies reqs`waitList, reqs.arena
      ensures reqs.Valid() && reqs.arena == old(reqs.arena) && reqs.Abs() == RivalRan(old(reqs.Abs()), Drops(id))
    {
      hide RequestContext.Abs, Unregistered;
      if id in reqs.waitList {
        var future := new ReceiveResponse(reqs, Some(Registration(id, reqs.waitList[id])));
        future.TryUnregister();
      }
    }

    method LetRivalsRun(rivals: seq<Rival>)
      requires reqs.Valid()
      modifies reqs, reqs.arena
      ensures reqs.Valid() && reqs.Abs() == RivalsRan(old(reqs.Abs()), rivals)
      ensures old(reqs.arena) <= reqs.arena
      ensures forall o :: |old(reqs.arena)| <= o < |reqs.arena| ==> fresh(reqs.arena[o])
    {
      hide RequestContext.Abs, RivalRan;
      for i := 0 to |rivals|
        invariant reqs.Valid() && RivalsRan(reqs.Abs(), rivals[i..]) == RivalsRan(old(reqs.Abs()), rivals)
        invariant old(reqs.arena) <= reqs.arena
        invariant forall o :: |old(reqs.arena)| <= o < |reqs.arena| ==> fresh(reqs.arena[o])
      {
        assert rivals[i..][1..] == rivals[i + 1..];
        LetRivalRun(rivals[i]);
      }
    }

    /** `encode_request`. The buffer is cleared once, so it ends up with one encoding per attempt; parameters that do
        not serialise to the end leave what the codec leaves. `scripts` is what other tasks do meanwhile. */
    method EncodeRequest(buf: BytesMut, name: Bytes, params: Serialized, ids: Candidates, scripts: Scripts)
      returns (outcome: Encoded)
      requires reqs.Valid()
      modifies buf, reqs, reqs.arena
      ensures reqs.Valid()
      ensures var t := Attempted(kind, ids, scripts, params.complete, old(reqs.Abs()), 0);
              && reqs.Abs() == t.sh && Reports(outcome, t.end)
              && buf.data == if t.end.NotSerialized? then Codecs.AfterRequest(kind, [], ids[0], name, params)
                             else Encodings(kind, ids, t.encodings, name, params.bytes)
      ensures outcome.Allotted? ==> fresh(outcome.response) && fresh(outcome.response.state.value.waitObj)
      ensures outcome == Refused(EncodeFailed(SerializeFailed)) <==> !params.complete && !reqs.expired
      ensures outcome == Refused(ReceiverExpired) ==> reqs.expired
      ensures outcome == Refused(EncodeFailed(RequestIdAllocationFailed)) ==>
                params.complete && buf.data == Encodings(kind, ids, MAX_RETRY_HEURISTIC, name, params.bytes)
      ensures outcome.Refused? ==> outcome.error == ReceiverExpired || outcome.error == EncodeFailed(SerializeFailed)
                                   || outcome.error == EncodeFailed(RequestIdAllocationFailed)
    {
      outcome := Retry(buf, name, params, ids, scripts);
      LoopContract(kind, ids, scripts, params.complete, old(reqs.Abs()), 0);
    }

    /** The loop. */
    method Retry(buf: BytesMut, name: Bytes, params: Serialized, ids: Candidates, scripts: Scripts)
      returns (outcome: Encoded)
      requires reqs.Valid()
      modifies buf, reqs, reqs.arena
      ensures reqs.Valid()
      ensures var t := Attempted(kind, ids, scripts, params.complete, old(reqs.Abs()), 0);
              && reqs.Abs() == t.sh && Reports(outcome, t.end)
              && buf.data == if t.end.NotSerialized? then Codecs.AfterRequest(kind, [], ids[0], name, params)
                             else Encodings(kind, ids, t.encodings, name, params.bytes)
      ensures outcome.Allotted? ==> fresh(outcome.response) && fresh(outcome.response.state.value.waitObj)
    {
      hide Codecs.RequestFrame, Codecs.AfterRequest, RequestContext.Abs, Turn, Encodings;
      NoEncodings(kind, ids, name, params.bytes);
      buf.Clear();
      ghost var start := reqs.Abs();
      for attempt := 0 to MAX_RETRY_HEURISTIC
        invariant reqs.Valid()
        invariant Attempted(kind, ids, scripts, params.complete, reqs.Abs(), attempt)
               == Attempted(kind, ids, scripts, params.complete, start, 0)
        invariant old(reqs.arena) <= reqs.arena
        invariant forall o :: |old(reqs.arena)| <= o < |reqs.arena| ==> fresh(reqs.arena[o])
        invariant attempt > 0 ==> params.complete
        invariant buf.data == Encodings(kind, ids, attempt, name, params.bytes)
      {
        TurnKeepsSlots(kind, ids[attempt], scripts[attempt], params.complete, reqs.Abs());
        NextEncoding(kind, ids, attempt, name, params);
        ghost var arenaBefore := reqs.arena;
        ghost var turn := Turn(kind, ids[attempt], scripts[attempt], params.complete, reqs.Abs());
        assert turn.2.None? ==> params.complete && turn.1 == 1;
        var done := Attempt(buf, name, params, ids[attempt], scripts[attempt]);
        assert reqs.Abs() == turn.0;
        assert done.Some? <==> turn.2.Some?;
        forall o | |old(reqs.arena)| <= o < |reqs.arena|
          ensures fresh(reqs.arena[o])
        {
          if o < |arenaBefore| {
            assert reqs.arena[o] == arenaBefore[o];
          }
        }
        if done.Some? {
          return done.value;
        }
      }
      outcome := Refused(EncodeFailed(RequestIdAllocationFailed));
      assert Reports(outcome, Exhausted);
    }

    /** One turn of the loop. */
    method Attempt(buf: BytesMut, name: Bytes, params: Serialized, candidate: RequestId, script: Script)
      returns (outcome: Option<Encoded>)
      requires reqs.Valid()
      modifies buf, reqs, reqs.arena
      ensures reqs.Valid()
      ensures old(reqs.arena) <= reqs.arena
      ensures forall o :: |old(reqs.arena)| <= o < |reqs.arena| ==> fresh(reqs.arena[o])
      ensures var (after, encodings, end) := Turn(kind, candidate, script, params.complete, old(reqs.Abs()));
              && reqs.Abs() == after
              && (outcome.Some? <==> end.Some?) && (end.Some? ==> Reports(outcome.value, end.value))
              && (encodings == 0 ==> end == Some(SawExpiry) && buf.data == old(buf.data))
              && (encodings > 0 ==> end != Some(SawExpiry) && (end == Some(NotSerialized) <==> !params.complete))
              && (encodings > 0 ==> buf.data == Codecs.AfterRequest(kind, old(buf.data), candidate, name, params))
      ensures outcome.Some? && outcome.value.Allotted? ==>
                fresh(outcome.value.response) && fresh(outcome.value.response.state.value.waitObj)
    {
      hide Codecs.WireId, Codecs.AfterRequest, RequestContext.Abs, Allocated, RivalsRan;
      LetRivalsRun(script.beforeCheck);
      if reqs.expired {
        return Some(Refused(ReceiverExpired));
      }
      var error, actual := Codecs.EncodeRequest(kind, candidate, name, params, buf);
      if error.Some? {
        return Some(Refused(EncodeFailed(error.value)));
      }
      LetRivalsRun(script.beforeAllocation);
      GrantedIff(reqs.Abs(), actual);
      var granted := Allocate(actual);
      return if granted.Some? then Some(Allotted(granted.value)) else None;
    }

    /** The outcome of the call, given how the loop ended. */
    ghost predicate Reports(outcome: Encoded, end: LoopEnd)
      reads reqs, reqs.arena, if outcome.Allotted? then {outcome.response, outcome.response.owner} else {}
      requires reqs.Valid()
    {
      match end
      case Granted(id) =>
        && outcome.Allotted? && outcome.response.owner == reqs && outcome.response.Registered()
        && outcome.response.state.Some? && outcome.response.state.value.id == id
        && reqs.Abs().waiters[reqs.Abs().waitList[id]] == Waiter(Vacant, false, false)
      case SawExpiry => outcome == Refused(ReceiverExpired)
      case NotSerialized => outcome == Refused(EncodeFailed(SerializeFailed))
      case Exhausted => outcome == Refused(EncodeFailed(RequestIdAllocationFailed))
    }

    /** Registers the id, if the context lets it, and makes the future for it. */
    method Allocate(id: RequestId) returns (response: Option<ReceiveResponse>)
      requires reqs.Valid()
      modifies reqs
      ensures reqs.Valid() && reqs.Abs() == Allocated(old(reqs.Abs()), id).0
      ensures response.Some? <==> Allocated(old(reqs.Abs()), id).1.Some?
      ensures old(reqs.arena) <= reqs.arena
      ensures forall o :: |old(reqs.arena)| <= o < |reqs.arena| ==> fresh(reqs.arena[o])
      ensures response.Some? ==> fresh(response.value) && response.value.state.Some?
      ensures response.Some? ==>
                fresh(response.value.state.value.waitObj) && Reports(Allotted(response.value), Granted(id))
    {
      var granted := reqs.TryAllocateNewRequest(id);
      if granted.None? {
        return None;
      }
      var r := new ReceiveResponse(reqs, Some(Registration(id, granted.value)));
      return Some(r);
    }

    /** `try_send_request`. A request that cannot be queued is unregistered when its future is dropped. */
    method TrySendRequest(buf: BytesMut, name: Bytes, params: Serialized, ids: Candidates, scripts: Scripts)
      returns (outcome: Encoded)
      requires reqs.Valid()
      modifies buf, reqs, reqs.arena, channel`queue, channel`accepted
      ensures reqs.Valid()
      ensures var t := Attempted(kind, ids, scripts, params.complete, old(reqs.Abs()), 0);
              match outcome {
                case Allotted(_) =>
                  && reqs.Abs() == t.sh && Reports(outcome, t.end) && buf.data == []
                  && t.end.Granted? && |channel.queue| == |old(channel.queue)| + 1
                  && channel.queue[..|old(channel.queue)|] == old(channel.queue)
                  && IsTheRequest(channel.queue[|old(channel.queue)|], outcome, name, params.bytes, ids)
                case Refused(TransmissionFailed(why)) =>
                  && t.end.Granted? && buf.data == [] && channel.queue == old(channel.queue)
                  && !why.Accepted? && (channel.closed || channel.capacity.Some?)
                  && reqs.Abs().waitList == t.sh.waitList - {t.end.id} && reqs.expired == t.sh.expired
                case Refused(_) =>
                  && reqs.Abs() == t.sh && Reports(outcome, t.end) && !t.end.Granted?
                  && channel.queue == old(channel.queue)
              }
    {
      hide Codecs.RequestFrame, Codecs.WireId, Encodings, RequestContext.Abs, Attempted, CarriesRequest, Utf8.Valid;
      LoopContract(kind, ids, scripts, params.complete, reqs.Abs(), 0);
      ghost var t := Attempted(kind, ids, scripts, params.complete, reqs.Abs(), 0);
      outcome := EncodeRequest(buf, name, params, ids, scripts);
      if outcome.Refused? {
        return outcome;
      }
      var frame := buf.Split();
      if Utf8.Valid(name) && |frame| < U32_SIZE {
        EncodingsCarry(kind, ids, t.encodings, name, params.bytes);
      }
      var result := SendOrWithdraw(frame, outcome.response);
      if !result.Accepted? {
        return Refused(TransmissionFailed(result));
      }
    }

    /** Queues the frame of a registered request; a future whose request cannot be queued is dropped. */
    method SendOrWithdraw(frame: Bytes, response: ReceiveResponse) returns (result: SendResult)
      requires reqs.Valid() && response.owner == reqs && response.Registered() && response.state.Some?
      modifies response, reqs`waitList, response.state.value.waitObj, channel`queue, channel`accepted
      ensures reqs.Valid() && reqs.expired == old(reqs.expired)
      ensures result.Accepted? ==>
                && response.state == old(response.state)
                && channel.queue == old(channel.queue) + [WriteReqMsg(frame, response.state.value.id)]
                && reqs.Abs() == old(reqs.Abs())
                && reqs.waitList == old(reqs.waitList)
      ensures !result.Accepted? ==>
                && channel.queue == old(channel.queue) && (channel.closed || channel.capacity.Some?)
                && reqs.Abs().waitList == old(reqs.Abs()).waitList - {old(response.state.value.id)}
    {
      hide RequestContext.Abs;
      result := channel.TrySend(WriteReqMsg(frame, response.state.value.id));
      if !result.Accepted? {
        Withdraw(response);
      }
    }

    /** The directive is the write of this request: under the id at which its future is registered, and with a payload
        that the peer takes for it, under the first candidate. */
    ghost predicate IsTheRequest(d: WriterSpec.Directive, outcome: Encoded, name: Bytes, params: Bytes, ids: Candidates)
      reads reqs, if outcome.Allotted? then {outcome.response} else {}
    {
      && d.WriteReqMsg? && outcome.Allotted? && outcome.response.state.Some?
      && d.id == outcome.response.state.value.id
      && d.id in reqs.waitList && reqs.waitList[d.id] == outcome.response.state.value.waitObj
      && (Utf8.Valid(name) && |d.payload| < U32_SIZE ==> CarriesRequest(kind, d.payload, ids[0], name, params))
    }

    /** `try_send_notify`: the buffer is cleared first. */
    method TrySendNotify(buf: BytesMut, name: Bytes, params: Serialized) returns (error: Option<SendError>)
      modifies buf, channel`queue, channel`accepted
      ensures !params.complete ==> error == Some(EncodeFailed(SerializeFailed))
      ensures params.complete ==> error.None? || error.value.TransmissionFailed?
      ensures buf.data == if params.complete then [] else Codecs.AfterNotify(kind, [], name, params)
      ensures error.None? ==>
                channel.queue == old(channel.queue) + [WriteMsg(Codecs.NotifyFrame(kind, name, params.bytes))]
      ensures error.Some? ==> channel.queue == old(channel.queue)
      ensures params.complete && !channel.closed && channel.capacity.None? ==> error.None?
    {
      hide Codecs.NotifyFrame;
      buf.Clear();
      var refused := Codecs.EncodeNotify(kind, name, params, buf);
      if refused.Some? {
        return Some(EncodeFailed(refused.value));
      }
      assert [] + Codecs.NotifyFrame(kind, name, params.bytes) == Codecs.NotifyFrame(kind, name, params.bytes);
      var frame := buf.Split();
      var result := channel.TrySend(WriteMsg(frame));
      return if result.Accepted? then None else Some(TransmissionFailed(result));
    }

    /** Drops a future that was just made. */
    method Withdraw(response: ReceiveResponse)
      requires reqs.Valid() && response.owner == reqs && response.Registered() && response.state.Some?
      modifies response, reqs`waitList, response.state.value.waitObj
      ensures reqs.Valid() && reqs.expired == old(reqs.expired)
      ensures reqs.Abs().waitList == old(reqs.Abs()).waitList - {old(response.state.value.id)}
    {
      hide RequestContext.Abs;
      response.TryUnregister();
    }
  }

  // ---- Bursts of prepared notifications ----

  /** `PreparedPacket`: an encoded notification and the reusability id of the codec that made it. */
  datatype PreparedPacket = PreparedPacket(data: Bytes, hash: nat)

  /** `PacketWriteBurst`. */
  datatype Burst = ErrHashMismatch | EmptyBurst | Mono(packet: PreparedPacket) | Chunks(hash: nat, chunks: seq<Bytes>)

  function Datas(packets: seq<PreparedPacket>): (datas: seq<Bytes>)
    ensures |datas| == |packets|
  {
    seq(|packets|, i requires 0 <= i < |packets| => packets[i].data)
  }

  predicate AllFrom(hash: nat, packets: seq<PreparedPacket>) {
    forall i :: 0 <= i < |packets| ==> packets[i].hash == hash
  }

  function Gathered(packets: seq<PreparedPacket>): Burst {
    if packets == [] then EmptyBurst
    else if |packets| == 1 then Mono(packets[0])
    else if AllFrom(packets[0].hash, packets) then Chunks(packets[0].hash, Datas(packets))
    else ErrHashMismatch
  }

  /** `PacketWriteBurst::from`. */
  method Gather(packets: seq<PreparedPacket>) returns (burst: Burst)
    ensures burst == Gathered(packets)
  {
    if packets == [] {
      return EmptyBurst;
    }
    var one := packets[0];
    if |packets| == 1 {
      return Mono(one);
    }
    var two := packets[1];
    if two.hash != one.hash {
      return ErrHashMismatch;
    }
    var chunks := [one.data] + [two.data];
    for i := 2 to |packets|
      invariant AllFrom(one.hash, packets[..i]) && chunks == Datas(packets[..i])
    {
      if packets[i].hash != one.hash {
        return ErrHashMismatch;
      }
      chunks := chunks + [packets[i].data];
    }
    assert packets[..|packets|] == packets;
    return Chunks(one.hash, chunks);
  }

  datatype BurstResult = Nothing | NotReusable | Directive(count: nat, directive: WriterSpec.Directive)

  /** `burst_into_directive`. */
  function BurstIntoDirective(codecHash: nat, burst: Burst): BurstResult {
    match burst
    case EmptyBurst => Nothing
    case ErrHashMismatch => NotReusable
    case Mono(packet) => if packet.hash == codecHash then Directive(1, WriteMsg(packet.data)) else NotReusable
    case Chunks(hash, chunks) =>
      if hash == codecHash then Directive(|chunks|, WriteMsgBurst(chunks)) else NotReusable
  }

  /** A burst is taken exactly when every packet in it comes from a codec with this reusability id; what the writer gets
      are then all the packets in order, and the count is theirs. */
  lemma BurstTakenIff(codecHash: nat, packets: seq<PreparedPacket>)
    ensures var result := BurstIntoDirective(codecHash, Gathered(packets));
            && (result.NotReusable? <==> !AllFrom(codecHash, packets))
            && (result.Nothing? <==> packets == [])
            && (result.Directive? ==>
                  var sent := WriterTheorems.Payloads(result.directive);
                  result.count == |packets| == |sent| && forall i :: 0 <= i < |sent| ==> sent[i] == packets[i].data)
  {
  }
}
