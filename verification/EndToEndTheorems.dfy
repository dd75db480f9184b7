/** What the joined peers guarantee, over all runs in which no registered id repeats, and what care that takes. */
module EndToEndTheorems {
  import opened Common
  import opened Codec
  import opened Codecs
  import opened Retries
  import MsgPackRpc
  import RawRpc
  import Utf8
  import Requests
  import Tokens = InboundTokens
  import TokenTheorems
  import Leftovers
  import opened EndToEnd
  import opened EndToEndProofs

  /** A run with the care that is asked for. */
  ghost predicate Behaviour(care: Care, states: seq<State>, labels: seq<Label>) {
    && |states| == |labels| + 1
    && (exists kind, clientThreads, bigEndian, serverThreads ::
          states[0] == Initial(kind, clientThreads, bigEndian, serverThreads))
    && forall i :: 0 <= i < |labels| ==> Follows(care, states[i], labels[i], states[i + 1])
  }

  ghost predicate Follows(care: Care, s: State, l: Label, u: State) {
    Enabled(s, l) && u == Next(s, l) && Careful(care, s, l)
  }

  lemma {:induction false} BehaviourInv(states: seq<State>, labels: seq<Label>, i: nat)
    requires Behaviour(FULL_CARE, states, labels) && i < |states|
    ensures Inv(states[i])
  {
    hide Inv, Next, Enabled, Careful;
    if i == 0 {
      var kind, clientThreads, bigEndian, serverThreads :|
        states[0] == Initial(kind, clientThreads, bigEndian, serverThreads);
      InitialInv(kind, clientThreads, bigEndian, serverThreads);
    } else {
      BehaviourInv(states, labels, i - 1);
      assert Follows(FULL_CARE, states[i - 1], labels[i - 1], states[i - 1 + 1]);
      InvNext(states[i - 1], labels[i - 1]);
    }
  }

  /** `s` is the last state of some run. */
  ghost predicate Reachable(care: Care, s: State) {
    exists states, labels :: Behaviour(care, states, labels) && states[|labels|] == s
  }

  lemma ReachableInv(s: State)
    requires Reachable(FULL_CARE, s)
    ensures Inv(s)
  {
    hide Inv;
    var states, labels :| Behaviour(FULL_CARE, states, labels) && states[|labels|] == s;
    BehaviourInv(states, labels, |labels|);
  }

  lemma ReachableNext(care: Care, s: State, l: Label)
    requires Reachable(care, s) && Enabled(s, l) && Careful(care, s, l)
    ensures Reachable(care, Next(s, l))
  {
    hide Enabled, Next, Initial, Careful;
    var states, labels :| Behaviour(care, states, labels) && states[|labels|] == s;
    var more, steps := states + [Next(s, l)], labels + [l];
    assert more[0] == states[0];
    forall i | 0 <= i < |steps|
      ensures Follows(care, more[i], steps[i], more[i + 1])
    {
      if i < |labels| {
        assert more[i] == states[i] && more[i + 1] == states[i + 1] && steps[i] == labels[i];
      }
    }
    assert Behaviour(care, more, steps) && more[|steps|] == Next(s, l);
  }

  lemma ReachableInitial(care: Care, kind: Kind, clientThreads: nat, bigEndian: bool, serverThreads: nat)
    ensures Reachable(care, Initial(kind, clientThreads, bigEndian, serverThreads))
  {
    assert Behaviour(care, [Initial(kind, clientThreads, bigEndian, serverThreads)], []);
  }

  // ---- When callers are careful ----

  /** Between answers buffers are at most emptied, and over msgpack objects serialise to the end. */
  predicate Disciplined(kind: Kind, l: Label) {
    match l
    case Refill(_, bytes) => bytes == []
    case Server(Swap(_, _, Respond(payload))) => kind.Raw? || Complete(payload)
    case _ => true
  }

  ghost predicate CleanBuffers(s: State) {
    && |s.buffers| == |s.server.threads|
    && forall t :: 0 <= t < |s.buffers| ==> s.buffers[t] == [] && CleanThread(s.kind, s.server.threads[t])
  }

  predicate CleanThread(kind: Kind, t: Tokens.Thread) {
    t.Holding? && t.purpose.Respond? ==> kind.Raw? || Complete(t.purpose.payload)
  }

  lemma RefusedCleanly(kind: Kind, rawId: Bytes, payload: Outgoing)
    requires (kind.Raw? || Complete(payload)) && Refusal(kind, rawId, payload).Some?
    ensures AfterRefusal(kind, [], rawId, payload) == []
  {
    hide MsgPackRpc.RetrieveId, RawRpc.RestoreRequestId;
  }

  lemma CleanFinish(s: State, t: nat)
    requires CleanBuffers(s) && Tokens.Enabled(s.server, Tokens.Finish(t, false))
    ensures BufferAfter(s, t) == []
  {
    hide Refusal, AfterRefusal, Complete;
    var call := s.server.threads[t];
    var frame := s.server.handles[call.h].buffer;
    assert CleanThread(s.kind, call) && s.buffers[t] == [];
    if call.purpose.Respond? && call.range.Some? && call.range.value.Within(frame)
       && Refusal(s.kind, call.range.value.Of(frame), call.purpose.payload).Some? {
      RefusedCleanly(s.kind, call.range.value.Of(frame), call.purpose.payload);
    }
  }

  lemma ThreadsOf(server: Tokens.State, l: Tokens.Label)
    requires Tokens.Enabled(server, l)
    ensures Tokens.Next(server, l).threads
         == match l
            case Swap(t, h, purpose) => server.threads[t := Tokens.Next(server, l).threads[t]]
            case Finish(t, _) => server.threads[t := Tokens.Idle]
            case _ => server.threads
    ensures |Tokens.Next(server, l).threads| == |server.threads| && (l.Swap? || l.Finish? ==> l.t < |server.threads|)
    ensures l.Swap? ==> Tokens.Next(server, l).threads[l.t].Holding?
    ensures l.Swap? ==> Tokens.Next(server, l).threads[l.t].purpose == l.purpose
  {
    hide Tokens.FromWord, Tokens.ToWord;
  }

  lemma CleanStepFinish(s: State, t: nat, queued: bool)
    requires CleanBuffers(s) && Enabled(s, Finish(t, queued))
    ensures CleanBuffers(Next(s, Finish(t, queued))) && EmptyBuffer(s, Finish(t, queued))
    ensures Next(s, Finish(t, queued)).kind == s.kind
  {
    hide Tokens.Next, Tokens.Enabled, Complete, BufferAfter, ResponseFrame;
    FinishEither(s.server, t, queued);
    CleanFinish(s, t);
    ThreadsOf(s.server, Tokens.Finish(t, queued));
    var u := Next(s, Finish(t, queued));
    assert u.server.threads == s.server.threads[t := Tokens.Idle] && u.buffers == s.buffers[t := []];
    assert Before(s, t) == [];
  }

  lemma CleanStepServer(s: State, move: Tokens.Label)
    requires CleanBuffers(s) && Enabled(s, Server(move)) && Disciplined(s.kind, Server(move))
    ensures CleanBuffers(Next(s, Server(move)))
  {
    hide Tokens.Next, Tokens.Enabled, Complete;
    ThreadsOf(s.server, move);
    var u := Next(s, Server(move));
    forall t | 0 <= t < |u.buffers|
      ensures u.buffers[t] == [] && CleanThread(u.kind, u.server.threads[t])
    {
      assert s.buffers[t] == [] && CleanThread(s.kind, s.server.threads[t]);
      if move.Swap? && t == move.t {
        assert u.server.threads[t].purpose == move.purpose;
      }
    }
  }

  lemma CleanStep(s: State, l: Label)
    requires CleanBuffers(s) && Enabled(s, l) && Disciplined(s.kind, l)
    ensures CleanBuffers(Next(s, l)) && EmptyBuffer(s, l) && Next(s, l).kind == s.kind
  {
    hide Tokens.Next, Tokens.Enabled, Complete, BufferAfter, Requests.Next, Requests.Enabled, Decode, ResponseFrame;
    match l
    case Finish(t, queued) => CleanStepFinish(s, t, queued);
    case Server(move) => CleanStepServer(s, move);
    case ServerTake(i) =>
      var frame := s.c2s[i].frame;
      if Inbound(s.kind, frame).Some? {
        InboundDelivers(s.server, s.kind, frame);
        ThreadsOf(s.server, Tokens.Deliver(frame, Inbound(s.kind, frame).value));
      }
    case Register(_) =>
    case Submit(_) =>
    case SendOther(_) =>
    case Client(_) =>
    case Refill(_, _) =>
    case AnswerOther(_) =>
    case ClientTake(_) =>
  }

  lemma FinishEither(server: Tokens.State, t: nat, queued: bool)
    requires Tokens.Enabled(server, Tokens.Finish(t, queued))
    ensures Tokens.Enabled(server, Tokens.Finish(t, false))
  {
  }

  lemma {:induction false} CleanRun(care: Care, states: seq<State>, labels: seq<Label>, i: nat)
    requires Behaviour(care, states, labels) && i < |states|
    requires forall j :: 0 <= j < |labels| ==> Disciplined(states[0].kind, labels[j])
    ensures CleanBuffers(states[i]) && states[i].kind == states[0].kind
  {
    hide Next, Enabled, EmptyBuffer, OwnId, OthersApart, Disciplined, CleanBuffers;
    if i == 0 {
      CleanAtFirst(states[0]);
    } else {
      CleanRun(care, states, labels, i - 1);
      assert Follows(care, states[i - 1], labels[i - 1], states[i - 1 + 1]);
      CleanStep(states[i - 1], labels[i - 1]);
    }
  }

  lemma CleanAtFirst(s: State)
    requires exists kind, clientThreads, bigEndian, serverThreads ::
               s == Initial(kind, clientThreads, bigEndian, serverThreads)
    ensures CleanBuffers(s)
  {
  }

  /** Buffers that are used for answers only, or emptied before they are used for answers again, are empty whenever an
      answer gets queued: over rawrpc always, over msgpack as long as every object serialises to the end. */
  lemma DisciplinedIsCareful(care: Care, states: seq<State>, labels: seq<Label>)
    requires Behaviour(care, states, labels)
    requires forall i :: 0 <= i < |labels| ==> Disciplined(states[0].kind, labels[i])
    ensures Behaviour(care.(emptyBuffers := true), states, labels)
  {
    hide Next, Enabled, EmptyBuffer, OwnId, OthersApart, Disciplined, CleanBuffers, Initial;
    forall i | 0 <= i < |labels|
      ensures Follows(care.(emptyBuffers := true), states[i], labels[i], states[i + 1])
    {
      assert Follows(care, states[i], labels[i], states[i + 1]);
      CleanRun(care, states, labels, i);
      CleanStep(states[i], labels[i]);
    }
  }

  // ---- Correlation ----

  /** The server's reply `q` was produced when the token of delivery `d` was consumed, `d` is the request of waiter
      `k` as it was sent, and there is no other reply to it. */
  ghost predicate IsTheReplyTo(s: State, k: nat, q: nat) {
    && k < |s.requests| && q < |s.server.replies|
    && var d := s.server.replies[q].delivery;
       && d < |s.origin| && d < |s.server.deliveries| && d < |s.server.consumed|
       && s.origin[d] == Some(k)
       && s.server.deliveries[d].frame == FrameOf(s.kind, s.requests[k])
       && s.server.consumed[d] == 1
       && (forall p :: 0 <= p < |s.server.replies| && p != q ==> SlotOf(s.origin, s.server, p) != Some(k))
  }

  lemma GenuineReply(s: State, k: nat, reply: Requests.Reply) returns (q: nat)
    requires Inv(s) && Genuine(s.kind, s.server, s.origin, k, reply)
    ensures IsTheReplyTo(s, k, q)
    ensures Requests.Reads(reply, Received(s.kind, s.server.replies[q].payload))
    ensures s.kind.Raw? || WireOf(s.kind, s.requests[k]) >= 65536
  {
    hide Received, FrameOf, ResponseFrame, WireId, RawIdOf, EntriesOk, RequestLinkOk, ReplyLinkOk, ClientOk;
    hide DeliveryOk, Tokens.Inv;
    q :| q < |s.server.replies| && Answers(s.kind, s.server, s.origin, k, reply, q);
    var d := s.server.replies[q].delivery;
    ReplyOrigin(s, q);
    assert DeliveryOk(s, d);
    DeliveredRequest(s, d);
    ConsumedOnce(s.server, q);
    AnswerableIff(s.kind, s.requests[k].id, s.server.replies[q].payload);
    forall p | 0 <= p < |s.server.replies| && p != q
      ensures SlotOf(s.origin, s.server, p) != Some(k)
    {
      if p < q { RepliesDiffer(s, p, q); } else { RepliesDiffer(s, q, p); }
    }
  }

  lemma DeliveredRequest(s: State, d: nat)
    requires d < |s.origin| && d < |s.server.deliveries| && DeliveryOk(s, d) && s.origin[d].Some?
    ensures s.origin[d].value < |s.requests|
    ensures s.server.deliveries[d].frame == FrameOf(s.kind, s.requests[s.origin[d].value])
  {
  }

  lemma ConsumedOnce(server: Tokens.State, q: nat)
    requires Tokens.Inv(server) && q < |server.replies|
    ensures server.replies[q].delivery < |server.consumed| && server.consumed[server.replies[q].delivery] == 1
  {
    hide Tokens.Borrows;
    var d := server.replies[q].delivery;
    assert Tokens.ReplyOk(server, server.replies[q]);
    assert Tokens.Tokens(server, d) == Tokens.TokensIssued(server.deliveries[d]);
    assert Tokens.RepliesTo(server.replies, d) <= server.consumed[d];
    TokenTheorems.OneReply(server.replies, q, d);
  }

  /** End-to-end correlation: a response that a future returns reads exactly as the payload of the one reply produced
      when the token of that future's own request was consumed. This holds in every run whose answers are encoded into
      empty buffers, whose requests carry the ids under which they are registered, and whose other traffic is apart.
      Over msgpack only requests whose wire id needs 32 bits ever get one. */
  lemma AnswerIsItsOwn(s: State, step: Requests.Label, reply: Requests.Reply) returns (q: nat)
    requires Reachable(FULL_CARE, s) && Enabled(s, Client(step))
    requires Requests.Returned(s.client, step) == Some(Requests.Answer(reply))
    ensures step.Free? && s.client.futures[step.f].Freeing?
    ensures IsTheReplyTo(s, s.client.futures[step.f].r.slot, q)
    ensures Requests.Reads(reply, Received(s.kind, s.server.replies[q].payload))
    ensures s.kind.Raw? || WireOf(s.kind, s.requests[s.client.futures[step.f].r.slot]) >= 65536
  {
    hide Inv, WireId, IsTheReplyTo, Requests.Reads, Received, Genuine;
    ReachableInv(s);
    assert FutureOk(s, s.client.futures[step.f]) by { ClientPart(s); FutureAt(s, s.client, step.f); }
    q := GenuineReply(s, s.client.futures[step.f].r.slot, reply);
  }

  lemma ClientPart(s: State)
    requires Inv(s)
    ensures ClientOk(s, s.client)
  {
    hide EntriesOk, DeliveriesOk, RequestLinkOk, ReplyLinkOk, ClientOk, Tokens.Inv;
  }

  /** The client's reader never finds a response in the cell it is about to write, nor one that was taken out. */
  lemma ReaderFindsNoResponse(s: State, a: nat)
    requires Reachable(FULL_CARE, s) && Enabled(s, Client(Requests.Store(a)))
    ensures a == READER
    ensures var cell := s.client.sh.waiters[s.client.actors[a].slot].cell; cell.Vacant? || cell.WriteFailed?
  {
    hide Inv, Genuine;
    ReachableInv(s);
    ClientPart(s);
    ActorAt(s, s.client, a);
  }

  // ---- Care is needed ----

  /** The answer that this step puts on the link arrives as the answer to the request it was made for. */
  predicate ArrivesAsItself(s: State, t: nat, k: nat)
    requires Enabled(s, Finish(t, true)) && QueuesReply(s, t, true) && k < |s.requests|
  {
    var after := Tokens.Next(s.server, Tokens.Finish(t, true));
    var sent := Before(s, t) + ReplyFrame(s, t, true).value;
    IsResponseOf(Decode(s.kind, sent), sent, WireOf(s.kind, s.requests[k]),
                 Received(s.kind, after.replies[|after.replies| - 1].payload))
  }

  /** The care for buffers is exactly what is needed: in a buffer that holds what refused calls left there, an answer
      that gets queued arrives as the answer to its request if and only if the buffer was empty. */
  lemma EmptyBufferIsNeeded(s: State, t: nat, calls: seq<Leftovers.Call>) returns (k: nat)
    requires Reachable(FULL_CARE, s) && Enabled(s, Finish(t, true)) && QueuesReply(s, t, true)
    requires Leftovers.AllRefused(s.kind, calls) && Before(s, t) == Leftovers.Leftover(s.kind, calls)
    ensures k < |s.requests|
    ensures SlotOf(s.origin, Tokens.Next(s.server, Tokens.Finish(t, true)), |s.server.replies|) == Some(k)
    ensures ArrivesAsItself(s, t, k) <==> EmptyBuffer(s, Finish(t, true))
  {
    hide Reachable, Inv, Tokens.Inv, Tokens.Next, Tokens.Enabled, ResponseFrame, Decode, RawIdOf, WireId, Received;
    hide DeliveriesOk, Leftovers.Leftover, Leftovers.AllRefused, Leftovers.NothingLeft, Before;
    ReachableInv(s);
    var server := Tokens.Next(s.server, Tokens.Finish(t, true));
    FinishFrame(s.server, t, true);
    ServerPart(s);
    Tokens.InvNext(s.server, Tokens.Finish(t, true));
    DeliveriesFrame(s, s.(server := server));
    ReplyOrigin(s.(server := server), |s.server.replies|);
    k := SlotOf(s.origin, server, |s.server.replies|).value;
    Leftovers.LeftoverEmptyIff(s.kind, calls);
    Leftovers.OwnAnswerIff(s.kind, calls, s.requests[k].id, server.replies[|s.server.replies|].payload,
                           ReplyFrame(s, t, true).value);
  }

  lemma ServerPart(s: State)
    requires Inv(s)
    ensures Tokens.Inv(s.server) && DeliveriesOk(s)
  {
    hide EntriesOk, DeliveriesOk, RequestLinkOk, ReplyLinkOk, ClientOk, Tokens.Inv;
  }

  /** The care for ids is exactly what is needed, too: the frame of a request that gets submitted arrives under the id
      under which the request is registered if and only if it carries that id, and that is so exactly after a first
      attempt. */
  lemma OwnIdIsNeeded(s: State, slot: nat)
    requires Reachable(FULL_CARE, s) && Enabled(s, Submit(slot))
    ensures ArrivesUnder(s.kind, FrameOf(s.kind, s.requests[slot]), s.requests[slot].id) <==> OwnId(s, Submit(slot))
    ensures OwnId(s, Submit(slot)) <==> s.requests[slot].earlier == []
  {
    hide Reachable, Inv, ArrivesUnder, Encodings, WireId, Utf8.Valid;
    ReachableInv(s);
    EntryPart(s, slot);
    var sent := s.requests[slot];
    SentUnderLastIdIff(s.kind, sent.Candidates(), |sent.Candidates()|, sent.name, sent.params);
  }

  lemma EntryPart(s: State, slot: nat)
    requires Inv(s) && slot < |s.requests|
    ensures Utf8.Valid(s.requests[slot].name)
    ensures s.requests[slot].earlier != [] ==> !CarriesItsId(s.kind, s.requests[slot])
  {
    hide DeliveriesOk, RequestLinkOk, ReplyLinkOk, ClientOk, Tokens.Inv, Utf8.Valid, CarriesItsId;
  }

  /** What else this crate puts on the links is apart: notifications arrive as neither, requests of the other
      direction, after any number of attempts, not as responses, and answers of the other direction not as requests. */
  lemma OwnTrafficIsApart(kind: Kind, name: Bytes, params: Bytes, sent: Sent, id: RequestId, payload: ResponsePayload)
    requires Utf8.Valid(name) && |NotifyFrame(kind, name, params)| < U32_SIZE
    requires Utf8.Valid(sent.name) && |FrameOf(kind, sent)| < U32_SIZE
    requires var answer := ResponseFrame(kind, RawIdOf(kind, id), payload); answer.Some? ==> |answer.value| < U32_SIZE
    ensures !IsRequest(kind, NotifyFrame(kind, name, params)) && !IsResponse(kind, NotifyFrame(kind, name, params))
    ensures !IsResponse(kind, FrameOf(kind, sent))
    ensures var answer := ResponseFrame(kind, RawIdOf(kind, id), payload);
            answer.Some? ==> !IsRequest(kind, answer.value)
  {
    hide Utf8.Valid, NotifyFrame, Encodings, ResponseFrame, RawIdOf, WireId, Decode, Received;
    NotifyArrives(kind, name, params);
    var rest := RetriedFrameCarriesFirstId(kind, sent.Candidates(), |sent.Candidates()|, sent.name, sent.params);
    var answer := ResponseFrame(kind, RawIdOf(kind, id), payload);
    if answer.Some? {
      AnswerArrives(kind, id, payload, answer.value);
    }
  }
}
