/** Runs of the joined peers: one exchange that nothing disturbs, and two in which an answer goes to the wrong
    future. */
module Exchanges {
  import opened Common
  import opened Codec
  import opened Codecs
  import opened Retries
  import MsgPackRoundTrip
  import MsgPackRpc
  import Utf8
  import Requests
  import Tokens = InboundTokens
  import Leftovers
  import opened EndToEnd
  import opened EndToEndProofs
  import opened EndToEndTheorems

  // ---- The client's end ----

  lemma ClientMoves(care: Care, s: State, step: Requests.Label) returns (u: State)
    requires Reachable(care, s) && !step.Allocate? && !step.Lookup? && Requests.Enabled(s.client, step)
    ensures Reachable(care, u) && u == s.(client := Requests.Next(s.client, step))
  {
    hide Requests.Enabled, Requests.Next, Reachable;
    ReachableNext(care, s, Client(step));
    u := Next(s, Client(step));
  }

  /** The reader carries `reply` to the empty cell of future `f`, which is not being polled. */
  ghost predicate AboutToStore(client: Requests.State, f: nat, k: nat, reply: Requests.Reply) {
    && READER < |client.actors| && client.actors[READER] == Requests.Found(k, reply)
    && k < |client.sh.waiters| && client.sh.waiters[k].cell.Vacant? && !client.sh.expired && client.lock.None?
    && f < |client.futures| && client.futures[f].Resting? && client.futures[f].state.Some?
    && client.futures[f].state.value.slot == k
  }

  /** The next step of future `f`, the one of waiter `k`, returns `reply`. */
  predicate Returns(s: State, f: nat, k: nat, reply: Requests.Reply) {
    && Enabled(s, Client(Requests.Free(f))) && s.client.futures[f].r.slot == k
    && Requests.Returned(s.client, Requests.Free(f)) == Some(Requests.Answer(reply))
  }

  /** The reader stores the response, and the future's next poll returns it. */
  lemma FutureGetsIt(care: Care, s: State, f: nat, k: nat, reply: Requests.Reply) returns (u: State)
    requires Reachable(care, s) && AboutToStore(s.client, f, k, reply)
    ensures Reachable(care, u) && u == s.(client := u.client) && Returns(u, f, k, reply)
  {
    hide Reachable;
    var s1 := ClientMoves(care, s, Requests.CheckFlag(READER));
    var s2 := ClientMoves(care, s1, Requests.Store(READER));
    var s3 := ClientMoves(care, s2, Requests.WakeStored(READER));
    assert s3.client.sh.waiters[k].cell == Requests.Ready(reply) && s3.client.futures == s.client.futures;
    u := FuturePolls(care, s3, f, k, reply);
  }

  lemma FuturePolls(care: Care, s: State, f: nat, k: nat, reply: Requests.Reply) returns (u: State)
    requires Reachable(care, s) && s.client.lock.None? && f < |s.client.futures|
    requires s.client.futures[f].Resting? && s.client.futures[f].state.Some?
    requires s.client.futures[f].state.value.slot == k < |s.client.sh.waiters|
    requires s.client.sh.waiters[k].cell == Requests.Ready(reply)
    ensures Reachable(care, u) && u == s.(client := u.client) && Returns(u, f, k, reply)
  {
    hide Reachable;
    var r := s.client.futures[f].state.value;
    var s1 := ClientMoves(care, s, Requests.Poll(f));
    assert s1.client.futures[f] == Requests.Registered(r);
    var s2 := ClientMoves(care, s1, Requests.Inspect(f));
    assert s2.client.futures[f] == Requests.Unregistering(r, Requests.Deliver(reply));
    u := ClientMoves(care, s2, Requests.TakeWaker(f));
  }

  // ---- Requests and answers under way ----

  predicate CanBeSent(kind: Kind, sent: Sent) {
    Utf8.Valid(sent.name) && |FrameOf(kind, sent)| < U32_SIZE
  }

  /** Where the id that a request's frame carries stands in it. */
  ghost predicate IdRange(kind: Kind, sent: Sent, range: Range) {
    && Tokens.IsIdRange(range) && range.Within(FrameOf(kind, sent))
    && range.Of(FrameOf(kind, sent)) == RawIdOf(kind, FirstId(sent))
  }

  /** A delivered request: a handle that holds its token. */
  function HandleOf(s: State, d: nat, sent: Sent, range: Range): Tokens.Handle {
    Tokens.Handle(d, FrameOf(s.kind, sent), Tokens.ToWord(Some(range), s.server.bigEndian), true)
  }

  /** A packet with a request is taken in. */
  lemma TakesOne(care: Care, s: State, sent: Sent) returns (u: State, range: Range)
    requires Reachable(care, s) && CanBeSent(s.kind, sent)
    requires s.c2s != [] && s.c2s[0].frame == FrameOf(s.kind, sent) && s.c2s[0].tag.Some?
    ensures Reachable(care, u) && IdRange(s.kind, sent, range)
    ensures u == s.(c2s := s.c2s[1..], arrived := s.arrived + {s.c2s[0].tag.value}, origin := s.origin + [s.c2s[0].tag],
                    server := Tokens.Next(s.server, Tokens.Deliver(s.c2s[0].frame, Some(range))))
  {
    hide Reachable, Utf8.Valid, Encodings, RawIdOf, Decode, Tokens.Next;
    var rest := RetriedFrameCarriesFirstId(s.kind, sent.Candidates(), |sent.Candidates()|, sent.name, sent.params);
    range := Decode(s.kind, FrameOf(s.kind, sent)).frame.rawId;
    ReachableNext(care, s, ServerTake(0));
    u := Next(s, ServerTake(0));
    assert Without(s.c2s, 0) == s.c2s[1..];
  }

  /** Handle `h` holds the token of a request; thread 0 is idle, and its buffer holds `before`. */
  ghost predicate CanAnswer(s: State, h: nat, sent: Sent, range: Range, before: Bytes) {
    && IdRange(s.kind, sent, range) && s.buffers == [before] && s.server.threads == [Tokens.Idle]
    && h < |s.server.handles| == |s.server.consumed| && s.server.handles[h] == HandleOf(s, h, sent, range)
  }

  /** Thread 0 answers a request completely, behind what is in its buffer. */
  lemma AnswersIt(care: Care, s: State, h: nat, sent: Sent, range: Range, before: Bytes, payload: Outgoing,
                  frame: Bytes)
    returns (u: State)
    requires Reachable(care, s) && CanAnswer(s, h, sent, range, before) && Complete(payload)
    requires ResponseFrame(s.kind, RawIdOf(s.kind, FirstId(sent)), Written(payload)) == Some(frame)
    requires |before + frame| < U32_SIZE && (care.emptyBuffers ==> before == [])
    ensures Reachable(care, u)
    ensures u == s.(server := u.server, buffers := u.buffers,
                    s2c := s.s2c + [Packet(before + frame, Some(|s.server.replies|))])
    ensures u.server.replies == s.server.replies + [Tokens.Reply(h, RawIdOf(s.kind, FirstId(sent)), Written(payload))]
  {
    hide Reachable, FrameOf, ResponseFrame, RawIdOf, Tokens.FromWord, Tokens.ToWord, Complete, Written;
    hide Refusal, AfterRefusal;
    Tokens.WordRoundTrip(Some(range), s.server.bigEndian);
    var swap := Tokens.Swap(0, h, Tokens.Respond(payload));
    ReachableNext(care, s, Server(swap));
    var s1 := Next(s, Server(swap));
    assert s1.server.threads == [Tokens.Holding(h, Some(range), Tokens.Respond(payload))];
    var after := Tokens.Next(s1.server, Tokens.Finish(0, true));
    assert after.replies == s.server.replies + [Tokens.Reply(h, RawIdOf(s.kind, FirstId(sent)), Written(payload))];
    ReachableNext(care, s1, Finish(0, true));
    u := Next(s1, Finish(0, true));
  }

  /** The client's reader picks up a response and looks its id up. */
  lemma ReadsIt(care: Care, s: State, id: RequestId, verdict: Verdict, f: nat, k: nat)
    returns (u: State, reply: Requests.Reply)
    requires Reachable(care, s) && s.s2c != []
    requires IsResponseOf(Decode(s.kind, s.s2c[0].frame), s.s2c[0].frame, id, verdict)
    requires READER < |s.client.actors| && s.client.actors[READER].Idle? && s.client.lock.None? && !s.client.sh.expired
    requires id in s.client.sh.waitList && s.client.sh.waitList[id] == k < |s.client.sh.waiters|
    requires s.client.sh.waiters[k].cell.Vacant? && f < |s.client.futures| && s.client.futures[f].Resting?
    requires s.client.futures[f].state.Some? && s.client.futures[f].state.value.slot == k
    ensures Reachable(care, u) && AboutToStore(u.client, f, k, reply) && Requests.Reads(reply, verdict)
    ensures u.kind == s.kind && u.server == s.server && u.origin == s.origin && u.requests == s.requests
  {
    hide Reachable, Decode;
    var decoded := Decode(s.kind, s.s2c[0].frame).frame;
    reply := Requests.Reply(s.s2c[0].frame, decoded.errc, decoded.payload);
    ReachableNext(care, s, ClientTake(0));
    u := Next(s, ClientTake(0));
  }

  // ---- An exchange that nothing disturbs ----

  function WaitingClient(id: RequestId): Requests.State {
    Requests.State(Requests.Shared(map[id := 0], [Requests.Waiter(Requests.Vacant, false, false)], false),
                   [Requests.Resting(Some(Requests.Receive(id, 0)), false)], [Requests.Idle], None)
  }

  /** A request just sent, on its way to an idle server. */
  ghost predicate UnderWay(s: State, sent: Sent) {
    && s.requests == [sent] && CanBeSent(s.kind, sent) && s.c2s == [Packet(FrameOf(s.kind, sent), Some(0))]
    && s.origin == [] && s.s2c == [] && s.buffers == [[]]
    && s.server == Tokens.Initial(s.server.bigEndian, 1)
    && s.client == WaitingClient(WireOf(s.kind, sent))
  }

  lemma SendsOne(kind: Kind, bigEndian: bool, sent: Sent) returns (s: State)
    requires CanBeSent(kind, sent) && sent.earlier == []
    ensures Reachable(FULL_CARE, s) && UnderWay(s, sent) && s.kind == kind
  {
    hide Utf8.Valid, FrameOf, WireId, Reachable;
    var s0 := Initial(kind, 1, bigEndian, 1);
    ReachableInitial(FULL_CARE, kind, 1, bigEndian, 1);
    ReachableNext(FULL_CARE, s0, Register(sent));
    var s1 := Next(s0, Register(sent));
    assert sent.Candidates() == [sent.id];
    ReachableNext(FULL_CARE, s1, Submit(0));
    s := Next(s1, Submit(0));
    assert s.client == WaitingClient(WireOf(kind, sent));
  }

  ghost predicate Delivered(s: State, sent: Sent, range: Range) {
    && s.client == WaitingClient(WireOf(s.kind, sent)) && s.s2c == [] && s.origin == [Some(0)]
    && CanAnswer(s, 0, sent, range, []) && s.server.replies == []
  }

  lemma DeliversOne(s: State, sent: Sent) returns (u: State, range: Range)
    requires Reachable(FULL_CARE, s) && UnderWay(s, sent)
    ensures Reachable(FULL_CARE, u) && Delivered(u, sent, range) && u.kind == s.kind
  {
    hide Reachable, CanBeSent, FrameOf, WireId, RawIdOf, Tokens.ToWord;
    FrameFits(s.kind, sent);
    u, range := TakesOne(FULL_CARE, s, sent);
  }

  lemma FrameFits(kind: Kind, sent: Sent)
    requires CanBeSent(kind, sent)
    ensures |FrameOf(kind, sent)| < U32_SIZE
  {
  }

  /** Every request whose answer can be encoded has a run in which its future returns that answer. */
  lemma ExchangeCompletes(kind: Kind, bigEndian: bool, sent: Sent, payload: Outgoing, frame: Bytes)
    returns (s: State, reply: Requests.Reply)
    requires CanBeSent(kind, sent) && sent.earlier == [] && Complete(payload) && |frame| < U32_SIZE
    requires ResponseFrame(kind, RawIdOf(kind, sent.id), Written(payload)) == Some(frame)
    ensures Reachable(FULL_CARE, s) && s.kind == kind && Returns(s, 0, 0, reply)
    ensures Requests.Reads(reply, Received(kind, Written(payload)))
  {
    hide Reachable, CanBeSent, UnderWay, CanAnswer, AboutToStore, Requests.Reads, Received, ResponseFrame;
    hide RawIdOf, WireId;
    hide Returns, Complete, Written, Decode;
    assert FirstId(sent) == sent.id && [] + frame == frame;
    var s0 := SendsOne(kind, bigEndian, sent);
    var s1, range := DeliversOne(s0, sent);
    var s2 := AnswersIt(FULL_CARE, s1, 0, sent, range, [], payload, frame);
    AnswerArrives(kind, sent.id, Written(payload), frame);
    var s3, answer := ReadsIt(FULL_CARE, s2, WireOf(kind, sent), Received(kind, Written(payload)), 0, 0);
    reply := answer;
    s := FutureGetsIt(FULL_CARE, s3, 0, 0, reply);
  }

  // ---- Two requests ----

  /** Two requests can be sent one after the other: the first at its first attempt, the second at its first or after
      attempts under the first one's id. */
  ghost predicate TwoCanBeSent(kind: Kind, first: Sent, second: Sent) {
    && CanBeSent(kind, first) && CanBeSent(kind, second) && WireOf(kind, first) != WireOf(kind, second)
    && first.earlier == [] && |second.earlier| < MAX_RETRY_HEURISTIC
    && forall i :: 0 <= i < |second.earlier| ==> WireId(kind, second.earlier[i]) == WireOf(kind, first)
  }

  function TwoWaiting(kind: Kind, first: Sent, second: Sent): Requests.State {
    var i, j := WireOf(kind, first), WireOf(kind, second);
    var w := Requests.Waiter(Requests.Vacant, false, false);
    Requests.State(Requests.Shared(map[i := 0, j := 1], [w, w], false),
                   [Requests.Resting(Some(Requests.Receive(i, 0)), false),
                    Requests.Resting(Some(Requests.Receive(j, 1)), false)], [Requests.Idle], None)
  }

  ghost predicate TwoUnderWay(s: State, first: Sent, second: Sent) {
    && s.client == TwoWaiting(s.kind, first, second) && s.origin == [] && s.s2c == [] && s.buffers == [[]]
    && |FrameOf(s.kind, first)| < U32_SIZE && |FrameOf(s.kind, second)| < U32_SIZE
    && s.requests == [first, second]
    && s.c2s == [Packet(FrameOf(s.kind, first), Some(0)), Packet(FrameOf(s.kind, second), Some(1))]
    && s.server == Tokens.Initial(s.server.bigEndian, 1)
  }

  lemma SendsTwo(care: Care, kind: Kind, bigEndian: bool, first: Sent, second: Sent) returns (s: State)
    requires TwoCanBeSent(kind, first, second) && (care.ownIds ==> second.earlier == [])
    ensures Reachable(care, s) && TwoUnderWay(s, first, second) && s.kind == kind
  {
    hide Utf8.Valid, FrameOf, WireId, Reachable;
    var s1 := SendsFirst(care, kind, bigEndian, first);
    forall i | 0 <= i < |second.earlier|
      ensures WasInUse(kind, s1.requests, second.earlier[i])
    {
      assert WireOf(kind, s1.requests[0]) == WireId(kind, second.earlier[i]);
    }
    ReachableNext(care, s1, Register(second));
    var s2 := Next(s1, Register(second));
    assert s2.client == TwoWaiting(kind, first, second);
    assert second.earlier == [] ==> second.Candidates() == [second.id];
    ReachableNext(care, s2, Submit(1));
    s := Next(s2, Submit(1));
  }

  lemma SendsFirst(care: Care, kind: Kind, bigEndian: bool, first: Sent) returns (s: State)
    requires CanBeSent(kind, first) && first.earlier == []
    ensures Reachable(care, s) && UnderWay(s, first) && s.kind == kind && s.submitted == {0}
  {
    hide Utf8.Valid, FrameOf, WireId, Reachable;
    var s0 := Initial(kind, 1, bigEndian, 1);
    ReachableInitial(care, kind, 1, bigEndian, 1);
    ReachableNext(care, s0, Register(first));
    var s1 := Next(s0, Register(first));
    assert first.Candidates() == [first.id];
    ReachableNext(care, s1, Submit(0));
    s := Next(s1, Submit(0));
    assert s.client == WaitingClient(WireOf(kind, first));
  }

  ghost predicate TwoDelivered(s: State, first: Sent, second: Sent, i: Range, j: Range) {
    && s.client == TwoWaiting(s.kind, first, second) && s.origin == [Some(0), Some(1)] && s.s2c == []
    && s.requests == [first, second] && s.server.replies == []
    && CanAnswer(s, 0, first, i, []) && CanAnswer(s, 1, second, j, []) && |s.server.handles| == 2
  }

  lemma DeliversTwo(care: Care, s: State, first: Sent, second: Sent) returns (u: State, i: Range, j: Range)
    requires TwoCanBeSent(s.kind, first, second) && Reachable(care, s) && TwoUnderWay(s, first, second)
    ensures Reachable(care, u) && TwoDelivered(u, first, second, i, j) && u.kind == s.kind
  {
    hide CanBeSent, FrameOf, WireId, Reachable, RawIdOf, Tokens.ToWord;
    var s1;
    s1, i := TakesOne(care, s, first);
    u, j := TakesOne(care, s1, second);
  }

  // ---- A retried request: its answer goes to the future whose id was in use ----

  /** Without care for ids the correlation fails, although no registered id repeats and every answer is encoded into an
      empty buffer. The second request's first candidate is the first one's id, so its frame carries that id; the first
      future returns the answer to the second request, and its own request is not answered at all. */
  lemma RetriedAnswerGoesToWrongFuture(kind: Kind, bigEndian: bool, first: Sent, second: Sent, payload: Outgoing,
                                       frame: Bytes)
    returns (s: State, reply: Requests.Reply)
    requires TwoCanBeSent(kind, first, second) && second.earlier != [] && Complete(payload) && |frame| < U32_SIZE
    requires ResponseFrame(kind, RawIdOf(kind, FirstId(second)), Written(payload)) == Some(frame)
    ensures Reachable(Care(true, false, true), s) && Returns(s, 0, 0, reply)
    ensures s.requests == [first, second] && s.kind == kind
    ensures |s.server.replies| == 1 && SlotOf(s.origin, s.server, 0) == Some(1)
    ensures Requests.Reads(reply, Received(kind, Written(payload)))
  {
    hide Reachable, CanBeSent, TwoUnderWay, CanAnswer, AboutToStore, Requests.Reads, Received, ResponseFrame;
    hide RawIdOf, WireId;
    hide Returns, Complete, Written, Decode, FrameOf;
    var care := Care(true, false, true);
    var s0 := SendsTwo(care, kind, bigEndian, first, second);
    var s1, i, j := DeliversTwo(care, s0, first, second);
    assert [] + frame == frame;
    var s2 := AnswersIt(care, s1, 1, second, j, [], payload, frame);
    AnswerArrives(kind, FirstId(second), Written(payload), frame);
    assert FirstId(second) == second.earlier[0];
    var s3, answer := ReadsIt(care, s2, WireOf(kind, first), Received(kind, Written(payload)), 0, 0);
    reply := answer;
    s := FutureGetsIt(care, s3, 0, 0, reply);
  }

  // ---- A dirty buffer: an answer becomes part of another one ----

  /** Two msgpack requests whose answers can be encoded; the first answer is a result that stops serialising behind
      `part`, the second one is complete and is encoded into the same buffer. */
  datatype Case = Case(first: Sent, second: Sent, part: Bytes, answer: Outgoing, frame: Bytes)

  function FirstPayload(c: Case): Outgoing {
    EncodeResponsePayload.Ok(Serialized(c.part, false))
  }

  /** What the first answer leaves in the buffer. */
  function Left(c: Case): Bytes {
    MsgPackRpc.LeftBehind(RawIdOf(MsgPack, c.first.id), FirstPayload(c))
  }

  ghost predicate Goes(c: Case) {
    && TwoCanBeSent(MsgPack, c.first, c.second) && c.second.earlier == [] && WireOf(MsgPack, c.first) >= 65536
    && Complete(c.answer)
    && ResponseFrame(MsgPack, RawIdOf(MsgPack, c.second.id), Written(c.answer)) == Some(c.frame)
    && |Left(c) + c.frame| < U32_SIZE
  }

  lemma RefusedHalfWay(c: Case)
    requires Goes(c)
    ensures Refusal(MsgPack, RawIdOf(MsgPack, c.first.id), FirstPayload(c)) == Some(SerializeFailed)
    ensures AfterRefusal(MsgPack, [], RawIdOf(MsgPack, c.first.id), FirstPayload(c)) == Left(c)
  {
    hide MsgPackRpc.ResponseFrame, MsgPackRpc.LeftBehind, RawIdOf;
    AnswerableIff(MsgPack, c.first.id, Written(FirstPayload(c)));
  }

  /** Thread 0 is about to encode the first answer. */
  ghost predicate AboutToRefuse(s: State, c: Case, i: Range, j: Range) {
    && s.kind == MsgPack && s.server.threads == [Tokens.Holding(0, Some(i), Tokens.Respond(FirstPayload(c)))]
    && IdRange(MsgPack, c.first, i) && IdRange(MsgPack, c.second, j) && s.buffers == [[]] && s.server.replies == []
    && |s.server.handles| == |s.server.consumed| == 2 && s.server.handles[0].buffer == FrameOf(MsgPack, c.first)
    && s.server.handles[0].delivery == 0 && s.server.handles[1] == HandleOf(s, 1, c.second, j)
  }

  lemma SwapsFirst(care: Care, s: State, c: Case, i: Range, j: Range) returns (u: State)
    requires Reachable(care, s) && TwoDelivered(s, c.first, c.second, i, j) && s.kind == MsgPack
    ensures Reachable(care, u) && u == s.(server := u.server) && AboutToRefuse(u, c, i, j)
  {
    hide Reachable, FrameOf, WireId, RawIdOf, Tokens.FromWord, Tokens.ToWord;
    Tokens.WordRoundTrip(Some(i), s.server.bigEndian);
    var swap := Tokens.Swap(0, 0, Tokens.Respond(FirstPayload(c)));
    ReachableNext(care, s, Server(swap));
    u := Next(s, Server(swap));
    assert u.server.threads == [Tokens.Holding(0, Some(i), Tokens.Respond(FirstPayload(c)))];
  }

  /** The first answer stops half-way: its token is used up, and what was written stays in the buffer. */
  lemma RefusesFirst(care: Care, s: State, c: Case, i: Range, j: Range) returns (u: State)
    requires Goes(c) && Reachable(care, s) && AboutToRefuse(s, c, i, j)
    ensures Reachable(care, u) && u == s.(server := u.server, buffers := [Left(c)]) && u.server.replies == []
    ensures CanAnswer(u, 1, c.second, j, Left(c))
  {
    hide Reachable, FrameOf, WireId, RawIdOf, Tokens.FromWord, Tokens.ToWord, Written, Left, Refusal, Goes;
    RefusedHalfWay(c);
    FirstOf(c);
    ReachableNext(care, s, Finish(0, false));
    u := Next(s, Finish(0, false));
  }

  lemma FirstOf(c: Case)
    requires Goes(c)
    ensures FirstId(c.first) == c.first.id && FirstId(c.second) == c.second.id
  {
    hide CanBeSent, ResponseFrame, Left;
  }

  lemma MixedDecodes(c: Case)
    requires Goes(c)
    ensures var sent := Left(c) + c.frame;
            IsResponseOf(Decode(MsgPack, sent), sent, WireOf(MsgPack, c.first), Verdict(None, c.part + c.frame))
  {
    hide MsgPackRpc.Decode, MsgPackRpc.LeftBehind, CanBeSent, ResponseFrame, MsgPackRpc.EncodeUint;
    MsgPackRoundTrip.WireId(c.first.id);
    Leftovers.StolenAnswer(RawIdOf(MsgPack, c.first.id), WireOf(MsgPack, c.first), c.part, c.frame);
  }

  /** Without care for buffers the correlation fails. The first of two msgpack requests is answered by a result that
      stops serialising half-way, and the same buffer is used for the second answer: the first future then returns a
      successful response, made of the beginning of its own result and the whole second answer, although its request
      was never answered. */
  lemma AnswerGoesToWrongFuture(bigEndian: bool, c: Case) returns (s: State, reply: Requests.Reply)
    requires Goes(c)
    ensures Reachable(Care(false, true, true), s) && Returns(s, 0, 0, reply)
    ensures |s.server.replies| == 1 && SlotOf(s.origin, s.server, 0) == Some(1)
    ensures Requests.Reads(reply, Verdict(None, c.part + c.frame))
  {
    hide Reachable, TwoUnderWay, CanAnswer, AboutToRefuse, AboutToStore, Requests.Reads, Left, Returns, CanBeSent;
    hide ResponseFrame;
    hide RawIdOf;
    hide WireId, Complete, Written, Decode, FrameOf;
    var care := Care(false, true, true);
    var s0 := SendsTwo(care, MsgPack, bigEndian, c.first, c.second);
    var s1, i, j := DeliversTwo(care, s0, c.first, c.second);
    var swapped := SwapsFirst(care, s1, c, i, j);
    var s2 := RefusesFirst(care, swapped, c, i, j);
    FirstOf(c);
    var s3 := AnswersIt(care, s2, 1, c.second, j, Left(c), c.answer, c.frame);
    MixedDecodes(c);
    var s4, mixed := ReadsIt(care, s3, WireOf(MsgPack, c.first), Verdict(None, c.part + c.frame), 0, 0);
    reply := mixed;
    s := FutureGetsIt(care, s4, 0, 0, reply);
  }
}
