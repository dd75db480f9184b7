/** Two peers of this crate joined by links: the client's pending requests, the server's tokens, and the frames
    between them. */
module EndToEnd {
  import opened Common
  import opened Codec
  import opened Codecs
  import opened Retries
  import Utf8
  import Requests
  import Tokens = InboundTokens

  /** A frame under way. The tag is not on the wire: it names the waiter of a request or the reply behind a response. */
  datatype Packet = Packet(frame: Frame, tag: Option<nat>)

  /** What one call of `send_request` sent: the candidates that were in use, and the one under which it was
      registered. */
  datatype Sent = Sent(earlier: seq<RequestId>, id: RequestId, name: Bytes, params: Bytes) {
    function Candidates(): (ids: seq<RequestId>)
      ensures ids != []
    {
      earlier + [id]
    }
  }

  /** `requests` lists the registered requests by waiter; `submitted` are those handed to the writer; `origin` tells for
      each delivery at the server which request it is; `taken` are the waiters whose response the reader picked up.
      `buffers` are the buffers in which the server's threads encode their answers, one call after the other. */
  datatype State = State(
    kind: Kind,
    client: Requests.State,
    server: Tokens.State,
    requests: seq<Sent>,
    submitted: set<nat>,
    c2s: seq<Packet>,
    arrived: set<nat>,
    origin: seq<Option<nat>>,
    s2c: seq<Packet>,
    taken: set<nat>,
    buffers: seq<Bytes>)

  /** Frames arrive in any order, or never; FIFO links are those runs that always take the first. */
  datatype Label =
    | Register(sent: Sent)
    | Submit(slot: nat)
    | SendOther(frame: Frame)
    | Client(step: Requests.Label)
    | ServerTake(i: nat)
    | Server(move: Tokens.Label)
    | Finish(t: nat, queued: bool)
    | Refill(t: nat, bytes: Bytes)
    | AnswerOther(frame: Frame)
    | ClientTake(i: nat)

  /** The reader is the client's thread 0; other threads fail writes and expire the context. */
  const READER := 0

  function Initial(kind: Kind, clientThreads: nat, bigEndian: bool, serverThreads: nat): State {
    State(kind, Requests.Initial(clientThreads), Tokens.Initial(bigEndian, serverThreads), [], {}, [], {}, [], [], {},
          seq(serverThreads, _ => []))
  }

  function WireOf(kind: Kind, sent: Sent): RequestId {
    WireId(kind, sent.id)
  }

  /** The id that the frame carries. */
  function FirstId(sent: Sent): RequestId {
    sent.Candidates()[0]
  }

  /** One encoding for each candidate. */
  function FrameOf(kind: Kind, sent: Sent): Bytes {
    Encodings(kind, sent.Candidates(), |sent.Candidates()|, sent.name, sent.params)
  }

  /** The frame carries the id under which the request is registered. */
  predicate CarriesItsId(kind: Kind, sent: Sent) {
    WireId(kind, FirstId(sent)) == WireOf(kind, sent)
  }

  /** An id is in use only while the request registered under it is; `used` lists the requests registered so far. */
  predicate WasInUse(kind: Kind, used: seq<Sent>, id: RequestId) {
    exists k :: 0 <= k < |used| && WireOf(kind, used[k]) == WireId(kind, id)
  }

  predicate IsRequest(kind: Kind, frame: Bytes) {
    Decode(kind, frame).Frame? && Decode(kind, frame).frame.Request?
  }

  predicate IsResponse(kind: Kind, frame: Bytes) {
    Decode(kind, frame).Frame? && Decode(kind, frame).frame.Response?
  }

  function Without(queue: seq<Packet>, i: nat): (rest: seq<Packet>)
    requires i < |queue|
    ensures |rest| == |queue| - 1
    ensures forall x :: 0 <= x < |rest| ==> rest[x] == queue[if x < i then x else x + 1]
  {
    queue[..i] + queue[i + 1..]
  }

  /** What is in the buffer that the finishing call encodes into; the drop guard has a fresh one. */
  function Before(s: State, t: nat): Bytes {
    if t < |s.buffers| && t < |s.server.threads| && s.server.threads[t].Holding? && s.server.threads[t].purpose.Respond?
    then s.buffers[t] else []
  }

  /** The buffer behind the call: handed over with the answer, or what a refused encoding leaves. */
  function BufferAfter(s: State, t: nat): Bytes
    requires Tokens.Enabled(s.server, Tokens.Finish(t, false)) && t < |s.buffers|
  {
    var call := s.server.threads[t];
    var frame := s.server.handles[call.h].buffer;
    if !call.purpose.Respond? || call.range.None? || !call.range.value.Within(frame) then s.buffers[t]
    else if Refusal(s.kind, call.range.value.Of(frame), call.purpose.payload).None? then []
    else AfterRefusal(s.kind, s.buffers[t], call.range.value.Of(frame), call.purpose.payload)
  }

  /** The encoded reply a thread is about to finish, if it gets queued. */
  function ReplyFrame(s: State, t: nat, queued: bool): Option<Bytes>
    requires Tokens.Enabled(s.server, Tokens.Finish(t, queued))
  {
    var after := Tokens.Next(s.server, Tokens.Finish(t, queued));
    if |after.replies| > |s.server.replies| then
      var reply := after.replies[|after.replies| - 1];
      ResponseFrame(s.kind, reply.rawId, reply.payload)
    else None
  }

  predicate QueuesReply(s: State, t: nat, queued: bool)
    requires Tokens.Enabled(s.server, Tokens.Finish(t, queued))
  {
    |Tokens.Next(s.server, Tokens.Finish(t, queued)).replies| > |s.server.replies|
  }

  predicate Enabled(s: State, l: Label) {
    match l
    case Register(sent) =>
      && Requests.Enabled(s.client, Requests.Allocate(WireOf(s.kind, sent))) && !s.client.sh.expired
      && Utf8.Valid(sent.name) && |FrameOf(s.kind, sent)| < U32_SIZE
      && (forall k :: 0 <= k < |s.requests| ==> WireOf(s.kind, s.requests[k]) != WireOf(s.kind, sent))
      && |sent.earlier| < MAX_RETRY_HEURISTIC
      && (forall i :: 0 <= i < |sent.earlier| ==> WasInUse(s.kind, s.requests, sent.earlier[i]))
    case Submit(slot) => slot < |s.requests| && slot !in s.submitted && |FrameOf(s.kind, s.requests[slot])| < U32_SIZE
    case SendOther(_) => true
    case Client(step) => !step.Allocate? && !step.Lookup? && Requests.Enabled(s.client, step)
    case ServerTake(i) => i < |s.c2s|
    case Server(move) => !move.Deliver? && !move.Finish? && Tokens.Enabled(s.server, move)
    case Finish(t, queued) =>
      && Tokens.Enabled(s.server, Tokens.Finish(t, queued))
      && t < |s.buffers|
      && (QueuesReply(s, t, queued) ==>
            ReplyFrame(s, t, queued).Some? && |Before(s, t) + ReplyFrame(s, t, queued).value| < U32_SIZE)
    case Refill(t, _) => t < |s.buffers|
    case AnswerOther(_) => true
    case ClientTake(i) =>
      i < |s.s2c| && READER < |s.client.actors| && s.client.actors[READER].Idle? && s.client.lock.None?
  }

  /** What the server's reader makes of a frame: the id range of a request, or nothing for a notification. */
  function Inbound(kind: Kind, frame: Frame): Option<Option<Range>> {
    match Decode(kind, frame)
    case Frame(Request(rawId, name, _)) =>
      if name.Within(frame) && Utf8.Valid(name.Of(frame)) then Some(Some(rawId)) else None
    case Frame(Notify(name, _)) => if name.Within(frame) && Utf8.Valid(name.Of(frame)) then Some(None) else None
    case _ => None
  }

  lemma InboundDelivers(server: Tokens.State, kind: Kind, frame: Frame)
    requires Inbound(kind, frame).Some?
    ensures Tokens.Enabled(server, Tokens.Deliver(frame, Inbound(kind, frame).value))
  {
    hide Decode, Utf8.Valid;
    DecodedCallInBounds(kind, frame);
  }

  function ServerTook(s: State, packet: Packet): State {
    match Inbound(s.kind, packet.frame)
    case None => s
    case Some(rawId) =>
      InboundDelivers(s.server, s.kind, packet.frame);
      s.(server := Tokens.Next(s.server, Tokens.Deliver(packet.frame, rawId)), origin := s.origin + [packet.tag])
  }

  /** The reader's `set_response` begins: it looks the decoded id up. */
  function ClientTook(s: State, packet: Packet): State
    requires READER < |s.client.actors| && s.client.actors[READER].Idle? && s.client.lock.None?
  {
    match Decode(s.kind, packet.frame)
    case Frame(Response(id, errc, payload)) =>
      s.(client := Requests.Next(s.client, Requests.Lookup(READER, id, Requests.Reply(packet.frame, errc, payload))))
    case _ => s
  }

  function SlotOf(origin: seq<Option<nat>>, server: Tokens.State, q: nat): Option<nat> {
    if q < |server.replies| && server.replies[q].delivery < |origin| then origin[server.replies[q].delivery] else None
  }

  function Next(s: State, l: Label): State
    requires Enabled(s, l)
  {
    match l
    case Register(sent) =>
      s.(client := Requests.Next(s.client, Requests.Allocate(WireOf(s.kind, sent))), requests := s.requests + [sent])
    case Submit(slot) =>
      s.(submitted := s.submitted + {slot}, c2s := s.c2s + [Packet(FrameOf(s.kind, s.requests[slot]), Some(slot))])
    case SendOther(frame) => s.(c2s := s.c2s + [Packet(frame, None)])
    case Client(step) => s.(client := Requests.Next(s.client, step))
    case ServerTake(i) =>
      var packet := s.c2s[i];
      ServerTook(s.(c2s := Without(s.c2s, i),
                    arrived := s.arrived + if packet.tag.Some? then {packet.tag.value} else {}), packet)
    case Server(move) => s.(server := Tokens.Next(s.server, move))
    case Finish(t, queued) =>
      var after := s.(server := Tokens.Next(s.server, Tokens.Finish(t, queued)),
                      buffers := s.buffers[t := BufferAfter(s, t)]);
      if QueuesReply(s, t, queued) then
        after.(s2c := s.s2c + [Packet(Before(s, t) + ReplyFrame(s, t, queued).value, Some(|s.server.replies|))])
      else after
    case Refill(t, bytes) => s.(buffers := s.buffers[t := bytes])
    case AnswerOther(frame) => s.(s2c := s.s2c + [Packet(frame, None)])
    case ClientTake(i) =>
      var packet := s.s2c[i];
      var slot := if packet.tag.Some? then SlotOf(s.origin, s.server, packet.tag.value) else None;
      ClientTook(s.(s2c := Without(s.s2c, i), taken := s.taken + if slot.Some? then {slot.value} else {}), packet)
  }

  // ---- Care ----

  /** What may be asked of a run: answers that get queued were encoded into empty buffers; requests that get submitted
      carry the ids under which they are registered; other frames on the links do not arrive as requests or
      responses. */
  datatype Care = Care(emptyBuffers: bool, ownIds: bool, othersApart: bool)

  const FULL_CARE := Care(true, true, true)

  predicate EmptyBuffer(s: State, l: Label)
    requires Enabled(s, l)
  {
    l.Finish? && QueuesReply(s, l.t, l.queued) ==> Before(s, l.t) == []
  }

  predicate OwnId(s: State, l: Label)
    requires Enabled(s, l)
  {
    l.Submit? ==> CarriesItsId(s.kind, s.requests[l.slot])
  }

  predicate OthersApart(s: State, l: Label) {
    (l.SendOther? ==> !IsRequest(s.kind, l.frame)) && (l.AnswerOther? ==> !IsResponse(s.kind, l.frame))
  }

  predicate Careful(care: Care, s: State, l: Label)
    requires Enabled(s, l)
  {
    && (care.emptyBuffers ==> EmptyBuffer(s, l))
    && (care.ownIds ==> OwnId(s, l))
    && (care.othersApart ==> OthersApart(s, l))
  }

  // ---- What a genuine response is ----

  /** The server's reply `q` answers the request of waiter `k`, and `reply` is its frame and reads as its payload. */
  predicate Answers(kind: Kind, server: Tokens.State, origin: seq<Option<nat>>, k: nat, reply: Requests.Reply, q: nat) {
    && SlotOf(origin, server, q) == Some(k)
    && q < |server.replies| && Requests.Reads(reply, Received(kind, server.replies[q].payload))
    && ResponseFrame(kind, server.replies[q].rawId, server.replies[q].payload) == Some(reply.raw)
  }

  ghost predicate Genuine(kind: Kind, server: Tokens.State, origin: seq<Option<nat>>, k: nat, reply: Requests.Reply) {
    exists q: nat :: q < |server.replies| && Answers(kind, server, origin, k, reply, q)
  }

  lemma GenuineStays(kind: Kind, server: Tokens.State, origin: seq<Option<nat>>, server': Tokens.State,
                     origin': seq<Option<nat>>, k: nat, reply: Requests.Reply)
    requires Genuine(kind, server, origin, k, reply) && server.replies <= server'.replies && origin <= origin'
    ensures Genuine(kind, server', origin', k, reply)
  {
    var q: nat :| q < |server.replies| && Answers(kind, server, origin, k, reply, q);
    assert Answers(kind, server', origin', k, reply, q);
  }

  // ---- The client's half of the invariant ----

  ghost predicate CellOk(s: State, k: nat, cell: Requests.Cell) {
    && (cell.Ready? ==> Genuine(s.kind, s.server, s.origin, k, cell.reply))
    && (cell.Ready? || cell.PendingRemove? ==> k in s.taken)
  }

  ghost predicate EndingOk(s: State, k: nat, ending: Requests.Ending) {
    ending.Deliver? ==> Genuine(s.kind, s.server, s.origin, k, ending.reply)
  }

  ghost predicate FutureOk(s: State, future: Requests.Future) {
    match future
    case Unregistering(r, ending) => EndingOk(s, r.slot, ending)
    case Freeing(r, ending) => EndingOk(s, r.slot, ending)
    case _ => true
  }

  /** The reader carries a genuine response to a cell that has none yet. */
  ghost predicate CarriesTo(s: State, client: Requests.State, a: nat, slot: nat, reply: Requests.Reply) {
    && a == READER && slot < |client.sh.waiters| && slot in s.taken
    && Genuine(s.kind, s.server, s.origin, slot, reply)
    && !client.sh.waiters[slot].cell.Ready? && !client.sh.waiters[slot].cell.PendingRemove?
  }

  ghost predicate ActorOk(s: State, client: Requests.State, a: nat, actor: Requests.Actor) {
    match actor
    case Found(slot, reply) => CarriesTo(s, client, a, slot, reply)
    case Checked(slot, reply) => CarriesTo(s, client, a, slot, reply)
    case _ => true
  }

  ghost predicate CellsOk(s: State, client: Requests.State) {
    forall k :: 0 <= k < |client.sh.waiters| ==> CellOk(s, k, client.sh.waiters[k].cell)
  }

  ghost predicate FuturesOk(s: State, client: Requests.State) {
    forall f :: 0 <= f < |client.futures| ==> FutureOk(s, client.futures[f])
  }

  ghost predicate ActorsOk(s: State, client: Requests.State) {
    forall a :: 0 <= a < |client.actors| ==> ActorOk(s, client, a, client.actors[a])
  }

  ghost predicate ClientOk(s: State, client: Requests.State) {
    CellsOk(s, client) && FuturesOk(s, client) && ActorsOk(s, client)
  }

  /** Entries lead from the id under which a request was sent to its waiter; no two requests share an id. */
  predicate EntriesOk(s: State) {
    && |s.requests| == |s.client.sh.waiters|
    && (forall id :: id in s.client.sh.waitList ==>
          s.client.sh.waitList[id] < |s.requests| && WireOf(s.kind, s.requests[s.client.sh.waitList[id]]) == id)
    && (forall i, j :: 0 <= i < |s.requests| && 0 <= j < |s.requests| && i != j ==>
          WireOf(s.kind, s.requests[i]) != WireOf(s.kind, s.requests[j]))
    && (forall k :: 0 <= k < |s.requests| ==>
          Utf8.Valid(s.requests[k].name) && |FrameOf(s.kind, s.requests[k])| < U32_SIZE)
    && (forall k :: 0 <= k < |s.requests| && s.requests[k].earlier != [] ==> !CarriesItsId(s.kind, s.requests[k]))
  }

  // ---- The server's half, and the links ----

  /** Delivery `d` is the request of its origin, with that request's id bytes; without an origin it is no request. */
  predicate DeliveryOk(s: State, d: nat)
    requires d < |s.origin| && d < |s.server.deliveries|
  {
    match s.origin[d]
    case None => s.server.deliveries[d].rawId.None?
    case Some(k) =>
      var delivery := s.server.deliveries[d];
      && k < |s.requests| && k in s.arrived
      && delivery.frame == FrameOf(s.kind, s.requests[k])
      && delivery.rawId.Some? && delivery.rawId.value.Within(delivery.frame)
      && delivery.rawId.value.Of(delivery.frame) == RawIdOf(s.kind, s.requests[k].id)
  }

  predicate DeliveriesOk(s: State) {
    && |s.origin| == |s.server.deliveries|
    && (forall d :: 0 <= d < |s.origin| ==> DeliveryOk(s, d))
    && (forall d, e :: 0 <= d < |s.origin| && 0 <= e < |s.origin| && d != e && s.origin[d].Some? ==>
          s.origin[d] != s.origin[e])
  }

  predicate ToServerOk(s: State, p: Packet) {
    match p.tag
    case None => !IsRequest(s.kind, p.frame)
    case Some(k) =>
      && k < |s.requests| && p.frame == FrameOf(s.kind, s.requests[k]) && CarriesItsId(s.kind, s.requests[k])
      && k in s.submitted && k !in s.arrived
  }

  predicate ToClientOk(s: State, p: Packet) {
    match p.tag
    case None => !IsResponse(s.kind, p.frame)
    case Some(q) =>
      && q < |s.server.replies|
      && ResponseFrame(s.kind, s.server.replies[q].rawId, s.server.replies[q].payload) == Some(p.frame)
      && (SlotOf(s.origin, s.server, q).Some? ==> SlotOf(s.origin, s.server, q).value !in s.taken)
  }

  predicate Distinct(queue: seq<Packet>) {
    forall i, j :: 0 <= i < |queue| && 0 <= j < |queue| && i != j && queue[i].tag.Some? ==> queue[i].tag != queue[j].tag
  }

  /** Requests under way were submitted, have not arrived, and are under way only once. */
  predicate RequestLinkOk(s: State) {
    && (forall i :: 0 <= i < |s.c2s| ==> ToServerOk(s, s.c2s[i]))
    && Distinct(s.c2s) && s.arrived <= s.submitted
    && (forall k :: k in s.submitted ==> k < |s.requests|)
  }

  predicate WasAnswered(s: State, k: nat) {
    exists q :: 0 <= q < |s.server.replies| && SlotOf(s.origin, s.server, q) == Some(k)
  }

  /** Responses under way were queued by the server, are under way only once, and were not picked up before. */
  predicate ReplyLinkOk(s: State) {
    && (forall i :: 0 <= i < |s.s2c| ==> ToClientOk(s, s.s2c[i]))
    && Distinct(s.s2c)
    && (forall k :: k in s.taken ==> WasAnswered(s, k))
  }

  ghost predicate Inv(s: State) {
    && Tokens.Inv(s.server) && EntriesOk(s) && DeliveriesOk(s) && RequestLinkOk(s) && ReplyLinkOk(s)
    && ClientOk(s, s.client)
  }
}
