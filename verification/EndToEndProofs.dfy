/** Every step of the joined peers keeps their invariant. */
module EndToEndProofs {
  import opened Common
  import opened Codec
  import opened Codecs
  import opened Retries
  import Utf8
  import Requests
  import Tokens = InboundTokens
  import TokenTheorems
  import opened EndToEnd

  // ---- What steps of the two halves leave alone ----

  /** Handle operations other than finishing a response neither deliver nor answer anything. */
  lemma ServerMoveFrame(server: Tokens.State, l: Tokens.Label)
    requires Tokens.Enabled(server, l) && !l.Deliver? && !l.Finish?
    ensures Tokens.Next(server, l).deliveries == server.deliveries && Tokens.Next(server, l).replies == server.replies
  {
  }

  /** Finishing a response adds at most one reply. */
  lemma FinishFrame(server: Tokens.State, t: nat, queued: bool)
    requires Tokens.Enabled(server, Tokens.Finish(t, queued))
    ensures var after := Tokens.Next(server, Tokens.Finish(t, queued));
            && after.deliveries == server.deliveries
            && (after.replies == server.replies ||
                (|after.replies| == |server.replies| + 1 && after.replies[..|server.replies|] == server.replies))
  {
    hide Tokens.FromWord, Tokens.ToWord;
  }

  lemma DeliverFrame(server: Tokens.State, frame: Bytes, rawId: Option<Range>)
    requires Tokens.Enabled(server, Tokens.Deliver(frame, rawId))
    ensures var after := Tokens.Next(server, Tokens.Deliver(frame, rawId));
            after.deliveries == server.deliveries + [Tokens.Delivery(frame, rawId)] && after.replies == server.replies
  {
  }

  // ---- The client's own steps ----

  predicate SameCells(client: Requests.State, after: Requests.State) {
    && |after.sh.waiters| == |client.sh.waiters|
    && forall k :: 0 <= k < |client.sh.waiters| ==> after.sh.waiters[k].cell == client.sh.waiters[k].cell
  }

  /** A future takes what is in its cell. */
  lemma InspectStep(s: State, client: Requests.State, f: nat, r: Requests.Receive, after: Requests.State)
    requires ClientOk(s, client) && r.slot < |client.sh.waiters| && f < |client.futures|
    requires !client.sh.waiters[r.slot].cell.Vacant?
    requires var w := client.sh.waiters[r.slot];
             after == Requests.WithFuture(
               Requests.WithWaiter(client, r.slot, w.(cell := Requests.CellAfterInspection(w.cell))),
               f, Requests.AfterInspection(r, w.cell))
    ensures ClientOk(s, after)
  {
  }

  /** Any other step of one future: no cell changes, and it carries no response it did not carry before. */
  lemma FutureStep(s: State, client: Requests.State, f: nat, after: Requests.State)
    requires ClientOk(s, client) && f < |client.futures|
    requires SameCells(client, after) && after.actors == client.actors
    requires |client.futures| <= |after.futures|
    requires forall g :: 0 <= g < |after.futures| && !(g < |client.futures| && g != f) ==> FutureOk(s, after.futures[g])
    requires forall g :: 0 <= g < |client.futures| && g != f ==> after.futures[g] == client.futures[g]
    ensures ClientOk(s, after)
  {
  }

  /** A step of one thread; the cell of at most one waiter changes. */
  lemma ActorStep(s: State, client: Requests.State, a: nat, after: Requests.State, slot: nat)
    requires ClientOk(s, client) && a < |client.actors| && |after.actors| == |client.actors|
    requires after.futures == client.futures && |after.sh.waiters| == |client.sh.waiters|
    requires forall b :: 0 <= b < |client.actors| && b != a ==> after.actors[b] == client.actors[b]
    requires forall k :: 0 <= k < |client.sh.waiters| && k != slot ==>
               after.sh.waiters[k].cell == client.sh.waiters[k].cell
    requires ActorOk(s, after, a, after.actors[a])
    requires slot < |client.sh.waiters| ==> CellOk(s, slot, after.sh.waiters[slot].cell)
    requires slot < |client.sh.waiters| && a != READER ==>
               after.sh.waiters[slot].cell == client.sh.waiters[slot].cell || after.sh.waiters[slot].cell.WriteFailed?
    ensures ClientOk(s, after)
  {
  }

  lemma FutureLabels(s: State, client: Requests.State, l: Requests.Label)
    requires ClientOk(s, client) && Requests.Enabled(client, l)
    requires l.Poll? || l.Inspect? || l.CheckExpired? || l.TryRecv? || l.TryCheckExpired? || l.TakeWaker? || l.Free?
             || l.IntoOwned? || l.DropFuture?
    ensures ClientOk(s, Requests.Next(client, l))
  {
    hide Genuine, ClientOk;
    var after := Requests.Next(client, l);
    assert FutureOk(s, client.futures[l.f]) by { FutureAt(s, client, l.f); }
    if l.Inspect? && !client.sh.waiters[client.futures[l.f].r.slot].cell.Vacant? {
      InspectStep(s, client, l.f, client.futures[l.f].r, after);
    } else if l.TryRecv? && client.futures[l.f].state.Some?
              && !client.sh.waiters[client.futures[l.f].state.value.slot].cell.Vacant? {
      InspectStep(s, client, l.f, client.futures[l.f].state.value, after);
    } else {
      FutureStep(s, client, l.f, after);
    }
  }

  lemma FutureAt(s: State, client: Requests.State, f: nat)
    requires ClientOk(s, client) && f < |client.futures|
    ensures FutureOk(s, client.futures[f])
  {
  }

  lemma ActorAt(s: State, client: Requests.State, a: nat)
    requires ClientOk(s, client) && a < |client.actors|
    ensures ActorOk(s, client, a, client.actors[a])
  {
  }

  lemma ActorLabels(s: State, client: Requests.State, l: Requests.Label)
    requires ClientOk(s, client) && Requests.Enabled(client, l)
    requires l.CheckFlag? || l.Store? || l.FailLookup? || l.FailStore? || l.WakeStored? || l.Lock? || l.Swap?
             || l.WakeNext? || l.Unlock?
    ensures ClientOk(s, Requests.Next(client, l))
  {
    hide Genuine, ClientOk;
    var after := Requests.Next(client, l);
    var slot := if l.Store? || l.FailStore? then client.actors[l.a].slot else |client.sh.waiters|;
    assert ActorOk(s, client, l.a, client.actors[l.a]) by { ActorAt(s, client, l.a); }
    ActorStep(s, client, l.a, after, slot);
  }

  /** The client's own steps only ever remove entries, and make no waiters. */
  lemma EntriesShrink(client: Requests.State, l: Requests.Label)
    requires Requests.Enabled(client, l) && !l.Allocate?
    ensures |Requests.Next(client, l).sh.waiters| == |client.sh.waiters|
    ensures forall id :: id in Requests.Next(client, l).sh.waitList ==>
              id in client.sh.waitList && Requests.Next(client, l).sh.waitList[id] == client.sh.waitList[id]
  {
  }

  /** The client's half of the invariant is about the rest of the state only through these components. */
  lemma ClientOkFrame(s: State, u: State, client: Requests.State)
    requires ClientOk(s, client)
    requires u.kind == s.kind && s.server.replies <= u.server.replies && s.origin <= u.origin && s.taken <= u.taken
    ensures ClientOk(u, client)
  {
    hide Genuine;
    forall k, reply | Genuine(s.kind, s.server, s.origin, k, reply)
      ensures Genuine(u.kind, u.server, u.origin, k, reply)
    {
      GenuineStays(s.kind, s.server, s.origin, u.server, u.origin, k, reply);
    }
    forall k | 0 <= k < |client.sh.waiters|
      ensures CellOk(u, k, client.sh.waiters[k].cell)
    {
      assert CellOk(s, k, client.sh.waiters[k].cell);
    }
    forall f | 0 <= f < |client.futures|
      ensures FutureOk(u, client.futures[f])
    {
      assert FutureOk(s, client.futures[f]);
    }
    forall a | 0 <= a < |client.actors|
      ensures ActorOk(u, client, a, client.actors[a])
    {
      assert ActorOk(s, client, a, client.actors[a]);
    }
  }

  // ---- Frames of the other parts ----

  /** Every reply answers a delivery that has an origin, with the id bytes of that request. */
  lemma ReplyOrigin(s: State, q: nat)
    requires Tokens.Inv(s.server) && DeliveriesOk(s) && q < |s.server.replies|
    ensures s.server.replies[q].delivery < |s.origin| && SlotOf(s.origin, s.server, q).Some?
    ensures var k := SlotOf(s.origin, s.server, q).value;
            k < |s.requests| && s.server.replies[q].rawId == RawIdOf(s.kind, s.requests[k].id)
  {
    hide RawIdOf, Tokens.Borrows, Tokens.Conserved, Tokens.Accounted, Tokens.FromWord;
    assert Tokens.ReplyOk(s.server, s.server.replies[q]);
    assert DeliveryOk(s, s.server.replies[q].delivery);
  }

  /** Two replies never answer the same request. */
  lemma RepliesDiffer(s: State, q: nat, p: nat)
    requires Tokens.Inv(s.server) && DeliveriesOk(s) && q < p < |s.server.replies|
    ensures SlotOf(s.origin, s.server, q) != SlotOf(s.origin, s.server, p)
  {
    hide Tokens.Inv, DeliveryOk;
    ReplyOrigin(s, q);
    ReplyOrigin(s, p);
    TokenTheorems.NoSecondReply(s.server, q, p);
  }

  lemma ReplyLinkFrame(s: State, u: State)
    requires Tokens.Inv(s.server) && DeliveriesOk(s) && ReplyLinkOk(s)
    requires u.kind == s.kind && s.server.replies <= u.server.replies && s.origin <= u.origin && u.taken == s.taken
    requires u.s2c == s.s2c
    ensures ReplyLinkOk(u)
  {
    hide Tokens.Inv, ResponseFrame, IsResponse, DeliveriesOk;
    SlotsStay(s, u);
    forall i | 0 <= i < |u.s2c|
      ensures ToClientOk(u, u.s2c[i])
    {
      assert ToClientOk(s, s.s2c[i]);
    }
  }

  lemma SlotsStay(s: State, u: State)
    requires Tokens.Inv(s.server) && DeliveriesOk(s)
    requires s.server.replies <= u.server.replies && s.origin <= u.origin
    ensures forall q :: 0 <= q < |s.server.replies| ==>
              SlotOf(u.origin, u.server, q) == SlotOf(s.origin, s.server, q)
    ensures forall k :: WasAnswered(s, k) ==> WasAnswered(u, k)
  {
  }

  lemma DeliveriesFrame(s: State, u: State)
    requires DeliveriesOk(s) && u.kind == s.kind && u.origin == s.origin && u.server.deliveries == s.server.deliveries
    requires s.requests <= u.requests && s.arrived <= u.arrived
    ensures DeliveriesOk(u)
  {
    hide FrameOf, RawIdOf;
    forall d | 0 <= d < |u.origin|
      ensures DeliveryOk(u, d)
    {
      assert DeliveryOk(s, d);
    }
  }

  // ---- Every step ----

  lemma RegisterEntries(s: State, sent: Sent)
    requires EntriesOk(s) && Enabled(s, Register(sent))
    ensures EntriesOk(Next(s, Register(sent))) && WireOf(s.kind, sent) !in s.client.sh.waitList
  {
    hide WireId, FrameOf, Utf8.Valid, CarriesItsId;
    var u := Next(s, Register(sent));
    assert WireOf(s.kind, sent) !in s.client.sh.waitList;
    EarlierDiffer(s, sent);
    forall k | 0 <= k < |s.requests|
      ensures u.requests[k] == s.requests[k]
    {
    }
  }

  /** A candidate that was in use is not the fresh id under which the request is registered in the end. */
  lemma EarlierDiffer(s: State, sent: Sent)
    requires Enabled(s, Register(sent))
    ensures sent.earlier != [] ==> !CarriesItsId(s.kind, sent)
  {
    hide WireId, FrameOf, Utf8.Valid, Requests.Enabled;
    if sent.earlier != [] {
      assert FirstId(sent) == sent.earlier[0] && WasInUse(s.kind, s.requests, sent.earlier[0]);
    }
  }

  lemma RegisterKeeps(s: State, sent: Sent)
    requires Inv(s) && Enabled(s, Register(sent))
    ensures Inv(Next(s, Register(sent)))
  {
    hide Tokens.Inv, Genuine, WireId, FrameOf, Utf8.Valid, RawIdOf, IsRequest, DeliveriesOk, ReplyLinkOk, ClientOk;
    hide EntriesOk;
    var u := Next(s, Register(sent));
    var id := WireOf(s.kind, sent);
    RegisterEntries(s, sent);
    assert u.requests[..|s.requests|] == s.requests;
    DeliveriesFrame(s, u);
    ReplyLinkFrame(s, u);
    forall i | 0 <= i < |u.c2s|
      ensures ToServerOk(u, u.c2s[i])
    {
      assert ToServerOk(s, s.c2s[i]);
    }
    ClientOkFrame(s, u, s.client);
    AllocateStep(u, s.client, id);
  }

  lemma AllocateStep(s: State, client: Requests.State, id: RequestId)
    requires ClientOk(s, client) && Requests.Enabled(client, Requests.Allocate(id))
    ensures ClientOk(s, Requests.Next(client, Requests.Allocate(id)))
  {
  }

  lemma SubmitKeeps(s: State, slot: nat)
    requires Inv(s) && Enabled(s, Submit(slot)) && OwnId(s, Submit(slot))
    ensures Inv(Next(s, Submit(slot)))
  {
    hide Tokens.Inv, Genuine, FrameOf, WireId, Utf8.Valid, RawIdOf, IsRequest, DeliveriesOk, ReplyLinkOk;
    hide ClientOk, EntriesOk;
    var u := Next(s, Submit(slot));
    DeliveriesFrame(s, u);
    ReplyLinkFrame(s, u);
    EntriesFrame(s, u);
    ClientOkFrame(s, u, s.client);
    forall i | 0 <= i < |s.c2s|
      ensures ToServerOk(s, s.c2s[i]) && u.c2s[i] == s.c2s[i]
    {
    }
  }

  lemma EntriesFrame(s: State, u: State)
    requires EntriesOk(s) && u.kind == s.kind && u.requests == s.requests && u.client.sh == s.client.sh
    ensures EntriesOk(u)
  {
  }

  lemma SendOtherKeeps(s: State, frame: Frame)
    requires Inv(s) && OthersApart(s, SendOther(frame))
    ensures Inv(Next(s, SendOther(frame)))
  {
    hide Tokens.Inv, Genuine, FrameOf, WireId, Utf8.Valid, RawIdOf, IsRequest, DeliveriesOk, ReplyLinkOk;
    hide ClientOk, EntriesOk;
    var u := Next(s, SendOther(frame));
    DeliveriesFrame(s, u);
    ReplyLinkFrame(s, u);
    EntriesFrame(s, u);
    ClientOkFrame(s, u, s.client);
    forall i | 0 <= i < |s.c2s|
      ensures ToServerOk(s, s.c2s[i]) && u.c2s[i] == s.c2s[i]
    {
    }
  }

  lemma AnswerOtherKeeps(s: State, frame: Frame)
    requires Inv(s) && OthersApart(s, AnswerOther(frame))
    ensures Inv(Next(s, AnswerOther(frame)))
  {
    hide Tokens.Inv, Genuine, ResponseFrame, IsResponse, WireId, Utf8.Valid, RawIdOf, DeliveriesOk, RequestLinkOk;
    hide ClientOk, EntriesOk;
    var u := Next(s, AnswerOther(frame));
    DeliveriesFrame(s, u);
    RequestLinkFrame(s, u);
    EntriesFrame(s, u);
    ClientOkFrame(s, u, s.client);
    forall i | 0 <= i < |s.s2c|
      ensures ToClientOk(u, u.s2c[i])
    {
      assert ToClientOk(s, s.s2c[i]);
    }
    assert forall k :: WasAnswered(s, k) ==> WasAnswered(u, k);
  }

  lemma RequestLinkFrame(s: State, u: State)
    requires RequestLinkOk(s) && u.kind == s.kind && u.c2s == s.c2s && u.requests == s.requests
    requires u.submitted == s.submitted && u.arrived == s.arrived
    ensures RequestLinkOk(u)
  {
  }

  lemma ClientKeeps(s: State, step: Requests.Label)
    requires Inv(s) && Enabled(s, Client(step))
    ensures Inv(Next(s, Client(step)))
  {
    hide Tokens.Inv, Genuine, WireId, Utf8.Valid, FrameOf, DeliveriesOk, RequestLinkOk, ReplyLinkOk, ClientOk;
    hide Requests.Next, Requests.Enabled;
    var u := Next(s, Client(step));
    DeliveriesFrame(s, u);
    RequestLinkFrame(s, u);
    ReplyLinkFrame(s, u);
    EntriesShrink(s.client, step);
    if step.Poll? || step.Inspect? || step.CheckExpired? || step.TryRecv? || step.TryCheckExpired? || step.TakeWaker?
       || step.Free? || step.IntoOwned? || step.DropFuture? {
      FutureLabels(s, s.client, step);
    } else {
      ActorLabels(s, s.client, step);
    }
    ClientOkFrame(s, u, u.client);
  }

  lemma ServerKeeps(s: State, move: Tokens.Label)
    requires Inv(s) && Enabled(s, Server(move))
    ensures Inv(Next(s, Server(move)))
  {
    hide Tokens.Inv, Tokens.Next, Tokens.Enabled, Genuine, DeliveriesOk, RequestLinkOk, ReplyLinkOk, ClientOk;
    hide EntriesOk;
    var u := Next(s, Server(move));
    ServerMoveFrame(s.server, move);
    Tokens.InvNext(s.server, move);
    DeliveriesFrame(s, u);
    RequestLinkFrame(s, u);
    ReplyLinkFrame(s, u);
    EntriesFrame(s, u);
    ClientOkFrame(s, u, s.client);
  }

  lemma FinishKeeps(s: State, t: nat, queued: bool)
    requires Inv(s) && Enabled(s, Finish(t, queued)) && EmptyBuffer(s, Finish(t, queued))
    ensures Inv(Next(s, Finish(t, queued)))
  {
    hide Tokens.Inv, Tokens.Next, Tokens.Enabled, Genuine, ResponseFrame, Refusal, AfterRefusal, BufferAfter;
    hide DeliveriesOk, RequestLinkOk, ReplyLinkOk, ClientOk, EntriesOk;
    var u := Next(s, Finish(t, queued));
    FinishFrame(s.server, t, queued);
    assert u.server == Tokens.Next(s.server, Tokens.Finish(t, queued));
    assert s.server.replies <= u.server.replies;
    Tokens.InvNext(s.server, Tokens.Finish(t, queued));
    DeliveriesFrame(s, u);
    RequestLinkFrame(s, u);
    EntriesFrame(s, u);
    ClientOkFrame(s, u, s.client);
    if QueuesReply(s, t, queued) {
      assert Before(s, t) + ReplyFrame(s, t, queued).value == ReplyFrame(s, t, queued).value;
    }
    if |u.server.replies| == |s.server.replies| {
      ReplyLinkFrame(s, u);
    } else {
      NewReply(s, u);
    }
  }

  lemma RefillKeeps(s: State, t: nat, bytes: Bytes)
    requires Inv(s) && Enabled(s, Refill(t, bytes))
    ensures Inv(Next(s, Refill(t, bytes)))
  {
    hide Tokens.Inv, Genuine, DeliveriesOk, RequestLinkOk, ReplyLinkOk, ClientOk, EntriesOk;
    var u := Next(s, Refill(t, bytes));
    DeliveriesFrame(s, u);
    RequestLinkFrame(s, u);
    ReplyLinkFrame(s, u);
    EntriesFrame(s, u);
    ClientOkFrame(s, u, s.client);
  }

  lemma NotPickedUp(s: State, u: State, q: nat)
    requires Tokens.Inv(s.server) && DeliveriesOk(s) && Tokens.Inv(u.server) && DeliveriesOk(u)
    requires (forall k :: k in s.taken ==> WasAnswered(s, k)) && u.taken == s.taken
    requires s.server.replies <= u.server.replies && u.origin == s.origin
    requires |s.server.replies| == q < |u.server.replies|
    ensures SlotOf(u.origin, u.server, q).Some? ==> SlotOf(u.origin, u.server, q).value !in u.taken
  {
    hide Tokens.Inv, DeliveriesOk;
    SlotsStay(s, u);
    var slot := SlotOf(u.origin, u.server, q);
    if slot.Some? && slot.value in s.taken {
      assert WasAnswered(s, slot.value);
      var p: nat :| p < |s.server.replies| && SlotOf(s.origin, s.server, p) == slot;
      RepliesDiffer(u, p, q);
    }
  }

  /** A reply just queued was not picked up yet. */
  lemma NewReply(s: State, u: State)
    requires Tokens.Inv(s.server) && DeliveriesOk(s) && ReplyLinkOk(s) && Tokens.Inv(u.server) && DeliveriesOk(u)
    requires u.kind == s.kind && u.taken == s.taken && u.origin == s.origin
    requires |u.server.replies| == |s.server.replies| + 1 && s.server.replies <= u.server.replies
    requires |u.s2c| == |s.s2c| + 1 && u.s2c[..|s.s2c|] == s.s2c && u.s2c[|s.s2c|].tag == Some(|s.server.replies|)
    requires var reply := u.server.replies[|s.server.replies|];
             ResponseFrame(u.kind, reply.rawId, reply.payload) == Some(u.s2c[|s.s2c|].frame)
    ensures ReplyLinkOk(u)
  {
    hide Tokens.Inv, ResponseFrame, IsResponse, DeliveriesOk;
    SlotsStay(s, u);
    NotPickedUp(s, u, |s.server.replies|);
    forall i | 0 <= i < |s.s2c|
      ensures ToClientOk(s, s.s2c[i]) && ToClientOk(u, u.s2c[i]) && u.s2c[i].tag != u.s2c[|s.s2c|].tag
      ensures u.s2c[i] == s.s2c[i]
    {
      assert ToClientOk(s, s.s2c[i]);
    }
  }

  /** Taking a packet off a link. */
  lemma DistinctWithout(queue: seq<Packet>, i: nat)
    requires Distinct(queue) && i < |queue|
    ensures Distinct(Without(queue, i))
    ensures queue[i].tag.Some? ==> forall x :: 0 <= x < |queue| - 1 ==> Without(queue, i)[x].tag != queue[i].tag
  {
  }

  // ---- A frame reaches the server ----

  lemma ServerTakeKeeps(s: State, i: nat)
    requires Inv(s) && Enabled(s, ServerTake(i))
    ensures Inv(Next(s, ServerTake(i)))
  {
    hide Tokens.Inv, Tokens.Next, Tokens.Enabled, Genuine, Inbound, DeliveriesOk, RequestLinkOk, ReplyLinkOk;
    hide ClientOk, EntriesOk;
    var u := Next(s, ServerTake(i));
    var packet := s.c2s[i];
    var inbound := Inbound(s.kind, packet.frame);
    RequestLinkTaken(s, u, i);
    EntriesFrame(s, u);
    if inbound.None? {
      DeliveriesFrame(s, u);
      ReplyLinkFrame(s, u);
      ClientOkFrame(s, u, s.client);
    } else {
      InboundDelivers(s.server, s.kind, packet.frame);
      DeliverFrame(s.server, packet.frame, inbound.value);
      Tokens.InvNext(s.server, Tokens.Deliver(packet.frame, inbound.value));
      ReplyLinkFrame(s, u);
      ClientOkFrame(s, u, s.client);
      assert ToServerOk(s, packet) by { RequestPacketAt(s, i); }
      NewDelivery(s, u, packet, inbound.value);
    }
  }

  lemma RequestLinkTaken(s: State, u: State, i: nat)
    requires RequestLinkOk(s) && i < |s.c2s| && u.kind == s.kind && u.c2s == Without(s.c2s, i)
    requires u.requests == s.requests && u.submitted == s.submitted
    requires u.arrived == s.arrived + if s.c2s[i].tag.Some? then {s.c2s[i].tag.value} else {}
    ensures RequestLinkOk(u)
  {
  }

  /** A submitted request arrives as what it is; what is no request does not arrive as one. */
  lemma PacketArrives(s: State, packet: Packet, rawId: Option<Range>)
    requires EntriesOk(s) && ToServerOk(s, packet) && Inbound(s.kind, packet.frame) == Some(rawId)
    ensures packet.tag.None? ==> rawId.None?
    ensures packet.tag.Some? ==>
              rawId.Some? && rawId.value.Within(packet.frame) && packet.tag.value < |s.requests| &&
              rawId.value.Of(packet.frame) == RawIdOf(s.kind, s.requests[packet.tag.value].id)
  {
    hide Decode, FrameOf, RawIdOf, Utf8.Valid, WireId;
    if packet.tag.Some? {
      FrameArrives(s.kind, s.requests[packet.tag.value]);
    }
  }

  /** A request whose frame carries its own id arrives under that id. */
  lemma FrameArrives(kind: Kind, sent: Sent)
    requires Utf8.Valid(sent.name) && |FrameOf(kind, sent)| < U32_SIZE && CarriesItsId(kind, sent)
    ensures var d := Decode(kind, FrameOf(kind, sent));
            d.Frame? && d.frame.Request? && d.frame.rawId.Within(FrameOf(kind, sent)) &&
            d.frame.rawId.Of(FrameOf(kind, sent)) == RawIdOf(kind, sent.id)
  {
    hide Decode, Encodings, RawIdOf, Utf8.Valid, WireId;
    var rest := RetriedFrameCarriesFirstId(kind, sent.Candidates(), |sent.Candidates()|, sent.name, sent.params);
    SameRawId(kind, FirstId(sent), sent.id);
  }

  lemma NewDelivery(s: State, u: State, packet: Packet, rawId: Option<Range>)
    requires EntriesOk(s) && DeliveriesOk(s) && ToServerOk(s, packet)
    requires Inbound(s.kind, packet.frame) == Some(rawId)
    requires u.kind == s.kind && u.requests == s.requests && u.origin == s.origin + [packet.tag]
    requires u.server.deliveries == s.server.deliveries + [Tokens.Delivery(packet.frame, rawId)]
    requires u.arrived == s.arrived + if packet.tag.Some? then {packet.tag.value} else {}
    ensures DeliveriesOk(u)
  {
    hide EntriesOk, Inbound, FrameOf, RawIdOf, IsRequest;
    PacketArrives(s, packet, rawId);
    forall d | 0 <= d < |s.origin|
      ensures DeliveryOk(u, d) && u.origin[d] == s.origin[d] && (packet.tag.Some? ==> s.origin[d] != packet.tag)
    {
      assert DeliveryOk(s, d);
    }
  }

  // ---- A frame reaches the client ----

  lemma ClientTakeKeeps(s: State, i: nat)
    requires Inv(s) && Enabled(s, ClientTake(i))
    ensures Inv(Next(s, ClientTake(i)))
  {
    hide Tokens.Inv, Genuine, Decode, DeliveriesOk, RequestLinkOk, ReplyLinkOk, ClientOk, EntriesOk, Requests.Next;
    var u := Next(s, ClientTake(i));
    var packet := s.s2c[i];
    var slot := if packet.tag.Some? then SlotOf(s.origin, s.server, packet.tag.value) else None;
    DeliveriesFrame(s, u);
    RequestLinkFrame(s, u);
    PickedUp(s, u, i, slot);
    ClientOkFrame(s, u, s.client);
    assert ToClientOk(s, packet) by { PacketAt(s, i); }
    match Decode(s.kind, packet.frame)
    case Frame(Response(id, errc, payload)) =>
      var reply := Requests.Reply(packet.frame, errc, payload);
      LookupFrame(s.client, id, reply);
      EntriesFrame(s, u);
      if id in s.client.sh.waitList {
        ResponseFinds(s, packet, id, reply);
        LookupStep(s, u, slot.value, id, reply);
      } else {
        LookupMisses(s.client, id, reply);
      }
    case Frame(Request(_, _, _)) => EntriesFrame(s, u);
    case Frame(Notify(_, _)) => EntriesFrame(s, u);
    case Malformed => EntriesFrame(s, u);
    case Panicked => EntriesFrame(s, u);
  }

  lemma RequestPacketAt(s: State, i: nat)
    requires RequestLinkOk(s) && i < |s.c2s|
    ensures ToServerOk(s, s.c2s[i])
  {
  }

  lemma PacketAt(s: State, i: nat)
    requires ReplyLinkOk(s) && i < |s.s2c|
    ensures ToClientOk(s, s.s2c[i])
  {
  }

  lemma LookupFrame(client: Requests.State, id: RequestId, reply: Requests.Reply)
    requires Requests.Enabled(client, Requests.Lookup(READER, id, reply))
    ensures Requests.Next(client, Requests.Lookup(READER, id, reply)).sh == client.sh
  {
  }

  lemma LookupMisses(client: Requests.State, id: RequestId, reply: Requests.Reply)
    requires Requests.Enabled(client, Requests.Lookup(READER, id, reply)) && id !in client.sh.waitList
    ensures Requests.Next(client, Requests.Lookup(READER, id, reply)) == client
  {
  }

  lemma PickedUp(s: State, u: State, i: nat, slot: Option<nat>)
    requires Tokens.Inv(s.server) && DeliveriesOk(s) && ReplyLinkOk(s) && i < |s.s2c| && u.s2c == Without(s.s2c, i)
    requires u.kind == s.kind && u.server == s.server && u.origin == s.origin
    requires slot == if s.s2c[i].tag.Some? then SlotOf(s.origin, s.server, s.s2c[i].tag.value) else None
    requires u.taken == s.taken + if slot.Some? then {slot.value} else {}
    ensures ReplyLinkOk(u)
  {
    hide Tokens.Inv, DeliveriesOk, ResponseFrame, IsResponse;
    DistinctWithout(s.s2c, i);
    assert ToClientOk(s, s.s2c[i]);
    forall x | 0 <= x < |u.s2c|
      ensures ToClientOk(u, u.s2c[x])
    {
      var packet := s.s2c[if x < i then x else x + 1];
      assert ToClientOk(s, packet);
      if packet.tag.Some? && slot.Some? {
        var p, q := packet.tag.value, s.s2c[i].tag.value;
        if p < q { RepliesDiffer(s, p, q); } else { RepliesDiffer(s, q, p); }
      }
    }
    assert forall k :: WasAnswered(s, k) ==> WasAnswered(u, k);
  }

  /** The id of a response finds the waiter of the very request it answers, and the response is genuine. */
  lemma ResponseFinds(s: State, packet: Packet, id: RequestId, reply: Requests.Reply)
    requires Tokens.Inv(s.server) && DeliveriesOk(s) && EntriesOk(s) && ToClientOk(s, packet)
    requires Decode(s.kind, packet.frame) == Decoded.Frame(InboundFrame.Response(id, reply.errc, reply.payload))
    requires reply.raw == packet.frame && id in s.client.sh.waitList
    ensures packet.tag.Some?
    ensures var slot := SlotOf(s.origin, s.server, packet.tag.value);
            && slot == Some(s.client.sh.waitList[id]) && slot.value < |s.client.sh.waiters|
            && slot.value !in s.taken
            && Genuine(s.kind, s.server, s.origin, slot.value, reply)
  {
    hide Tokens.Inv, DeliveriesOk, Decode, WireId, RawIdOf, ResponseFrame, FrameOf, Utf8.Valid, Received;
    var q := packet.tag.value;
    ReplyOrigin(s, q);
    var k := SlotOf(s.origin, s.server, q).value;
    AnswerArrives(s.kind, s.requests[k].id, s.server.replies[q].payload, packet.frame);
    assert id == WireOf(s.kind, s.requests[k]);
    assert s.client.sh.waitList[id] == k;
    assert Answers(s.kind, s.server, s.origin, k, reply, q);
  }

  lemma LookupStep(s: State, u: State, slot: nat, id: RequestId, reply: Requests.Reply)
    requires Requests.Enabled(s.client, Requests.Lookup(READER, id, reply))
    requires ClientOk(s, s.client) && ClientOk(u, s.client) && slot !in s.taken && slot in u.taken
    requires id in s.client.sh.waitList && s.client.sh.waitList[id] == slot < |s.client.sh.waiters|
    requires Genuine(u.kind, u.server, u.origin, slot, reply)
    requires u.client == Requests.Next(s.client, Requests.Lookup(READER, id, reply))
    ensures ClientOk(u, u.client)
  {
    hide Genuine;
    assert CellOk(s, slot, s.client.sh.waiters[slot].cell);
    forall a | 0 <= a < |u.client.actors|
      ensures ActorOk(u, u.client, a, u.client.actors[a])
    {
      assert ActorOk(u, s.client, a, s.client.actors[a]);
    }
  }

  // ---- Altogether ----

  lemma InitialInv(kind: Kind, clientThreads: nat, bigEndian: bool, serverThreads: nat)
    ensures Inv(Initial(kind, clientThreads, bigEndian, serverThreads))
  {
    Tokens.InitialInv(bigEndian, serverThreads);
  }

  lemma InvNext(s: State, l: Label)
    requires Inv(s) && Enabled(s, l) && Careful(FULL_CARE, s, l)
    ensures Inv(Next(s, l))
  {
    hide Inv, Next, Enabled, EmptyBuffer, OwnId, OthersApart;
    match l
    case Register(sent) => RegisterKeeps(s, sent);
    case Submit(slot) => SubmitKeeps(s, slot);
    case SendOther(frame) => SendOtherKeeps(s, frame);
    case Client(step) => ClientKeeps(s, step);
    case ServerTake(i) => ServerTakeKeeps(s, i);
    case Server(move) => ServerKeeps(s, move);
    case Finish(t, queued) => FinishKeeps(s, t, queued);
    case Refill(t, bytes) => RefillKeeps(s, t, bytes);
    case AnswerOther(frame) => AnswerOtherKeeps(s, frame);
    case ClientTake(i) => ClientTakeKeeps(s, i);
  }
}
