/** What the token protocol guarantees over whole runs. */
module TokenTheorems {
  import opened Common
  import opened Codec
  import opened InboundTokens

  ghost predicate Behaviour(bigEndian: bool, threads: nat, states: seq<State>, labels: seq<Label>) {
    && |states| == |labels| + 1
    && states[0] == Initial(bigEndian, threads)
    && forall i :: 0 <= i < |labels| ==> Enabled(states[i], labels[i]) && states[i + 1] == Next(states[i], labels[i])
  }

  lemma {:induction false} BehaviourInv(bigEndian: bool, threads: nat, states: seq<State>, labels: seq<Label>, i: nat)
    requires Behaviour(bigEndian, threads, states, labels) && i < |states|
    ensures Inv(states[i])
  {
    hide Inv, Next, Enabled;
    if i == 0 {
      InitialInv(bigEndian, threads);
    } else {
      BehaviourInv(bigEndian, threads, states, labels, i - 1);
      InvNext(states[i - 1], labels[i - 1]);
    }
  }

  /** Token conservation: for every delivery, handles that hold its token, threads in mid-call with it and consumed
      tokens always add up to one for a request and to nothing for a notification. */
  lemma TokenConservation(bigEndian: bool, threads: nat, states: seq<State>, labels: seq<Label>, i: nat, d: nat)
    requires Behaviour(bigEndian, threads, states, labels) && i < |states| && d < |states[i].deliveries|
    ensures d < |states[i].consumed|
    ensures HandleTokens(states[i].handles, d) + ThreadTokens(states[i], states[i].threads, d) + states[i].consumed[d]
         == if states[i].deliveries[d].rawId.Some? then 1 else 0
  {
    hide Shapes, Borrows, Accounted;
    BehaviourInv(bigEndian, threads, states, labels, i);
    var s := states[i];
    assert Tokens(s, d) == TokensIssued(s.deliveries[d]);
  }

  lemma {:induction false} TwoReplies(replies: seq<Reply>, i: nat, j: nat, d: nat)
    requires i < j < |replies| && replies[i].delivery == d && replies[j].delivery == d
    ensures RepliesTo(replies, d) >= 2
  {
    var n := |replies| - 1;
    if j == n {
      OneReply(replies[..n], i, d);
    } else {
      TwoReplies(replies[..n], i, j, d);
    }
  }

  lemma {:induction false} OneReply(replies: seq<Reply>, i: nat, d: nat)
    requires i < |replies| && replies[i].delivery == d
    ensures RepliesTo(replies, d) >= 1
  {
    var n := |replies| - 1;
    if i == n {
    } else {
      OneReply(replies[..n], i, d);
    }
  }

  /** At most one reply is queued for a request, whatever handles were derived from it. */
  lemma AtMostOneReply(bigEndian: bool, threads: nat, states: seq<State>, labels: seq<Label>, i: nat, r: nat, q: nat)
    requires Behaviour(bigEndian, threads, states, labels) && i < |states| && r < q < |states[i].replies|
    ensures states[i].replies[r].delivery != states[i].replies[q].delivery
  {
    BehaviourInv(bigEndian, threads, states, labels, i);
    NoSecondReply(states[i], r, q);
  }

  lemma NoSecondReply(s: State, r: nat, q: nat)
    requires Inv(s) && r < q < |s.replies|
    ensures s.replies[r].delivery != s.replies[q].delivery
  {
    hide Borrows;
    var d := s.replies[r].delivery;
    assert ReplyOk(s, s.replies[r]);
    assert Tokens(s, d) == TokensIssued(s.deliveries[d]);
    assert RepliesTo(s.replies, d) <= s.consumed[d];
    if s.replies[q].delivery == d {
      TwoReplies(s.replies, r, q, d);
    }
  }

  /** Every reply answers a request and echoes exactly the raw id bytes of that request's frame. */
  lemma RepliesEchoTheId(bigEndian: bool, threads: nat, states: seq<State>, labels: seq<Label>, i: nat, r: nat)
    requires Behaviour(bigEndian, threads, states, labels) && i < |states| && r < |states[i].replies|
    ensures var reply := states[i].replies[r];
            && reply.delivery < |states[i].deliveries|
            && var delivery := states[i].deliveries[reply.delivery];
               delivery.rawId.Some? && delivery.rawId.value.Within(delivery.frame) &&
               reply.rawId == delivery.rawId.value.Of(delivery.frame)
  {
    hide Borrows, Conserved, Accounted;
    BehaviourInv(bigEndian, threads, states, labels, i);
    assert ReplyOk(states[i], states[i].replies[r]);
  }

  lemma {:induction false} NothingHeld(s: State, handles: seq<Handle>, threads: seq<Thread>, d: nat)
    requires forall h :: 0 <= h < |handles| ==> handles[h].word == 0
    requires forall t :: 0 <= t < |threads| ==> threads[t].Idle?
    ensures HandleTokens(handles, d) == 0 && ThreadTokens(s, threads, d) == 0
    decreases |handles| + |threads|
  {
    if handles != [] {
      NothingHeld(s, handles[..|handles| - 1], threads, d);
    } else if threads != [] {
      NothingHeld(s, handles, threads[..|threads| - 1], d);
    }
  }

  /** Once every handle is dropped and no call is under way, each request's token was consumed exactly once. */
  lemma ConsumedOnceWhenGone(bigEndian: bool, threads: nat, states: seq<State>, labels: seq<Label>, i: nat, d: nat)
    requires Behaviour(bigEndian, threads, states, labels) && i < |states| && d < |states[i].deliveries|
    requires forall h :: 0 <= h < |states[i].handles| ==> !states[i].handles[h].alive
    requires forall t :: 0 <= t < |states[i].threads| ==> states[i].threads[t].Idle?
    ensures d < |states[i].consumed|
    ensures states[i].consumed[d] == if states[i].deliveries[d].rawId.Some? then 1 else 0
  {
    hide Conserved, Borrows, Accounted;
    var s := states[i];
    TokenConservation(bigEndian, threads, states, labels, i, d);
    BehaviourInv(bigEndian, threads, states, labels, i);
    forall h | 0 <= h < |s.handles|
      ensures s.handles[h].word == 0
    {
      assert HandleOk(s, s.handles[h]);
    }
    NothingHeld(s, s.handles, s.threads, d);
  }

  /** A step that adds a reply ends a call on a handle of that delivery, and the reply says what the call was to say:
      the payload given to it, or `Unhandled` when the handle was dropped. */
  lemma RepliesSayTheirCall(bigEndian: bool, threads: nat, states: seq<State>, labels: seq<Label>, i: nat)
    requires Behaviour(bigEndian, threads, states, labels) && i < |labels|
    requires |states[i + 1].replies| > |states[i].replies|
    ensures labels[i].Finish? && labels[i].queued && labels[i].t < |states[i].threads|
    ensures var s, call := states[i], states[i].threads[labels[i].t];
            && call.Holding? && call.h < |s.handles|
            && states[i + 1].replies[..|s.replies|] == s.replies && |states[i + 1].replies| == |s.replies| + 1
            && var reply := states[i + 1].replies[|s.replies|];
               && reply.delivery == s.handles[call.h].delivery
               && (call.purpose.Respond? || call.purpose.DropGuard?)
               && reply.payload == if call.purpose.Respond? then Written(call.purpose.payload)
                                   else ErrCodeOnly(Unhandled)
  {
    var s, t := states[i], states[i + 1];
    assert t == Next(s, labels[i]);
  }

  /** Conversely, a call that holds the token and gets its reply queued adds exactly one reply, which uses the token
      up; every other end of a call leaves the replies as they are. */
  lemma ReplyIsAdded(bigEndian: bool, threads: nat, states: seq<State>, labels: seq<Label>, i: nat)
    requires Behaviour(bigEndian, threads, states, labels) && i < |labels| && labels[i].Finish?
    ensures labels[i].t < |states[i].threads|
    ensures var s, call := states[i], states[i].threads[labels[i].t];
            call.Holding? && call.h < |s.handles| && s.handles[call.h].delivery < |s.consumed|
    ensures var s, call := states[i], states[i].threads[labels[i].t];
            var d := s.handles[call.h].delivery;
            var answers := (call.purpose.Respond? || call.purpose.DropGuard?) && call.range.Some?;
            && |states[i + 1].replies| == |s.replies| + (if answers && labels[i].queued then 1 else 0)
            && states[i + 1].consumed == if answers then s.consumed[d := s.consumed[d] + 1] else s.consumed
  {
    hide Conserved, Borrows, Accounted;
    BehaviourInv(bigEndian, threads, states, labels, i);
    var s, call := states[i], states[i].threads[labels[i].t];
    assert ThreadOk(s, call);
    assert HandleOk(s, s.handles[call.h]);
  }
}
