/** The writer task's report to the request context, step by step among all other actors. */
module WriterReport {
  import opened Common
  import opened Requests
  import opened RequestInvariants
  import opened RequestTheorems

  // ---- Expiry ----

  /** With this step `mark_expired` returns to thread `w`. */
  predicate MarkExpiredReturns(s: State, l: Label, w: nat) {
    l == Unlock(w) || (l == Swap(w) && s.sh.expired)
  }

  /** The context is expired, and nobody has wakes for that left to do. */
  ghost predicate AllTold(s: State) {
    s.sh.expired && forall a :: 0 <= a < |s.actors| ==> !s.actors[a].Waking?
  }

  lemma AllToldAtReturn(s: State, l: Label, w: nat)
    requires Inv(s) && Enabled(s, l) && MarkExpiredReturns(s, l, w)
    ensures AllTold(Next(s, l))
  {
    hide Bijection, WaitListInjective, Readable, NoLostWakes;
    assert ActorSlotsExist(s, s.actors[w]);
  }

  lemma AllToldStays(s: State, l: Label)
    requires AllTold(s) && Enabled(s, l)
    ensures AllTold(Next(s, l))
  {
  }

  lemma {:induction false} AllToldForever(threads: nat, states: seq<State>, labels: seq<Label>, i: nat, j: nat)
    requires Behaviour(threads, states, labels) && i <= j < |states| && AllTold(states[i])
    ensures AllTold(states[j])
  {
    hide Next, Enabled, AllTold;
    if i == j {
    } else {
      AllToldForever(threads, states, labels, i, j - 1);
      AllToldStays(states[j - 1], labels[j - 1]);
    }
  }

  /** Nobody hangs on the writer: once its `mark_expired` has returned, at step `i`, and however its steps were mixed
      with those of readers, pollers and other writers, in every later state each future that waits has been woken, no
      poll returns Pending any more, and no id is registered that was not before. */
  lemma NobodyHangs(threads: nat, states: seq<State>, labels: seq<Label>, i: nat, w: nat, j: nat)
    requires Behaviour(threads, states, labels) && i < |labels| && MarkExpiredReturns(states[i], labels[i], w)
    requires i < j < |states|
    ensures states[j].sh.expired
    ensures forall f :: 0 <= f < |states[j].futures| && Parked(states[j].futures[f]) ==>
              SlotAt(states[j], Owned(states[j].futures[f]).value.slot)
              && states[j].sh.waiters[Owned(states[j].futures[f]).value.slot].woken
    ensures forall id :: id in states[j].sh.waitList ==> id in states[i + 1].sh.waitList
    ensures j < |labels| ==> Returned(states[j], labels[j]) != Some(Pending)
  {
    hide Next, Inv;
    BehaviourInv(threads, states, labels, i);
    AllToldAtReturn(states[i], labels[i], w);
    AllToldForever(threads, states, labels, i + 1, j);
    ExpiryIsFinal(threads, states, labels, i + 1, j);
    forall f | 0 <= f < |states[j].futures| && Parked(states[j].futures[f])
      ensures SlotAt(states[j], Owned(states[j].futures[f]).value.slot)
      ensures states[j].sh.waiters[Owned(states[j].futures[f]).value.slot].woken
    {
      NoLostWakeup(threads, states, labels, j, f);
    }
  }

  // ---- A failed write ----

  lemma OthersLeaveThread(s: State, l: Label, w: nat)
    requires Enabled(s, l) && w < |s.actors| && ActorOf(l) != Some(w)
    ensures w < |Next(s, l).actors| && Next(s, l).actors[w] == s.actors[w]
  {
  }

  lemma {:induction false} ThreadWaits(threads: nat, states: seq<State>, labels: seq<Label>, i: nat, j: nat, w: nat)
    requires Behaviour(threads, states, labels) && i <= j < |states| && w < |states[i].actors|
    requires forall k :: i <= k < j ==> ActorOf(labels[k]) != Some(w)
    ensures w < |states[j].actors| && states[j].actors[w] == states[i].actors[w]
  {
    hide Next, Enabled, ActorOf;
    if i == j {
    } else {
      ThreadWaits(threads, states, labels, i, j - 1, w);
      OthersLeaveThread(states[j - 1], labels[j - 1], w);
    }
  }

  lemma FailLookupFinds(s: State, w: nat, id: RequestId)
    requires Enabled(s, FailLookup(w, id)) && id in s.sh.waitList
    ensures w < |Next(s, FailLookup(w, id)).actors|
    ensures Next(s, FailLookup(w, id)).actors[w] == FailFound(s.sh.waitList[id])
  {
  }

  lemma FailStoreMarks(s: State, w: nat)
    requires Enabled(s, FailStore(w))
    ensures w < |s.actors| && s.actors[w].FailFound? && SlotAt(Next(s, FailStore(w)), s.actors[w].slot)
    ensures Next(s, FailStore(w)).sh.waiters[s.actors[w].slot].cell.WriteFailed?
  {
  }

  /** A request whose write failed is never answered: after the writer has looked it up (step `i`) and marked it (step
      `j`, its next step), whoever inspects its cell goes on to report `Closed`, whatever happened in between, while the
      mark was on its way, and since. */
  lemma FailedRequestIsClosed(threads: nat, states: seq<State>, labels: seq<Label>, i: nat, j: nat, w: nat,
                              id: RequestId, n: nat)
    requires Behaviour(threads, states, labels) && i < j < n < |labels|
    requires labels[i] == FailLookup(w, id) && id in states[i].sh.waitList && labels[j] == FailStore(w)
    requires forall k :: i < k < j ==> ActorOf(labels[k]) != Some(w)
    requires Inspected(states[n], labels[n]) == Some(states[i].sh.waitList[id])
    ensures Next(states[n], labels[n]).futures[labels[n].f].Unregistering?
    ensures Next(states[n], labels[n]).futures[labels[n].f].ending == Fail
  {
    hide Next, ActorOf, Enabled;
    FailLookupFinds(states[i], w, id);
    ThreadWaits(threads, states, labels, i + 1, j, w);
    FailStoreMarks(states[j], w);
    WriteFailedNeverAnswers(threads, states, labels, j + 1, n, states[i].sh.waitList[id]);
  }
}
