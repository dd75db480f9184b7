/** What the invariant gives over whole runs of the pending-request protocol. */
module RequestTheorems {
  import opened Common
  import opened Requests
  import opened RequestInvariants
  import RequestSpec

  /** A run with its intermediate states: any number of threads and futures, in any interleaving. */
  ghost predicate Behaviour(threads: nat, states: seq<State>, labels: seq<Label>) {
    && |states| == |labels| + 1
    && states[0] == Initial(threads)
    && forall i :: 0 <= i < |labels| ==> Enabled(states[i], labels[i]) && states[i + 1] == Next(states[i], labels[i])
  }

  lemma {:induction false} BehaviourInv(threads: nat, states: seq<State>, labels: seq<Label>, i: nat)
    requires Behaviour(threads, states, labels) && i < |states|
    ensures Inv(states[i])
  {
    hide Inv, Next, Enabled;
    if i == 0 {
      InitialInv(threads);
    } else {
      BehaviourInv(threads, states, labels, i - 1);
      InvNext(states[i - 1], labels[i - 1]);
    }
  }

  // ---- The source's assertions ----

  /** `free_request_id` never panics and the `unreachable!` for a consumed cell is never reached. */
  lemma AssertionsNeverFire(threads: nat, states: seq<State>, labels: seq<Label>, i: nat)
    requires Behaviour(threads, states, labels) && i < |labels|
    ensures AssertionHolds(states[i], labels[i])
  {
    hide Next;
    BehaviourInv(threads, states, labels, i);
    var s, l := states[i], labels[i];
    if l.Inspect? || l.TryRecv? || l.Free? {
      if Owned(s.futures[l.f]).Some? {
        assert Maps(s, Owned(s.futures[l.f]).value);
      }
    }
  }

  /** The wait list is empty once every future is dropped or finished, so dropping the context cannot panic. */
  lemma ContextDropsEmpty(threads: nat, states: seq<State>, labels: seq<Label>, i: nat)
    requires Behaviour(threads, states, labels) && i < |states|
    requires forall f :: 0 <= f < |states[i].futures| ==> Owned(states[i].futures[f]).None?
    ensures states[i].sh.waitList == map[]
  {
    BehaviourInv(threads, states, labels, i);
    var s := states[i];
    forall id
      ensures id !in s.sh.waitList
    {
      assert forall f :: !HeldBy(s, f, id);
    }
  }

  /** The wait list is a bijection with the live futures: an id is mapped to a waiter exactly when some future
      holds that registration, and no two futures share a waiter. */
  lemma WaitListBijection(threads: nat, states: seq<State>, labels: seq<Label>, i: nat, id: RequestId, slot: nat)
    requires Behaviour(threads, states, labels) && i < |states|
    ensures (id in states[i].sh.waitList && states[i].sh.waitList[id] == slot)
       <==> exists f :: 0 <= f < |states[i].futures| && Owned(states[i].futures[f]) == Some(Receive(id, slot))
    ensures forall f, g :: 0 <= f < g < |states[i].futures| && Owned(states[i].futures[f]) == Some(Receive(id, slot))
              ==> Owned(states[i].futures[g]) != Some(Receive(id, slot))
  {
    BehaviourInv(threads, states, labels, i);
    var s := states[i];
    if id in s.sh.waitList && s.sh.waitList[id] == slot {
      var f: nat :| HeldBy(s, f, id);
      assert Owned(s.futures[f]) == Some(Receive(id, slot));
    }
    if f: nat :| f < |s.futures| && Owned(s.futures[f]) == Some(Receive(id, slot)) {
      assert Maps(s, Owned(s.futures[f]).value);
    }
  }

  // ---- Wake-ups ----

  /** No lost wake-up: a future whose latest poll was Pending and that has not been woken has a registered waker,
      an empty cell unless a writer is about to wake it, and an unexpired context unless `mark_expired` is. */
  lemma NoLostWakeup(threads: nat, states: seq<State>, labels: seq<Label>, i: nat, f: nat)
    requires Behaviour(threads, states, labels) && i < |states|
    requires f < |states[i].futures| && Parked(states[i].futures[f])
    ensures var s := states[i];
            var slot := Owned(s.futures[f]).value.slot;
            && SlotAt(s, slot)
            && (!s.sh.waiters[slot].woken ==>
                  && s.sh.waiters[slot].registered
                  && (s.sh.waiters[slot].cell.Vacant? || StorePending(s, slot))
                  && (!s.sh.expired || ExpiryPending(s, slot)))
  {
    BehaviourInv(threads, states, labels, i);
    var s := states[i];
    assert Maps(s, Owned(s.futures[f]).value);
    assert WakeDue(s, s.futures[f], Owned(s.futures[f]).value.slot, s.sh.waiters[Owned(s.futures[f]).value.slot]);
  }

  // ---- Expiry ----

  lemma ExpiryIsFinalStep(s: State, l: Label)
    requires Enabled(s, l) && s.sh.expired
    ensures Next(s, l).sh.expired
    ensures forall id :: id in Next(s, l).sh.waitList ==>
              id in s.sh.waitList && Next(s, l).sh.waitList[id] == s.sh.waitList[id]
    ensures Returned(s, l) != Some(Pending)
  {
  }

  /** Expiry is final: the flag never clears, the wait list only shrinks, and no poll returns Pending again. */
  lemma {:induction false} ExpiryIsFinal(threads: nat, states: seq<State>, labels: seq<Label>, i: nat, j: nat)
    requires Behaviour(threads, states, labels) && i <= j < |states| && states[i].sh.expired
    ensures states[j].sh.expired
    ensures forall id :: id in states[j].sh.waitList ==>
              id in states[i].sh.waitList && states[j].sh.waitList[id] == states[i].sh.waitList[id]
    ensures j < |labels| ==> Returned(states[j], labels[j]) != Some(Pending)
  {
    hide Next, Enabled;
    if i == j {
    } else {
      ExpiryIsFinal(threads, states, labels, i, j - 1);
      ExpiryIsFinalStep(states[j - 1], labels[j - 1]);
    }
    if j < |labels| {
      ExpiryIsFinalStep(states[j], labels[j]);
    }
  }

  /** Nobody hangs on an expired context: the next poll of any live future needs nothing but its own steps, at
      most five, gives back the stored response or `Closed`, and takes the future off the wait list. */
  lemma ResolvesAtNextPoll(s: State, f: nat) returns (ls: seq<Label>, last: Label)
    requires Inv(s) && s.sh.expired && s.lock.None?
    requires FutureAt(s, f) && s.futures[f].Resting? && s.futures[f].state.Some?
    ensures SlotAt(s, s.futures[f].state.value.slot)
    ensures |ls| <= 4 && CanRun(s, ls) && Enabled(Run(s, ls), last)
    ensures var r := s.futures[f].state.value;
            var cell := s.sh.waiters[r.slot].cell;
            && Returned(Run(s, ls), last) == Some(if cell.Ready? then Answer(cell.reply) else Closed)
            && Next(Run(s, ls), last).futures == s.futures[f := Resting(None, false)]
            && Next(Run(s, ls), last).sh.waitList == s.sh.waitList - {r.id}
  {
    hide NoLostWakes, Threads, KeysHeld, SlotsDistinct, CanRun, Run, Enabled, Returned, Next;
    assert Maps(s, Owned(s.futures[f]).value);
    ls, last := RequestSpec.UndisturbedPoll(s, f);
  }

  // ---- Cells ----

  /** How a cell may change: it never empties again, a failed write stays, a consumed response stays consumed or
      is overwritten by a failed write. */
  predicate CellLeq(before: Cell, after: Cell) {
    match before
    case Vacant => true
    case Ready(_) => !after.Vacant?
    case WriteFailed => after.WriteFailed?
    case PendingRemove => after.PendingRemove? || after.WriteFailed?
  }

  lemma CellsAreMonotoneStep(s: State, l: Label, slot: nat)
    requires Enabled(s, l) && SlotAt(s, slot)
    ensures SlotAt(Next(s, l), slot) && CellLeq(s.sh.waiters[slot].cell, Next(s, l).sh.waiters[slot].cell)
  {
  }

  lemma {:induction false} CellsAreMonotone(threads: nat, states: seq<State>, labels: seq<Label>,
                                            i: nat, j: nat, slot: nat)
    requires Behaviour(threads, states, labels) && i <= j < |states| && SlotAt(states[i], slot)
    ensures SlotAt(states[j], slot)
    ensures CellLeq(states[i].sh.waiters[slot].cell, states[j].sh.waiters[slot].cell)
  {
    hide Next, Enabled;
    if i == j {
    } else {
      CellsAreMonotone(threads, states, labels, i, j - 1, slot);
      CellsAreMonotoneStep(states[j - 1], labels[j - 1], slot);
    }
  }

  /** The slot whose cell this step inspects, if it inspects one. */
  function Inspected(s: State, l: Label): Option<nat>
    requires Enabled(s, l)
  {
    match l
    case Inspect(f) => Some(s.futures[f].r.slot)
    case TryRecv(f) => if s.futures[f].state.Some? then Some(s.futures[f].state.value.slot) else None
    case _ => None
  }

  /** No future may still inspect the cell of `slot`. */
  ghost predicate NoReader(s: State, slot: nat) {
    forall f :: 0 <= f < |s.futures| && Reading(s.futures[f]) ==> Owned(s.futures[f]).value.slot != slot
  }

  lemma NoReaderStep(s: State, l: Label, slot: nat)
    requires Enabled(s, l) && SlotAt(s, slot) && NoReader(s, slot)
    ensures NoReader(Next(s, l), slot) && SlotAt(Next(s, l), slot) && Inspected(s, l) != Some(slot)
  {
  }

  lemma ConsumptionEndsReading(s: State, l: Label, slot: nat)
    requires Inv(s) && Enabled(s, l) && Inspected(s, l) == Some(slot) && !s.sh.waiters[slot].cell.Vacant?
    ensures NoReader(Next(s, l), slot)
  {
    hide NoLostWakes, Threads, KeysHeld, Readable, OwnersMapped;
  }

  lemma {:induction false} NoReaderStays(threads: nat, states: seq<State>, labels: seq<Label>,
                                         i: nat, j: nat, slot: nat)
    requires Behaviour(threads, states, labels) && i <= j < |states|
    requires SlotAt(states[i], slot) && NoReader(states[i], slot)
    ensures SlotAt(states[j], slot) && NoReader(states[j], slot)
  {
    hide Next, Enabled, NoReader;
    if i == j {
    } else {
      NoReaderStays(threads, states, labels, i, j - 1, slot);
      NoReaderStep(states[j - 1], labels[j - 1], slot);
    }
  }

  /** A cell that was found filled is never inspected again, whoever keeps writing to it. */
  lemma ConsumedNeverReadAgain(threads: nat, states: seq<State>, labels: seq<Label>, i: nat, j: nat, slot: nat)
    requires Behaviour(threads, states, labels) && i < j < |labels|
    requires Inspected(states[i], labels[i]) == Some(slot) && !states[i].sh.waiters[slot].cell.Vacant?
    ensures Inspected(states[j], labels[j]) != Some(slot)
  {
    hide Next, NoReader, Inv;
    BehaviourInv(threads, states, labels, i);
    ConsumptionEndsReading(states[i], labels[i], slot);
    CellsAreMonotoneStep(states[i], labels[i], slot);
    NoReaderStays(threads, states, labels, i + 1, j, slot);
    NoReaderStep(states[j], labels[j], slot);
  }

  /** Once the write of a request has been marked as failed, no inspection of its cell yields a response. */
  lemma WriteFailedNeverAnswers(threads: nat, states: seq<State>, labels: seq<Label>, i: nat, j: nat, slot: nat)
    requires Behaviour(threads, states, labels) && i <= j < |labels|
    requires SlotAt(states[i], slot) && states[i].sh.waiters[slot].cell.WriteFailed?
    requires Inspected(states[j], labels[j]) == Some(slot)
    ensures Next(states[j], labels[j]).futures[labels[j].f].Unregistering?
    ensures Next(states[j], labels[j]).futures[labels[j].f].ending == Fail
  {
    CellsAreMonotone(threads, states, labels, i, j, slot);
  }

  predicate StoresInto(s: State, l: Label, slot: nat, reply: Reply)
    requires Enabled(s, l)
  {
    l.Store? && s.actors[l.a] == Checked(slot, reply)
  }

  /** Last writer wins: a response found in a cell is the one of the latest `set_response` that wrote there. */
  lemma {:induction false} LastWriterWins(threads: nat, states: seq<State>, labels: seq<Label>,
                                          i: nat, slot: nat, reply: Reply) returns (j: nat)
    requires Behaviour(threads, states, labels) && i < |states|
    requires SlotAt(states[i], slot) && states[i].sh.waiters[slot].cell == Ready(reply)
    ensures j < i && StoresInto(states[j], labels[j], slot, reply)
    ensures forall k, other :: j < k < i ==> !StoresInto(states[k], labels[k], slot, other)
  {
    var s, l := states[i - 1], labels[i - 1];
    if StoresInto(s, l, slot, reply) {
      return i - 1;
    }
    StoredReplyStep(s, l, slot, reply);
    j := LastWriterWins(threads, states, labels, i - 1, slot, reply);
  }

  lemma StoredReplyStep(s: State, l: Label, slot: nat, reply: Reply)
    requires Enabled(s, l) && SlotAt(Next(s, l), slot) && Next(s, l).sh.waiters[slot].cell == Ready(reply)
    requires !StoresInto(s, l, slot, reply)
    ensures SlotAt(s, slot) && s.sh.waiters[slot].cell == Ready(reply)
    ensures forall other :: !StoresInto(s, l, slot, other)
  {
  }

  // ---- Whose response ----

  /** Before step `n`, some `set_response` looked `slot` up in the wait list, carrying `reply`. */
  ghost predicate LookedUp(states: seq<State>, labels: seq<Label>, n: nat, slot: nat, reply: Reply) {
    exists j :: 0 <= j < n && LooksUp(states, labels, j, slot, reply)
  }

  predicate LooksUp(states: seq<State>, labels: seq<Label>, j: nat, slot: nat, reply: Reply) {
    && j < |labels| && j < |states|
    && labels[j].Lookup? && labels[j].reply == reply
    && labels[j].id in states[j].sh.waitList && states[j].sh.waitList[labels[j].id] == slot
  }

  /** The response a thread carries towards a slot. */
  predicate Carries(actor: Actor, slot: nat, reply: Reply) {
    actor == Found(slot, reply) || actor == Checked(slot, reply)
  }

  /** The response a future carries away from its slot. */
  predicate Delivers(f: Future, slot: nat, reply: Reply) {
    (f.Unregistering? || f.Freeing?) && f.r.slot == slot && f.ending == Deliver(reply)
  }

  /** Where a response for `slot` can be. */
  ghost predicate Present(s: State, slot: nat, reply: Reply) {
    || (exists a :: 0 <= a < |s.actors| && Carries(s.actors[a], slot, reply))
    || (SlotAt(s, slot) && s.sh.waiters[slot].cell == Ready(reply))
    || (exists f :: 0 <= f < |s.futures| && Delivers(s.futures[f], slot, reply))
  }

  lemma CarriedStep(s: State, l: Label, a: nat, slot: nat, reply: Reply)
    requires Enabled(s, l) && a < |Next(s, l).actors| && Carries(Next(s, l).actors[a], slot, reply)
    ensures (a < |s.actors| && Carries(s.actors[a], slot, reply)) ||
            (l.Lookup? && l.reply == reply && l.id in s.sh.waitList && s.sh.waitList[l.id] == slot)
  {
  }

  lemma StoredStep(s: State, l: Label, slot: nat, reply: Reply)
    requires Enabled(s, l) && SlotAt(Next(s, l), slot) && Next(s, l).sh.waiters[slot].cell == Ready(reply)
    ensures (SlotAt(s, slot) && s.sh.waiters[slot].cell == Ready(reply)) ||
            (l.Store? && s.actors[l.a] == Checked(slot, reply))
  {
  }

  lemma DeliveredStep(s: State, l: Label, f: nat, slot: nat, reply: Reply)
    requires Enabled(s, l) && f < |Next(s, l).futures| && Delivers(Next(s, l).futures[f], slot, reply)
    ensures (f < |s.futures| && Delivers(s.futures[f], slot, reply)) ||
            (SlotAt(s, slot) && s.sh.waiters[slot].cell == Ready(reply))
  {
  }

  /** A response is somewhere only if it was there before or has just been looked up. */
  lemma PresentStep(s: State, l: Label, slot: nat, reply: Reply)
    requires Enabled(s, l) && Present(Next(s, l), slot, reply)
    ensures Present(s, slot, reply) ||
            (l.Lookup? && l.reply == reply && l.id in s.sh.waitList && s.sh.waitList[l.id] == slot)
  {
    hide Next, Enabled, Carries, Delivers;
    var t := Next(s, l);
    if a: nat :| a < |t.actors| && Carries(t.actors[a], slot, reply) {
      CarriedStep(s, l, a, slot, reply);
    } else if SlotAt(t, slot) && t.sh.waiters[slot].cell == Ready(reply) {
      StoredStep(s, l, slot, reply);
      if l.Store? {
        StoringActorExists(s, l);
        if s.actors[l.a] == Checked(slot, reply) {
          CheckedCarries(s.actors[l.a], slot, reply);
        }
      }
    } else {
      var f: nat :| f < |t.futures| && Delivers(t.futures[f], slot, reply);
      DeliveredStep(s, l, f, slot, reply);
    }
  }

  lemma CheckedCarries(actor: Actor, slot: nat, reply: Reply)
    requires actor == Checked(slot, reply)
    ensures Carries(actor, slot, reply)
  {
  }

  lemma StoringActorExists(s: State, l: Label)
    requires Enabled(s, l) && l.Store?
    ensures l.a < |s.actors|
  {
  }

  lemma {:induction false} PresentWasLookedUp(threads: nat, states: seq<State>, labels: seq<Label>,
                                              n: nat, slot: nat, reply: Reply)
    requires Behaviour(threads, states, labels) && n < |states| && Present(states[n], slot, reply)
    ensures LookedUp(states, labels, n, slot, reply)
  {
    hide Next, Enabled, Present;
    if n > 0 {
      PresentStep(states[n - 1], labels[n - 1], slot, reply);
      if Present(states[n - 1], slot, reply) {
        PresentWasLookedUp(threads, states, labels, n - 1, slot, reply);
        var j :| 0 <= j < n - 1 && LooksUp(states, labels, j, slot, reply);
        assert LooksUp(states, labels, j, slot, reply);
      } else {
        assert LooksUp(states, labels, n - 1, slot, reply);
      }
    } else {
      InitiallyAbsent(threads, slot, reply);
    }
  }

  lemma InitiallyAbsent(threads: nat, slot: nat, reply: Reply)
    ensures !Present(Initial(threads), slot, reply)
  {
  }

  /** An entry of the wait list is as old as its waiter, so a slot never changes its id. */
  lemma {:induction false} EntriesAreAsOldAsTheirWaiter(threads: nat, states: seq<State>, labels: seq<Label>,
                                                        i: nat, j: nat, id: RequestId)
    requires Behaviour(threads, states, labels) && i <= j < |states|
    requires id in states[j].sh.waitList && states[j].sh.waitList[id] < |states[i].sh.waiters|
    ensures id in states[i].sh.waitList && states[i].sh.waitList[id] == states[j].sh.waitList[id]
  {
    hide Next, Enabled;
    if i == j {
    } else {
      WaitersGrow(threads, states, labels, i, j - 1);
      EntriesStep(states[j - 1], labels[j - 1]);
      EntriesAreAsOldAsTheirWaiter(threads, states, labels, i, j - 1, id);
    }
  }

  lemma EntriesStep(s: State, l: Label)
    requires Enabled(s, l)
    ensures |s.sh.waiters| <= |Next(s, l).sh.waiters|
    ensures forall id :: id in Next(s, l).sh.waitList && Next(s, l).sh.waitList[id] < |s.sh.waiters| ==>
              id in s.sh.waitList && s.sh.waitList[id] == Next(s, l).sh.waitList[id]
  {
  }

  lemma {:induction false} WaitersGrow(threads: nat, states: seq<State>, labels: seq<Label>, i: nat, j: nat)
    requires Behaviour(threads, states, labels) && i <= j < |states|
    ensures |states[i].sh.waiters| <= |states[j].sh.waiters|
  {
    hide Next, Enabled;
    if i == j {
    } else {
      WaitersGrow(threads, states, labels, i, j - 1);
      EntriesStep(states[j - 1], labels[j - 1]);
    }
  }

  /** No cross-talk: a response that a future returns was carried by a `set_response` for that future's own id,
      which found it in the wait list registered to that very future. */
  lemma NoCrossTalk(threads: nat, states: seq<State>, labels: seq<Label>, i: nat, f: nat, reply: Reply)
    returns (j: nat)
    requires Behaviour(threads, states, labels) && i < |labels|
    requires labels[i] == Free(f) && Returned(states[i], labels[i]) == Some(Answer(reply))
    ensures var r := states[i].futures[f].r;
            && j < i && labels[j].Lookup? && labels[j].id == r.id && labels[j].reply == reply
            && r.id in states[j].sh.waitList && states[j].sh.waitList[r.id] == r.slot
  {
    hide Next, Inv;
    var s := states[i];
    var r := s.futures[f].r;
    assert Delivers(s.futures[f], r.slot, reply);
    PresentWasLookedUp(threads, states, labels, i, r.slot, reply);
    j :| 0 <= j < i && LooksUp(states, labels, j, r.slot, reply);
    BehaviourInv(threads, states, labels, i);
    BehaviourInv(threads, states, labels, j);
    InvParts(s);
    InvParts(states[j]);
    assert Owned(s.futures[f]) == Some(r) && Maps(s, r);
    EntriesAreAsOldAsTheirWaiter(threads, states, labels, j, i, r.id);
  }

  lemma InvParts(s: State)
    requires Inv(s)
    ensures OwnersMapped(s) && WaitListInjective(s.sh)
  {
  }

  /** Each registration ends once: after a future has released its slot, through whatever handles it was moved,
      no later step releases that slot, so at most one response or `Closed` is ever delivered for it that way. */
  lemma SingleDelivery(threads: nat, states: seq<State>, labels: seq<Label>, i: nat, j: nat, f: nat, g: nat)
    requires Behaviour(threads, states, labels) && i < j < |labels|
    requires labels[i] == Free(f) && labels[j] == Free(g)
    ensures states[i].futures[f].r.slot != states[j].futures[g].r.slot
  {
    hide Inv;
    var r, q := states[i].futures[f].r, states[j].futures[g].r;
    BehaviourInv(threads, states, labels, i);
    BehaviourInv(threads, states, labels, j);
    InvParts(states[i]);
    InvParts(states[j]);
    assert Owned(states[i].futures[f]) == Some(r) && Maps(states[i], r);
    assert Owned(states[j].futures[g]) == Some(q) && Maps(states[j], q);
    if q.slot == r.slot {
      EntriesAreAsOldAsTheirWaiter(threads, states, labels, i + 1, j, q.id);
      assert false;
    }
  }

  // ---- What the code does not guarantee ----

  lemma RunAppend(s: State, ls: seq<Label>, l: Label)
    requires CanRun(s, ls) && Enabled(Run(s, ls), l)
    ensures CanRun(s, ls + [l]) && Run(s, ls + [l]) == Next(Run(s, ls), l)
    decreases |ls|
  {
    if ls == [] {
      RunCons(s, l, []);
    } else {
      RunAppend(Next(s, ls[0]), ls[1..], l);
      assert (ls + [l])[1..] == ls[1..] + [l];
    }
  }

  /** `try_recv` on an expired context reports `Closed` and keeps the registration; a `set_response` that passed
      its expiry check earlier can still store, so the same future may report `Closed` first and answer later. */
  lemma ClosedThenAnswer(id: RequestId, reply: Reply) returns (run: seq<Label>, more: seq<Label>)
    ensures CanRun(Initial(2), run) && Enabled(Run(Initial(2), run), TryCheckExpired(0))
    ensures Returned(Run(Initial(2), run), TryCheckExpired(0)) == Some(Closed)
    ensures run + [TryCheckExpired(0)] <= more
    ensures CanRun(Initial(2), more) && Enabled(Run(Initial(2), more), Free(0))
    ensures Returned(Run(Initial(2), more), Free(0)) == Some(Answer(reply))
  {
    hide CanRun, Run;
    run := ExpireBeforeStore(id, reply);
    more := StoreAfterExpiry(run, id, reply);
    more := Extend(more, TakeWaker(0));
    more := Extend(more, WakeNext(1, 0));
    more := Extend(more, Unlock(1));
  }

  /** One registered request, one future, a reader in thread 0 and a `mark_expired` in thread 1. */
  function Snapshot(id: RequestId, cell: Cell, f: Future, reader: Actor, expirer: Actor): State {
    State(Shared(map[id := 0], [Waiter(cell, false, false)], expirer.Waking?), [f], [reader, expirer],
          if expirer.Idle? then None else Some(1))
  }

  lemma CheckBeforeExpiry(id: RequestId, reply: Reply) returns (run: seq<Label>)
    ensures CanRun(Initial(2), run)
    ensures Run(Initial(2), run)
         == Snapshot(id, Vacant, Resting(Some(Receive(id, 0)), false), Checked(0, reply), Idle)
  {
    hide CanRun, Run;
    run := [];
    assert Initial(2).actors == [Idle, Idle];
    EmptyRun(Initial(2));
    run := Extend(run, Allocate(id));
    run := Extend(run, Lookup(0, id, reply));
    run := Extend(run, CheckFlag(0));
  }

  /** A reader past its expiry check, an expired context, and a `try_recv` that found the cell empty. */
  lemma ExpireBeforeStore(id: RequestId, reply: Reply) returns (run: seq<Label>)
    ensures CanRun(Initial(2), run)
    ensures Run(Initial(2), run)
         == Snapshot(id, Vacant, TryFoundVacant(Receive(id, 0), false), Checked(0, reply), Waking({0}))
  {
    hide CanRun, Run;
    run := CheckBeforeExpiry(id, reply);
    run := Extend(run, Lock(1));
    run := Extend(run, Swap(1));
    assert map[id := 0][id] == 0 && map[id := 0].Values == {0};
    run := Extend(run, TryRecv(0));
  }

  lemma StoreAfterExpiry(run: seq<Label>, id: RequestId, reply: Reply) returns (more: seq<Label>)
    requires CanRun(Initial(2), run)
    requires Run(Initial(2), run)
          == Snapshot(id, Vacant, TryFoundVacant(Receive(id, 0), false), Checked(0, reply), Waking({0}))
    ensures CanRun(Initial(2), more) && run + [TryCheckExpired(0)] <= more
    ensures Run(Initial(2), more)
         == Snapshot(id, PendingRemove, Unregistering(Receive(id, 0), Deliver(reply)), Stored(0), Waking({0}))
  {
    hide CanRun, Run;
    more := Extend(run, TryCheckExpired(0));
    more := Extend(more, Store(0));
    more := Extend(more, TryRecv(0));
  }

  lemma EmptyRun(s: State)
    ensures CanRun(s, []) && Run(s, []) == s
  {
  }

  lemma Extend(ls: seq<Label>, l: Label) returns (longer: seq<Label>)
    requires CanRun(Initial(2), ls) && Enabled(Run(Initial(2), ls), l)
    ensures longer == ls + [l]
    ensures CanRun(Initial(2), longer) && Run(Initial(2), longer) == Next(Run(Initial(2), ls), l)
  {
    longer := ls + [l];
    RunAppend(Initial(2), ls, l);
  }

  // ---- After the end ----

  /** The future holds no registration. */
  predicate Finished(s: State, f: nat) {
    FutureAt(s, f) && (s.futures[f].Gone? || (s.futures[f].Resting? && s.futures[f].state.None?))
  }

  lemma FinishedStep(s: State, l: Label, f: nat)
    requires Finished(s, f) && Enabled(s, l)
    ensures Finished(Next(s, l), f)
  {
  }

  lemma {:induction false} FinishedStays(threads: nat, states: seq<State>, labels: seq<Label>, i: nat, j: nat, f: nat)
    requires Behaviour(threads, states, labels) && i <= j < |states| && Finished(states[i], f)
    ensures Finished(states[j], f)
  {
    hide Next, Enabled, Finished;
    if i < j {
      FinishedStays(threads, states, labels, i, j - 1, f);
      FinishedStep(states[j - 1], labels[j - 1], f);
    }
  }

  /** A future that returned its response or `Closed` at the end of unregistering has retrieved it for good: whatever
      it is asked later, `poll` says `Empty` and `try_recv` says `Retrieved`. */
  lemma RetrievedForGood(threads: nat, states: seq<State>, labels: seq<Label>, i: nat, j: nat, f: nat)
    requires Behaviour(threads, states, labels) && i < j < |labels| && labels[i] == Free(f)
    ensures !Returned(states[j], labels[j]).Some? || labels[j] in {Poll(f), TryRecv(f)} || !Concerns(labels[j], f)
    ensures labels[j] == Poll(f) ==> Returned(states[j], labels[j]) == Some(Empty)
    ensures labels[j] == TryRecv(f) ==> Returned(states[j], labels[j]) == Some(Retrieved)
  {
    assert states[i + 1] == Next(states[i], labels[i]);
    assert Finished(states[i + 1], f);
    hide Next, Behaviour;
    FinishedStays(threads, states, labels, i + 1, j, f);
  }

  predicate Concerns(l: Label, f: nat) {
    l in {Poll(f), Inspect(f), CheckExpired(f), TryRecv(f), TryCheckExpired(f), TakeWaker(f), Free(f)}
  }

  /** Nobody will register a waker with the waiter again. */
  ghost predicate Silent(s: State, slot: nat) {
    && SlotAt(s, slot) && !s.sh.waiters[slot].registered
    && forall g :: 0 <= g < |s.futures| && Owned(s.futures[g]).Some? && Owned(s.futures[g]).value.slot == slot ==>
         s.futures[g].Freeing?
  }

  lemma SilentStep(s: State, l: Label, slot: nat)
    requires Silent(s, slot) && Enabled(s, l)
    ensures Silent(Next(s, l), slot) && Next(s, l).sh.waiters[slot].woken == s.sh.waiters[slot].woken
  {
  }

  lemma SilentFrom(s: State, f: nat)
    requires Inv(s) && Enabled(s, TakeWaker(f))
    ensures Silent(Next(s, TakeWaker(f)), s.futures[f].r.slot)
  {
    hide KeysHeld, WaitListInjective, Threads, Readable, NoLostWakes;
  }

  lemma {:induction false} SilentStays(threads: nat, states: seq<State>, labels: seq<Label>, i: nat, j: nat, slot: nat)
    requires Behaviour(threads, states, labels) && i <= j < |states| && Silent(states[i], slot)
    ensures Silent(states[j], slot) && states[j].sh.waiters[slot].woken == states[i].sh.waiters[slot].woken
  {
    hide Next, Enabled, Silent;
    if i < j {
      SilentStays(threads, states, labels, i, j - 1, slot);
      SilentStep(states[j - 1], labels[j - 1], slot);
    }
  }

  /** No redundant wake: once an unregistering future has taken its waker, no store, failed write or expiry wakes its
      task any more. */
  lemma NoRedundantWakes(threads: nat, states: seq<State>, labels: seq<Label>, i: nat, j: nat, f: nat)
    requires Behaviour(threads, states, labels) && i < j < |states| && labels[i] == TakeWaker(f)
    ensures Enabled(states[i], labels[i])
    ensures var slot := states[i].futures[f].r.slot;
            && SlotAt(states[i], slot) && SlotAt(states[j], slot) && !states[j].sh.waiters[slot].registered
            && states[j].sh.waiters[slot].woken == states[i].sh.waiters[slot].woken
  {
    BehaviourInv(threads, states, labels, i);
    hide Inv, Behaviour;
    StepAt(threads, states, labels, i);
    SilentFrom(states[i], f);
    SilentStays(threads, states, labels, i + 1, j, states[i].futures[f].r.slot);
  }

  lemma StepAt(threads: nat, states: seq<State>, labels: seq<Label>, i: nat)
    requires Behaviour(threads, states, labels) && i < |labels|
    ensures Enabled(states[i], labels[i]) && states[i + 1] == Next(states[i], labels[i])
  {
  }
}
