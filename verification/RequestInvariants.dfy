/** The inductive invariant of the pending-request protocol. */
module RequestInvariants {
  import opened Common
  import opened Requests

  /** The registration a future still holds, in whatever phase it is. */
  function Owned(f: Future): Option<Receive> {
    match f
    case Gone => None
    case Resting(state, _) => state
    case Registered(r) => Some(r)
    case FoundVacant(r) => Some(r)
    case TryFoundVacant(r, _) => Some(r)
    case Unregistering(r, _) => Some(r)
    case Freeing(r, _) => Some(r)
  }

  /** The future may still inspect its cell. */
  predicate Reading(f: Future) {
    Owned(f).Some? && !f.Unregistering? && !f.Freeing?
  }

  /** The task behind the future relies on being woken. */
  predicate Parked(f: Future) {
    (f.Resting? && f.state.Some? && f.parked) || (f.TryFoundVacant? && f.parked)
  }

  predicate Maps(s: State, r: Receive) {
    r.id in s.sh.waitList && s.sh.waitList[r.id] == r.slot
  }

  predicate HeldBy(s: State, f: nat, id: RequestId) {
    f < |s.futures| && id in s.sh.waitList && Owned(s.futures[f]) == Some(Receive(id, s.sh.waitList[id]))
  }

  ghost predicate OwnersMapped(s: State) {
    forall f :: 0 <= f < |s.futures| && Owned(s.futures[f]).Some? ==> Maps(s, Owned(s.futures[f]).value)
  }

  ghost predicate KeysHeld(s: State) {
    forall id :: id in s.sh.waitList ==> exists f :: HeldBy(s, f, id)
  }

  ghost predicate SlotsDistinct(s: State) {
    forall f, g :: 0 <= f < g < |s.futures| && Owned(s.futures[f]).Some? && Owned(s.futures[g]).Some? ==>
      Owned(s.futures[f]).value.slot != Owned(s.futures[g]).value.slot
  }

  /** The keys of the wait list are exactly the ids of live futures, each mapped to that future's own waiter. */
  ghost predicate Bijection(s: State) {
    OwnersMapped(s) && KeysHeld(s) && SlotsDistinct(s)
  }

  ghost predicate WaitListInjective(sh: Shared) {
    && (forall id :: id in sh.waitList ==> sh.waitList[id] < |sh.waiters|)
    && (forall i, j :: i in sh.waitList && j in sh.waitList && sh.waitList[i] == sh.waitList[j] ==> i == j)
  }

  predicate ActorSlotsExist(s: State, actor: Actor) {
    match actor
    case Found(slot, _) => SlotAt(s, slot)
    case Checked(slot, _) => SlotAt(s, slot)
    case FailFound(slot) => SlotAt(s, slot)
    case Stored(slot) => SlotAt(s, slot)
    case Waking(left) => s.sh.expired && forall slot :: slot in left ==> SlotAt(s, slot)
    case _ => true
  }

  /** Threads refer to existing waiters, and the mutex is held by exactly the thread that is inside `mark_expired`. */
  ghost predicate Threads(s: State) {
    && (forall a :: 0 <= a < |s.actors| ==> ActorSlotsExist(s, s.actors[a]))
    && (forall a :: 0 <= a < |s.actors| ==> ((s.actors[a].Locked? || s.actors[a].Waking?) <==> s.lock == Some(a)))
    && (s.lock.Some? ==> s.lock.value < |s.actors|)
  }

  /** No future that may still inspect its cell can find it consumed. */
  ghost predicate Readable(s: State) {
    forall f :: 0 <= f < |s.futures| && Reading(s.futures[f]) && SlotAt(s, Owned(s.futures[f]).value.slot) ==>
      !s.sh.waiters[Owned(s.futures[f]).value.slot].cell.PendingRemove?
  }

  /** Some thread has written the cell of `slot` and not yet woken its waiter. */
  ghost predicate StorePending(s: State, slot: nat) {
    exists a :: 0 <= a < |s.actors| && s.actors[a] == Stored(slot)
  }

  /** `mark_expired` is under way and has not yet woken `slot`. */
  predicate ExpiryPending(s: State, slot: nat) {
    s.lock.Some? && s.lock.value < |s.actors| && s.actors[s.lock.value].Waking? && slot in s.actors[s.lock.value].left
  }

  ghost predicate WakeDue(s: State, f: Future, slot: nat, w: Waiter) {
    && (f.Registered? || f.FoundVacant? || Parked(f) ==> w.registered || w.woken)
    && ((f.FoundVacant? || Parked(f)) && !w.woken ==> w.cell.Vacant? || StorePending(s, slot))
    && (Parked(f) && !w.woken ==> !s.sh.expired || ExpiryPending(s, slot))
  }

  /** A task that waits and has not been woken has nothing to see yet, or someone is about to wake it. */
  ghost predicate NoLostWakes(s: State) {
    forall f :: 0 <= f < |s.futures| && Owned(s.futures[f]).Some? && SlotAt(s, Owned(s.futures[f]).value.slot) ==>
      WakeDue(s, s.futures[f], Owned(s.futures[f]).value.slot, s.sh.waiters[Owned(s.futures[f]).value.slot])
  }

  ghost predicate Inv(s: State) {
    && Bijection(s)
    && WaitListInjective(s.sh)
    && Threads(s)
    && Readable(s)
    && NoLostWakes(s)
  }

  lemma InitialInv(threads: nat)
    ensures Inv(Initial(threads))
  {
  }

  // ---- The wait list ----

  lemma WaitListInjectiveNext(s: State, l: Label)
    requires WaitListInjective(s.sh) && Enabled(s, l)
    ensures WaitListInjective(Next(s, l).sh)
  {
  }

  /** Steps that move no registration between futures. */
  lemma BijectionFrame(s: State, t: State)
    requires Bijection(s)
    requires t.sh.waitList == s.sh.waitList && |t.futures| == |s.futures|
    requires forall f :: 0 <= f < |s.futures| ==> Owned(t.futures[f]) == Owned(s.futures[f])
    ensures Bijection(t)
  {
    forall id | id in t.sh.waitList
      ensures exists f :: HeldBy(t, f, id)
    {
      var f :| HeldBy(s, f, id);
      assert HeldBy(t, f, id);
    }
  }

  lemma KeysHeldAllocate(s: State, id: RequestId)
    requires KeysHeld(s) && Enabled(s, Allocate(id))
    ensures KeysHeld(Next(s, Allocate(id)))
  {
    var t := Next(s, Allocate(id));
    forall i | i in t.sh.waitList
      ensures exists f :: HeldBy(t, f, i)
    {
      if i in s.sh.waitList {
        var f :| HeldBy(s, f, i);
        assert HeldBy(t, f, i);
      } else {
        assert HeldBy(t, |s.futures|, i);
      }
    }
  }

  lemma OwnersMappedAllocate(s: State, id: RequestId)
    requires WaitListInjective(s.sh) && OwnersMapped(s) && SlotsDistinct(s) && Enabled(s, Allocate(id))
    ensures OwnersMapped(Next(s, Allocate(id))) && SlotsDistinct(Next(s, Allocate(id)))
  {
  }

  lemma BijectionIntoOwned(s: State, f: nat)
    requires Bijection(s) && Enabled(s, IntoOwned(f))
    ensures Bijection(Next(s, IntoOwned(f)))
  {
    hide KeysHeld;
    KeysHeldIntoOwned(s, f);
  }

  lemma KeysHeldIntoOwned(s: State, f: nat)
    requires KeysHeld(s) && Enabled(s, IntoOwned(f))
    ensures KeysHeld(Next(s, IntoOwned(f)))
  {
    var t := Next(s, IntoOwned(f));
    forall id | id in t.sh.waitList
      ensures exists g :: HeldBy(t, g, id)
    {
      var g :| HeldBy(s, g, id);
      assert HeldBy(t, if g == f then |s.futures| else g, id);
    }
  }

  lemma OwnersMappedFree(s: State, f: nat)
    requires WaitListInjective(s.sh) && OwnersMapped(s) && SlotsDistinct(s) && Enabled(s, Free(f))
    ensures OwnersMapped(Next(s, Free(f))) && SlotsDistinct(Next(s, Free(f)))
  {
    var t := Next(s, Free(f));
    var r := s.futures[f].r;
    assert Owned(s.futures[f]) == Some(r) && Maps(s, r);
    forall g | 0 <= g < |t.futures| && Owned(t.futures[g]).Some?
      ensures Maps(t, Owned(t.futures[g]).value)
    {
      var q := Owned(s.futures[g]).value;
      assert g != f && Maps(s, q) && q.slot != r.slot;
    }
  }

  lemma KeysHeldFree(s: State, f: nat)
    requires KeysHeld(s) && Enabled(s, Free(f))
    ensures KeysHeld(Next(s, Free(f)))
  {
    var t := Next(s, Free(f));
    forall id | id in t.sh.waitList
      ensures exists g :: HeldBy(t, g, id)
    {
      var g :| HeldBy(s, g, id);
      assert g != f;
      assert HeldBy(t, g, id);
    }
  }

  lemma OwnedUnchanged(s: State, l: Label)
    requires Enabled(s, l) && !l.Allocate? && !l.Free? && !l.IntoOwned?
    ensures |Next(s, l).futures| == |s.futures| && Next(s, l).sh.waitList == s.sh.waitList
    ensures forall f :: 0 <= f < |s.futures| ==> Owned(Next(s, l).futures[f]) == Owned(s.futures[f])
  {
  }

  lemma BijectionNext(s: State, l: Label)
    requires WaitListInjective(s.sh) && Bijection(s) && Enabled(s, l)
    ensures Bijection(Next(s, l))
  {
    hide Next, Enabled, OwnersMapped, KeysHeld, SlotsDistinct, WaitListInjective, Owned;
    match l
    case Allocate(id) =>
      OwnersMappedAllocate(s, id);
      KeysHeldAllocate(s, id);
    case Free(f) =>
      OwnersMappedFree(s, f);
      KeysHeldFree(s, f);
    case IntoOwned(f) => BijectionIntoOwned(s, f);
    case _ =>
      OwnedUnchanged(s, l);
      BijectionFrame(s, Next(s, l));
  }

  // ---- Threads ----

  /** Steps of one thread. */
  lemma ThreadsActorStep(s: State, t: State, a: nat)
    requires Threads(s) && a < |s.actors| == |t.actors| && |t.sh.waiters| == |s.sh.waiters|
    requires forall b :: 0 <= b < |s.actors| && b != a ==> t.actors[b] == s.actors[b]
    requires s.sh.expired ==> t.sh.expired
    requires ActorSlotsExist(t, t.actors[a])
    requires t.lock == if t.actors[a].Locked? || t.actors[a].Waking? then Some(a)
                       else if s.actors[a].Locked? || s.actors[a].Waking? then None else s.lock
    requires (t.actors[a].Locked? || t.actors[a].Waking?) ==> s.lock == None || s.lock == Some(a)
    ensures Threads(t)
  {
  }

  /** Steps of no thread. */
  lemma ThreadsFrame(s: State, t: State)
    requires Threads(s) && t.actors == s.actors && t.lock == s.lock
    requires |s.sh.waiters| <= |t.sh.waiters| && (s.sh.expired ==> t.sh.expired)
    ensures Threads(t)
  {
  }

  /** The thread that takes a step, if it is a thread's step. */
  function ActorOf(l: Label): Option<nat> {
    match l
    case Lookup(a, _, _) => Some(a)
    case CheckFlag(a) => Some(a)
    case Store(a) => Some(a)
    case FailLookup(a, _) => Some(a)
    case FailStore(a) => Some(a)
    case WakeStored(a) => Some(a)
    case Lock(a) => Some(a)
    case Swap(a) => Some(a)
    case WakeNext(a, _) => Some(a)
    case Unlock(a) => Some(a)
    case _ => None
  }

  lemma ThreadsNext(s: State, l: Label)
    requires WaitListInjective(s.sh) && Threads(s) && Enabled(s, l)
    ensures Threads(Next(s, l))
  {
    var t := Next(s, l);
    if ActorOf(l).Some? {
      var a := ActorOf(l).value;
      assert ActorSlotsExist(s, s.actors[a]);
      ThreadsActorStep(s, t, a);
    } else {
      ThreadsFrame(s, t);
    }
  }

  // ---- Cells and wakes ----

  /** A step of a future that keeps its registration and touches no waiter but its own. */
  lemma OwnStep(s: State, f: nat, future: Future, w: Waiter)
    requires Inv(s) && FutureAt(s, f)
    requires Owned(future) == Owned(s.futures[f]) && Owned(future).Some? && SlotAt(s, Owned(future).value.slot)
    requires Reading(future) ==> !w.cell.PendingRemove?
    requires WakeDue(s, future, Owned(future).value.slot, w)
    ensures var t := WithFuture(WithWaiter(s, Owned(future).value.slot, w), f, future);
            Readable(t) && NoLostWakes(t)
  {
    var slot := Owned(future).value.slot;
    var t := WithFuture(WithWaiter(s, slot, w), f, future);
    forall g | 0 <= g < |t.futures| && Owned(t.futures[g]).Some? && SlotAt(t, Owned(t.futures[g]).value.slot)
      ensures WakeDue(t, t.futures[g], Owned(t.futures[g]).value.slot, t.sh.waiters[Owned(t.futures[g]).value.slot])
    {
      WakeDueFrame(s, t, t.futures[g], Owned(t.futures[g]).value.slot, t.sh.waiters[Owned(t.futures[g]).value.slot]);
    }
  }

  /** Whether a wake is due depends on the threads and the flag only. */
  lemma WakeDueFrame(s: State, t: State, f: Future, slot: nat, w: Waiter)
    requires WakeDue(s, f, slot, w)
    requires t.actors == s.actors && t.lock == s.lock && t.sh.expired == s.sh.expired
    ensures WakeDue(t, f, slot, w)
  {
  }

  /** The steps of a future that keeps its registration. */
  predicate IsOwnStep(s: State, l: Label)
    requires Enabled(s, l)
  {
    match l
    case Poll(f) => s.futures[f].state.Some?
    case Inspect(_) => true
    case CheckExpired(_) => true
    case TryRecv(f) => s.futures[f].state.Some?
    case TryCheckExpired(_) => true
    case TakeWaker(_) => true
    case DropFuture(f) => s.futures[f].state.Some?
    case _ => false
  }

  function FutureOf(l: Label): nat
    requires l.Poll? || l.Inspect? || l.CheckExpired? || l.TryRecv? || l.TryCheckExpired? || l.TakeWaker?
             || l.DropFuture?
  {
    l.f
  }

  lemma OwnStepNext(s: State, l: Label)
    requires Inv(s) && Enabled(s, l) && IsOwnStep(s, l)
    ensures Readable(Next(s, l)) && NoLostWakes(Next(s, l))
  {
    var t := Next(s, l);
    var f := FutureOf(l);
    var r := Owned(s.futures[f]).value;
    assert Maps(s, r);
    assert WakeDue(s, s.futures[f], r.slot, s.sh.waiters[r.slot]);
    OwnStep(s, f, t.futures[f], t.sh.waiters[r.slot]);
    assert t.sh.waiters == s.sh.waiters[r.slot := t.sh.waiters[r.slot]];
    assert t == WithFuture(WithWaiter(s, r.slot, t.sh.waiters[r.slot]), f, t.futures[f]);
  }

  /** The remaining steps of futures: none of them changes a waiter that exists. */
  lemma BookkeepingNext(s: State, l: Label)
    requires Inv(s) && Enabled(s, l)
    requires ActorOf(l).None? && !IsOwnStep(s, l)
    ensures Readable(Next(s, l)) && NoLostWakes(Next(s, l))
  {
    hide KeysHeld, SlotsDistinct, Threads;
    var t := Next(s, l);
    assert t.actors == s.actors && t.lock == s.lock && t.sh.expired == s.sh.expired && s.sh.waiters <= t.sh.waiters;
    forall g | 0 <= g < |t.futures| && Owned(t.futures[g]).Some? && SlotAt(t, Owned(t.futures[g]).value.slot)
      ensures WakeDue(t, t.futures[g], Owned(t.futures[g]).value.slot, t.sh.waiters[Owned(t.futures[g]).value.slot])
    {
      var slot := Owned(t.futures[g]).value.slot;
      if g < |s.futures| && Owned(s.futures[g]).Some? {
        assert Maps(s, Owned(s.futures[g]).value);
      }
      if g < |s.futures| && t.futures[g] == s.futures[g] && slot < |s.sh.waiters| {
        assert WakeDue(s, s.futures[g], slot, s.sh.waiters[slot]);
        WakeDueFrame(s, t, s.futures[g], slot, s.sh.waiters[slot]);
      }
    }
  }

  /** The owner of a registered waiter: a wake that was due before the step is due after it. */
  ghost predicate WakeKept(s: State, t: State, f: Future)
    requires |t.sh.waiters| == |s.sh.waiters|
  {
    Owned(f).Some? && Maps(s, Owned(f).value) && SlotAt(s, Owned(f).value.slot) &&
    WakeDue(s, f, Owned(f).value.slot, s.sh.waiters[Owned(f).value.slot])
    ==> WakeDue(t, f, Owned(f).value.slot, t.sh.waiters[Owned(f).value.slot])
  }

  /** What a thread's step owes to every future. */
  ghost predicate WakesKept(s: State, t: State) {
    && t.futures == s.futures && |t.sh.waiters| == |s.sh.waiters|
    && forall f :: WakeKept(s, t, f)
  }

  lemma NoLostWakesFrom(s: State, t: State)
    requires OwnersMapped(s) && NoLostWakes(s) && WakesKept(s, t)
    ensures NoLostWakes(t)
  {
    hide WakeDue;
    forall g | 0 <= g < |t.futures| && Owned(t.futures[g]).Some? && SlotAt(t, Owned(t.futures[g]).value.slot)
      ensures WakeDue(t, t.futures[g], Owned(t.futures[g]).value.slot, t.sh.waiters[Owned(t.futures[g]).value.slot])
    {
      assert Maps(s, Owned(s.futures[g]).value);
      assert WakeDue(s, s.futures[g], Owned(s.futures[g]).value.slot, s.sh.waiters[Owned(s.futures[g]).value.slot]);
      assert WakeKept(s, t, s.futures[g]);
    }
  }

  /** A thread that leaves a state other than `Stored(slot)` takes no pending wake of `slot` away. */
  lemma StorePendingKept(s: State, t: State, a: nat, slot: nat)
    requires a < |s.actors| == |t.actors| && t.actors == s.actors[a := t.actors[a]]
    requires s.actors[a] != Stored(slot)
    ensures StorePending(s, slot) ==> StorePending(t, slot)
  {
    if StorePending(s, slot) {
      var b :| 0 <= b < |s.actors| && s.actors[b] == Stored(slot);
      assert t.actors[b] == Stored(slot);
    }
  }

  lemma QuietStep(s: State, l: Label)
    requires Threads(s) && Enabled(s, l)
    requires l.Lookup? || l.FailLookup? || l.CheckFlag? || l.Lock? || l.Unlock? || (l.Swap? && s.sh.expired)
    ensures WakesKept(s, Next(s, l))
  {
    var t := Next(s, l);
    var a := ActorOf(l).value;
    forall slot: nat | slot < |s.sh.waiters|
      ensures StorePending(s, slot) ==> StorePending(t, slot)
      ensures ExpiryPending(s, slot) ==> ExpiryPending(t, slot)
    {
      StorePendingKept(s, t, a, slot);
    }
  }

  /** `expired` is set and every registered waiter is still to be woken, in one step under the lock. */
  lemma SwapStep(s: State, a: nat)
    requires Threads(s) && WaitListInjective(s.sh) && Enabled(s, Swap(a)) && !s.sh.expired
    ensures WakesKept(s, Next(s, Swap(a)))
  {
    var t := Next(s, Swap(a));
    forall slot: nat | slot < |s.sh.waiters|
      ensures StorePending(s, slot) ==> StorePending(t, slot)
    {
      StorePendingKept(s, t, a, slot);
    }
    forall f
      ensures WakeKept(s, t, f)
    {
      if Owned(f).Some? && Maps(s, Owned(f).value) {
        assert Owned(f).value.id in s.sh.waitList && Owned(f).value.slot in s.sh.waitList.Values;
        assert ExpiryPending(t, Owned(f).value.slot);
      }
    }
  }

  lemma WriteStep(s: State, l: Label)
    requires Threads(s) && Enabled(s, l) && (l.Store? || l.FailStore?)
    ensures WakesKept(s, Next(s, l))
  {
    var t := Next(s, l);
    var a := ActorOf(l).value;
    assert t.actors[a] == Stored(s.actors[a].slot);
    forall slot: nat | slot < |s.sh.waiters|
      ensures StorePending(s, slot) ==> StorePending(t, slot)
      ensures ExpiryPending(s, slot) ==> ExpiryPending(t, slot)
    {
      StorePendingKept(s, t, a, slot);
    }
  }

  lemma WakeStep(s: State, l: Label)
    requires Threads(s) && Enabled(s, l) && (l.WakeStored? || l.WakeNext?)
    ensures WakesKept(s, Next(s, l))
  {
    var t := Next(s, l);
    var a := ActorOf(l).value;
    var woken := if l.WakeStored? then s.actors[a].slot else l.slot;
    forall slot: nat | slot < |s.sh.waiters| && slot != woken
      ensures StorePending(s, slot) ==> StorePending(t, slot)
      ensures ExpiryPending(s, slot) ==> ExpiryPending(t, slot)
    {
      StorePendingKept(s, t, a, slot);
    }
  }

  lemma ActorStepNext(s: State, l: Label)
    requires Inv(s) && Enabled(s, l) && ActorOf(l).Some?
    ensures Readable(Next(s, l)) && NoLostWakes(Next(s, l))
  {
    hide WakesKept, NoLostWakes, Threads;
    match l {
      case Store(_) => WriteStep(s, l);
      case FailStore(_) => WriteStep(s, l);
      case WakeStored(_) => WakeStep(s, l);
      case WakeNext(_, _) => WakeStep(s, l);
      case Swap(a) =>
        if s.sh.expired {
          QuietStep(s, l);
        } else {
          SwapStep(s, a);
        }
      case _ => QuietStep(s, l);
    }
    NoLostWakesFrom(s, Next(s, l));
  }

  /** Every step of every actor keeps the invariant. */
  lemma InvNext(s: State, l: Label)
    requires Inv(s) && Enabled(s, l)
    ensures Inv(Next(s, l))
  {
    hide Next, Bijection, WaitListInjective, Threads, Readable, NoLostWakes, IsOwnStep;
    WaitListInjectiveNext(s, l);
    ThreadsNext(s, l);
    BijectionNext(s, l);
    if ActorOf(l).Some? {
      ActorStepNext(s, l);
    } else if IsOwnStep(s, l) {
      OwnStepNext(s, l);
    } else {
      BookkeepingNext(s, l);
    }
  }
}
