/** The calls of the pending-request protocol as single transitions, and their agreement with undisturbed runs. */
module RequestSpec {
  import opened Common
  import opened Requests

  /** Every entry leads to a waiter. */
  predicate SlotsExist(sh: Shared) {
    forall id :: id in sh.waitList ==> sh.waitList[id] < |sh.waiters|
  }

  function WithWaiterAt(sh: Shared, slot: nat, w: Waiter): Shared
    requires slot < |sh.waiters|
  {
    sh.(waiters := sh.waiters[slot := w])
  }

  /** `try_allocate_new_request`. */
  function Allocated(sh: Shared, id: RequestId): (Shared, Option<Receive>) {
    if sh.expired || id in sh.waitList then (sh, None)
    else (sh.(waitList := sh.waitList[id := |sh.waiters|], waiters := sh.waiters + [Waiter(Vacant, false, false)]),
          Some(Receive(id, |sh.waiters|)))
  }

  /** `try_unregister`. */
  function Unregistered(sh: Shared, r: Receive): Shared
    requires r.slot < |sh.waiters|
  {
    WithWaiterAt(sh, r.slot, sh.waiters[r.slot].(registered := false)).(waitList := sh.waitList - {r.id})
  }

  /** `set_response`: whether the response was taken, and the shared state behind it. */
  function Responded(sh: Shared, id: RequestId, reply: Reply): (Shared, bool)
    requires id in sh.waitList ==> sh.waitList[id] < |sh.waiters|
  {
    if id !in sh.waitList || sh.expired then (sh, false)
    else
      var slot := sh.waitList[id];
      var w := sh.waiters[slot];
      (WithWaiterAt(sh, slot, WakeWaiter(w.(cell := CellAfterResponse(w.cell, reply)))), true)
  }

  /** `set_request_write_failed`. */
  function WriteFailedFor(sh: Shared, id: RequestId): Shared
    requires id in sh.waitList ==> sh.waitList[id] < |sh.waiters|
  {
    if id !in sh.waitList then sh
    else
      var slot := sh.waitList[id];
      WithWaiterAt(sh, slot, WakeWaiter(sh.waiters[slot].(cell := WriteFailed)))
  }

  function WakeAll(waiters: seq<Waiter>, slots: set<nat>): (woken: seq<Waiter>)
    ensures |woken| == |waiters|
  {
    seq(|waiters|, i requires 0 <= i < |waiters| => if i in slots then WakeWaiter(waiters[i]) else waiters[i])
  }

  lemma WakeNobody(waiters: seq<Waiter>)
    ensures WakeAll(waiters, {}) == waiters
  {
  }

  lemma WakeAllAdd(waiters: seq<Waiter>, slots: set<nat>, slot: nat)
    requires slot < |waiters|
    ensures WakeAll(waiters, slots)[slot := WakeWaiter(WakeAll(waiters, slots)[slot])]
         == WakeAll(waiters, slots + {slot})
  {
  }

  /** `mark_expired`. */
  function Expired(sh: Shared): Shared {
    if sh.expired then sh else Shared(sh.waitList, WakeAll(sh.waiters, sh.waitList.Values), true)
  }

  predicate Live(sh: Shared, state: Option<Receive>) {
    state.Some? ==>
      && state.value.id in sh.waitList && sh.waitList[state.value.id] == state.value.slot
      && state.value.slot < |sh.waiters|
      && !sh.waiters[state.value.slot].cell.PendingRemove?
  }

  /** The rest of `poll` and `try_recv` once the cell was not empty. */
  function Taken(sh: Shared, r: Receive): (Shared, Option<Receive>, Outcome)
    requires r.slot < |sh.waiters|
  {
    var w := sh.waiters[r.slot];
    (Unregistered(WithWaiterAt(sh, r.slot, w.(cell := CellAfterInspection(w.cell))), r), None,
     if w.cell.Ready? then Answer(w.cell.reply) else Closed)
  }

  /** `ReceiveResponse::poll`. */
  function Polled(sh: Shared, state: Option<Receive>): (Shared, Option<Receive>, Outcome)
    requires Live(sh, state)
  {
    match state
    case None => (sh, None, Empty)
    case Some(r) =>
      var polled := WithWaiterAt(sh, r.slot, RegisterWaker(sh.waiters[r.slot]));
      if !polled.waiters[r.slot].cell.Vacant? then Taken(polled, r)
      else if sh.expired then (Unregistered(polled, r), None, Closed)
      else (polled, Some(r), Pending)
  }

  /** `ReceiveResponse::try_recv`: an expired context is reported without unregistering. */
  function Tried(sh: Shared, state: Option<Receive>): (Shared, Option<Receive>, Outcome)
    requires Live(sh, state)
  {
    match state
    case None => (sh, None, Retrieved)
    case Some(r) =>
      if !sh.waiters[r.slot].cell.Vacant? then Taken(sh, r)
      else (sh, state, if sh.expired then Closed else Empty)
  }

  // ---- A call that no other actor disturbs is the run of its program ----

  lemma UndisturbedSetResponse(s: State, a: nat, id: RequestId, reply: Reply) returns (ls: seq<Label>)
    requires a < |s.actors| && s.actors[a].Idle? && s.lock.None?
    requires id in s.sh.waitList ==> s.sh.waitList[id] < |s.sh.waiters|
    ensures ls != [] && ls[0] == Lookup(a, id, reply)
    ensures CanRun(s, ls) && Run(s, ls) == s.(sh := Responded(s.sh, id, reply).0)
  {
    var s1 := Next(s, Lookup(a, id, reply));
    if id !in s.sh.waitList {
      RunCons(s, Lookup(a, id, reply), []);
      return [Lookup(a, id, reply)] + [];
    }
    var s2 := Next(s1, CheckFlag(a));
    if s.sh.expired {
      RunCons(s1, CheckFlag(a), []);
      RunCons(s, Lookup(a, id, reply), [CheckFlag(a)] + []);
      assert s2.actors == s.actors;
      return [Lookup(a, id, reply)] + ([CheckFlag(a)] + []);
    }
    var s3 := Next(s2, Store(a));
    var s4 := Next(s3, WakeStored(a));
    RunCons(s3, WakeStored(a), []);
    RunCons(s2, Store(a), [WakeStored(a)] + []);
    RunCons(s1, CheckFlag(a), [Store(a)] + ([WakeStored(a)] + []));
    RunCons(s, Lookup(a, id, reply), [CheckFlag(a)] + ([Store(a)] + ([WakeStored(a)] + [])));
    assert s4.actors == s.actors;
    return [Lookup(a, id, reply)] + ([CheckFlag(a)] + ([Store(a)] + ([WakeStored(a)] + [])));
  }

  lemma UndisturbedWriteFailure(s: State, a: nat, id: RequestId) returns (ls: seq<Label>)
    requires a < |s.actors| && s.actors[a].Idle? && s.lock.None?
    requires id in s.sh.waitList ==> s.sh.waitList[id] < |s.sh.waiters|
    ensures CanRun(s, ls) && Run(s, ls) == s.(sh := WriteFailedFor(s.sh, id))
  {
    var s1 := Next(s, FailLookup(a, id));
    if id !in s.sh.waitList {
      RunCons(s, FailLookup(a, id), []);
      return [FailLookup(a, id)] + [];
    }
    var s2 := Next(s1, FailStore(a));
    var s3 := Next(s2, WakeStored(a));
    RunCons(s2, WakeStored(a), []);
    RunCons(s1, FailStore(a), [WakeStored(a)] + []);
    RunCons(s, FailLookup(a, id), [FailStore(a)] + ([WakeStored(a)] + []));
    assert s3.actors == s.actors;
    return [FailLookup(a, id)] + ([FailStore(a)] + ([WakeStored(a)] + []));
  }

  /** The wake loop of `mark_expired` ends in the same state whatever order it takes. */
  lemma {:induction false} WakesInAnyOrder(s: State, a: nat, wakes: seq<Label>)
    requires a < |s.actors| && s.actors[a].Waking?
    requires forall i :: 0 <= i < |wakes| ==> wakes[i].WakeNext? && wakes[i].a == a
    requires CanRun(s, wakes + [Unlock(a)])
    ensures var t := Run(s, wakes + [Unlock(a)]);
            && t.sh == s.sh.(waiters := WakeAll(s.sh.waiters, s.actors[a].left))
            && t.futures == s.futures && t.actors == s.actors[a := Idle] && t.lock == None
    decreases |wakes|
  {
    if wakes == [] {
      assert wakes + [Unlock(a)] == [Unlock(a)];
      assert WakeAll(s.sh.waiters, {}) == s.sh.waiters;
      assert [Unlock(a)][1..] == [];
    } else {
      var t := Next(s, wakes[0]);
      assert (wakes + [Unlock(a)])[1..] == wakes[1..] + [Unlock(a)];
      WakesInAnyOrder(t, a, wakes[1..]);
      WakeAllStep(s.sh.waiters, s.actors[a].left, wakes[0].slot);
    }
  }

  lemma WakeAllStep(waiters: seq<Waiter>, left: set<nat>, slot: nat)
    requires slot in left && slot < |waiters|
    ensures WakeAll(waiters[slot := WakeWaiter(waiters[slot])], left - {slot}) == WakeAll(waiters, left)
  {
  }

  /** An undisturbed `mark_expired`, with its wakes in any order. */
  lemma UndisturbedMarkExpired(s: State, a: nat, wakes: seq<Label>)
    requires a < |s.actors| && s.actors[a].Idle? && s.lock.None? && !s.sh.expired
    requires forall i :: 0 <= i < |wakes| ==> wakes[i].WakeNext? && wakes[i].a == a
    requires CanRun(s, [Lock(a)] + ([Swap(a)] + (wakes + [Unlock(a)])))
    ensures Run(s, [Lock(a)] + ([Swap(a)] + (wakes + [Unlock(a)]))) == s.(sh := Expired(s.sh))
  {
    var rest := wakes + [Unlock(a)];
    var s1 := Next(s, Lock(a));
    assert ([Lock(a)] + ([Swap(a)] + rest))[1..] == [Swap(a)] + rest;
    var s2 := Next(s1, Swap(a));
    assert ([Swap(a)] + rest)[1..] == rest;
    WakesInAnyOrder(s2, a, wakes);
    assert s2.actors[a := Idle] == s.actors;
  }

  /** The steps `ls` and then `last` have the effect and the outcome of `Polled`. */
  ghost predicate RunsAsPolled(s: State, f: nat, ls: seq<Label>, last: Label)
    requires FutureAt(s, f) && s.futures[f].Resting? && Live(s.sh, s.futures[f].state)
  {
    && CanRun(s, ls) && Enabled(Run(s, ls), last)
    && var (sh, state, outcome) := Polled(s.sh, s.futures[f].state);
       && Returned(Run(s, ls), last) == Some(outcome)
       && Next(Run(s, ls), last) == State(sh, s.futures[f := Resting(state, outcome.Pending?)], s.actors, s.lock)
  }

  lemma PollsPending(s: State, f: nat)
    requires FutureAt(s, f) && s.futures[f].Resting? && s.futures[f].state.Some? && Live(s.sh, s.futures[f].state)
    requires s.sh.waiters[s.futures[f].state.value.slot].cell.Vacant? && !s.sh.expired
    ensures RunsAsPolled(s, f, [Poll(f)] + ([Inspect(f)] + []), CheckExpired(f))
  {
    var s1 := Next(s, Poll(f));
    RunCons(s1, Inspect(f), []);
    RunCons(s, Poll(f), [Inspect(f)] + []);
  }

  lemma PollsExpired(s: State, f: nat)
    requires FutureAt(s, f) && s.futures[f].Resting? && s.futures[f].state.Some? && Live(s.sh, s.futures[f].state)
    requires s.sh.waiters[s.futures[f].state.value.slot].cell.Vacant? && s.sh.expired && s.lock.None?
    ensures RunsAsPolled(s, f, [Poll(f)] + ([Inspect(f)] + ([CheckExpired(f)] + ([TakeWaker(f)] + []))), Free(f))
  {
    var s1 := Next(s, Poll(f));
    var s2 := Next(s1, Inspect(f));
    var s3 := Next(s2, CheckExpired(f));
    RunCons(s3, TakeWaker(f), []);
    RunCons(s2, CheckExpired(f), [TakeWaker(f)] + []);
    RunCons(s1, Inspect(f), [CheckExpired(f)] + ([TakeWaker(f)] + []));
    RunCons(s, Poll(f), [Inspect(f)] + ([CheckExpired(f)] + ([TakeWaker(f)] + [])));
  }

  lemma PollsFilled(s: State, f: nat)
    requires FutureAt(s, f) && s.futures[f].Resting? && s.futures[f].state.Some? && Live(s.sh, s.futures[f].state)
    requires !s.sh.waiters[s.futures[f].state.value.slot].cell.Vacant? && s.lock.None?
    ensures RunsAsPolled(s, f, [Poll(f)] + ([Inspect(f)] + ([TakeWaker(f)] + [])), Free(f))
  {
    var s1 := Next(s, Poll(f));
    var s2 := Next(s1, Inspect(f));
    RunCons(s2, TakeWaker(f), []);
    RunCons(s1, Inspect(f), [TakeWaker(f)] + []);
    RunCons(s, Poll(f), [Inspect(f)] + ([TakeWaker(f)] + []));
  }

  /** An undisturbed `poll`: its steps in the protocol have the effect and the outcome of `Polled`. */
  lemma UndisturbedPoll(s: State, f: nat) returns (ls: seq<Label>, last: Label)
    requires FutureAt(s, f) && s.futures[f].Resting? && Live(s.sh, s.futures[f].state) && s.lock.None?
    ensures |ls| <= 4 && RunsAsPolled(s, f, ls, last)
  {
    if s.futures[f].state.None? {
      return [], Poll(f);
    }
    hide RunsAsPolled;
    if !s.sh.waiters[s.futures[f].state.value.slot].cell.Vacant? {
      PollsFilled(s, f);
      return [Poll(f)] + ([Inspect(f)] + ([TakeWaker(f)] + [])), Free(f);
    }
    if s.sh.expired {
      PollsExpired(s, f);
      return [Poll(f)] + ([Inspect(f)] + ([CheckExpired(f)] + ([TakeWaker(f)] + []))), Free(f);
    }
    PollsPending(s, f);
    return [Poll(f)] + ([Inspect(f)] + []), CheckExpired(f);
  }

  /** An undisturbed `try_recv`. */
  lemma UndisturbedTryRecv(s: State, f: nat) returns (ls: seq<Label>, last: Label)
    requires FutureAt(s, f) && s.futures[f].Resting? && Live(s.sh, s.futures[f].state) && s.lock.None?
    ensures |ls| <= 2 && CanRun(s, ls) && Enabled(Run(s, ls), last)
    ensures var (sh, state, outcome) := Tried(s.sh, s.futures[f].state);
            && Returned(Run(s, ls), last) == Some(outcome)
            && Next(Run(s, ls), last).sh == sh
            && Next(Run(s, ls), last).actors == s.actors && Next(Run(s, ls), last).lock == s.lock
            && Next(Run(s, ls), last).futures == s.futures[f := Resting(state, state.Some? && s.futures[f].parked)]
  {
    if s.futures[f].state.None? {
      return [], TryRecv(f);
    }
    var s1 := Next(s, TryRecv(f));
    if s1.futures[f].TryFoundVacant? {
      RunCons(s, TryRecv(f), []);
      return [TryRecv(f)] + [], TryCheckExpired(f);
    }
    RunCons(s1, TakeWaker(f), []);
    RunCons(s, TryRecv(f), [TakeWaker(f)] + []);
    return [TryRecv(f)] + ([TakeWaker(f)] + []), Free(f);
  }
}
