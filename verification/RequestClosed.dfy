/** When the `Closed` that `try_recv` reports on an expired context is final. */
module RequestClosed {
  import opened Common
  import opened Requests
  import opened RequestInvariants
  import RequestTheorems

  /** A response for `slot` is in its cell, or a `set_response` past its expiry check is about to put it there. */
  predicate OnItsWay(s: State, slot: nat) {
    SlotAt(s, slot) &&
    (s.sh.waiters[slot].cell.Ready? ||
     (s.sh.waiters[slot].cell.Vacant? && exists a :: 0 <= a < |s.actors| && StoresNext(s, a, slot)))
  }

  predicate StoresNext(s: State, a: nat, slot: nat) {
    a < |s.actors| && s.actors[a].Checked? && s.actors[a].slot == slot
  }

  /** The next step of future `g` returns a response for `slot`. */
  predicate AnswersNext(s: State, g: nat, slot: nat) {
    && Enabled(s, Free(g)) && s.futures[g].r.slot == slot
    && Returned(s, Free(g)).Some? && Returned(s, Free(g)).value.Answer?
  }

  /** Some run from here returns a response for `slot`. */
  ghost predicate MayAnswer(s: State, slot: nat) {
    exists ls, g :: CanRun(s, ls) && AnswersNext(Run(s, ls), g, slot)
  }

  // ---- Nothing on its way: no answer ever ----

  ghost predicate Hopeless(s: State, slot: nat) {
    && SlotAt(s, slot) && s.sh.expired && !OnItsWay(s, slot)
    && forall g :: 0 <= g < |s.futures| ==> !Carries(s.futures[g], slot)
  }

  /** The future carries a response away from `slot`. */
  predicate Carries(future: Future, slot: nat) {
    (future.Unregistering? || future.Freeing?) && future.r.slot == slot && future.ending.Deliver?
  }

  lemma HopelessStep(s: State, l: Label, slot: nat)
    requires Hopeless(s, slot) && Enabled(s, l)
    ensures Hopeless(Next(s, l), slot)
  {
    var t := Next(s, l);
    if l.Store? {
      assert StoresNext(s, l.a, s.actors[l.a].slot);
    }
    assert forall a: nat :: StoresNext(t, a, slot) ==> StoresNext(s, a, slot);
  }

  lemma {:induction false} HopelessRun(s: State, ls: seq<Label>, slot: nat)
    requires Hopeless(s, slot) && CanRun(s, ls)
    ensures Hopeless(Run(s, ls), slot)
    decreases |ls|
  {
    hide Hopeless, Next, Enabled;
    if ls == [] {
    } else {
      HopelessStep(s, ls[0], slot);
      HopelessRun(Next(s, ls[0]), ls[1..], slot);
    }
  }

  lemma HopelessForever(s: State, slot: nat)
    requires Hopeless(s, slot)
    ensures !MayAnswer(s, slot)
  {
    hide CanRun, Run;
    forall ls, g | CanRun(s, ls)
      ensures !AnswersNext(Run(s, ls), g, slot)
    {
      HopelessRun(s, ls, slot);
    }
  }

  // ---- On its way: a run that answers ----

  lemma {:induction false} RunConcat(s: State, ls: seq<Label>, more: seq<Label>)
    requires CanRun(s, ls) && CanRun(Run(s, ls), more)
    ensures CanRun(s, ls + more) && Run(s, ls + more) == Run(Run(s, ls), more)
    decreases |ls|
  {
    hide Next, Enabled;
    if ls == [] {
      assert ls + more == more;
    } else {
      assert (ls + more)[1..] == ls[1..] + more;
      RunConcat(Next(s, ls[0]), ls[1..], more);
    }
  }

  /** The thread inside the wake loop can always get through and release the wait list. */
  lemma {:induction false} WakesEnd(s: State, a: nat) returns (ls: seq<Label>)
    requires a < |s.actors| && s.actors[a].Waking? && forall slot :: slot in s.actors[a].left ==> SlotAt(s, slot)
    ensures CanRun(s, ls) && Run(s, ls).lock == None && Run(s, ls).futures == s.futures
    decreases |s.actors[a].left|
  {
    if s.actors[a].left == {} {
      RunCons(s, Unlock(a), []);
      ls := [Unlock(a)] + [];
    } else {
      var slot :| slot in s.actors[a].left;
      var rest := WakesEnd(Next(s, WakeNext(a, slot)), a);
      RunCons(s, WakeNext(a, slot), rest);
      ls := [WakeNext(a, slot)] + rest;
    }
  }

  lemma LockIsReleased(s: State) returns (ls: seq<Label>)
    requires Threads(s) && s.sh.expired
    ensures CanRun(s, ls) && Run(s, ls).lock == None && Run(s, ls).futures == s.futures
  {
    if s.lock.None? {
      ls := [];
    } else {
      var a := s.lock.value;
      assert ActorSlotsExist(s, s.actors[a]);
      if s.actors[a].Locked? {
        RunCons(s, Swap(a), []);
        ls := [Swap(a)] + [];
      } else {
        ls := WakesEnd(s, a);
      }
    }
  }

  /** From a response in the cell: take it, unregister, return it. */
  lemma ReadyAnswers(s: State, f: nat)
    requires Inv(s) && s.sh.expired && FutureAt(s, f) && s.futures[f].Resting? && s.futures[f].state.Some?
    requires SlotAt(s, s.futures[f].state.value.slot) && s.sh.waiters[s.futures[f].state.value.slot].cell.Ready?
    ensures MayAnswer(s, s.futures[f].state.value.slot)
  {
    hide Inv, CanRun, Run;
    var r := s.futures[f].state.value;
    var s1 := Next(s, TryRecv(f));
    var s2 := Next(s1, TakeWaker(f));
    InvNext(s, TryRecv(f));
    InvNext(s1, TakeWaker(f));
    assert Threads(s2) by { ThreadsPart(s2); }
    var rest := LockIsReleased(s2);
    assert AnswersNext(Run(s2, rest), f, r.slot);
    RunCons(s1, TakeWaker(f), rest);
    RunCons(s, TryRecv(f), [TakeWaker(f)] + rest);
    assert AnswersNext(Run(s, [TryRecv(f)] + ([TakeWaker(f)] + rest)), f, r.slot);
  }

  lemma ThreadsPart(s: State)
    requires Inv(s)
    ensures Threads(s)
  {
    hide Bijection, WaitListInjective, Threads, Readable, NoLostWakes;
  }

  lemma OnItsWayAnswers(s: State, f: nat)
    requires Inv(s) && s.sh.expired && FutureAt(s, f) && s.futures[f].Resting? && s.futures[f].state.Some?
    requires OnItsWay(s, s.futures[f].state.value.slot)
    ensures MayAnswer(s, s.futures[f].state.value.slot)
  {
    hide Inv, MayAnswer, CanRun, Run;
    var slot := s.futures[f].state.value.slot;
    if s.sh.waiters[slot].cell.Ready? {
      ReadyAnswers(s, f);
    } else {
      var a: nat :| a < |s.actors| && StoresNext(s, a, slot);
      assert StoresNext(s, a, slot);
      assert s.actors[a].Checked?;
      InvNext(s, Store(a));
      ReadyAnswers(Next(s, Store(a)), f);
      MayAnswerEarlier(s, Store(a), slot);
    }
  }

  lemma MayAnswerEarlier(s: State, l: Label, slot: nat)
    requires Enabled(s, l) && MayAnswer(Next(s, l), slot)
    ensures MayAnswer(s, slot)
  {
    hide Next, Enabled, AnswersNext, CanRun, Run;
    var ls, g :| CanRun(Next(s, l), ls) && AnswersNext(Run(Next(s, l), ls), g, slot);
    RunCons(s, l, ls);
  }

  // ---- Exactly when ----

  /** `try_recv` reports `Closed` on an expired context. The same request may still be answered later exactly when a
      response is already in its cell, or the cell is empty and a `set_response` has passed its expiry check for it. */
  lemma ClosedIsFinalUnless(s: State, f: nat)
    requires Inv(s) && Enabled(s, TryCheckExpired(f)) && Returned(s, TryCheckExpired(f)) == Some(Closed)
    ensures MayAnswer(Next(s, TryCheckExpired(f)), s.futures[f].r.slot) <==> OnItsWay(s, s.futures[f].r.slot)
  {
    hide Inv, MayAnswer;
    var slot := s.futures[f].r.slot;
    var t := Next(s, TryCheckExpired(f));
    InvNext(s, TryCheckExpired(f));
    if OnItsWay(s, slot) {
      forall a | StoresNext(s, a, slot)
        ensures StoresNext(t, a, slot)
      {
      }
      OnItsWayAnswers(t, f);
    } else {
      NobodyElseCarries(t, f);
      forall a | StoresNext(t, a, slot)
        ensures StoresNext(s, a, slot)
      {
      }
      HopelessForever(t, slot);
    }
  }

  /** A resting future's waiter exists, and no other future carries a response away from it. */
  lemma NobodyElseCarries(s: State, f: nat)
    requires Inv(s) && FutureAt(s, f) && s.futures[f].Resting? && s.futures[f].state.Some?
    ensures SlotAt(s, s.futures[f].state.value.slot)
    ensures forall g :: 0 <= g < |s.futures| ==> !Carries(s.futures[g], s.futures[f].state.value.slot)
  {
    hide KeysHeld, Threads, Readable, NoLostWakes;
    var r := s.futures[f].state.value;
    assert Owned(s.futures[f]) == Some(r) && Maps(s, r);
    assert forall g :: 0 <= g < |s.futures| && Carries(s.futures[g], r.slot) ==> Owned(s.futures[g]).Some?;
  }

  /** The same over runs: in every state that a run from the beginning reaches. */
  lemma ClosedIsFinalInRuns(threads: nat, states: seq<State>, labels: seq<Label>, i: nat, f: nat)
    requires RequestTheorems.Behaviour(threads, states, labels) && i < |labels| && labels[i] == TryCheckExpired(f)
    requires Returned(states[i], labels[i]) == Some(Closed)
    ensures MayAnswer(states[i + 1], states[i].futures[f].r.slot) <==> OnItsWay(states[i], states[i].futures[f].r.slot)
  {
    hide Inv, MayAnswer, OnItsWay;
    RequestTheorems.BehaviourInv(threads, states, labels, i);
    ClosedIsFinalUnless(states[i], f);
  }
}
