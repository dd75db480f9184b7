/** `RequestContext`, `Waiter` and `ReceiveResponse` as the objects they are, each call proved against its
    transition. */
module RequestContexts {
  import opened Common
  import opened Requests
  import opened RequestSpec

  /** `Waiter`: shared between the wait list and the future. */
  class WaitObject {
    var response: Cell
    var registered: bool
    var woken: bool
    ghost const slot: nat

    constructor (ghost slot: nat)
      ensures this.slot == slot && View() == Waiter(Vacant, false, false)
    {
      response, registered, woken := Vacant, false, false;
      this.slot := slot;
    }

    function View(): Waiter
      reads this
    {
      Waiter(response, registered, woken)
    }

    /** `waker.register`. */
    method Register()
      modifies this`registered, this`woken
      ensures View() == RegisterWaker(old(View()))
    {
      registered, woken := true, false;
    }

    /** `waker.wake`. */
    method Wake()
      modifies this`registered, this`woken
      ensures View() == WakeWaiter(old(View()))
    {
      if registered {
        registered, woken := false, true;
      }
    }
  }

  /** The wait list by slots. */
  ghost function SlotsOf(waitList: map<RequestId, WaitObject>): (slots: map<RequestId, nat>)
    ensures slots.Keys == waitList.Keys
    ensures forall id :: id in waitList ==> slots[id] == waitList[id].slot
  {
    map id | id in waitList :: waitList[id].slot
  }

  lemma SlotsOfEntered(waitList: map<RequestId, WaitObject>, id: RequestId, waitObj: WaitObject)
    ensures SlotsOf(waitList[id := waitObj]) == SlotsOf(waitList)[id := waitObj.slot]
  {
  }

  lemma SlotsOfRemoved(waitList: map<RequestId, WaitObject>, id: RequestId)
    ensures SlotsOf(waitList - {id}) == SlotsOf(waitList) - {id}
  {
  }

  class RequestContext {
    var waitList: map<RequestId, WaitObject>
    var expired: bool

    /** Every wait object ever allocated here, in allocation order. */
    ghost var arena: seq<WaitObject>

    ghost predicate Valid()
      reads this, arena
    {
      && (forall i :: 0 <= i < |arena| ==> arena[i].slot == i)
      && (forall id :: id in waitList ==> waitList[id].slot < |arena| && arena[waitList[id].slot] == waitList[id])
    }

    ghost function Abs(): (sh: Shared)
      reads this, arena
      requires Valid()
      ensures |sh.waiters| == |arena|
      ensures forall id :: id in sh.waitList <==> id in waitList
      ensures forall id :: id in sh.waitList ==> sh.waitList[id] == waitList[id].slot < |sh.waiters|
      ensures forall i :: 0 <= i < |arena| ==> sh.waiters[i] == arena[i].View()
      ensures sh.expired == expired
    {
      Shared(SlotsOf(waitList),
             seq(|arena|, i requires 0 <= i < |arena| reads this, arena => arena[i].View()),
             expired)
    }

    constructor ()
      ensures Valid() && fresh(this) && Abs() == Shared(map[], [], false)
    {
      waitList, expired, arena := map[], false, [];
    }

    /** `try_allocate_new_request`. */
    method TryAllocateNewRequest(id: RequestId) returns (granted: Option<WaitObject>)
      requires Valid()
      modifies this
      ensures Valid() && Abs() == Allocated(old(Abs()), id).0
      ensures granted.Some? <==> Allocated(old(Abs()), id).1.Some?
      ensures granted.None? ==> arena == old(arena)
      ensures granted.Some? ==> fresh(granted.value) && arena == old(arena) + [granted.value]
      ensures granted.Some? ==> id in waitList && waitList[id] == granted.value
    {
      var waitObj := new WaitObject(|arena|);
      if expired || id in waitList {
        return None;
      }
      Insert(id, waitObj);
      return Some(waitObj);
    }

    /** `try_insert` of a wait object made for the purpose. */
    method Insert(id: RequestId, waitObj: WaitObject)
      requires Valid() && !expired && id !in waitList
      requires waitObj.slot == |arena| && waitObj.View() == Waiter(Vacant, false, false)
      modifies this`waitList, this`arena
      ensures Valid() && Abs() == Allocated(old(Abs()), id).0
      ensures arena == old(arena) + [waitObj] && waitList == old(waitList)[id := waitObj]
    {
      hide Abs;
      Track(waitObj);
      Enter(id, waitObj);
    }

    /** A new wait object. */
    ghost method Track(waitObj: WaitObject)
      requires Valid() && waitObj.slot == |arena|
      modifies this`arena
      ensures Valid() && arena == old(arena) + [waitObj]
      ensures Abs() == old(Abs()).(waiters := old(Abs()).waiters + [waitObj.View()])
    {
      ghost var before := Abs();
      arena := arena + [waitObj];
      assert Abs().waiters == before.waiters + [waitObj.View()];
      assert Abs().waitList == before.waitList;
    }

    method Enter(id: RequestId, waitObj: WaitObject)
      requires Valid() && waitObj.slot < |arena| && arena[waitObj.slot] == waitObj
      modifies this`waitList
      ensures Valid() && waitList == old(waitList)[id := waitObj]
      ensures Abs() == old(Abs()).(waitList := old(Abs()).waitList[id := waitObj.slot])
    {
      hide SlotsOf;
      SlotsOfEntered(waitList, id, waitObj);
      waitList := waitList[id := waitObj];
    }

    /** `free_request_id`; the source panics when the id is not registered. */
    method FreeRequestId(id: RequestId)
      requires Valid() && id in waitList
      modifies this`waitList
      ensures Valid() && arena == old(arena)
      ensures Abs() == old(Abs()).(waitList := old(Abs()).waitList - {id})
    {
      hide SlotsOf;
      SlotsOfRemoved(waitList, id);
      waitList := waitList - {id};
    }

    /** `set_response`; a refused response goes back to the caller. */
    method SetResponse(id: RequestId, reply: Reply) returns (accepted: bool)
      requires Valid()
      modifies arena
      ensures Valid() && (Abs(), accepted) == Responded(old(Abs()), id, reply)
      ensures accepted <==> id in waitList && !expired
      ensures accepted && (old(waitList[id].response).Vacant? || old(waitList[id].response).Ready?) ==>
                waitList[id].response == Ready(reply)
      ensures forall i :: 0 <= i < |arena| && !(accepted && arena[i] == waitList[id]) ==>
                arena[i].View() == old(arena[i].View())
    {
      ghost var before := Abs();
      if id !in waitList {
        return false;
      }
      var waitObj := waitList[id];
      if expired {
        return false;
      }
      if waitObj.response.Vacant? || waitObj.response.Ready? {
        waitObj.response := Ready(reply);
      }
      waitObj.Wake();
      assert Abs().waitList == before.waitList;
      assert Abs().waiters == before.waiters[waitObj.slot := waitObj.View()];
      return true;
    }

    /** `set_request_write_failed`. */
    method SetRequestWriteFailed(id: RequestId)
      requires Valid()
      modifies arena
      ensures Valid() && Abs() == WriteFailedFor(old(Abs()), id)
      ensures id in waitList ==> waitList[id].response == WriteFailed
    {
      ghost var before := Abs();
      if id !in waitList {
        return;
      }
      var waitObj := waitList[id];
      waitObj.response := WriteFailed;
      waitObj.Wake();
      assert Abs().waitList == before.waitList;
      assert Abs().waiters == before.waiters[waitObj.slot := waitObj.View()];
    }

    /** One turn of the wake loop. */
    method WakeRegistered(id: RequestId)
      requires Valid() && id in waitList
      modifies arena
      ensures Valid() && waitList[id].slot == old(waitList[id].slot) < |old(Abs()).waiters|
      ensures Abs() == WithWaiterAt(old(Abs()), waitList[id].slot, WakeWaiter(old(Abs()).waiters[waitList[id].slot]))
    {
      ghost var before := Abs();
      waitList[id].Wake();
      assert Abs().waitList == before.waitList;
      assert Abs().waiters == before.waiters[waitList[id].slot := WakeWaiter(before.waiters[waitList[id].slot])];
    }

    /** The wake loop: every registered waiter once, in whatever order the map yields them. */
    method WakeEveryone()
      requires Valid()
      modifies arena
      ensures Valid()
      ensures Abs() == old(Abs()).(waiters := WakeAll(old(Abs()).waiters, old(Abs()).waitList.Values))
    {
      hide WakeWaiter, WakeAll, Abs;
      ghost var before := Abs();
      ghost var done: set<nat> := {};
      WakeNobody(before.waiters);
      var left := waitList.Keys;
      while left != {}
        invariant Valid() && left <= waitList.Keys
        invariant Abs() == before.(waiters := WakeAll(before.waiters, done))
        invariant done <= before.waitList.Values
        invariant forall id :: id in before.waitList && id !in left ==> before.waitList[id] in done
      {
        var id :| id in left;
        ghost var slot := before.waitList[id];
        WakeAllAdd(before.waiters, done, slot);
        WakeRegistered(id);
        left := left - {id};
        done := done + {slot};
      }
      assert done == before.waitList.Values;
    }

    /** `mark_expired`. */
    method MarkExpired()
      requires Valid()
      modifies this`expired, arena
      ensures Valid() && Abs() == Expired(old(Abs()))
    {
      hide WakeWaiter, WakeAll;
      if expired {
        return;
      }
      ghost var before := Abs();
      expired := true;
      assert Abs() == before.(expired := true);
      WakeEveryone();
    }
  }

  /** `Receive`. */
  datatype Registration = Registration(id: RequestId, waitObj: WaitObject)

  /** `ReceiveResponse`: the future of one request. */
  class ReceiveResponse {
    const owner: RequestContext
    var state: Option<Registration>

    ghost function StateView(): Option<Receive>
      reads this
    {
      if state.None? then None else Some(Receive(state.value.id, state.value.waitObj.slot))
    }

    /** The registration is the wait list's own entry. */
    ghost predicate Registered()
      reads this, owner
    {
      state.Some? ==> state.value.id in owner.waitList && owner.waitList[state.value.id] == state.value.waitObj
    }

    ghost predicate Valid()
      reads this, owner, owner.arena
    {
      owner.Valid() && Registered() && Live(owner.Abs(), StateView())
    }

    constructor (owner: RequestContext, state: Option<Registration>)
      ensures this.owner == owner && this.state == state
    {
      this.owner, this.state := owner, state;
    }

    /** `try_unregister`. */
    method TryUnregister()
      requires owner.Valid()
      requires Registered()
      modifies this, owner`waitList, if state.Some? then {state.value.waitObj} else {}
      ensures owner.Valid() && owner.arena == old(owner.arena) && state == None
      ensures old(state).None? ==> owner.Abs() == old(owner.Abs())
      ensures old(state).Some? ==> owner.Abs() == Unregistered(old(owner.Abs()), old(StateView()).value)
    {
      if state.Some? {
        ghost var before := owner.Abs();
        var obj := state.value;
        state := None;
        obj.waitObj.registered := false;
        assert owner.Abs().waitList == before.waitList;
        assert owner.Abs().waiters == before.waiters[obj.waitObj.slot := obj.waitObj.View()];
        owner.FreeRequestId(obj.id);
      }
    }

    /** The rest of `poll` and `try_recv` once the cell turned out not to be empty. */
    method TakeResult() returns (outcome: Outcome)
      requires Valid() && state.Some? && !state.value.waitObj.response.Vacant?
      modifies this, owner`waitList, owner.arena
      ensures owner.Valid() && owner.arena == old(owner.arena)
      ensures (owner.Abs(), StateView(), outcome) == Taken(old(owner.Abs()), old(StateView()).value)
    {
      ghost var before := owner.Abs();
      var waitObj := state.value.waitObj;
      if waitObj.response.Ready? {
        outcome := Answer(waitObj.response.reply);
        waitObj.response := PendingRemove;
      } else {
        outcome := Closed;
      }
      assert owner.Abs().waitList == before.waitList;
      assert owner.Abs().waiters == before.waiters[waitObj.slot := waitObj.View()];
      TryUnregister();
    }

    /** `poll`. */
    method Poll() returns (outcome: Outcome)
      requires Valid()
      modifies this, owner`waitList, owner.arena
      ensures owner.Valid() && owner.arena == old(owner.arena)
      ensures (owner.Abs(), StateView(), outcome) == Polled(old(owner.Abs()), old(StateView()))
    {
      if state.None? {
        return Empty;
      }
      ghost var before := owner.Abs();
      var waitObj := state.value.waitObj;
      waitObj.Register();
      assert owner.Abs().waitList == before.waitList;
      assert owner.Abs().waiters == before.waiters[waitObj.slot := waitObj.View()];
      if !waitObj.response.Vacant? {
        outcome := TakeResult();
      } else if owner.expired {
        TryUnregister();
        outcome := Closed;
      } else {
        outcome := Pending;
      }
    }

    /** `try_recv`. */
    method TryRecv() returns (outcome: Outcome)
      requires Valid()
      modifies this, owner`waitList, owner.arena
      ensures owner.Valid() && owner.arena == old(owner.arena)
      ensures (owner.Abs(), StateView(), outcome) == Tried(old(owner.Abs()), old(StateView()))
    {
      if state.None? {
        return Retrieved;
      }
      if !state.value.waitObj.response.Vacant? {
        outcome := TakeResult();
      } else if owner.expired {
        outcome := Closed;
      } else {
        outcome := Empty;
      }
    }

    /** `into_owned`: the registration moves to a new handle; this one is left without one. */
    method IntoOwned() returns (owned: ReceiveResponse)
      modifies this
      ensures fresh(owned) && owned.owner == owner && owned.state == old(state) && state == None
    {
      owned := new ReceiveResponse(owner, state);
      state := None;
    }
  }
}
