/** The pending-request protocol: shared state, and the programs of its actors as atomic steps. */
module Requests {
  import opened Common
  import opened Codec

  /** What the reader hands over for one response frame. */
  datatype Reply = Reply(raw: Bytes, errc: Option<ResponseError>, payload: Range)

  /** What the caller reads from it. */
  predicate Reads(reply: Reply, verdict: Verdict) {
    && reply.errc == verdict.errc && reply.payload.Within(reply.raw) && reply.payload.Of(reply.raw) == verdict.payload
  }

  /** `ResponseState`. */
  datatype Cell = Vacant | Ready(reply: Reply) | WriteFailed | PendingRemove

  /** `Waiter`: the response cell and the waker slot. `woken` records that the registered task was scheduled. */
  datatype Waiter = Waiter(cell: Cell, registered: bool, woken: bool)

  /** `RequestContext`; the wait list refers to waiters by their position in allocation order. */
  datatype Shared = Shared(waitList: map<RequestId, nat>, waiters: seq<Waiter>, expired: bool)

  // ---- Single accesses to a waiter ----

  function RegisterWaker(w: Waiter): Waiter {
    w.(registered := true, woken := false)
  }

  /** `waker.wake()`: takes the waker, if there is one, and schedules its task. */
  function WakeWaiter(w: Waiter): Waiter {
    if w.registered then w.(registered := false, woken := true) else w
  }

  /** The cell after the reader's write: only an empty cell or an unread response is replaced. */
  function CellAfterResponse(cell: Cell, reply: Reply): Cell {
    if cell.Vacant? || cell.Ready? then Ready(reply) else cell
  }

  /** The cell after it has been inspected: a response is moved out. */
  function CellAfterInspection(cell: Cell): Cell {
    if cell.Ready? then PendingRemove else cell
  }

  // ---- Futures ----

  /** `Receive`. */
  datatype Receive = Receive(id: RequestId, slot: nat)

  datatype Outcome = Pending | Answer(reply: Reply) | Closed | Empty | Retrieved

  /** What an unregistering future does in the end: return the response, return `Closed`, or be dropped. */
  datatype Ending = Deliver(reply: Reply) | Fail | Vanish

  /** The control state of a `ReceiveResponse`. `parked`: its latest `poll` returned `Pending`. */
  datatype Future =
    | Gone
    | Resting(state: Option<Receive>, parked: bool)
    | Registered(r: Receive)
    | FoundVacant(r: Receive)
    | TryFoundVacant(r: Receive, parked: bool)
    | Unregistering(r: Receive, ending: Ending)
    | Freeing(r: Receive, ending: Ending)

  /** Where a poll goes from the cell it inspected, when the cell is not empty. */
  function AfterInspection(r: Receive, cell: Cell): Future
    requires !cell.Vacant?
  {
    Unregistering(r, if cell.Ready? then Deliver(cell.reply) else Fail)
  }

  function AfterFree(ending: Ending): Future {
    if ending.Vanish? then Gone else Resting(None, false)
  }

  // ---- Reader, writer and drop guards ----

  /** The control state of a thread inside `set_response`, `set_request_write_failed` or `mark_expired`. */
  datatype Actor =
    | Idle
    | Found(slot: nat, reply: Reply)
    | Checked(slot: nat, reply: Reply)
    | FailFound(slot: nat)
    | Stored(slot: nat)
    | Locked
    | Waking(left: set<nat>)

  // ---- The interleaved system ----

  /** Any number of futures and of threads; `lock` is the holder of the wait-list mutex across steps. */
  datatype State = State(sh: Shared, futures: seq<Future>, actors: seq<Actor>, lock: Option<nat>)

  /** One atomic action: a lock region, a flag access, a waker registration or a wake. */
  datatype Label =
    | Allocate(id: RequestId)
    | Poll(f: nat)
    | Inspect(f: nat)
    | CheckExpired(f: nat)
    | TryRecv(f: nat)
    | TryCheckExpired(f: nat)
    | TakeWaker(f: nat)
    | Free(f: nat)
    | IntoOwned(f: nat)
    | DropFuture(f: nat)
    | Lookup(a: nat, id: RequestId, reply: Reply)
    | CheckFlag(a: nat)
    | Store(a: nat)
    | FailLookup(a: nat, id: RequestId)
    | FailStore(a: nat)
    | WakeStored(a: nat)
    | Lock(a: nat)
    | Swap(a: nat)
    | WakeNext(a: nat, slot: nat)
    | Unlock(a: nat)

  function Initial(threads: nat): State {
    State(Shared(map[], [], false), [], seq(threads, _ => Idle), None)
  }

  predicate FutureAt(s: State, f: nat) {
    f < |s.futures|
  }

  /** Slots held in control states always exist; stating it here keeps `Next` total. */
  predicate SlotAt(s: State, slot: nat) {
    slot < |s.sh.waiters|
  }

  predicate Enabled(s: State, l: Label) {
    match l
    case Allocate(_) => s.lock.None?
    case Poll(f) =>
      && FutureAt(s, f) && s.futures[f].Resting?
      && (s.futures[f].state.Some? ==> SlotAt(s, s.futures[f].state.value.slot))
    case Inspect(f) => FutureAt(s, f) && s.futures[f].Registered? && SlotAt(s, s.futures[f].r.slot)
    case CheckExpired(f) => FutureAt(s, f) && s.futures[f].FoundVacant?
    case TryRecv(f) =>
      && FutureAt(s, f) && s.futures[f].Resting?
      && (s.futures[f].state.Some? ==> SlotAt(s, s.futures[f].state.value.slot))
    case TryCheckExpired(f) => FutureAt(s, f) && s.futures[f].TryFoundVacant?
    case TakeWaker(f) => FutureAt(s, f) && s.futures[f].Unregistering? && SlotAt(s, s.futures[f].r.slot)
    case Free(f) => FutureAt(s, f) && s.futures[f].Freeing? && s.lock.None?
    case IntoOwned(f) => FutureAt(s, f) && s.futures[f].Resting?
    case DropFuture(f) => FutureAt(s, f) && s.futures[f].Resting?
    case Lookup(a, _, _) => a < |s.actors| && s.actors[a].Idle? && s.lock.None?
    case CheckFlag(a) => a < |s.actors| && s.actors[a].Found?
    case Store(a) => a < |s.actors| && s.actors[a].Checked? && SlotAt(s, s.actors[a].slot)
    case FailLookup(a, _) => a < |s.actors| && s.actors[a].Idle? && s.lock.None?
    case FailStore(a) => a < |s.actors| && s.actors[a].FailFound? && SlotAt(s, s.actors[a].slot)
    case WakeStored(a) => a < |s.actors| && s.actors[a].Stored? && SlotAt(s, s.actors[a].slot)
    case Lock(a) => a < |s.actors| && s.actors[a].Idle? && s.lock.None?
    case Swap(a) => a < |s.actors| && s.actors[a].Locked?
    case WakeNext(a, slot) => a < |s.actors| && s.actors[a].Waking? && slot in s.actors[a].left && SlotAt(s, slot)
    case Unlock(a) => a < |s.actors| && s.actors[a].Waking? && s.actors[a].left == {}
  }

  function WithWaiter(s: State, slot: nat, w: Waiter): State
    requires SlotAt(s, slot)
  {
    s.(sh := s.sh.(waiters := s.sh.waiters[slot := w]))
  }

  function WithFuture(s: State, f: nat, future: Future): State
    requires FutureAt(s, f)
  {
    s.(futures := s.futures[f := future])
  }

  function WithActor(s: State, a: nat, actor: Actor): State
    requires a < |s.actors|
  {
    s.(actors := s.actors[a := actor])
  }

  function Next(s: State, l: Label): State
    requires Enabled(s, l)
  {
    match l
    case Allocate(id) =>
      if s.sh.expired || id in s.sh.waitList then s
      else
        var slot := |s.sh.waiters|;
        s.(sh := s.sh.(waitList := s.sh.waitList[id := slot], waiters := s.sh.waiters + [Waiter(Vacant, false, false)]),
           futures := s.futures + [Resting(Some(Receive(id, slot)), false)])
    case Poll(f) =>
      (match s.futures[f].state
       case None => WithFuture(s, f, Resting(None, false))
       case Some(r) => WithFuture(WithWaiter(s, r.slot, RegisterWaker(s.sh.waiters[r.slot])), f, Registered(r)))
    case Inspect(f) =>
      var r := s.futures[f].r;
      var w := s.sh.waiters[r.slot];
      if w.cell.Vacant? then WithFuture(s, f, FoundVacant(r))
      else WithFuture(WithWaiter(s, r.slot, w.(cell := CellAfterInspection(w.cell))), f, AfterInspection(r, w.cell))
    case CheckExpired(f) =>
      var r := s.futures[f].r;
      WithFuture(s, f, if s.sh.expired then Unregistering(r, Fail) else Resting(Some(r), true))
    case TryRecv(f) =>
      (match s.futures[f].state
       case None => WithFuture(s, f, Resting(None, false))
       case Some(r) =>
         var w := s.sh.waiters[r.slot];
         if w.cell.Vacant? then WithFuture(s, f, TryFoundVacant(r, s.futures[f].parked))
         else WithFuture(WithWaiter(s, r.slot, w.(cell := CellAfterInspection(w.cell))), f, AfterInspection(r, w.cell)))
    case TryCheckExpired(f) => WithFuture(s, f, Resting(Some(s.futures[f].r), s.futures[f].parked))
    case TakeWaker(f) =>
      var r := s.futures[f].r;
      WithFuture(WithWaiter(s, r.slot, s.sh.waiters[r.slot].(registered := false)), f, Freeing(r, s.futures[f].ending))
    case Free(f) =>
      WithFuture(s.(sh := s.sh.(waitList := s.sh.waitList - {s.futures[f].r.id})), f, AfterFree(s.futures[f].ending))
    case IntoOwned(f) =>
      s.(futures := s.futures[f := Gone] + [Resting(s.futures[f].state, s.futures[f].parked)])
    case DropFuture(f) =>
      WithFuture(s, f, if s.futures[f].state.None? then Gone else Unregistering(s.futures[f].state.value, Vanish))
    case Lookup(a, id, reply) =>
      if id in s.sh.waitList then WithActor(s, a, Found(s.sh.waitList[id], reply)) else s
    case CheckFlag(a) =>
      WithActor(s, a, if s.sh.expired then Idle else Checked(s.actors[a].slot, s.actors[a].reply))
    case Store(a) =>
      var slot := s.actors[a].slot;
      var w := s.sh.waiters[slot];
      WithActor(WithWaiter(s, slot, w.(cell := CellAfterResponse(w.cell, s.actors[a].reply))), a, Stored(slot))
    case FailLookup(a, id) =>
      if id in s.sh.waitList then WithActor(s, a, FailFound(s.sh.waitList[id])) else s
    case FailStore(a) =>
      var slot := s.actors[a].slot;
      WithActor(WithWaiter(s, slot, s.sh.waiters[slot].(cell := WriteFailed)), a, Stored(slot))
    case WakeStored(a) =>
      var slot := s.actors[a].slot;
      WithActor(WithWaiter(s, slot, WakeWaiter(s.sh.waiters[slot])), a, Idle)
    case Lock(a) => WithActor(s, a, Locked).(lock := Some(a))
    case Swap(a) =>
      if s.sh.expired then WithActor(s, a, Idle).(lock := None)
      else WithActor(s, a, Waking(s.sh.waitList.Values)).(sh := s.sh.(expired := true))
    case WakeNext(a, slot) =>
      WithActor(WithWaiter(s, slot, WakeWaiter(s.sh.waiters[slot])), a, Waking(s.actors[a].left - {slot}))
    case Unlock(a) => WithActor(s, a, Idle).(lock := None)
  }

  /** What the call that ends with this step returns to its caller, if a call ends here. */
  function Returned(s: State, l: Label): Option<Outcome>
    requires Enabled(s, l)
  {
    match l
    case Poll(f) => if s.futures[f].state.None? then Some(Empty) else None
    case CheckExpired(f) => if s.sh.expired then None else Some(Pending)
    case TryRecv(f) => if s.futures[f].state.None? then Some(Retrieved) else None
    case TryCheckExpired(f) => Some(if s.sh.expired then Closed else Empty)
    case Free(f) =>
      (match s.futures[f].ending
       case Deliver(reply) => Some(Answer(reply))
       case Fail => Some(Closed)
       case Vanish => None)
    case _ => None
  }

  /** The source's own assertions: `free_request_id` finds the id, and an inspected cell is not `PendingRemove`. */
  predicate AssertionHolds(s: State, l: Label)
    requires Enabled(s, l)
  {
    match l
    case Inspect(f) => !s.sh.waiters[s.futures[f].r.slot].cell.PendingRemove?
    case TryRecv(f) => s.futures[f].state.Some? ==> !s.sh.waiters[s.futures[f].state.value.slot].cell.PendingRemove?
    case Free(f) => s.futures[f].r.id in s.sh.waitList
    case _ => true
  }

  predicate CanRun(s: State, ls: seq<Label>)
    decreases |ls|
  {
    ls == [] || (Enabled(s, ls[0]) && CanRun(Next(s, ls[0]), ls[1..]))
  }

  function Run(s: State, ls: seq<Label>): State
    requires CanRun(s, ls)
    decreases |ls|
  {
    if ls == [] then s else Run(Next(s, ls[0]), ls[1..])
  }

  lemma RunCons(s: State, l: Label, rest: seq<Label>)
    requires Enabled(s, l) && CanRun(Next(s, l), rest)
    ensures CanRun(s, [l] + rest) && Run(s, [l] + rest) == Run(Next(s, l), rest)
  {
  }
}
