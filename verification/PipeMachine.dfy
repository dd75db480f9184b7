/** The in-memory bounded pipe as an interleaving of its sender and its receiver, one atomic access per step. */
module PipeMachine {
  import opened Common

  /** `usize`; a buffer of more than `isize::MAX` bytes cannot be allocated. */
  const USIZE := U64_SIZE
  const MAX_CAPACITY := 0x8000_0000_0000_0000

  predicate CanAllocate(capacity: nat) {
    0 < capacity < MAX_CAPACITY
  }

  /** `InMemoryInner`. The woken flags record that the registered task was scheduled since it last registered. */
  datatype Pipe = Pipe(
    capacity: nat,
    queue: seq<Bytes>,
    semaphore: nat,
    msgSentWaker: bool,       // `sig_msg_sent`, registered by the receiver
    readyWaker: bool,         // `sig_ready_to_recv`, registered by the sender
    receiverWoken: bool,
    senderWoken: bool,
    closed: bool)

  // ---- Atomic accesses ----

  function FetchSub(p: Pipe): Pipe {
    p.(semaphore := if p.semaphore == 0 then USIZE - 1 else p.semaphore - 1)
  }

  function FetchAdd(p: Pipe): Pipe {
    p.(semaphore := (p.semaphore + 1) % USIZE)
  }

  function WakeReceiver(p: Pipe): Pipe {
    if p.msgSentWaker then p.(msgSentWaker := false, receiverWoken := true) else p
  }

  function WakeSender(p: Pipe): Pipe {
    if p.readyWaker then p.(readyWaker := false, senderWoken := true) else p
  }

  function RegisterReceiver(p: Pipe): Pipe {
    p.(msgSentWaker := true, receiverWoken := false)
  }

  function RegisterSender(p: Pipe): Pipe {
    p.(readyWaker := true, senderWoken := false)
  }

  // ---- Control states ----

  /** `permit`: the latest `poll_ready` returned ready and no message was sent since. `parked`: it returned pending. */
  datatype Sender =
    | SenderIdle(permit: bool, parked: bool)
    | SenderLoadSemaphore(again: bool)
    | SenderRegister
    | SenderLoadClosed
    | Pushing(item: Bytes)
    | Pushed
    | Counted
    | SenderClosing(gone: bool)
    | SenderGone

  /** `sentThen` and `closedThen` remember the pipe at the pop that came back empty. */
  datatype Receiver =
    | ReceiverIdle(parked: bool)
    | ReceiverLoadClosed(again: bool, sentThen: nat, closedThen: bool)
    | ReceiverRegister
    | ReceiverPop
    | Popped(msg: Bytes)
    | Returning(msg: Bytes)
    | ReceiverClosing
    | ReceiverGone

  /** `sent` and `received` list the messages pushed and the messages returned; `senderClosed` is set once the
      sender has closed the pipe, after which the `Sink` contract lets it send nothing. */
  datatype State = State(p: Pipe, sender: Sender, receiver: Receiver,
                         sent: seq<Bytes>, received: seq<Bytes>, senderClosed: bool)

  datatype Label = PollReady | StartSend(item: Bytes) | PollClose | DropSender | SenderStep
                 | PollRead | DropReceiver | ReceiverStep

  datatype Result = Ready | BrokenPipe | Pending | Sent | ClosedNow | Message(msg: Bytes) | Eof

  function Initial(capacity: nat): State {
    State(Pipe(capacity, [], capacity, false, false, false, false, false),
          SenderIdle(false, false), ReceiverIdle(false), [], [], false)
  }

  predicate Enabled(s: State, l: Label) {
    match l
    case PollReady => s.sender.SenderIdle?
    case StartSend(_) => s.sender.SenderIdle? && s.sender.permit && !s.senderClosed
    case PollClose => s.sender.SenderIdle?
    case DropSender => s.sender.SenderIdle?
    case SenderStep => !s.sender.SenderIdle? && !s.sender.SenderGone?
    case PollRead => s.receiver.ReceiverIdle?
    case DropReceiver => s.receiver.ReceiverIdle?
    case ReceiverStep => !s.receiver.ReceiverIdle? && !s.receiver.ReceiverGone?
  }

  /** The load of `closed` at the head of either readiness check. */
  function CheckClosed(s: State, again: bool): State {
    s.(sender := if s.p.closed then SenderIdle(false, false) else SenderLoadSemaphore(again))
  }

  function Pop(s: State, again: bool): State {
    if s.p.queue == [] then
      s.(receiver := ReceiverLoadClosed(again, |s.sent|, s.senderClosed))
    else
      s.(p := s.p.(queue := s.p.queue[1..]), receiver := Popped(s.p.queue[0]))
  }

  function StepSender(s: State): State
    requires Enabled(s, SenderStep)
  {
    match s.sender
    case SenderLoadSemaphore(again) =>
      if s.p.semaphore > 0 then s.(sender := SenderIdle(true, false))
      else if again then s.(sender := SenderIdle(false, true))
      else s.(sender := SenderRegister)
    case SenderRegister => s.(p := RegisterSender(s.p), sender := SenderLoadClosed)
    case SenderLoadClosed => CheckClosed(s, true)
    case Pushing(item) =>
      if |s.p.queue| < s.p.capacity then
        s.(p := s.p.(queue := s.p.queue + [item]), sender := Pushed, sent := s.sent + [item])
      else s  // the spin loop tries again
    case Pushed => s.(p := FetchSub(s.p), sender := Counted)
    case Counted => s.(p := WakeReceiver(s.p), sender := SenderIdle(false, false))
    case SenderClosing(gone) =>
      s.(p := WakeReceiver(s.p), sender := if gone then SenderGone else SenderIdle(false, false))
  }

  function StepReceiver(s: State): State
    requires Enabled(s, ReceiverStep)
  {
    match s.receiver
    case ReceiverLoadClosed(again, _, _) =>
      if s.p.closed then s.(receiver := ReceiverIdle(false))
      else if again then s.(receiver := ReceiverIdle(true))
      else s.(receiver := ReceiverRegister)
    case ReceiverRegister => s.(p := RegisterReceiver(s.p), receiver := ReceiverPop)
    case ReceiverPop => Pop(s, true)
    case Popped(msg) => s.(p := FetchAdd(s.p), receiver := Returning(msg))
    case Returning(msg) => s.(p := WakeSender(s.p), receiver := ReceiverIdle(false), received := s.received + [msg])
    case ReceiverClosing => s.(p := WakeSender(s.p), receiver := ReceiverGone)
  }

  function Next(s: State, l: Label): State
    requires Enabled(s, l)
  {
    match l
    case PollReady => CheckClosed(s, false)
    case StartSend(item) => s.(sender := Pushing(item))
    case PollClose => s.(p := s.p.(closed := true), sender := SenderClosing(false), senderClosed := true)
    case DropSender => s.(p := s.p.(closed := true), sender := SenderClosing(true), senderClosed := true)
    case SenderStep => StepSender(s)
    case PollRead => Pop(s, false)
    case DropReceiver => s.(p := s.p.(closed := true), receiver := ReceiverClosing)
    case ReceiverStep => StepReceiver(s)
  }

  /** What the call that ends with this step returns, if a call ends here. */
  function Returned(s: State, l: Label): Option<Result>
    requires Enabled(s, l)
  {
    match l
    case PollReady => if s.p.closed then Some(BrokenPipe) else None
    case SenderStep =>
      (match s.sender
       case SenderLoadSemaphore(again) =>
         if s.p.semaphore > 0 then Some(Ready) else if again then Some(Pending) else None
       case SenderLoadClosed => if s.p.closed then Some(BrokenPipe) else None
       case Counted => Some(Sent)
       case SenderClosing(_) => Some(ClosedNow)
       case _ => None)
    case ReceiverStep =>
      (match s.receiver
       case ReceiverLoadClosed(again, _, _) => if s.p.closed then Some(Eof) else if again then Some(Pending) else None
       case Returning(msg) => Some(Message(msg))
       case _ => None)
    case _ => None
  }

  // ---- The invariant ----

  function InFlight(r: Receiver): seq<Bytes> {
    match r
    case Popped(msg) => [msg]
    case Returning(msg) => [msg]
    case _ => []
  }

  function PushUncounted(s: State): nat {
    if s.sender.Pushed? then 1 else 0
  }

  function PopUncounted(s: State): nat {
    if s.receiver.Popped? then 1 else 0
  }

  /** The counter and the queue are updated one after the other; this is what ties them at every step. */
  predicate Accounting(s: State) {
    && CanAllocate(s.p.capacity)
    && s.p.semaphore == s.p.capacity - |s.p.queue| + PushUncounted(s) - PopUncounted(s)
    && |s.p.queue| + PopUncounted(s) <= s.p.capacity
    && (s.sender.Pushing? || (s.sender.SenderIdle? && s.sender.permit) ==>
          |s.p.queue| + PopUncounted(s) < s.p.capacity)
  }

  predicate Order(s: State) {
    s.sent == s.received + InFlight(s.receiver) + s.p.queue
  }

  /** What the receiver remembers of its empty pop is true of the pipe since. */
  predicate Marks(s: State) {
    && (s.senderClosed ==> s.p.closed && !s.sender.Pushing? && !s.sender.Pushed? && !s.sender.Counted?)
    && (s.sender.SenderClosing? ==> s.senderClosed)
    && (s.receiver.ReceiverLoadClosed? ==>
          && s.receiver.sentThen <= |s.sent| && s.received == s.sent[..s.receiver.sentThen]
          && (s.receiver.closedThen ==> s.senderClosed && |s.sent| == s.receiver.sentThen))
  }

  predicate ReceiverParked(s: State) {
    s.receiver.ReceiverIdle? && s.receiver.parked
  }

  predicate SenderParked(s: State) {
    s.sender.SenderIdle? && s.sender.parked
  }

  predicate SecondLook(r: Receiver) {
    r.ReceiverLoadClosed? && r.again
  }

  predicate ReceiverWakes(s: State) {
    && (s.receiver.ReceiverPop? || SecondLook(s.receiver) || ReceiverParked(s) ==>
          s.p.msgSentWaker || s.p.receiverWoken)
    && ((SecondLook(s.receiver) || ReceiverParked(s)) && !s.p.receiverWoken ==>
          s.p.queue == [] || s.sender.Pushed? || s.sender.Counted?)
    && (ReceiverParked(s) && !s.p.receiverWoken ==> !s.p.closed || s.sender.SenderClosing?)
  }

  predicate SenderSecondLook(t: Sender) {
    t.SenderLoadSemaphore? && t.again
  }

  predicate SenderWakes(s: State) {
    && (s.sender.SenderLoadClosed? || SenderSecondLook(s.sender) || SenderParked(s) ==>
          s.p.readyWaker || s.p.senderWoken)
    && ((SenderSecondLook(s.sender) || SenderParked(s)) && !s.p.senderWoken ==>
          !s.p.closed || s.receiver.ReceiverClosing?)
    && (SenderParked(s) && !s.p.senderWoken ==> s.p.semaphore == 0 || s.receiver.Returning?)
  }

  /** A pipe is closed only by one of its ends. */
  predicate ClosedBySomeone(s: State) {
    s.p.closed ==> s.senderClosed || s.receiver.ReceiverClosing? || s.receiver.ReceiverGone?
  }

  predicate Wakes(s: State) {
    ReceiverWakes(s) && SenderWakes(s) && ClosedBySomeone(s)
  }

  predicate Inv(s: State) {
    Accounting(s) && Order(s) && Marks(s) && Wakes(s)
  }

  lemma InitialInv(capacity: nat)
    requires CanAllocate(capacity)
    ensures Inv(Initial(capacity))
  {
  }

  lemma CountsNeverWrap(s: State)
    requires Accounting(s)
    ensures s.sender.Pushed? ==> FetchSub(s.p) == s.p.(semaphore := s.p.semaphore - 1)
    ensures s.receiver.Popped? ==> FetchAdd(s.p) == s.p.(semaphore := s.p.semaphore + 1)
  {
  }

  predicate SameCounts(p: Pipe, q: Pipe) {
    q.capacity == p.capacity && q.queue == p.queue && q.semaphore == p.semaphore
  }

  lemma WakesTouchNoCount(p: Pipe)
    ensures SameCounts(p, WakeReceiver(p)) && SameCounts(p, WakeSender(p))
    ensures SameCounts(p, RegisterReceiver(p)) && SameCounts(p, RegisterSender(p))
  {
  }

  /** Steps that move neither a message nor a count. */
  lemma AccountingFrame(s: State, t: State)
    requires Accounting(s) && SameCounts(s.p, t.p)
    requires PushUncounted(t) == PushUncounted(s) && PopUncounted(t) == PopUncounted(s)
    requires t.sender.Pushing? || (t.sender.SenderIdle? && t.sender.permit) ==>
               |s.p.queue| + PopUncounted(s) < s.p.capacity
    ensures Accounting(t)
  {
  }

  lemma AccountingPush(s: State)
    requires Accounting(s) && s.sender.Pushing?
    ensures Accounting(StepSender(s))
  {
  }

  lemma AccountingSub(s: State)
    requires Accounting(s) && s.sender.Pushed?
    ensures Accounting(StepSender(s))
  {
  }

  lemma AccountingSender(s: State)
    requires Accounting(s) && Enabled(s, SenderStep)
    ensures Accounting(StepSender(s))
  {
    if s.sender.Pushing? {
      AccountingPush(s);
    } else if s.sender.Pushed? {
      AccountingSub(s);
    } else {
      hide FetchSub, WakeReceiver, RegisterSender, Accounting;
      WakesTouchNoCount(s.p);
      SenderFrame(s);
      AccountingFrame(s, StepSender(s));
    }
  }

  lemma SenderFrame(s: State)
    requires Enabled(s, SenderStep) && !s.sender.Pushing? && !s.sender.Pushed?
    ensures SameCounts(s.p, StepSender(s).p)
    ensures PushUncounted(StepSender(s)) == 0 && StepSender(s).receiver == s.receiver
    ensures StepSender(s).sender.SenderIdle? && StepSender(s).sender.permit ==> s.p.semaphore > 0
    ensures !StepSender(s).sender.Pushing?
  {
  }

  lemma AccountingPop(s: State, again: bool)
    requires Accounting(s) && !s.receiver.Popped?
    ensures Accounting(Pop(s, again))
  {
  }

  lemma AccountingAdd(s: State)
    requires Accounting(s) && s.receiver.Popped?
    ensures Accounting(StepReceiver(s))
  {
  }

  lemma AccountingReceiver(s: State)
    requires Accounting(s) && Enabled(s, ReceiverStep)
    ensures Accounting(StepReceiver(s))
  {
    if s.receiver.Popped? {
      AccountingAdd(s);
    } else if s.receiver.ReceiverPop? {
      AccountingPop(s, true);
    } else {
      hide WakeSender, RegisterReceiver;
      WakesTouchNoCount(s.p);
      AccountingFrame(s, StepReceiver(s));
    }
  }

  lemma AccountingNext(s: State, l: Label)
    requires Accounting(s) && Enabled(s, l)
    ensures Accounting(Next(s, l))
  {
    hide StepSender, StepReceiver, CanAllocate, Pop;
    match l
    case SenderStep => AccountingSender(s);
    case ReceiverStep => AccountingReceiver(s);
    case PollRead => AccountingPop(s, false);
    case _ => AccountingFrame(s, Next(s, l));
  }

  lemma OrderPop(s: State, again: bool)
    requires Order(s) && InFlight(s.receiver) == []
    ensures Order(Pop(s, again))
  {
  }

  lemma OrderSender(s: State)
    requires Order(s) && Enabled(s, SenderStep)
    ensures Order(StepSender(s))
  {
    if s.sender.Pushing? {
      var all := s.received + InFlight(s.receiver);
      assert (all + s.p.queue) + [s.sender.item] == all + (s.p.queue + [s.sender.item]);
    }
  }

  lemma OrderReceiver(s: State)
    requires Order(s) && Enabled(s, ReceiverStep)
    ensures Order(StepReceiver(s))
  {
  }

  lemma OrderNext(s: State, l: Label)
    requires Order(s) && Enabled(s, l)
    ensures Order(Next(s, l))
  {
    hide StepSender, StepReceiver, Pop;
    match l
    case SenderStep => OrderSender(s);
    case ReceiverStep => OrderReceiver(s);
    case PollRead => OrderPop(s, false);
    case _ =>
  }

  lemma MarksNext(s: State, l: Label)
    requires Accounting(s) && Order(s) && Marks(s) && Enabled(s, l)
    ensures Marks(Next(s, l))
  {
  }

  lemma WakesSender(s: State)
    requires Marks(s) && Wakes(s) && Enabled(s, SenderStep)
    ensures Wakes(StepSender(s))
  {
    hide FetchSub, FetchAdd;
    if s.sender.Pushed? {
      assert FetchSub(s.p) == s.p.(semaphore := FetchSub(s.p).semaphore) by { FetchSubFrame(s.p); }
    }
  }

  lemma FetchSubFrame(p: Pipe)
    ensures FetchSub(p) == p.(semaphore := FetchSub(p).semaphore)
  {
  }

  lemma WakesReceiver(s: State)
    requires Marks(s) && Wakes(s) && Enabled(s, ReceiverStep)
    ensures Wakes(StepReceiver(s))
  {
    hide FetchSub, FetchAdd;
    if s.receiver.Popped? {
      assert FetchAdd(s.p) == s.p.(semaphore := FetchAdd(s.p).semaphore) by { FetchAddFrame(s.p); }
    }
  }

  lemma FetchAddFrame(p: Pipe)
    ensures FetchAdd(p) == p.(semaphore := FetchAdd(p).semaphore)
  {
  }

  lemma WakesNext(s: State, l: Label)
    requires Marks(s) && Wakes(s) && Enabled(s, l)
    ensures Wakes(Next(s, l))
  {
    hide StepSender, StepReceiver;
    match l
    case SenderStep => WakesSender(s);
    case ReceiverStep => WakesReceiver(s);
    case _ =>
  }

  lemma InvNext(s: State, l: Label)
    requires Inv(s) && Enabled(s, l)
    ensures Inv(Next(s, l))
  {
    hide Next, Enabled, Accounting, Order, Marks, Wakes;
    AccountingNext(s, l);
    OrderNext(s, l);
    MarksNext(s, l);
    WakesNext(s, l);
  }
}
