/** What the pipe guarantees over whole runs. */
module PipeTheorems {
  import opened Common
  import opened PipeMachine

  ghost predicate Behaviour(capacity: nat, states: seq<State>, labels: seq<Label>) {
    && CanAllocate(capacity) && |states| == |labels| + 1
    && states[0] == Initial(capacity)
    && forall i :: 0 <= i < |labels| ==> Enabled(states[i], labels[i]) && states[i + 1] == Next(states[i], labels[i])
  }

  lemma {:induction false} BehaviourInv(capacity: nat, states: seq<State>, labels: seq<Label>, i: nat)
    requires Behaviour(capacity, states, labels) && i < |states|
    ensures Inv(states[i]) && states[i].p.capacity == capacity
  {
    hide Inv, Next, Enabled;
    if i == 0 {
      InitialInv(capacity);
    } else {
      BehaviourInv(capacity, states, labels, i - 1);
      InvNext(states[i - 1], labels[i - 1]);
      CapacityNext(states[i - 1], labels[i - 1]);
    }
  }

  lemma CapacityNext(s: State, l: Label)
    requires Enabled(s, l)
    ensures Next(s, l).p.capacity == s.p.capacity
  {
    hide StepSender, StepReceiver;
    if l.SenderStep? {
      CapacitySender(s);
    } else if l.ReceiverStep? {
      CapacityReceiver(s);
    }
  }

  lemma CapacitySender(s: State)
    requires Enabled(s, SenderStep)
    ensures StepSender(s).p.capacity == s.p.capacity
  {
    hide WakeReceiver, RegisterSender, FetchSub;
    WakesTouchNoCount(s.p);
    FetchSubFrame(s.p);
  }

  lemma CapacityReceiver(s: State)
    requires Enabled(s, ReceiverStep)
    ensures StepReceiver(s).p.capacity == s.p.capacity
  {
    hide WakeSender, RegisterReceiver, FetchAdd;
    WakesTouchNoCount(s.p);
    FetchAddFrame(s.p);
  }

  /** Pipe accounting: at every step the counter is the free space, plus one between a push and its decrement, minus
      one between a pop and its increment; it exceeds the capacity by at most one and never wraps around. */
  lemma PipeAccounting(capacity: nat, states: seq<State>, labels: seq<Label>, i: nat)
    requires Behaviour(capacity, states, labels) && i < |states|
    ensures var s := states[i];
            && s.p.semaphore == capacity - |s.p.queue| + PushUncounted(s) - PopUncounted(s)
            && s.p.semaphore <= capacity + 1 && |s.p.queue| <= capacity
            && (s.sender.Pushed? ==> FetchSub(s.p).semaphore == s.p.semaphore - 1)
            && (s.receiver.Popped? ==> FetchAdd(s.p).semaphore == s.p.semaphore + 1)
  {
    hide Wakes, Order, Marks, FetchSub, FetchAdd;
    BehaviourInv(capacity, states, labels, i);
    CountsNeverWrap(states[i]);
  }

  /** A push after a successful `poll_ready` succeeds at the first attempt: the spin loop never spins. */
  lemma SpinLoopNeverSpins(capacity: nat, states: seq<State>, labels: seq<Label>, i: nat)
    requires Behaviour(capacity, states, labels) && i < |states| && states[i].sender.Pushing?
    ensures StepSender(states[i]).sender == Pushed
    ensures StepSender(states[i]).sent == states[i].sent + [states[i].sender.item]
  {
    BehaviourInv(capacity, states, labels, i);
  }

  /** A parked receiver that has not been woken waits on an empty, open pipe, unless the sender is about to wake it;
      likewise a parked sender waits on a full, open pipe; and never are both parked with no wake due. */
  lemma NoLostWakeup(capacity: nat, states: seq<State>, labels: seq<Label>, i: nat)
    requires Behaviour(capacity, states, labels) && i < |states|
    ensures var s := states[i];
            && (ReceiverParked(s) && !s.p.receiverWoken ==>
                  && s.p.msgSentWaker
                  && (s.p.queue == [] || s.sender.Pushed? || s.sender.Counted?)
                  && (!s.p.closed || s.sender.SenderClosing?))
            && (SenderParked(s) && !s.p.senderWoken ==>
                  && s.p.readyWaker
                  && (s.p.semaphore == 0 || s.receiver.Returning?)
                  && (!s.p.closed || s.receiver.ReceiverClosing?))
            && !(ReceiverParked(s) && SenderParked(s) && !s.p.receiverWoken && !s.p.senderWoken)
  {
    BehaviourInv(capacity, states, labels, i);
  }

  /** First in, first out, nothing lost and nothing twice: what was received, what the receiver holds and what is
      queued is what was sent. */
  lemma PipeOrder(capacity: nat, states: seq<State>, labels: seq<Label>, i: nat)
    requires Behaviour(capacity, states, labels) && i < |states|
    ensures states[i].sent == states[i].received + InFlight(states[i].receiver) + states[i].p.queue
  {
    BehaviourInv(capacity, states, labels, i);
  }

  // ---- End of file ----

  lemma SentNext(s: State, l: Label)
    requires Marks(s) && Enabled(s, l)
    ensures s.sent <= Next(s, l).sent
    ensures s.senderClosed ==> Next(s, l).sent == s.sent && Next(s, l).senderClosed
  {
  }

  lemma {:induction false} SentGrows(capacity: nat, states: seq<State>, labels: seq<Label>, i: nat, j: nat)
    requires Behaviour(capacity, states, labels) && i <= j < |states|
    ensures states[i].sent <= states[j].sent
    ensures states[i].senderClosed ==> states[j].sent == states[i].sent && states[j].senderClosed
  {
    hide Next, Enabled, Marks;
    if i == j {
    } else {
      SentGrows(capacity, states, labels, i, j - 1);
      BehaviourInv(capacity, states, labels, j - 1);
      SentNext(states[j - 1], labels[j - 1]);
    }
  }

  /** This step is a pop that comes back empty. */
  predicate PopsNothing(s: State, l: Label) {
    Enabled(s, l) && s.p.queue == [] && (l.PollRead? || (l.ReceiverStep? && s.receiver.ReceiverPop?))
  }

  lemma {:induction false} LatestEmptyPop(capacity: nat, states: seq<State>, labels: seq<Label>, i: nat)
    returns (k: nat)
    requires Behaviour(capacity, states, labels) && i < |states| && states[i].receiver.ReceiverLoadClosed?
    ensures k < i && PopsNothing(states[k], labels[k])
    ensures |states[k].sent| == states[i].receiver.sentThen && states[k].senderClosed == states[i].receiver.closedThen
  {
    if PopsNothing(states[i - 1], labels[i - 1]) {
      return i - 1;
    }
    MarkKept(states[i - 1], labels[i - 1]);
    k := LatestEmptyPop(capacity, states, labels, i - 1);
  }

  lemma MarkKept(s: State, l: Label)
    requires Enabled(s, l) && !PopsNothing(s, l) && Next(s, l).receiver.ReceiverLoadClosed?
    ensures s.receiver == Next(s, l).receiver
  {
  }

  /** The exact meaning of end of file: everything sent before the pop that came back empty has been received;
      nothing is left behind exactly when nothing was sent between that pop and the load of `closed`; and if the
      sender had closed before that pop, nothing will ever be left behind. */
  lemma EndOfFile(capacity: nat, states: seq<State>, labels: seq<Label>, i: nat) returns (k: nat)
    requires Behaviour(capacity, states, labels) && i < |labels|
    requires Returned(states[i], labels[i]) == Some(Eof)
    ensures k < i && PopsNothing(states[k], labels[k])
    ensures states[i].received == states[k].sent
    ensures states[i].p.queue == [] <==> states[i].sent == states[k].sent
    ensures states[k].senderClosed ==>
              forall j :: i <= j < |states| ==> states[j].sent == states[i].received
  {
    hide Next, Wakes, Accounting;
    BehaviourInv(capacity, states, labels, i);
    k := LatestEmptyPop(capacity, states, labels, i);
    SentGrows(capacity, states, labels, k, i);
    forall j | i <= j < |states|
      ensures states[k].senderClosed ==> states[j].sent == states[k].sent
    {
      SentGrows(capacity, states, labels, k, j);
    }
  }

  /** A push and a close between the receiver's pop and its load of `closed` make it report end of file with a
      message still queued. */
  lemma EofWithQueuedMessage(m: Bytes) returns (states: seq<State>, labels: seq<Label>)
    ensures Behaviour(1, states, labels)
    ensures Enabled(states[|labels|], ReceiverStep) && Returned(states[|labels|], ReceiverStep) == Some(Eof)
    ensures states[|labels|].p.queue == [m]
  {
    states, labels := [Initial(1)], [];
    hide Behaviour;
    FirstState();
    states, labels := Go(states, labels, PollReady);
    states, labels := Go(states, labels, SenderStep);
    states, labels := Go(states, labels, PollRead);
    states, labels := SendAndClose(states, labels, m);
  }

  /** A message is sent and the pipe closed while the receiver is between its empty pop and its load of `closed`. */
  lemma SendAndClose(states: seq<State>, labels: seq<Label>, m: Bytes) returns (longer: seq<State>, more: seq<Label>)
    requires Behaviour(1, states, labels)
    requires var s := states[|labels|];
             && s.sender.SenderIdle? && s.sender.permit && s.p.queue == [] && s.p.semaphore == 1 && s.p.capacity == 1
             && s.receiver.ReceiverLoadClosed? && !s.p.closed && !s.senderClosed
    ensures Behaviour(1, longer, more)
    ensures Enabled(longer[|more|], ReceiverStep) && Returned(longer[|more|], ReceiverStep) == Some(Eof)
    ensures longer[|more|].p.queue == [m]
  {
    hide Behaviour;
    longer, more := Go(states, labels, StartSend(m));
    longer, more := Go(longer, more, SenderStep);
    longer, more := Go(longer, more, SenderStep);
    longer, more := Go(longer, more, SenderStep);
    longer, more := Go(longer, more, PollClose);
  }

  lemma FirstState()
    ensures Behaviour(1, [Initial(1)], [])
  {
  }

  lemma Go(states: seq<State>, labels: seq<Label>, l: Label) returns (longer: seq<State>, more: seq<Label>)
    requires Behaviour(1, states, labels) && Enabled(states[|labels|], l)
    ensures more == labels + [l] && longer == states + [Next(states[|labels|], l)]
    ensures Behaviour(1, longer, more) && longer[|more|] == Next(states[|labels|], l)
  {
    longer, more := states + [Next(states[|labels|], l)], labels + [l];
  }

  /** What a call returns is so: ready means room for a message, a broken pipe or end of file that the pipe is closed, a
      message that it is the next one in the order of sending, pending that the caller has a waker registered or was
      woken since; and the call that checks a closed pipe first thing never reports anything but the broken pipe. */
  lemma ReturnsAreTrue(capacity: nat, states: seq<State>, labels: seq<Label>, i: nat)
    requires Behaviour(capacity, states, labels) && i < |labels| && Returned(states[i], labels[i]).Some?
    ensures var s, t := states[i], states[i + 1];
            match Returned(s, labels[i]).value
            case Ready => |s.p.queue| < capacity && t.sender == SenderIdle(true, false)
            case BrokenPipe => s.p.closed && t.sender == SenderIdle(false, false)
            case Sent => s.sender.Counted? && !t.p.msgSentWaker && t.sender == SenderIdle(false, false)
            case ClosedNow => s.p.closed && !t.p.msgSentWaker
            case Message(m) => |s.received| < |s.sent| && m == s.sent[|s.received|] && t.received == s.received + [m]
            case Eof => s.p.closed && t.receiver == ReceiverIdle(false) && t.received == s.received
            case Pending =>
              if labels[i].SenderStep? then SenderParked(t) && (t.p.readyWaker || t.p.senderWoken)
              else ReceiverParked(t) && (t.p.msgSentWaker || t.p.receiverWoken)
    ensures labels[i].PollReady? ==> Returned(states[i], labels[i]) == Some(BrokenPipe)
  {
    BehaviourInv(capacity, states, labels, i);
  }
}
