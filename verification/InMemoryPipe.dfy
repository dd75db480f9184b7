/** `InMemoryInner` as an object, with the calls of its two ends proved against the pipe's transitions. */
module InMemoryPipe {
  import opened Common
  import opened PipeMachine

  // ---- The calls as single transitions ----

  function ReadyPolled(p: Pipe): (Pipe, Result) {
    if p.closed then (p, BrokenPipe)
    else if p.semaphore > 0 then (p, Ready)
    else (RegisterSender(p), Pending)
  }

  function SentInto(p: Pipe, item: Bytes): Pipe {
    WakeReceiver(FetchSub(p.(queue := p.queue + [item])))
  }

  function ReadPolled(p: Pipe): (Pipe, Result) {
    if p.queue != [] then (WakeSender(FetchAdd(p.(queue := p.queue[1..]))), Message(p.queue[0]))
    else if p.closed then (p, Eof)
    else (RegisterReceiver(p), Pending)
  }

  // ---- An undisturbed call in the interleaved pipe is that transition ----

  lemma UndisturbedPollReady(s: State) returns (last: State, l: Label)
    requires s.sender.SenderIdle?
    ensures Enabled(last, l) && Returned(last, l) == Some(ReadyPolled(s.p).1)
    ensures var (p, result) := ReadyPolled(s.p);
            Next(last, l) == s.(p := p, sender := SenderIdle(result.Ready?, result.Pending?))
  {
    last, l := s, PollReady;
    if !s.p.closed {
      last, l := Next(last, l), SenderStep;
      if s.p.semaphore == 0 {
        last := StepSender(StepSender(StepSender(last)));
      }
    }
  }

  lemma UndisturbedStartSend(s: State, item: Bytes)
    requires Enabled(s, StartSend(item)) && |s.p.queue| < s.p.capacity
    ensures var s1 := Next(s, StartSend(item));
            var s2 := StepSender(s1);
            var s3 := StepSender(s2);
            && s2.sender.Pushed? && s3.sender.Counted? && Returned(s3, SenderStep) == Some(Sent)
            && StepSender(s3)
            == s.(p := SentInto(s.p, item), sender := SenderIdle(false, false), sent := s.sent + [item])
  {
  }

  lemma UndisturbedPollRead(s: State) returns (last: State, l: Label)
    requires s.receiver.ReceiverIdle?
    ensures Enabled(last, l) && Returned(last, l) == Some(ReadPolled(s.p).1)
    ensures var (p, result) := ReadPolled(s.p);
            Next(last, l) == s.(p := p, receiver := ReceiverIdle(result.Pending?),
                                received := s.received + (if result.Message? then [result.msg] else []))
  {
    assert s.received + [] == s.received;
    last, l := Next(s, PollRead), ReceiverStep;
    if s.p.queue != [] {
      last := StepReceiver(last);
    } else if !s.p.closed {
      last := StepReceiver(StepReceiver(StepReceiver(last)));
    }
  }

  // ---- The object ----

  class InMemoryInner {
    const capacity: nat
    var queue: seq<Bytes>
    var semaphore: nat
    var msgSentWaker: bool
    var readyWaker: bool
    var receiverWoken: bool
    var senderWoken: bool
    var closed: bool

    function Abs(): Pipe
      reads this
    {
      Pipe(capacity, queue, semaphore, msgSentWaker, readyWaker, receiverWoken, senderWoken, closed)
    }

    /** Between calls the counter is the free space. */
    predicate Valid()
      reads this
    {
      CanAllocate(capacity) && |queue| <= capacity && semaphore == capacity - |queue|
    }

    /** `in_memory`. */
    constructor (capacity: nat)
      requires CanAllocate(capacity)
      ensures Valid() && Abs() == Initial(capacity).p
    {
      this.capacity := capacity;
      queue, semaphore := [], capacity;
      msgSentWaker, readyWaker, receiverWoken, senderWoken, closed := false, false, false, false, false;
    }

    /** `ArrayQueue::push`: refused when the queue is full. */
    method Push(item: Bytes) returns (ok: bool)
      modifies this`queue
      ensures ok == (|old(queue)| < capacity)
      ensures queue == if ok then old(queue) + [item] else old(queue)
    {
      ok := |queue| < capacity;
      if ok {
        queue := queue + [item];
      }
    }

    /** `ArrayQueue::pop`. */
    method Pop() returns (msg: Option<Bytes>)
      modifies this`queue
      ensures old(queue) == [] ==> msg == None && queue == []
      ensures old(queue) != [] ==> msg == Some(old(queue)[0]) && queue == old(queue)[1..]
    {
      if queue == [] {
        return None;
      }
      msg := Some(queue[0]);
      queue := queue[1..];
    }

    /** `poll_ready`. */
    method PollReady() returns (result: Result)
      requires Valid()
      modifies this`readyWaker, this`senderWoken
      ensures Valid() && (Abs(), result) == ReadyPolled(old(Abs()))
      ensures closed ==> result == BrokenPipe
      ensures !closed && |queue| < capacity ==> result == Ready
      ensures !closed && |queue| == capacity ==> result == Pending && readyWaker && !senderWoken
    {
      if closed {
        return BrokenPipe;
      }
      if semaphore > 0 {
        return Ready;
      }
      readyWaker, senderWoken := true, false;
      if closed {
        return BrokenPipe;
      }
      if semaphore > 0 {
        return Ready;
      }
      return Pending;
    }

    /** `start_send`, called after `poll_ready` returned ready: the first push of the spin loop succeeds. */
    method StartSend(item: Bytes)
      requires Valid() && semaphore > 0
      modifies this
      ensures Valid() && Abs() == SentInto(old(Abs()), item)
      ensures queue == old(queue) + [item] && closed == old(closed)
      ensures !msgSentWaker && receiverWoken == (old(msgSentWaker) || old(receiverWoken))
    {
      var done := false;
      while !done
        invariant !done ==> Valid() && semaphore > 0 && Abs() == old(Abs())
        invariant done ==> Abs() == old(Abs()).(queue := old(queue) + [item])
        decreases !done
      {
        done := Push(item);
      }
      semaphore := FetchSub(Abs()).semaphore;
      if msgSentWaker {
        msgSentWaker, receiverWoken := false, true;
      }
    }

    /** `poll_close` and the sender's drop guard. */
    method CloseSender()
      requires Valid()
      modifies this
      ensures Valid() && Abs() == WakeReceiver(old(Abs()).(closed := true))
      ensures closed && queue == old(queue) && receiverWoken == (old(msgSentWaker) || old(receiverWoken))
    {
      closed := true;
      if msgSentWaker {
        msgSentWaker, receiverWoken := false, true;
      }
    }

    /** The receive attempt that `poll_read_frame` makes twice; `Pending` when there is nothing to report. */
    method TryReceive() returns (result: Result)
      requires Valid()
      modifies this`queue, this`semaphore, this`readyWaker, this`senderWoken
      ensures Valid()
      ensures queue == if old(queue) == [] then [] else old(queue)[1..]
      ensures old(queue) != [] ==> (Abs(), result) == ReadPolled(old(Abs()))
      ensures old(queue) == [] ==> Abs() == old(Abs()) && result == if closed then Eof else Pending
    {
      var msg := Pop();
      if msg.Some? {
        semaphore := FetchAdd(Abs()).semaphore;
        if readyWaker {
          readyWaker, senderWoken := false, true;
        }
        return Message(msg.value);
      }
      return if closed then Eof else Pending;
    }

    /** `poll_read_frame`. */
    method PollReadFrame() returns (result: Result)
      requires Valid()
      modifies this
      ensures Valid() && (Abs(), result) == ReadPolled(old(Abs()))
      ensures closed == old(closed)
      ensures old(queue) != [] ==>
                && result == Message(old(queue)[0]) && queue == old(queue)[1..]
                && !readyWaker && senderWoken == (old(readyWaker) || old(senderWoken))
      ensures old(queue) == [] ==> queue == [] && result == if closed then Eof else Pending
      ensures result == Pending ==> msgSentWaker && !receiverWoken
    {
      result := TryReceive();
      if result.Pending? {
        msgSentWaker, receiverWoken := true, false;
        result := TryReceive();
      }
    }

    /** The receiver's drop guard. */
    method CloseReceiver()
      requires Valid()
      modifies this
      ensures Valid() && Abs() == WakeSender(old(Abs()).(closed := true))
      ensures closed && queue == old(queue) && senderWoken == (old(readyWaker) || old(senderWoken))
    {
      closed := true;
      if readyWaker {
        readyWaker, senderWoken := false, true;
      }
    }
  }
}
