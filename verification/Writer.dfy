/** The deferred-write channel and the background writer task. */
module Writer {
  import opened Common
  import Requests
  import RequestSpec
  import opened RequestContexts
  import opened WriterSpec
  import opened WriterOperations

  /** What other tasks do to the channel between two receives of the writer. */
  datatype Action = Send(directive: Directive) | CloseChannel

  /** The queue as it was before `d` was taken off its front. */
  function Rejoined(d: Option<Directive>, queue: seq<Directive>): seq<Directive> {
    if d.Some? then [d.value] + queue else queue
  }

  datatype SendResult = Accepted | Full | ChannelClosed

  /** `mpsc::Sender` and `mpsc::Receiver` of one channel. `script` is what other tasks will do to it, batch by batch,
      until their handles are dropped. */
  class Channel {
    const capacity: Option<nat>
    var queue: seq<Directive>
    var closed: bool
    var script: seq<seq<Action>>

    /** Every directive ever accepted, in order. */
    ghost var accepted: seq<Directive>

    constructor (capacity: Option<nat>, script: seq<seq<Action>>)
      ensures queue == accepted == [] && !closed && this.capacity == capacity && this.script == script
    {
      this.capacity, this.script := capacity, script;
      queue, accepted, closed := [], [], false;
    }

    /** `try_send`. */
    method TrySend(d: Directive) returns (result: SendResult)
      modifies this`queue, this`accepted
      ensures result == if closed then ChannelClosed
                        else if capacity.Some? && |old(queue)| >= capacity.value then Full else Accepted
      ensures queue == if result.Accepted? then old(queue) + [d] else old(queue)
      ensures accepted == if result.Accepted? then old(accepted) + [d] else old(accepted)
    {
      if closed {
        return ChannelClosed;
      }
      if capacity.Some? && |queue| >= capacity.value {
        return Full;
      }
      queue, accepted := queue + [d], accepted + [d];
      return Accepted;
    }

    /** `close`: nothing is accepted afterwards; what is queued stays. */
    method Close()
      modifies this`closed
      ensures closed
    {
      closed := true;
    }

    /** `try_shutdown_writer`. */
    method TryShutdown(dropAfterThis: bool) returns (result: SendResult)
      modifies this`queue, this`accepted, this`closed
      ensures result.Accepted? ==> closed
      ensures result.Accepted? ==> queue == old(queue) + [if dropAfterThis then CloseImmediately else CloseAfterFlush]
      ensures result.Accepted? ==>
                accepted == old(accepted) + [if dropAfterThis then CloseImmediately else CloseAfterFlush]
      ensures !result.Accepted? ==> queue == old(queue) && accepted == old(accepted) && closed == old(closed)
    {
      result := TrySend(if dropAfterThis then CloseImmediately else CloseAfterFlush);
      if result.Accepted? {
        Close();
      }
    }

    /** What other tasks do before the writer looks again. */
    method LetOthersRun()
      requires script != []
      modifies this
      ensures old(closed) ==> closed && queue == old(queue) && accepted == old(accepted)
      ensures script == old(script)[1..]
      ensures exists more :: queue == old(queue) + more && accepted == old(accepted) + more
    {
      var batch := script[0];
      script := script[1..];
      ghost var more: seq<Directive> := [];
      for i := 0 to |batch|
        invariant old(closed) ==> closed && more == []
        invariant queue == old(queue) + more && accepted == old(accepted) + more
        invariant script == old(script)[1..]
      {
        match batch[i] {
          case CloseChannel => Close();
          case Send(d) =>
            var result := TrySend(d);
            if result.Accepted? {
              more := more + [d];
            }
        }
      }
    }

    /** `recv().await`: the next directive, or nothing once the channel is drained and closed or abandoned. */
    method Recv() returns (d: Option<Directive>)
      modifies this
      ensures old(closed) ==> closed && accepted == old(accepted)
      ensures exists more :: accepted == old(accepted) + more && old(queue) + more == Rejoined(d, queue)
      ensures d.None? ==> queue == []
      ensures |script| <= |old(script)|
      ensures d.Some? && old(closed) ==> |queue| + 1 == |old(queue)|
      ensures d.Some? && |script| == |old(script)| ==> |queue| + 1 == |old(queue)|
    {
      ghost var more: seq<Directive> := [];
      if script != [] {
        LetOthersRun();
        more :| queue == old(queue) + more && accepted == old(accepted) + more;
      }
      while queue == [] && !closed && script != []
        invariant old(closed) ==> closed && accepted == old(accepted)
        invariant queue == old(queue) + more && accepted == old(accepted) + more
        invariant |script| <= |old(script)| && (|script| == |old(script)| ==> more == [])
        invariant old(closed) ==> more == []
        decreases |script|
      {
        ghost var before := queue;
        ghost var acceptedBefore := accepted;
        LetOthersRun();
        ghost var extra :| queue == before + extra && accepted == acceptedBefore + extra;
        more := more + extra;
      }
      if queue == [] {
        return None;
      }
      d := Some(queue[0]);
      queue := queue[1..];
    }
  }

  // ---- The task itself ----

  /** A frame writer: default `write_frame_burst`, every operation may fail. */
  class Transport {
    const fails: nat -> bool
    var written: seq<Bytes>
    var ops: nat
    var closes: nat

    constructor (fails: nat -> bool)
      ensures this.fails == fails && written == [] && ops == closes == 0
    {
      this.fails := fails;
      written, ops, closes := [], 0, 0;
    }

    method Operate() returns (ok: bool)
      modifies this`ops
      ensures ops == old(ops) + 1 && ok == !fails(old(ops))
    {
      ok := !fails(ops);
      ops := ops + 1;
    }

    method Close() returns (ok: bool)
      modifies this`ops, this`closes
      ensures ops == old(ops) + 1 && ok == !fails(old(ops))
      ensures closes == if ok then old(closes) + 1 else old(closes)
    {
      ok := Operate();
      if ok {
        closes := closes + 1;
      }
    }

    method WriteFrame(payload: Bytes) returns (ok: bool)
      modifies this`ops, this`written
      ensures ops == old(ops) + 1 && ok == !fails(old(ops))
      ensures written == if ok then old(written) + [payload] else old(written)
    {
      ok := Operate();
      if ok {
        written := written + [payload];
      }
    }

    /** The default `write_frame_burst`. */
    method WriteFrameBurst(chunks: seq<Bytes>) returns (ok: bool)
      modifies this`ops, this`written
      ensures var n := Successes(fails, old(ops), |chunks|);
              && written == old(written) + chunks[..n]
              && ok == (n == |chunks|) && ops == old(ops) + if ok then n else n + 1
    {
      for i := 0 to |chunks|
        invariant written == old(written) + chunks[..i] && ops == old(ops) + i
        invariant Successes(fails, old(ops), |chunks|) == i + Successes(fails, ops, |chunks| - i)
      {
        var done := WriteFrame(chunks[i]);
        if !done {
          return false;
        }
        assert chunks[..i + 1] == chunks[..i] + [chunks[i]];
      }
      assert chunks[..|chunks|] == chunks;
      return true;
    }
  }

  /** `Weak<RpcCore>`. */
  class WeakContext {
    const context: RequestContext
    const aliveFor: nat
    var upgrades: nat

    constructor (context: RequestContext, aliveFor: nat)
      ensures this.context == context && this.aliveFor == aliveFor && upgrades == 0
    {
      this.context, this.aliveFor, upgrades := context, aliveFor, 0;
    }

    method Upgrade() returns (strong: Option<RequestContext>)
      modifies this
      ensures upgrades == old(upgrades) + 1
      ensures strong == if old(upgrades) < aliveFor then Some(context) else None
    {
      strong := if upgrades < aliveFor then Some(context) else None;
      upgrades := upgrades + 1;
    }
  }

  /** `write_runner`. */
  class WriteRunner {
    const writer: Transport
    const rx: Channel
    const weak: WeakContext

    constructor (writer: Transport, rx: Channel, weak: WeakContext)
      ensures this.writer == writer && this.rx == rx && this.weak == weak
    {
      this.writer, this.rx, this.weak := writer, rx, weak;
    }

    ghost function Env(): Environment {
      Environment(writer.fails, weak.aliveFor)
    }

    ghost predicate Shows(p: Progress)
      reads writer, weak
    {
      p.written == writer.written && p.ops == writer.ops && p.closes == writer.closes && p.upgrades == weak.upgrades
    }

    ghost function Marked(sh: Requests.Shared, p: Progress): Requests.Shared
      requires p.failedRequest.Some? && p.failedRequest.value in sh.waitList ==>
                 sh.waitList[p.failedRequest.value] < |sh.waiters|
    {
      if p.failedRequest.Some? then RequestSpec.WriteFailedFor(sh, p.failedRequest.value) else sh
    }

    /** The `WriteReqMsg` arm: a failed write is forgotten when the context is gone. */
    method HandleRequest(payload: Bytes, id: RequestId, ghost p: Progress) returns (stopped: Option<RunResult>)
      requires weak.context.Valid() && Shows(p) && p.stopped.None? && p.failedRequest.None?
      modifies writer, weak, weak.context.arena
      ensures weak.context.Valid() && Shows(Step(Env(), p, WriteReqMsg(payload, id)))
      ensures stopped == Step(Env(), p, WriteReqMsg(payload, id)).stopped
      ensures weak.context.Abs() == Marked(old(weak.context.Abs()), Step(Env(), p, WriteReqMsg(payload, id)))
      ensures stopped.None? ==> Step(Env(), p, WriteReqMsg(payload, id)).failedRequest.None?
    {
      hide RequestContext.Abs, RequestSpec.WriteFailedFor, Execute, WroteBurst;
      var ok := writer.WriteFrame(payload);
      var strong := weak.Upgrade();
      if strong.None? {
        return None;
      }
      if !ok {
        strong.value.SetRequestWriteFailed(id);
        return Some(Failed(WriteFailed));
      }
      return None;
    }

    /** One turn of the loop; `p` is the progress before it. */
    method Handle(d: Directive, exit: ExitType, ghost p: Progress)
      returns (stopped: Option<RunResult>, newExit: ExitType)
      requires weak.context.Valid() && Shows(p) && p.stopped.None? && p.failedRequest.None? && p.exit == exit
      modifies writer, weak, rx`closed, weak.context.arena
      ensures weak.context.Valid() && Shows(Step(Env(), p, d))
      ensures newExit == Step(Env(), p, d).exit && stopped == Step(Env(), p, d).stopped
      ensures weak.context.Abs() == Marked(old(weak.context.Abs()), Step(Env(), p, d))
      ensures stopped.None? ==> Step(Env(), p, d).failedRequest.None?
      ensures old(rx.closed) || d.CloseImmediately? || d.CloseAfterFlush? ==> rx.closed
    {
      hide RequestContext.Abs, RequestSpec.WriteFailedFor;
      newExit := exit;
      match d {
        case CloseImmediately =>
          rx.Close();
          var ok := writer.Close();
          return Some(if ok then Exited(ManualCloseImmediate) else Failed(WriterCloseFailed)), exit;
        case CloseAfterFlush =>
          rx.Close();
          return None, ManualClose;
        case Flush =>
          var ok := writer.Operate();
          stopped := if ok then None else Some(Failed(WriterFlushFailed));
        case WriteMsg(payload) =>
          var ok := writer.WriteFrame(payload);
          stopped := if ok then None else Some(Failed(WriteFailed));
        case WriteMsgBurst(chunks) =>
          var ok := writer.WriteFrameBurst(chunks);
          stopped := if ok then None else Some(Failed(WriteFailed));
        case WriteReqMsg(payload, id) =>
          stopped := HandleRequest(payload, id, p);
      }
    }

    /** The task ended because of a close directive. */
    predicate ClosesChannel(result: RunResult) {
      match result
      case Exited(exit) => exit != AllHandleDropped
      case Failed(error) => error == WriterCloseFailed
    }

    lemma CloseResults(env: Environment, p: Progress, d: Directive)
      requires p.stopped.None? && p.exit != ManualCloseImmediate
      ensures var q := Step(env, p, d);
              && q.exit == (if d.CloseAfterFlush? then ManualClose else p.exit)
              && (q.stopped.Some? && ClosesChannel(q.stopped.value) ==> d.CloseImmediately?)
    {
    }

    /** The loop over received directives. */
    method Loop() returns (result: RunResult)
      requires weak.context.Valid() && Shows(START) && rx.queue == rx.accepted
      modifies writer, weak, rx, weak.context.arena
      ensures weak.context.Valid() && Shows(Execute(Env(), rx.accepted))
      ensures result == Execute(Env(), rx.accepted).Result()
      ensures weak.context.Abs() == Marked(old(weak.context.Abs()), Execute(Env(), rx.accepted))
      ensures ClosesChannel(result) ==> rx.closed
    {
      hide Step, Execute, RequestContext.Abs, RequestSpec.WriteFailedFor;
      ExecuteNothing(Env());
      var exit := AllHandleDropped;
      ghost var done: seq<Directive> := [];
      while true
        invariant weak.context.Valid() && weak.context.Abs() == old(weak.context.Abs())
        invariant rx.accepted == done + rx.queue
        invariant Shows(Execute(Env(), done)) && Execute(Env(), done).exit == exit
        invariant Execute(Env(), done).stopped.None? && Execute(Env(), done).failedRequest.None?
        invariant exit != ManualCloseImmediate && (exit == ManualClose ==> rx.closed)
        decreases |rx.script|, |rx.queue|
      {
        ghost var acceptedBefore, queueBefore := rx.accepted, rx.queue;
        var d := rx.Recv();
        ghost var more :| rx.accepted == acceptedBefore + more && queueBefore + more == Rejoined(d, rx.queue);
        assert rx.accepted == done + (queueBefore + more);
        if d.None? {
          assert rx.accepted == done;
          return Exited(exit);
        }
        assert rx.accepted == (done + [d.value]) + rx.queue;
        ghost var p := Execute(Env(), done);
        CloseResults(Env(), p, d.value);
        var stopped, newExit := Handle(d.value, exit, p);
        ExecuteSnoc(Env(), done, d.value);
        done := done + [d.value];
        exit := newExit;
        if stopped.Some? {
          ExecuteStopped(Env(), done, rx.queue);
          return stopped.value;
        }
      }
    }

    /** The loop, and the report to the context behind it. */
    method RunAndReport() returns (result: RunResult)
      requires weak.context.Valid() && Shows(START) && rx.queue == rx.accepted
      modifies writer, weak, rx, weak.context, weak.context.arena
      ensures weak.context.Valid()
      ensures result == Execute(Env(), rx.accepted).Result()
      ensures writer.written == Execute(Env(), rx.accepted).written
      ensures writer.closes == Execute(Env(), rx.accepted).closes
      ensures weak.context.Abs() == ContextAfter(old(weak.context.Abs()), Env(), Execute(Env(), rx.accepted))
      ensures Execute(Env(), rx.accepted).upgrades < weak.aliveFor ==> rx.closed
      ensures ClosesChannel(result) ==> rx.closed
    {
      hide Step, Execute, RequestContext.Abs, RequestSpec.WriteFailedFor, RequestSpec.Expired;
      result := Loop();
      var strong := weak.Upgrade();
      if strong.Some? {
        rx.Close();
        strong.value.MarkExpired();
      }
    }

    /** `write_runner`: the first operation that stops the task decides its result; if it is the write of a request, the
        waiter registered for that request is marked. */
    method Run() returns (result: RunResult)
      requires weak.context.Valid() && Shows(START) && rx.queue == rx.accepted
      modifies writer, weak, rx, weak.context, weak.context.arena
      ensures weak.context.Valid()
      ensures result == Execute(Env(), rx.accepted).Result()
      ensures writer.written == Execute(Env(), rx.accepted).written
      ensures writer.closes == Execute(Env(), rx.accepted).closes
      ensures weak.context.Abs() == ContextAfter(old(weak.context.Abs()), Env(), Execute(Env(), rx.accepted))
      ensures Execute(Env(), rx.accepted).upgrades < weak.aliveFor ==> rx.closed
      ensures ClosesChannel(result) ==> rx.closed
      ensures forall j: nat :: FirstStop(Env(), Operations(rx.accepted), j) ==>
                Outcome(result, j) && (Operations(rx.accepted)[j].RequestOp? ==> Told(Operations(rx.accepted)[j].id))
    {
      hide Step, Execute, RequestContext.Abs, ContextAfter, FirstStop, Operations;
      ghost var before := weak.context.Abs();
      result := RunAndReport();
      forall j: nat | j < |Operations(rx.accepted)| && FirstStop(Env(), Operations(rx.accepted), j)
        ensures Outcome(result, j)
        ensures Operations(rx.accepted)[j].RequestOp? ==> Told(Operations(rx.accepted)[j].id)
      {
        FirstStopDecides(Env(), rx.accepted, j);
        if Operations(rx.accepted)[j].RequestOp? && Operations(rx.accepted)[j].id in weak.context.waitList {
          WaitListStays(before, Env(), Execute(Env(), rx.accepted));
          MarkedCell(before, Env(), Execute(Env(), rx.accepted));
        }
      }
      forall j: nat | FirstStop(Env(), Operations(rx.accepted), j)
        ensures j < |Operations(rx.accepted)|
      {
        InRange(j);
      }
    }

    lemma InRange(j: nat)
      requires FirstStop(Env(), Operations(rx.accepted), j)
      ensures j < |Operations(rx.accepted)|
    {
      hide Operations, Stops;
    }

    /** The waiter registered for a request, if there is one, holds the mark of the failed write. */
    ghost predicate Told(id: RequestId)
      reads weak.context, weak.context.arena, weak.context.waitList.Values
    {
      id in weak.context.waitList ==> weak.context.waitList[id].response == Requests.WriteFailed
    }

    /** The result that operation `j` brings about when it is the first to stop the task. */
    ghost predicate Outcome(result: RunResult, j: nat)
      reads rx
      requires j < |Operations(rx.accepted)|
    {
      match Operations(rx.accepted)[j]
      case CloseOp => result == if writer.fails(j) then Failed(WriterCloseFailed) else Exited(ManualCloseImmediate)
      case FlushOp => writer.fails(j) && result == Failed(WriterFlushFailed)
      case WriteOp(_) => writer.fails(j) && result == Failed(WriteFailed)
      case RequestOp(_, _) => writer.fails(j) && result == Failed(WriteFailed)
    }

    lemma WaitListStays(sh: Requests.Shared, env: Environment, p: Progress)
      requires RequestSpec.SlotsExist(sh)
      ensures ContextAfter(sh, env, p).waitList == sh.waitList
    {
    }

    lemma MarkedCell(sh: Requests.Shared, env: Environment, p: Progress)
      requires RequestSpec.SlotsExist(sh) && p.failedRequest.Some? && p.failedRequest.value in sh.waitList
      ensures var after := ContextAfter(sh, env, p);
              && after.waitList == sh.waitList && |after.waiters| == |sh.waiters|
              && after.waiters[sh.waitList[p.failedRequest.value]].cell == Requests.WriteFailed
    {
    }
  }
}
