/** The writer task as a list of transport operations: it performs them in order up to the first that stops it. */
module WriterOperations {
  import opened Common
  import opened Requests
  import opened RequestSpec
  import opened WriterSpec

  datatype Op = WriteOp(frame: Bytes) | RequestOp(frame: Bytes, id: RequestId) | FlushOp | CloseOp

  function OpsOf(d: Directive): seq<Op> {
    match d
    case CloseImmediately => [CloseOp]
    case CloseAfterFlush => []
    case Flush => [FlushOp]
    case WriteMsg(payload) => [WriteOp(payload)]
    case WriteMsgBurst(chunks) => seq(|chunks|, i requires 0 <= i < |chunks| => WriteOp(chunks[i]))
    case WriteReqMsg(payload, id) => [RequestOp(payload, id)]
  }

  /** All operations of a queue, one after the other. */
  function Operations(ds: seq<Directive>): seq<Op> {
    if ds == [] then [] else Operations(ds[..|ds| - 1]) + OpsOf(ds[|ds| - 1])
  }

  function RequestOps(ops: seq<Op>): nat {
    if ops == [] then 0 else RequestOps(ops[..|ops| - 1]) + if ops[|ops| - 1].RequestOp? then 1 else 0
  }

  /** The frames of those writes among the operations that succeed. */
  function Succeeded(env: Environment, ops: seq<Op>): seq<Bytes> {
    if ops == [] then []
    else
      var last := ops[|ops| - 1];
      Succeeded(env, ops[..|ops| - 1]) +
      if (last.WriteOp? || last.RequestOp?) && !env.fails(|ops| - 1) then [last.frame] else []
  }

  /** Operation `j` is a close, or fails without being swallowed: a failed request write is swallowed if the context is
      gone by then, that is, if it has been asked for as often as it lives. */
  predicate Stops(env: Environment, ops: seq<Op>, j: nat)
    requires j < |ops|
  {
    ops[j].CloseOp? || (env.fails(j) && (ops[j].RequestOp? ==> RequestOps(ops[..j]) < env.aliveFor))
  }

  /** Operation `j` is the first one that stops the task. */
  predicate FirstStop(env: Environment, ops: seq<Op>, j: nat) {
    j < |ops| && Stops(env, ops, j) && forall i :: 0 <= i < j ==> !Stops(env, ops, i)
  }

  predicate NeverStops(env: Environment, ops: seq<Op>) {
    forall i :: 0 <= i < |ops| ==> !Stops(env, ops, i)
  }

  function ErrorOf(op: Op): RunError {
    match op
    case CloseOp => WriterCloseFailed
    case FlushOp => WriterFlushFailed
    case WriteOp(_) => RunError.WriteFailed
    case RequestOp(_, _) => RunError.WriteFailed
  }

  // ---- Lists that grow ----

  lemma OperationsSnoc(ds: seq<Directive>, d: Directive)
    ensures Operations(ds + [d]) == Operations(ds) + OpsOf(d)
  {
    assert (ds + [d])[..|ds|] == ds;
  }

  lemma RequestOpsSnoc(ops: seq<Op>, op: Op)
    ensures RequestOps(ops + [op]) == RequestOps(ops) + if op.RequestOp? then 1 else 0
  {
    assert (ops + [op])[..|ops|] == ops;
  }

  lemma SucceededSnoc(env: Environment, ops: seq<Op>, op: Op)
    ensures Succeeded(env, ops + [op])
         == Succeeded(env, ops) + if (op.WriteOp? || op.RequestOp?) && !env.fails(|ops|) then [op.frame] else []
  {
    assert (ops + [op])[..|ops|] == ops;
  }

  lemma StopsStay(env: Environment, ops: seq<Op>, more: seq<Op>, j: nat)
    requires j < |ops|
    ensures (ops + more)[..j] == ops[..j] && (ops + more)[j] == ops[j]
    ensures Stops(env, ops + more, j) <==> Stops(env, ops, j)
  {
    assert (ops + more)[..j] == ops[..j];
  }

  lemma NeverStopsSnoc(env: Environment, ops: seq<Op>, op: Op)
    requires NeverStops(env, ops)
    ensures !Stops(env, ops + [op], |ops|) ==> NeverStops(env, ops + [op])
    ensures Stops(env, ops + [op], |ops|) ==> FirstStop(env, ops + [op], |ops|)
    ensures Stops(env, ops + [op], |ops|) <==>
              op.CloseOp? || (env.fails(|ops|) && (op.RequestOp? ==> RequestOps(ops) < env.aliveFor))
  {
    assert (ops + [op])[..|ops|] == ops;
    forall i | 0 <= i < |ops|
      ensures !Stops(env, ops + [op], i)
    {
      StopsStay(env, ops, [op], i);
    }
  }

  lemma FirstStopStays(env: Environment, ops: seq<Op>, more: seq<Op>, j: nat)
    requires FirstStop(env, ops, j)
    ensures FirstStop(env, ops + more, j)
    ensures (ops + more)[..j] == ops[..j] && (ops + more)[j] == ops[j]
  {
    StopsStay(env, ops, more, j);
    forall i | 0 <= i < j
      ensures !Stops(env, ops + more, i)
    {
      StopsStay(env, ops, more, i);
    }
  }

  // ---- The run by its operations ----

  /** Where a run stands that no operation has stopped. */
  predicate Going(env: Environment, ops: seq<Op>, p: Progress) {
    && NeverStops(env, ops) && p.stopped.None? && p.failedRequest.None?
    && p.ops == |ops| && p.closes == 0 && p.upgrades == RequestOps(ops) && p.written == Succeeded(env, ops)
  }

  /** What a run comes to that operation `j` has stopped: its error if it fails, the end of the run if it is a close
      that succeeds; nothing behind it is done; and if it is the write of a request, the context is told. */
  predicate StoppedBy(env: Environment, ops: seq<Op>, p: Progress, j: nat)
    requires j < |ops|
  {
    && p.stopped == Some(if env.fails(j) then Failed(ErrorOf(ops[j])) else Exited(ManualCloseImmediate))
    && p.failedRequest == (if ops[j].RequestOp? then Some(ops[j].id) else None)
    && p.ops == j + 1 && p.closes == (if env.fails(j) then 0 else 1)
    && p.written == Succeeded(env, ops[..j])
  }

  predicate Describes(env: Environment, ops: seq<Op>, p: Progress) {
    if p.stopped.None? then Going(env, ops, p)
    else exists j :: 0 <= j < |ops| && FirstStop(env, ops, j) && StoppedBy(env, ops, p, j)
  }

  lemma DescribesStopped(env: Environment, ops: seq<Op>, more: seq<Op>, p: Progress)
    requires Describes(env, ops, p) && p.stopped.Some?
    ensures Describes(env, ops + more, p)
  {
    hide FirstStop;
    var j: nat :| j < |ops| && FirstStop(env, ops, j) && StoppedBy(env, ops, p, j);
    FirstStopStays(env, ops, more, j);
    assert StoppedBy(env, ops + more, p, j);
  }

  /** One operation more. */
  lemma DescribesOne(env: Environment, ops: seq<Op>, op: Op, p: Progress, q: Progress)
    requires Going(env, ops, p)
    requires var stops := op.CloseOp? || (env.fails(|ops|) && (op.RequestOp? ==> RequestOps(ops) < env.aliveFor));
             if stops then StoppedBy(env, ops + [op], q, |ops|)
             else q.stopped.None? && q.failedRequest.None? && q.closes == 0 && q.ops == |ops| + 1
                  && q.upgrades == RequestOps(ops + [op]) && q.written == Succeeded(env, ops + [op])
    ensures Describes(env, ops + [op], q)
  {
    hide FirstStop, NeverStops, Stops, RequestOps, Succeeded;
    NeverStopsSnoc(env, ops, op);
    if Stops(env, ops + [op], |ops|) {
      assert FirstStop(env, ops + [op], |ops|) && StoppedBy(env, ops + [op], q, |ops|);
    }
  }

  lemma DescribesWrite(env: Environment, ops: seq<Op>, payload: Bytes, p: Progress)
    requires Going(env, ops, p)
    ensures Describes(env, ops + [WriteOp(payload)], Step(env, p, WriteMsg(payload)))
  {
    hide NeverStops, Describes, RequestOps, Succeeded;
    var op := WriteOp(payload);
    RequestOpsSnoc(ops, op);
    SucceededSnoc(env, ops, op);
    assert (ops + [op])[..|ops|] == ops;
    DescribesOne(env, ops, op, p, Step(env, p, WriteMsg(payload)));
  }

  lemma DescribesRequest(env: Environment, ops: seq<Op>, payload: Bytes, id: RequestId, p: Progress)
    requires Going(env, ops, p)
    ensures Describes(env, ops + [RequestOp(payload, id)], Step(env, p, WriteReqMsg(payload, id)))
  {
    hide NeverStops, Describes, RequestOps, Succeeded;
    var op := RequestOp(payload, id);
    RequestOpsSnoc(ops, op);
    SucceededSnoc(env, ops, op);
    assert (ops + [op])[..|ops|] == ops;
    DescribesOne(env, ops, op, p, Step(env, p, WriteReqMsg(payload, id)));
  }

  lemma DescribesFlush(env: Environment, ops: seq<Op>, p: Progress)
    requires Going(env, ops, p)
    ensures Describes(env, ops + [FlushOp], Step(env, p, Flush))
  {
    hide NeverStops, Describes, RequestOps, Succeeded;
    RequestOpsSnoc(ops, FlushOp);
    SucceededSnoc(env, ops, FlushOp);
    assert (ops + [FlushOp])[..|ops|] == ops;
    DescribesOne(env, ops, FlushOp, p, Step(env, p, Flush));
  }

  lemma DescribesCloseNow(env: Environment, ops: seq<Op>, p: Progress)
    requires Going(env, ops, p)
    ensures Describes(env, ops + [CloseOp], Step(env, p, CloseImmediately))
  {
    hide NeverStops, Describes, RequestOps, Succeeded;
    RequestOpsSnoc(ops, CloseOp);
    SucceededSnoc(env, ops, CloseOp);
    assert (ops + [CloseOp])[..|ops|] == ops;
    DescribesOne(env, ops, CloseOp, p, Step(env, p, CloseImmediately));
  }

  predicate AllSucceed(fails: nat -> bool, from: nat, to: nat) {
    forall k :: from <= k < to ==> !fails(k)
  }

  function Writes(chunks: seq<Bytes>): (ops: seq<Op>)
    ensures |ops| == |chunks| && forall i :: 0 <= i < |ops| ==> ops[i] == WriteOp(chunks[i])
  {
    OpsOf(WriteMsgBurst(chunks))
  }

  /** The frames of a burst that succeed, one by one. */
  lemma {:induction false} BurstGoes(env: Environment, ops: seq<Op>, chunks: seq<Bytes>, n: nat, p: Progress)
    requires Going(env, ops, p) && n <= |chunks| && AllSucceed(env.fails, |ops|, |ops| + n)
    ensures Going(env, ops + Writes(chunks)[..n], p.(ops := p.ops + n, written := p.written + chunks[..n]))
    decreases n
  {
    if n == 0 {
      assert ops + [] == ops && p.written + [] == p.written;
    } else {
      var before := ops + Writes(chunks)[..n - 1];
      BurstGoes(env, ops, chunks, n - 1, p);
      GoesOneFurther(env, before, chunks[n - 1],
                     p.(ops := p.ops + (n - 1), written := p.written + chunks[..n - 1]));
      assert before + [WriteOp(chunks[n - 1])] == ops + Writes(chunks)[..n];
      assert (p.written + chunks[..n - 1]) + [chunks[n - 1]] == p.written + chunks[..n];
    }
  }

  lemma GoesOneFurther(env: Environment, ops: seq<Op>, frame: Bytes, p: Progress)
    requires Going(env, ops, p) && !env.fails(|ops|)
    ensures Going(env, ops + [WriteOp(frame)], p.(ops := p.ops + 1, written := p.written + [frame]))
  {
    hide NeverStops, RequestOps, Succeeded;
    var op := WriteOp(frame);
    NeverStopsSnoc(env, ops, op);
    RequestOpsSnoc(ops, op);
    SucceededSnoc(env, ops, op);
  }

  lemma {:induction false} SuccessesMeans(fails: nat -> bool, ops: nat, len: nat)
    ensures var n := Successes(fails, ops, len); AllSucceed(fails, ops, ops + n) && (n < len ==> fails(ops + n))
    decreases len
  {
    if len == 0 || fails(ops) {
    } else {
      SuccessesMeans(fails, ops + 1, len - 1);
    }
  }

  lemma DescribesBurst(env: Environment, ops: seq<Op>, chunks: seq<Bytes>, p: Progress)
    requires Going(env, ops, p)
    ensures Describes(env, ops + Writes(chunks), Step(env, p, WriteMsgBurst(chunks)))
  {
    hide NeverStops, RequestOps, Succeeded, Successes;
    var n := Successes(env.fails, p.ops, |chunks|);
    SuccessesMeans(env.fails, p.ops, |chunks|);
    BurstGoes(env, ops, chunks, n, p);
    if n == |chunks| {
      assert Writes(chunks)[..n] == Writes(chunks);
    } else {
      BurstStops(env, ops, chunks, n, p);
    }
  }

  lemma BurstStops(env: Environment, ops: seq<Op>, chunks: seq<Bytes>, n: nat, p: Progress)
    requires n < |chunks| && env.fails(|ops| + n) && p.stopped.None? && p.failedRequest.None? && p.ops == |ops|
    requires n == Successes(env.fails, p.ops, |chunks|)
    requires Going(env, ops + Writes(chunks)[..n], p.(ops := p.ops + n, written := p.written + chunks[..n]))
    ensures Describes(env, ops + Writes(chunks), Step(env, p, WriteMsgBurst(chunks)))
  {
    hide NeverStops, FirstStop, RequestOps, Succeeded, Describes, Step, Going, Writes, Stops, StoppedBy, Successes;
    var before := ops + Writes(chunks)[..n];
    var op := WriteOp(chunks[n]);
    var q := Step(env, p, WriteMsgBurst(chunks));
    BurstResult(env, before, chunks, n, p);
    DescribesOne(env, before, op, p.(ops := p.ops + n, written := p.written + chunks[..n]), q);
    SplitAt(ops, Writes(chunks), n);
    DescribesStopped(env, before + [op], Writes(chunks)[n + 1..], q);
  }

  lemma SplitAt(ops: seq<Op>, more: seq<Op>, n: nat)
    requires n < |more|
    ensures (ops + more[..n]) + [more[n]] + more[n + 1..] == ops + more
  {
  }

  lemma BurstResult(env: Environment, before: seq<Op>, chunks: seq<Bytes>, n: nat, p: Progress)
    requires n < |chunks| && n == Successes(env.fails, p.ops, |chunks|) && env.fails(|before|)
    requires p.stopped.None? && p.failedRequest.None?
    requires Going(env, before, p.(ops := p.ops + n, written := p.written + chunks[..n]))
    ensures StoppedBy(env, before + [WriteOp(chunks[n])], Step(env, p, WriteMsgBurst(chunks)), |before|)
    ensures Step(env, p, WriteMsgBurst(chunks)).stopped.Some?
  {
    hide NeverStops, RequestOps, Succeeded;
    assert (before + [WriteOp(chunks[n])])[..|before|] == before;
  }

  lemma DescribesStep(env: Environment, ops: seq<Op>, d: Directive, p: Progress)
    requires Describes(env, ops, p)
    ensures Describes(env, ops + OpsOf(d), Step(env, p, d))
  {
    hide NeverStops, Describes, Going, StoppedBy, FirstStop;
    if p.stopped.Some? {
      DescribesStopped(env, ops, OpsOf(d), p);
    } else {
      IsGoing(env, ops, p);
      match d
      case WriteMsgBurst(chunks) => DescribesBurst(env, ops, chunks, p);
      case CloseAfterFlush => DescribesClose(env, ops, p);
      case CloseImmediately => DescribesCloseNow(env, ops, p);
      case Flush => DescribesFlush(env, ops, p);
      case WriteMsg(payload) => DescribesWrite(env, ops, payload, p);
      case WriteReqMsg(payload, id) => DescribesRequest(env, ops, payload, id, p);
    }
  }

  lemma IsGoing(env: Environment, ops: seq<Op>, p: Progress)
    requires Describes(env, ops, p) && p.stopped.None?
    ensures Going(env, ops, p)
  {
  }

  lemma DescribesClose(env: Environment, ops: seq<Op>, p: Progress)
    requires Going(env, ops, p)
    ensures Describes(env, ops + [], Step(env, p, CloseAfterFlush))
  {
    assert ops + [] == ops;
  }

  lemma {:induction false} DescribesAll(env: Environment, ds: seq<Directive>)
    ensures Describes(env, Operations(ds), Execute(env, ds))
  {
    if ds == [] {
    } else {
      hide Describes, Step, OpsOf;
      var init, last := ds[..|ds| - 1], ds[|ds| - 1];
      DescribesAll(env, init);
      DescribesStep(env, Operations(init), last, Execute(env, init));
    }
  }

  // ---- Results ----

  lemma OnlyFirst(env: Environment, ops: seq<Op>, i: nat, j: nat)
    requires FirstStop(env, ops, i) && FirstStop(env, ops, j)
    ensures i == j
  {
  }

  /** The first operation that stops the task decides: the result is its error if it fails, whether a close, a flush
      or a write; a failing write of a request that is reported, that is, with the context in use, is the one the
      context is told about; and nothing behind it is done. */
  lemma FirstStopDecides(env: Environment, ds: seq<Directive>, j: nat)
    requires FirstStop(env, Operations(ds), j)
    ensures StoppedBy(env, Operations(ds), Execute(env, ds), j)
    ensures match Operations(ds)[j]
            case CloseOp =>
              Execute(env, ds).Result()
              == if env.fails(j) then Failed(WriterCloseFailed) else Exited(ManualCloseImmediate)
            case FlushOp => env.fails(j) && Execute(env, ds).Result() == Failed(WriterFlushFailed)
            case WriteOp(_) => env.fails(j) && Execute(env, ds).Result() == Failed(RunError.WriteFailed)
            case RequestOp(_, id) =>
              env.fails(j) && Execute(env, ds).Result() == Failed(RunError.WriteFailed)
              && Execute(env, ds).failedRequest == Some(id)
  {
    hide FirstStop, StoppedBy, Execute, Operations;
    DescribesAll(env, ds);
    var ops, p := Operations(ds), Execute(env, ds);
    if p.stopped.None? {
      GoesOn(env, ops, p, j);
    } else {
      var i: nat :| i < |ops| && FirstStop(env, ops, i) && StoppedBy(env, ops, p, i);
      OnlyFirst(env, ops, i, j);
      ResultOf(env, ops, p, j);
    }
  }

  lemma GoesOn(env: Environment, ops: seq<Op>, p: Progress, j: nat)
    requires Going(env, ops, p)
    ensures !FirstStop(env, ops, j)
  {
  }

  lemma ResultOf(env: Environment, ops: seq<Op>, p: Progress, j: nat)
    requires FirstStop(env, ops, j) && StoppedBy(env, ops, p, j)
    ensures match ops[j]
            case CloseOp =>
              p.Result() == if env.fails(j) then Failed(WriterCloseFailed) else Exited(ManualCloseImmediate)
            case FlushOp => env.fails(j) && p.Result() == Failed(WriterFlushFailed)
            case WriteOp(_) => env.fails(j) && p.Result() == Failed(RunError.WriteFailed)
            case RequestOp(_, id) =>
              env.fails(j) && p.Result() == Failed(RunError.WriteFailed) && p.failedRequest == Some(id)
  {
  }

  /** In particular: the write of a request that fails with the context in use is reported to it. */
  lemma FailedRequestIsReported(env: Environment, ds: seq<Directive>, k: nat)
    requires k < |ds| && ds[k].WriteReqMsg? && Execute(env, ds[..k]).stopped.None?
    requires env.fails(Execute(env, ds[..k]).ops) && Execute(env, ds[..k]).upgrades < env.aliveFor
    ensures Execute(env, ds).failedRequest == Some(ds[k].id)
    ensures Execute(env, ds).Result() == Failed(RunError.WriteFailed)
  {
    hide FirstStop, StoppedBy, Execute, Operations, NeverStops, RequestOps, Succeeded;
    DescribesAll(env, ds[..k]);
    IsGoing(env, Operations(ds[..k]), Execute(env, ds[..k]));
    var before, op := Operations(ds[..k]), RequestOp(ds[k].payload, ds[k].id);
    NeverStopsSnoc(env, before, op);
    OperationsSplit(ds, k);
    FirstStopStays(env, before + [op], Operations(ds)[|before| + 1..], |before|);
    FirstStopDecides(env, ds, |before|);
  }

  lemma OneOp(d: Directive)
    requires d.WriteReqMsg?
    ensures OpsOf(d) == [RequestOp(d.payload, d.id)]
  {
  }

  lemma {:induction false} OperationsSplit(ds: seq<Directive>, k: nat)
    requires k < |ds| && ds[k].WriteReqMsg?
    ensures var before, op := Operations(ds[..k]), RequestOp(ds[k].payload, ds[k].id);
            && |before| < |Operations(ds)|
            && Operations(ds) == (before + [op]) + Operations(ds)[|before| + 1..]
    decreases |ds|
  {
    hide OpsOf;
    var n := |ds| - 1;
    if k == n {
      OneOp(ds[k]);
    } else {
      assert ds[..n][..k] == ds[..k];
      OperationsSplit(ds[..n], k);
    }
  }

  /** Without such an operation all of them are done, there is no error, and the context hears of no failed request. */
  lemma NoStopNoError(env: Environment, ds: seq<Directive>)
    requires NeverStops(env, Operations(ds))
    ensures var p := Execute(env, ds);
            && p.Result().Exited? && p.failedRequest.None? && p.closes == 0
            && p.ops == |Operations(ds)| && p.written == Succeeded(env, Operations(ds))
  {
    hide Execute, Operations, StoppedBy;
    DescribesAll(env, ds);
  }
}
