/** What the writer task does with a queue of directives, as a fold over it. */
module WriterSpec {
  import opened Common
  import Requests
  import RequestSpec

  /** `WriterDirective`. */
  datatype Directive =
    | CloseImmediately
    | CloseAfterFlush
    | Flush
    | WriteMsg(payload: Bytes)
    | WriteMsgBurst(chunks: seq<Bytes>)
    | WriteReqMsg(payload: Bytes, id: RequestId)

  datatype ExitType = AllHandleDropped | ManualCloseImmediate | ManualClose

  datatype RunError = WriterCloseFailed | WriterFlushFailed | WriteFailed

  datatype RunResult = Exited(exit: ExitType) | Failed(error: RunError)

  /** `fails(k)`: the transport refuses the `k`-th operation. The `k`-th upgrade of the weak reference to the context
      succeeds while `k < aliveFor`: a reference that is gone does not come back. */
  datatype Environment = Environment(fails: nat -> bool, aliveFor: nat)

  /** How far the writer is. `failedRequest` is the request the context was told about. */
  datatype Progress = Progress(
    written: seq<Bytes>,
    ops: nat,
    closes: nat,
    upgrades: nat,
    exit: ExitType,
    stopped: Option<RunResult>,
    failedRequest: Option<RequestId>)
  {
    function Result(): RunResult {
      if stopped.Some? then stopped.value else Exited(exit)
    }
  }

  const START := Progress([], 0, 0, 0, AllHandleDropped, None, None)

  function WroteFrame(env: Environment, p: Progress, payload: Bytes): (Progress, bool) {
    if env.fails(p.ops) then (p.(ops := p.ops + 1), false)
    else (p.(ops := p.ops + 1, written := p.written + [payload]), true)
  }

  /** How many of the next `len` operations succeed before one fails. */
  function Successes(fails: nat -> bool, ops: nat, len: nat): (n: nat)
    ensures n <= len
    decreases len
  {
    if len == 0 || fails(ops) then 0 else 1 + Successes(fails, ops + 1, len - 1)
  }

  /** `write_frame_burst`: stops at the first frame that fails. */
  function WroteBurst(env: Environment, p: Progress, chunks: seq<Bytes>): (Progress, bool) {
    var n := Successes(env.fails, p.ops, |chunks|);
    (p.(written := p.written + chunks[..n], ops := p.ops + if n < |chunks| then n + 1 else n), n == |chunks|)
  }

  function StoppedUnless(ok: bool, p: Progress, error: RunError): Progress {
    if ok then p else p.(stopped := Some(Failed(error)))
  }

  /** One directive; nothing is done with directives behind the one that stopped the writer. */
  function Step(env: Environment, p: Progress, d: Directive): Progress {
    if p.stopped.Some? then p else
    match d
    case CloseImmediately =>
      if env.fails(p.ops) then p.(ops := p.ops + 1, stopped := Some(Failed(WriterCloseFailed)))
      else p.(ops := p.ops + 1, closes := p.closes + 1, stopped := Some(Exited(ManualCloseImmediate)))
    case CloseAfterFlush => p.(exit := ManualClose)
    case Flush => StoppedUnless(!env.fails(p.ops), p.(ops := p.ops + 1), WriterFlushFailed)
    case WriteMsg(payload) =>
      var (q, ok) := WroteFrame(env, p, payload);
      StoppedUnless(ok, q, WriteFailed)
    case WriteMsgBurst(chunks) =>
      var (q, ok) := WroteBurst(env, p, chunks);
      StoppedUnless(ok, q, WriteFailed)
    case WriteReqMsg(payload, id) =>
      var (q, ok) := WroteFrame(env, p, payload);
      var r := q.(upgrades := q.upgrades + 1);
      if ok || env.aliveFor <= p.upgrades then r
      else r.(stopped := Some(Failed(WriteFailed)), failedRequest := Some(id))
  }

  function Execute(env: Environment, ds: seq<Directive>): Progress {
    if ds == [] then START else Step(env, Execute(env, ds[..|ds| - 1]), ds[|ds| - 1])
  }

  lemma ExecuteNothing(env: Environment)
    ensures Execute(env, []) == START
  {
  }

  lemma ExecuteSnoc(env: Environment, ds: seq<Directive>, d: Directive)
    ensures Execute(env, ds + [d]) == Step(env, Execute(env, ds), d)
  {
  }

  lemma {:induction false} ExecuteStopped(env: Environment, ds: seq<Directive>, rest: seq<Directive>)
    requires Execute(env, ds).stopped.Some?
    ensures Execute(env, ds + rest) == Execute(env, ds)
    decreases |rest|
  {
    if rest == [] {
      assert ds + rest == ds;
    } else {
      var r, d := rest[..|rest| - 1], rest[|rest| - 1];
      ExecuteStopped(env, ds, r);
      ExecuteSnoc(env, ds + r, d);
      assert (ds + r) + [d] == ds + rest;
    }
  }

  /** What the request context goes through: the failed request is marked, then everything expires. */
  function ContextAfter(sh: Requests.Shared, env: Environment, p: Progress): Requests.Shared
    requires p.failedRequest.Some? && p.failedRequest.value in sh.waitList ==>
               sh.waitList[p.failedRequest.value] < |sh.waiters|
  {
    var marked := if p.failedRequest.Some? then RequestSpec.WriteFailedFor(sh, p.failedRequest.value) else sh;
    if p.upgrades < env.aliveFor then RequestSpec.Expired(marked) else marked
  }
}
