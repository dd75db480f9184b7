/** What the writer task guarantees, over all directive queues and all transports. */
module WriterTheorems {
  import opened Common
  import opened Requests
  import opened RequestSpec
  import RequestTheorems
  import WriterOperations
  import opened WriterSpec

  /** The directives before the first `CloseImmediately`. */
  function Served(ds: seq<Directive>): seq<Directive> {
    if ds == [] || ds[0].CloseImmediately? then [] else [ds[0]] + Served(ds[1..])
  }

  function Payloads(d: Directive): seq<Bytes> {
    match d
    case WriteMsg(payload) => [payload]
    case WriteMsgBurst(chunks) => chunks
    case WriteReqMsg(payload, _) => [payload]
    case _ => []
  }

  /** The frames of all directives in order, bursts flattened. */
  function Frames(ds: seq<Directive>): seq<Bytes> {
    if ds == [] then [] else Payloads(ds[0]) + Frames(ds[1..])
  }

  function RequestCount(ds: seq<Directive>): nat {
    if ds == [] then 0 else (if ds[0].WriteReqMsg? then 1 else 0) + RequestCount(ds[1..])
  }

  lemma {:induction false} FramesSnoc(ds: seq<Directive>, d: Directive)
    ensures Frames(ds + [d]) == Frames(ds) + Payloads(d)
  {
    if ds == [] {
      assert [d][1..] == [];
    } else {
      assert (ds + [d])[1..] == ds[1..] + [d];
      FramesSnoc(ds[1..], d);
    }
  }

  lemma {:induction false} RequestCountSnoc(ds: seq<Directive>, d: Directive)
    ensures RequestCount(ds + [d]) == RequestCount(ds) + if d.WriteReqMsg? then 1 else 0
  {
    if ds == [] {
      assert [d][1..] == [];
    } else {
      assert (ds + [d])[1..] == ds[1..] + [d];
      RequestCountSnoc(ds[1..], d);
    }
  }

  lemma {:induction false} ServedAll(ds: seq<Directive>)
    requires CloseImmediately !in ds
    ensures Served(ds) == ds
  {
    if ds == [] {
    } else {
      assert ds[0] in ds;
      ServedAll(ds[1..]);
      assert ds == [ds[0]] + ds[1..];
    }
  }

  lemma {:induction false} ServedSnoc(ds: seq<Directive>, d: Directive)
    ensures Served(ds + [d]) == if CloseImmediately in ds || d.CloseImmediately? then Served(ds) else Served(ds) + [d]
  {
    if ds == [] || ds[0].CloseImmediately? {
    } else {
      assert (ds + [d])[1..] == ds[1..] + [d];
      ServedSnoc(ds[1..], d);
      assert ds == [ds[0]] + ds[1..];
    }
  }

  lemma Snoc(ds: seq<Directive>) returns (init: seq<Directive>, last: Directive)
    requires ds != []
    ensures ds == init + [last] && init == ds[..|ds| - 1] && last == ds[|ds| - 1]
  {
    init, last := ds[..|ds| - 1], ds[|ds| - 1];
  }

  // ---- A burst ----

  lemma {:induction false} NeverFailing(fails: nat -> bool, ops: nat, len: nat)
    requires forall k: nat :: !fails(k)
    ensures Successes(fails, ops, len) == len
    decreases len
  {
    if len == 0 {
    } else {
      NeverFailing(fails, ops + 1, len - 1);
    }
  }

  /** A burst writes some prefix of its chunks, and all of them when it reports success. */
  lemma BurstWrites(env: Environment, p: Progress, chunks: seq<Bytes>)
    ensures var (q, ok) := WroteBurst(env, p, chunks);
            && q == p.(written := q.written, ops := q.ops)
            && p.written <= q.written <= p.written + chunks
            && (ok ==> q.written == p.written + chunks)
    ensures (forall k: nat :: !env.fails(k)) ==> WroteBurst(env, p, chunks).1
  {
    var n := Successes(env.fails, p.ops, |chunks|);
    assert p.written + chunks == (p.written + chunks[..n]) + chunks[n..];
    if forall k: nat :: !env.fails(k) {
      NeverFailing(env.fails, p.ops, |chunks|);
    }
  }

  // ---- A transport that never fails ----

  predicate Refines(p: Progress, ds: seq<Directive>) {
    && p.written == Frames(Served(ds))
    && p.closes == (if CloseImmediately in ds then 1 else 0)
    && p.stopped == (if CloseImmediately in ds then Some(Exited(ManualCloseImmediate)) else None)
    && p.exit == (if CloseAfterFlush in Served(ds) then ManualClose else AllHandleDropped)
    && p.failedRequest == None
  }

  lemma RefinesStep(env: Environment, p: Progress, ds: seq<Directive>, d: Directive)
    requires (forall k: nat :: !env.fails(k)) && Refines(p, ds)
    ensures Refines(Step(env, p, d), ds + [d])
  {
    hide Served, Frames, WroteBurst;
    ServedSnoc(ds, d);
    FramesSnoc(Served(ds), d);
    assert forall x :: x in ds + [d] <==> x in ds || x == d;
    if d.WriteMsgBurst? {
      BurstWrites(env, p, d.chunks);
    }
  }

  lemma {:induction false} RefinesAll(env: Environment, ds: seq<Directive>)
    requires forall k: nat :: !env.fails(k)
    ensures Refines(Execute(env, ds), ds)
  {
    if ds == [] {
    } else {
      var init, last := Snoc(ds);
      RefinesAll(env, init);
      RefinesStep(env, Execute(env, init), init, last);
    }
  }

  lemma {:induction false} ServedHas(ds: seq<Directive>, d: Directive)
    requires CloseImmediately !in ds
    ensures d in Served(ds) <==> d in ds
  {
    ServedAll(ds);
  }

  /** The frames written are the payloads of the accepted directives, in order, up to the first `CloseImmediately`; the
      result says which close directives there were, and only `CloseImmediately` ever closes the transport. */
  lemma WriterRefinement(env: Environment, ds: seq<Directive>)
    requires forall k: nat :: !env.fails(k)
    ensures Execute(env, ds).written == Frames(Served(ds))
    ensures Execute(env, ds).Result() == Exited(if CloseImmediately in ds then ManualCloseImmediate
                                                else if CloseAfterFlush in ds then ManualClose
                                                else AllHandleDropped)
    ensures Execute(env, ds).closes == if CloseImmediately in ds then 1 else 0
  {
    RefinesAll(env, ds);
    if CloseImmediately !in ds {
      ServedHas(ds, CloseAfterFlush);
    }
  }

  /** Shutting down with `drop_after_this` queues `CloseImmediately` behind what is there already: nothing deferred
      earlier is dropped. */
  lemma ShutdownStillWritesEarlier(env: Environment, earlier: seq<Directive>)
    requires (forall k: nat :: !env.fails(k)) && CloseImmediately !in earlier
    ensures Execute(env, earlier + [CloseImmediately]).written == Frames(earlier)
    ensures Execute(env, earlier + [CloseAfterFlush]).written == Frames(earlier)
    ensures Execute(env, earlier + [CloseImmediately]).closes == 1
    ensures Execute(env, earlier + [CloseAfterFlush]).closes == 0
  {
    WriterRefinement(env, earlier + [CloseImmediately]);
    WriterRefinement(env, earlier + [CloseAfterFlush]);
    ServedSnoc(earlier, CloseImmediately);
    ServedSnoc(earlier, CloseAfterFlush);
    ServedAll(earlier);
    FramesSnoc(earlier, CloseAfterFlush);
  }

  /** The loop variable never holds `ManualCloseImmediate`, so the `close` after the loop is never reached. */
  lemma {:induction false} CloseAfterLoopIsDead(env: Environment, ds: seq<Directive>)
    ensures Execute(env, ds).exit != ManualCloseImmediate
  {
    if ds == [] {
    } else {
      var init, last := Snoc(ds);
      CloseAfterLoopIsDead(env, init);
      if last.WriteMsgBurst? {
        BurstWrites(env, Execute(env, init), last.chunks);
      }
    }
  }

  // ---- A transport that may fail ----

  /** A request whose write fails when the context is gone: nobody is told. */
  predicate Swallows(env: Environment, p: Progress, d: Directive) {
    p.stopped.None? && d.WriteReqMsg? && env.fails(p.ops) && env.aliveFor <= p.upgrades
  }

  /** How many of the executed directives were swallowed. */
  function Swallowed(env: Environment, ds: seq<Directive>): nat {
    if ds == [] then 0
    else Swallowed(env, ds[..|ds| - 1]) + if Swallows(env, Execute(env, ds[..|ds| - 1]), ds[|ds| - 1]) then 1 else 0
  }

  lemma SwallowedSnoc(env: Environment, ds: seq<Directive>, d: Directive)
    ensures Swallowed(env, ds + [d]) == Swallowed(env, ds) + if Swallows(env, Execute(env, ds), d) then 1 else 0
  {
    assert (ds + [d])[..|ds|] == ds;
  }

  /** The books of a run in which `swallowed` request writes were swallowed: without an error each frame is written or
      swallowed; while nothing was swallowed a prefix is out; and a request reported to the context is the first
      directive that was not written. */
  predicate Balanced(env: Environment, p: Progress, ds: seq<Directive>, swallowed: nat) {
    && (p.Result().Exited? ==> |p.written| + swallowed == |Frames(Served(ds))|)
    && (p.Result().Exited? ==> (p.stopped.Some? <==> CloseImmediately in ds))
    && (swallowed == 0 ==> p.written <= Frames(Served(ds)))
    && (swallowed > 0 ==> env.aliveFor < p.upgrades)
    && (p.failedRequest.Some? ==> p.Result() == Failed(RunError.WriteFailed) && swallowed == 0 && FirstUnwritten(p, ds))
  }

  predicate FailedAt(p: Progress, ds: seq<Directive>, k: nat) {
    && k < |ds|
    && ds[k].WriteReqMsg? && p.failedRequest == Some(ds[k].id)
    && CloseImmediately !in ds[..k] && p.written == Frames(ds[..k])
  }

  predicate FirstUnwritten(p: Progress, ds: seq<Directive>) {
    exists k: nat :: k < |ds| && FailedAt(p, ds, k)
  }

  lemma BalancedStopped(env: Environment, p: Progress, ds: seq<Directive>, d: Directive, swallowed: nat)
    requires Balanced(env, p, ds, swallowed) && p.stopped.Some?
    ensures Balanced(env, p, ds + [d], swallowed)
  {
    hide Served, Frames;
    ServedSnoc(ds, d);
    FramesSnoc(Served(ds), d);
    if p.failedRequest.Some? {
      var k: nat :| k < |ds| && FailedAt(p, ds, k);
      assert (ds + [d])[..k] == ds[..k];
      assert FailedAt(p, ds + [d], k);
    }
  }

  lemma BalancedMoving(env: Environment, p: Progress, ds: seq<Directive>, d: Directive, swallowed: nat)
    requires Balanced(env, p, ds, swallowed) && p.stopped.None?
    ensures Balanced(env, Step(env, p, d), ds + [d], swallowed + if Swallows(env, p, d) then 1 else 0)
  {
    hide Served, Frames, WroteBurst;
    ServedSnoc(ds, d);
    ServedAll(ds);
    FramesSnoc(Served(ds), d);
    assert forall x :: x in ds + [d] <==> x in ds || x == d;
    if d.WriteMsgBurst? {
      BurstWrites(env, p, d.chunks);
    }
    if swallowed == 0 {
      WholePrefix(p.written, Frames(Served(ds)));
    }
    if d.WriteReqMsg? && env.fails(p.ops) && swallowed == 0 {
      assert (ds + [d])[..|ds|] == ds;
      assert Step(env, p, d).failedRequest.Some? ==> FailedAt(Step(env, p, d), ds + [d], |ds|);
    }
  }

  lemma WholePrefix(a: seq<Bytes>, b: seq<Bytes>)
    ensures a <= b && |a| == |b| ==> a == b
  {
  }

  lemma {:induction false} BalancedAll(env: Environment, ds: seq<Directive>)
    ensures Balanced(env, Execute(env, ds), ds, Swallowed(env, ds))
  {
    if ds == [] {
      assert Served([]) == [] && Frames([]) == [];
    } else {
      hide Step, Balanced, Swallows;
      var init, last := Snoc(ds);
      var p := Execute(env, init);
      BalancedAll(env, init);
      SwallowedSnoc(env, init, last);
      if p.stopped.Some? {
        StepStopped(env, p, last);
        BalancedStopped(env, p, init, last, Swallowed(env, init));
      } else {
        BalancedMoving(env, p, init, last, Swallowed(env, init));
      }
    }
  }

  lemma StepStopped(env: Environment, p: Progress, d: Directive)
    requires p.stopped.Some?
    ensures Step(env, p, d) == p && !Swallows(env, p, d)
  {
  }

  /** What a run on any transport guarantees. Without an error every frame up to the first `CloseImmediately` is
      written or was swallowed, so all of them are written exactly if no request write failed with the context gone.
      Without such a failure what is written is a prefix, error or not. A request reported to the context is the first
      directive that was not written. */
  lemma NoSilentLoss(env: Environment, ds: seq<Directive>)
    ensures var p := Execute(env, ds);
            && (p.Result().Exited? ==> |p.written| + Swallowed(env, ds) == |Frames(Served(ds))|)
            && (p.Result().Exited? ==> (p.written == Frames(Served(ds)) <==> Swallowed(env, ds) == 0))
            && (Swallowed(env, ds) == 0 ==> p.written <= Frames(Served(ds)))
            && (p.failedRequest.Some? ==> FirstUnwritten(p, ds))
  {
    BalancedAll(env, ds);
    WholePrefix(Execute(env, ds).written, Frames(Served(ds)));
  }

  lemma UpgradesGrow(env: Environment, p: Progress, d: Directive)
    ensures p.upgrades <= Step(env, p, d).upgrades <= p.upgrades + if d.WriteReqMsg? then 1 else 0
  {
    if d.WriteMsgBurst? {
      BurstWrites(env, p, d.chunks);
    }
  }

  lemma {:induction false} UpgradesCounted(env: Environment, ds: seq<Directive>)
    ensures Execute(env, ds).upgrades <= RequestCount(ds)
  {
    if ds == [] {
    } else {
      var init, last := Snoc(ds);
      UpgradesCounted(env, init);
      UpgradesGrow(env, Execute(env, init), last);
      RequestCountSnoc(init, last);
    }
  }

  /** Nothing is swallowed while the context outlives the queued requests. */
  lemma NothingSwallowed(env: Environment, ds: seq<Directive>)
    requires RequestCount(ds) <= env.aliveFor
    ensures Swallowed(env, ds) == 0
  {
    UpgradesCounted(env, ds);
    BalancedAll(env, ds);
  }

  /** The shortest run that shows it: a failed request write followed by a write that succeeds. With the context in use
      the writer stops with an error; otherwise it goes on, leaves a gap and reports success. */
  lemma SwallowedWriteFailure(env: Environment, a: Bytes, b: Bytes, id: RequestId)
    requires a != b && env.fails(0) && !env.fails(1)
    ensures var ds := [WriteReqMsg(a, id), WriteMsg(b)];
            var p := Execute(env, ds);
            if env.aliveFor > 0 then p.Result() == Failed(RunError.WriteFailed) && p.written == []
            else p.Result() == Exited(AllHandleDropped) && p.written == [b] && !(p.written <= [a, b])
  {
    var ds := [WriteReqMsg(a, id), WriteMsg(b)];
    assert ds[..1] == [WriteReqMsg(a, id)] && ds[..1][..0] == [];
    assert Execute(env, []) == START;
    assert Execute(env, ds[..1]) == Step(env, START, WriteReqMsg(a, id));
    assert [b][0] != [a, b][0];
  }

  // ---- Nobody hangs ----

  lemma {:induction false} ExpiredForever(s: State, ls: seq<Label>)
    requires CanRun(s, ls) && s.sh.expired
    ensures Run(s, ls).sh.expired
    ensures forall id :: id in Run(s, ls).sh.waitList ==> id in s.sh.waitList
    decreases |ls|
  {
    hide Next, Enabled;
    if ls == [] {
    } else {
      RequestTheorems.ExpiryIsFinalStep(s, ls[0]);
      ExpiredForever(Next(s, ls[0]), ls[1..]);
    }
  }

  /** A poll of this future now is final, and leaves no entry for its id. */
  predicate ResolvesNow(sh: Shared, state: Option<Receive>)
    requires Live(sh, state) && state.Some?
  {
    var (later, left, outcome) := Polled(sh, state);
    (outcome.Closed? || outcome.Answer?) && left == None && state.value.id !in later.waitList
  }

  /** Behind the writer task, whatever happened to the request context meanwhile and whatever the other actors do next
      (`ls`): the context stays expired, no poll returns Pending, no id is registered any more, and a live future that
      is polled undisturbed resolves and leaves no entry. `sh` is the context when the writer starts to report, with the
      context still in use. */
  lemma NobodyHangs(sh: Shared, env: Environment, p: Progress, s: State, ls: seq<Label>, l: Label, f: nat)
    requires p.upgrades < env.aliveFor
    requires SlotsExist(sh)
    requires s.sh == ContextAfter(sh, env, p) && CanRun(s, ls) && Enabled(Run(s, ls), l)
    ensures var t := Run(s, ls);
            && t.sh.expired && Returned(t, l) != Some(Pending)
            && (forall id :: id in t.sh.waitList ==> id in sh.waitList)
            && (FutureAt(t, f) && t.futures[f].Resting? && t.futures[f].state.Some?
                && Live(t.sh, t.futures[f].state) ==>
                  ResolvesNow(t.sh, t.futures[f].state))
  {
    hide CanRun, Run, Next, Enabled, Returned;
    ExpiredForever(s, ls);
    RequestTheorems.ExpiryIsFinalStep(Run(s, ls), l);
  }

  lemma {:induction false} WriteFailedForever(s: State, ls: seq<Label>, slot: nat)
    requires CanRun(s, ls) && SlotAt(s, slot) && s.sh.waiters[slot].cell.WriteFailed?
    ensures SlotAt(Run(s, ls), slot) && Run(s, ls).sh.waiters[slot].cell.WriteFailed?
    decreases |ls|
  {
    hide Next, Enabled;
    if ls == [] {
    } else {
      RequestTheorems.CellsAreMonotoneStep(s, ls[0], slot);
      WriteFailedForever(Next(s, ls[0]), ls[1..], slot);
    }
  }

  /** Once the writer has reported the failed write of a registered request, whatever the other actors do next, a future
      that inspects that request's cell goes on to report `Closed`, never a response. */
  lemma FailedRequestIsClosed(sh: Shared, id: RequestId, s: State, ls: seq<Label>, f: nat)
    requires id in sh.waitList && sh.waitList[id] < |sh.waiters|
    requires s.sh == WriteFailedFor(sh, id) && CanRun(s, ls) && Enabled(Run(s, ls), Inspect(f))
    requires Run(s, ls).futures[f].r.slot == sh.waitList[id]
    ensures Next(Run(s, ls), Inspect(f)).futures[f] == Unregistering(Run(s, ls).futures[f].r, Fail)
  {
    hide CanRun, Run;
    WriteFailedForever(s, ls, sh.waitList[id]);
  }

  /** Behind the writer task the next poll of the request whose write failed closes it, whatever its cell held. */
  lemma FailedRequestPollsClosed(sh: Shared, env: Environment, ds: seq<Directive>, k: nat, r: Receive)
    requires k < |ds| && ds[k].WriteReqMsg? && ds[k].id == r.id && Execute(env, ds[..k]).stopped.None?
    requires env.fails(Execute(env, ds[..k]).ops) && Execute(env, ds[..k]).upgrades < env.aliveFor
    requires SlotsExist(sh) && Live(sh, Some(r))
    ensures var after := ContextAfter(sh, env, Execute(env, ds));
            Live(after, Some(r)) && Polled(after, Some(r)).2 == Closed
  {
    hide Execute;
    WriterOperations.FailedRequestIsReported(env, ds, k);
  }
}
