/** The right to answer a request: a token packed into a 64-bit word, moved by atomic swaps between handles. */
module InboundTokens {
  import opened Common
  import opened Codec

  // ---- Packing ----

  /** `NonZeroRangeType`: two 32-bit positions, the second one not zero. */
  predicate IsIdRange(r: Range) {
    r.begin < U32_SIZE && 0 < r.end < U32_SIZE
  }

  /** `req_id_to_inner`: the two halves of the word lie in memory order. */
  function ToWord(range: Option<Range>, bigEndian: bool): nat {
    match range
    case None => 0
    case Some(r) => if bigEndian then r.begin * U32_SIZE + r.end else r.begin + r.end * U32_SIZE
  }

  /** `to_req_range`. */
  function FromWord(word: nat, bigEndian: bool): Option<Range> {
    var high, low := word / U32_SIZE, word % U32_SIZE;
    var begin, end := if bigEndian then high else low, if bigEndian then low else high;
    if end == 0 then None else Some(Range(begin, end))
  }

  /** Packing and unpacking are inverse, a packed word fits, and zero means exactly "no token". */
  lemma WordRoundTrip(range: Option<Range>, bigEndian: bool)
    requires range.Some? ==> IsIdRange(range.value)
    ensures FromWord(ToWord(range, bigEndian), bigEndian) == range
    ensures ToWord(range, bigEndian) < U64_SIZE
    ensures ToWord(range, bigEndian) == 0 <==> range.None?
  {
  }

  /** For an arbitrary word, `is_request` and the unpacked range disagree exactly when the end half alone is zero. */
  lemma UnpackedWord(word: nat, bigEndian: bool)
    requires word < U64_SIZE
    ensures match FromWord(word, bigEndian)
            case Some(r) => IsIdRange(r) && ToWord(Some(r), bigEndian) == word
            case None => (if bigEndian then word % U32_SIZE else word / U32_SIZE) == 0
    ensures FromWord(word, bigEndian).Some? ==> word != 0
  {
  }

  // ---- Handles ----

  /** One message handed out by the receiver: its frame, and the id range when it is a request. */
  datatype Delivery = Delivery(frame: Bytes, rawId: Option<Range>)

  /** `Inbound`: which delivery it descends from, its buffer, its `req_id` word. */
  datatype Handle = Handle(delivery: nat, buffer: Bytes, word: nat, alive: bool)

  datatype Purpose = Respond(payload: Outgoing) | DropGuard | CloneRequest | CloneNotify | Take

  /** A thread between its swap on handle `h` and the end of the call. */
  datatype Thread = Idle | Holding(h: nat, range: Option<Range>, purpose: Purpose)

  datatype Reply = Reply(delivery: nat, rawId: Bytes, payload: ResponsePayload)

  /** `consumed` counts, for every delivery, how often its token has been used up. */
  datatype State = State(bigEndian: bool, deliveries: seq<Delivery>, handles: seq<Handle>, threads: seq<Thread>,
                         consumed: seq<nat>, replies: seq<Reply>)

  datatype Label =
    | Deliver(frame: Bytes, rawId: Option<Range>)
    | Swap(t: nat, h: nat, purpose: Purpose)
    | Finish(t: nat, queued: bool)
    | DropRequest(h: nat)
    | DropHandle(h: nat)

  function Initial(bigEndian: bool, threads: nat): State {
    State(bigEndian, [], [], seq(threads, _ => Idle), [], [])
  }

  /** `take` and the drop guard need the handle for themselves; the others share it. */
  predicate Exclusive(p: Purpose) {
    p.Take? || p.DropGuard?
  }

  predicate Borrowed(s: State, h: nat) {
    exists t :: 0 <= t < |s.threads| && s.threads[t].Holding? && s.threads[t].h == h
  }

  predicate BorrowedExclusively(s: State, h: nat) {
    exists t :: 0 <= t < |s.threads| && s.threads[t].Holding? && s.threads[t].h == h && Exclusive(s.threads[t].purpose)
  }

  predicate Usable(s: State, h: nat) {
    h < |s.handles| && s.handles[h].alive && !BorrowedExclusively(s, h)
  }

  predicate Enabled(s: State, l: Label) {
    match l
    case Deliver(frame, rawId) => rawId.Some? ==> IsIdRange(rawId.value) && rawId.value.Within(frame)
    case Swap(t, h, purpose) =>
      && t < |s.threads| && s.threads[t].Idle? && Usable(s, h)
      && (Exclusive(purpose) ==> !Borrowed(s, h))
      && (purpose.DropGuard? ==> s.handles[h].word != 0)
    case Finish(t, queued) =>
      && t < |s.threads| && s.threads[t].Holding? && s.threads[t].h < |s.handles|
      && (queued ==> Complete(PayloadOf(s.threads[t].purpose)))
    case DropRequest(h) => Usable(s, h)
    case DropHandle(h) => Usable(s, h) && !Borrowed(s, h) && s.handles[h].word == 0
  }

  function TokenOf(s: State, h: nat): Option<Range>
    requires h < |s.handles|
  {
    FromWord(s.handles[h].word, s.bigEndian)
  }

  function WithHandle(s: State, h: nat, handle: Handle): State
    requires h < |s.handles|
  {
    s.(handles := s.handles[h := handle])
  }

  function Consume(s: State, d: nat): State {
    if d < |s.consumed| then s.(consumed := s.consumed[d := s.consumed[d] + 1]) else s
  }

  /** The payload a responder sends: the user's, or the drop guard's. */
  function PayloadOf(p: Purpose): Outgoing {
    if p.Respond? then p.payload else ErrCodeOnly(Unhandled)
  }

  /** The call's last step: encode and queue the reply, or build the new handle. */
  function Finished(s: State, t: nat, queued: bool): State
    requires Enabled(s, Finish(t, queued))
  {
    var call := s.threads[t];
    var handle := s.handles[call.h];
    var rest := s.(threads := s.threads[t := Idle]);
    match call.purpose
    case CloneRequest => rest.(handles := s.handles + [handle.(word := ToWord(call.range, s.bigEndian))])
    case CloneNotify => rest.(handles := s.handles + [handle.(word := 0)])
    case Take =>
      rest.(handles := s.handles[call.h := handle.(buffer := [])] + [handle.(word := ToWord(call.range, s.bigEndian))])
    case _ =>
      var closed := if call.purpose.DropGuard? then WithHandle(rest, call.h, handle.(alive := false)) else rest;
      if call.range.None? then closed else
      var spent := Consume(closed, handle.delivery);
      if queued && call.range.value.Within(handle.buffer) then
        spent.(replies := s.replies +
          [Reply(handle.delivery, call.range.value.Of(handle.buffer), Written(PayloadOf(call.purpose)))])
      else spent  // encoding failed, or the writer channel is full or closed
  }

  function Next(s: State, l: Label): State
    requires Enabled(s, l)
  {
    match l
    case Deliver(frame, rawId) =>
      s.(deliveries := s.deliveries + [Delivery(frame, rawId)],
         handles := s.handles + [Handle(|s.deliveries|, frame, ToWord(rawId, s.bigEndian), true)],
         consumed := s.consumed + [0])
    case Swap(t, h, purpose) =>
      if purpose.CloneNotify? then s.(threads := s.threads[t := Holding(h, None, purpose)])
      else WithHandle(s, h, s.handles[h].(word := 0)).(threads := s.threads[t := Holding(h, TokenOf(s, h), purpose)])
    case Finish(t, queued) => Finished(s, t, queued)
    case DropRequest(h) =>
      var emptied := WithHandle(s, h, s.handles[h].(word := 0));
      if TokenOf(s, h).None? then emptied else Consume(emptied, s.handles[h].delivery)
    case DropHandle(h) => WithHandle(s, h, s.handles[h].(alive := false))
  }

  // ---- Counting tokens ----

  function HandleToken(h: Handle, d: nat): nat {
    if h.delivery == d && h.word != 0 then 1 else 0
  }

  function HandleTokens(handles: seq<Handle>, d: nat): nat {
    if handles == [] then 0 else HandleTokens(handles[..|handles| - 1], d) + HandleToken(handles[|handles| - 1], d)
  }

  /** A thread in mid-call carries the token of the delivery its handle descends from. */
  function ThreadToken(s: State, t: Thread, d: nat): nat {
    if t.Holding? && t.range.Some? && t.h < |s.handles| && s.handles[t.h].delivery == d then 1 else 0
  }

  function ThreadTokens(s: State, threads: seq<Thread>, d: nat): nat {
    if threads == [] then 0
    else ThreadTokens(s, threads[..|threads| - 1], d) + ThreadToken(s, threads[|threads| - 1], d)
  }

  function TokensIssued(delivery: Delivery): nat {
    if delivery.rawId.Some? then 1 else 0
  }

  lemma {:induction false} HandleTokensUpdate(handles: seq<Handle>, i: nat, h: Handle, d: nat)
    requires i < |handles|
    ensures HandleTokens(handles[i := h], d) + HandleToken(handles[i], d)
         == HandleTokens(handles, d) + HandleToken(h, d)
  {
    var n := |handles| - 1;
    if i < n {
      assert handles[i := h][..n] == handles[..n][i := h];
      HandleTokensUpdate(handles[..n], i, h, d);
    } else {
      assert handles[i := h][..n] == handles[..n];
    }
  }

  lemma HandleTokensAppend(handles: seq<Handle>, h: Handle, d: nat)
    ensures HandleTokens(handles + [h], d) == HandleTokens(handles, d) + HandleToken(h, d)
  {
  }

  lemma {:induction false} ThreadTokensUpdate(s: State, threads: seq<Thread>, i: nat, t: Thread, d: nat)
    requires i < |threads|
    ensures ThreadTokens(s, threads[i := t], d) + ThreadToken(s, threads[i], d)
         == ThreadTokens(s, threads, d) + ThreadToken(s, t, d)
  {
    var n := |threads| - 1;
    if i < n {
      assert threads[i := t][..n] == threads[..n][i := t];
      ThreadTokensUpdate(s, threads[..n], i, t, d);
    } else {
      assert threads[i := t][..n] == threads[..n];
    }
  }

  /** Only the descent of the handles matters to the threads' tokens. */
  lemma {:induction false} ThreadTokensFrame(s: State, u: State, threads: seq<Thread>, d: nat)
    requires |s.handles| <= |u.handles|
    requires forall h :: 0 <= h < |s.handles| ==> u.handles[h].delivery == s.handles[h].delivery
    requires forall t :: 0 <= t < |threads| && threads[t].Holding? ==> threads[t].h < |s.handles|
    ensures ThreadTokens(u, threads, d) == ThreadTokens(s, threads, d)
  {
    if threads == [] {
    } else {
      ThreadTokensFrame(s, u, threads[..|threads| - 1], d);
    }
  }

  // ---- The invariant ----

  predicate HandleOk(s: State, h: Handle) {
    && h.delivery < |s.deliveries|
    && (h.word != 0 ==>
          && h.alive
          && h.buffer == s.deliveries[h.delivery].frame
          && FromWord(h.word, s.bigEndian) == s.deliveries[h.delivery].rawId
          && s.deliveries[h.delivery].rawId.Some?)
  }

  predicate ThreadOk(s: State, t: Thread) {
    t.Holding? ==>
      && t.h < |s.handles| && s.handles[t.h].alive
      && (Exclusive(t.purpose) ==> s.handles[t.h].word == 0)
      && (t.purpose.CloneNotify? ==> t.range.None?)
      && (t.range.Some? ==>
            && s.handles[t.h].delivery < |s.deliveries|
            && t.range == s.deliveries[s.handles[t.h].delivery].rawId
            && s.handles[t.h].buffer == s.deliveries[s.handles[t.h].delivery].frame)
  }

  predicate ReplyOk(s: State, r: Reply) {
    && r.delivery < |s.deliveries|
    && s.deliveries[r.delivery].rawId.Some?
    && s.deliveries[r.delivery].rawId.value.Within(s.deliveries[r.delivery].frame)
    && r.rawId == s.deliveries[r.delivery].rawId.value.Of(s.deliveries[r.delivery].frame)
  }

  ghost predicate Shapes(s: State) {
    && |s.consumed| == |s.deliveries|
    && (forall d :: 0 <= d < |s.deliveries| && s.deliveries[d].rawId.Some? ==>
          IsIdRange(s.deliveries[d].rawId.value) && s.deliveries[d].rawId.value.Within(s.deliveries[d].frame))
    && (forall h :: 0 <= h < |s.handles| ==> HandleOk(s, s.handles[h]))
    && (forall t :: 0 <= t < |s.threads| ==> ThreadOk(s, s.threads[t]))
    && (forall r :: 0 <= r < |s.replies| ==> ReplyOk(s, s.replies[r]))
  }

  predicate NoConflict(t: Thread, u: Thread) {
    t.Holding? && u.Holding? && t.h == u.h ==> !Exclusive(t.purpose)
  }

  /** While a thread works on a handle exclusively, no other thread works on it. */
  ghost predicate Borrows(s: State) {
    forall t, u :: 0 <= t < |s.threads| && 0 <= u < |s.threads| && t != u ==>
      NoConflict(s.threads[t], s.threads[u])
  }

  function Tokens(s: State, d: nat): nat
    requires d < |s.consumed|
  {
    HandleTokens(s.handles, d) + ThreadTokens(s, s.threads, d) + s.consumed[d]
  }

  ghost predicate Conserved(s: State) {
    |s.consumed| == |s.deliveries| &&
    forall d :: 0 <= d < |s.deliveries| ==> Tokens(s, d) == TokensIssued(s.deliveries[d])
  }

  /** At most as many replies as consumed tokens. */
  function RepliesTo(replies: seq<Reply>, d: nat): nat {
    if replies == [] then 0
    else RepliesTo(replies[..|replies| - 1], d) + (if replies[|replies| - 1].delivery == d then 1 else 0)
  }

  ghost predicate Accounted(s: State) {
    |s.consumed| == |s.deliveries| &&
    forall d :: 0 <= d < |s.deliveries| ==> RepliesTo(s.replies, d) <= s.consumed[d]
  }

  ghost predicate Inv(s: State) {
    Shapes(s) && Borrows(s) && Conserved(s) && Accounted(s)
  }

  lemma InitialInv(bigEndian: bool, threads: nat)
    ensures Inv(Initial(bigEndian, threads))
  {
  }

  // ---- Every step keeps the invariant ----

  lemma ShapesDeliver(s: State, frame: Bytes, rawId: Option<Range>)
    requires Shapes(s) && Enabled(s, Deliver(frame, rawId))
    ensures Shapes(Next(s, Deliver(frame, rawId)))
  {
    hide FromWord, ToWord;
    WordRoundTrip(rawId, s.bigEndian);
    var u := Next(s, Deliver(frame, rawId));
    assert forall h :: 0 <= h < |s.handles| ==> HandleOk(u, u.handles[h]) by {
      assert forall h :: 0 <= h < |s.handles| ==> HandleOk(s, s.handles[h]) && u.handles[h] == s.handles[h];
    }
  }

  /** Emptying the word of a handle. */
  lemma ShapesEmptied(s: State, h: nat)
    requires Shapes(s) && h < |s.handles|
    ensures Shapes(WithHandle(s, h, s.handles[h].(word := 0)))
  {
  }

  lemma ShapesThread(s: State, t: nat, thread: Thread)
    requires Shapes(s) && t < |s.threads| && ThreadOk(s, thread)
    ensures Shapes(s.(threads := s.threads[t := thread]))
  {
  }

  lemma ShapesSwap(s: State, l: Label)
    requires Shapes(s) && Enabled(s, l) && l.Swap?
    ensures Shapes(Next(s, l))
  {
    hide FromWord;
    assert HandleOk(s, s.handles[l.h]);
    ZeroWord(s.bigEndian);
    if l.purpose.CloneNotify? {
      ShapesThread(s, l.t, Holding(l.h, None, l.purpose));
    } else {
      var emptied := WithHandle(s, l.h, s.handles[l.h].(word := 0));
      ShapesEmptied(s, l.h);
      ShapesThread(emptied, l.t, Holding(l.h, TokenOf(s, l.h), l.purpose));
    }
  }

  lemma ZeroWord(bigEndian: bool)
    ensures FromWord(0, bigEndian) == None
  {
  }

  /** Appending a handle that is well formed. */
  lemma ShapesNewHandle(s: State, handle: Handle)
    requires Shapes(s) && HandleOk(s, handle)
    ensures Shapes(s.(handles := s.handles + [handle]))
  {
  }

  /** Changing a handle that no thread works on. */
  lemma ShapesOldHandle(s: State, h: nat, handle: Handle)
    requires Shapes(s) && h < |s.handles| && !Borrowed(s, h)
    requires HandleOk(s, handle)
    ensures Shapes(WithHandle(s, h, handle))
  {
  }

  lemma ShapesConsumed(s: State, d: nat, replies: seq<Reply>)
    requires Shapes(s) && forall r :: 0 <= r < |replies| ==> ReplyOk(s, replies[r])
    ensures Shapes(Consume(s, d).(replies := replies))
  {
  }

  /** After an exclusive call has ended, its handle is free. */
  lemma ExclusiveCallEnds(s: State, t: nat)
    requires Borrows(s) && t < |s.threads| && s.threads[t].Holding? && Exclusive(s.threads[t].purpose)
    ensures !Borrowed(s.(threads := s.threads[t := Idle]), s.threads[t].h)
  {
  }

  lemma ShapesOf(s: State, t: nat)
    requires Shapes(s) && t < |s.threads| && s.threads[t].Holding?
    ensures ThreadOk(s, s.threads[t]) && HandleOk(s, s.handles[s.threads[t].h])
    ensures s.handles[s.threads[t].h].delivery < |s.consumed|
    ensures s.threads[t].purpose.CloneNotify? ==> s.threads[t].range.None?
    ensures s.threads[t].range.Some? ==>
              IsIdRange(s.threads[t].range.value) && s.threads[t].range.value.Within(s.handles[s.threads[t].h].buffer)
  {
  }

  lemma RepliesOk(s: State)
    requires Shapes(s)
    ensures forall r :: 0 <= r < |s.replies| ==> ReplyOk(s, s.replies[r])
  {
  }

  /** Using up a token, with or without a reply. */
  lemma ShapesAnswered(s: State, handle: Handle, call: Thread)
    requires Shapes(s) && call.Holding? && handle.delivery < |s.deliveries|
    requires call.range.Some? ==>
               && call.range.value.Within(handle.buffer)
               && call.range == s.deliveries[handle.delivery].rawId
               && handle.buffer == s.deliveries[handle.delivery].frame
    ensures Shapes(Consume(s, handle.delivery))
    ensures call.range.Some? ==>
              Shapes(Consume(s, handle.delivery).(replies := s.replies +
                [Reply(handle.delivery, call.range.value.Of(handle.buffer), Written(PayloadOf(call.purpose)))]))
  {
  }

  lemma ShapesFinish(s: State, t: nat, queued: bool)
    requires Shapes(s) && Borrows(s) && Enabled(s, Finish(t, queued))
    ensures Shapes(Next(s, Finish(t, queued)))
  {
    hide FromWord, ToWord, Shapes, Borrows;
    var call := s.threads[t];
    var handle := s.handles[call.h];
    ShapesOf(s, t);
    var rest := s.(threads := s.threads[t := Idle]);
    ShapesThread(s, t, Idle);
    WordRoundTrip(call.range, s.bigEndian);
    match call.purpose {
      case CloneRequest => ShapesNewHandle(rest, handle.(word := ToWord(call.range, s.bigEndian)));
      case CloneNotify => ShapesNewHandle(rest, handle.(word := 0));
      case Take =>
        ExclusiveCallEnds(s, t);
        ShapesOldHandle(rest, call.h, handle.(buffer := []));
        var emptied := WithHandle(rest, call.h, handle.(buffer := []));
        ShapesNewHandle(emptied, handle.(word := ToWord(call.range, s.bigEndian)));
      case DropGuard =>
        ExclusiveCallEnds(s, t);
        ShapesOldHandle(rest, call.h, handle.(alive := false));
        ShapesAnswered(WithHandle(rest, call.h, handle.(alive := false)), handle, call);
      case Respond(_) => ShapesAnswered(rest, handle, call);
    }
  }

  lemma ShapesDiscard(s: State, l: Label)
    requires Shapes(s) && Enabled(s, l) && (l.DropRequest? || l.DropHandle?)
    ensures Shapes(Next(s, l))
  {
    hide FromWord, Shapes;
    if l.DropHandle? {
      HandleIsOk(s, l.h);
      ShapesOldHandle(s, l.h, s.handles[l.h].(alive := false));
    } else {
      var emptied := WithHandle(s, l.h, s.handles[l.h].(word := 0));
      ShapesEmptied(s, l.h);
      RepliesOk(emptied);
      ShapesConsumed(emptied, s.handles[l.h].delivery, s.replies);
    }
  }

  lemma HandleIsOk(s: State, h: nat)
    requires Shapes(s) && h < |s.handles|
    ensures HandleOk(s, s.handles[h])
  {
  }

  lemma BorrowsNext(s: State, l: Label)
    requires Borrows(s) && Enabled(s, l)
    ensures Borrows(Next(s, l))
  {
    hide FromWord, ToWord;
  }

  // ---- Conservation ----

  lemma {:induction false} NoTokensBeyond(s: State, handles: seq<Handle>, threads: seq<Thread>, d: nat)
    requires forall h :: 0 <= h < |handles| ==> handles[h].delivery != d
    requires forall h :: 0 <= h < |s.handles| ==> s.handles[h].delivery != d
    ensures HandleTokens(handles, d) == 0 && ThreadTokens(s, threads, d) == 0
    decreases |handles| + |threads|
  {
    if handles != [] {
      NoTokensBeyond(s, handles[..|handles| - 1], threads, d);
    } else if threads != [] {
      NoTokensBeyond(s, handles, threads[..|threads| - 1], d);
    }
  }

  lemma ThreadsInBounds(s: State)
    requires Shapes(s)
    ensures forall t :: 0 <= t < |s.threads| && s.threads[t].Holding? ==> s.threads[t].h < |s.handles|
    ensures forall h :: 0 <= h < |s.handles| ==> s.handles[h].delivery < |s.deliveries|
  {
  }

  lemma ConservedDeliver(s: State, frame: Bytes, rawId: Option<Range>)
    requires Shapes(s) && Conserved(s) && Enabled(s, Deliver(frame, rawId))
    ensures Conserved(Next(s, Deliver(frame, rawId)))
  {
    hide ToWord, FromWord, HandleOk, ThreadOk;
    var u := Next(s, Deliver(frame, rawId));
    var n := |s.deliveries|;
    WordRoundTrip(rawId, s.bigEndian);
    ThreadsInBounds(s);
    forall d | 0 <= d <= n
      ensures Tokens(u, d) == TokensIssued(u.deliveries[d])
    {
      HandleTokensAppend(s.handles, u.handles[|s.handles|], d);
      ThreadTokensFrame(s, u, s.threads, d);
      if d < n {
        assert Tokens(s, d) == TokensIssued(s.deliveries[d]);
      } else {
        NoTokensBeyond(s, s.handles, s.threads, n);
      }
    }
  }

  /** A swap moves a token from the handle to the thread. */
  lemma ConservedSwap(s: State, l: Label)
    requires Shapes(s) && Conserved(s) && Enabled(s, l) && l.Swap?
    ensures Conserved(Next(s, l))
  {
    hide FromWord, ThreadOk, Borrowed, BorrowedExclusively, HandleTokens, ThreadTokens;
    var u := Next(s, l);
    ThreadsInBounds(s);
    ZeroWord(s.bigEndian);
    assert HandleOk(s, s.handles[l.h]);
    forall d | 0 <= d < |s.deliveries|
      ensures Tokens(u, d) == Tokens(s, d)
    {
      HandleTokensUpdate(s.handles, l.h, u.handles[l.h], d);
      ThreadTokensFrame(s, u, s.threads, d);
      ThreadTokensUpdate(u, s.threads, l.t, u.threads[l.t], d);
      if l.purpose.CloneNotify? {
        assert s.handles[l.h := s.handles[l.h]] == s.handles;
      }
    }
  }

  /** The end of a call takes the token from the thread; `gain` says where it goes. */
  lemma ConservedFinish(s: State, t: nat, queued: bool)
    requires Shapes(s) && Conserved(s) && Enabled(s, Finish(t, queued))
    ensures Conserved(Next(s, Finish(t, queued)))
  {
    hide FromWord, ToWord, HandleOk, ThreadOk, HandleTokens, ThreadTokens, Finished;
    var u := Finished(s, t, queued);
    var call := s.threads[t];
    var handle := s.handles[call.h];
    ThreadsInBounds(s);
    ShapesOf(s, t);
    FinishedFrame(s, t, queued);
    WordRoundTrip(call.range, s.bigEndian);
    forall d | 0 <= d < |s.deliveries|
      ensures Tokens(u, d) == Tokens(s, d)
    {
      ThreadTokensUpdate(s, s.threads, t, Idle, d);
      ThreadTokensFrame(s, u, s.threads[t := Idle], d);
      FinishedHandles(s, t, queued, d);
    }
  }

  lemma FinishedFrame(s: State, t: nat, queued: bool)
    requires Enabled(s, Finish(t, queued))
    ensures var u := Finished(s, t, queued);
            && u.deliveries == s.deliveries && |u.consumed| == |s.consumed|
            && u.threads == s.threads[t := Idle] && |s.handles| <= |u.handles|
            && forall h :: 0 <= h < |s.handles| ==> u.handles[h].delivery == s.handles[h].delivery
  {
    hide FromWord, ToWord;
  }

  lemma TakenHandles(handles: seq<Handle>, h: nat, copy: Handle, d: nat)
    requires h < |handles|
    ensures HandleTokens(handles[h := handles[h].(buffer := [])] + [copy], d)
         == HandleTokens(handles, d) + HandleToken(copy, d)
  {
    HandleTokensUpdate(handles, h, handles[h].(buffer := []), d);
    HandleTokensAppend(handles[h := handles[h].(buffer := [])], copy, d);
  }

  /** What the end of a call adds to the handles' tokens and to the consumed ones: exactly the thread's token. */
  lemma FinishedHandles(s: State, t: nat, queued: bool, d: nat)
    requires Enabled(s, Finish(t, queued)) && d < |s.consumed|
    requires s.handles[s.threads[t].h].delivery < |s.consumed|
    requires ToWord(s.threads[t].range, s.bigEndian) == 0 <==> s.threads[t].range.None?
    requires s.threads[t].purpose.CloneNotify? ==> s.threads[t].range.None?
    ensures var u := Finished(s, t, queued);
            && u.threads == s.threads[t := Idle] && |u.consumed| == |s.consumed|
            && HandleTokens(u.handles, d) + u.consumed[d]
            == HandleTokens(s.handles, d) + s.consumed[d] + ThreadToken(s, s.threads[t], d)
  {
    hide FromWord, ToWord, HandleTokens;
    var call := s.threads[t];
    var handle := s.handles[call.h];
    var copy := handle.(word := ToWord(call.range, s.bigEndian));
    match call.purpose
    case CloneRequest => HandleTokensAppend(s.handles, copy, d);
    case CloneNotify => HandleTokensAppend(s.handles, handle.(word := 0), d);
    case Take => TakenHandles(s.handles, call.h, copy, d);
    case DropGuard => HandleTokensUpdate(s.handles, call.h, handle.(alive := false), d);
    case Respond(_) =>
  }

  lemma ConservedDiscard(s: State, l: Label)
    requires Shapes(s) && Conserved(s) && Enabled(s, l) && (l.DropRequest? || l.DropHandle?)
    ensures Conserved(Next(s, l))
  {
    hide FromWord, ThreadOk, Borrowed, BorrowedExclusively, HandleTokens, ThreadTokens;
    var u := Next(s, l);
    ThreadsInBounds(s);
    ZeroWord(s.bigEndian);
    assert HandleOk(s, s.handles[l.h]);
    forall d | 0 <= d < |s.deliveries|
      ensures Tokens(u, d) == Tokens(s, d)
    {
      HandleTokensUpdate(s.handles, l.h, u.handles[l.h], d);
      ThreadTokensFrame(s, u, s.threads, d);
    }
  }

  lemma RepliesToAppend(replies: seq<Reply>, r: Reply, d: nat)
    ensures RepliesTo(replies + [r], d) == RepliesTo(replies, d) + (if r.delivery == d then 1 else 0)
  {
  }

  lemma {:induction false} NoRepliesBeyond(replies: seq<Reply>, d: nat)
    requires forall r :: 0 <= r < |replies| ==> replies[r].delivery != d
    ensures RepliesTo(replies, d) == 0
  {
    if replies == [] {
    } else {
      NoRepliesBeyond(replies[..|replies| - 1], d);
    }
  }

  lemma FinishedReplies(s: State, t: nat, queued: bool)
    requires Enabled(s, Finish(t, queued)) && s.handles[s.threads[t].h].delivery < |s.consumed|
    ensures var u := Finished(s, t, queued);
            var d := s.handles[s.threads[t].h].delivery;
            || (u.replies == s.replies && |u.consumed| == |s.consumed| &&
                forall e :: 0 <= e < |s.consumed| ==> s.consumed[e] <= u.consumed[e])
            || (u.consumed == s.consumed[d := s.consumed[d] + 1] && |u.replies| == |s.replies| + 1 &&
                u.replies == s.replies + [u.replies[|s.replies|]] && u.replies[|s.replies|].delivery == d)
  {
    hide FromWord, ToWord;
  }

  lemma AccountedNext(s: State, l: Label)
    requires Shapes(s) && Accounted(s) && Enabled(s, l)
    ensures Accounted(Next(s, l))
  {
    hide FromWord, ToWord, HandleOk, ThreadOk, RepliesTo, Finished;
    var u := Next(s, l);
    if l.Finish? {
      ShapesOf(s, l.t);
      FinishedFrame(s, l.t, l.queued);
      FinishedReplies(s, l.t, l.queued);
    }
    forall d | 0 <= d < |u.deliveries|
      ensures RepliesTo(u.replies, d) <= u.consumed[d]
    {
      if l.Finish? && |u.replies| == |s.replies| + 1 {
        RepliesToAppend(s.replies, u.replies[|s.replies|], d);
      } else if l.Deliver? && d == |s.deliveries| {
        assert forall r :: 0 <= r < |s.replies| ==> ReplyOk(s, s.replies[r]);
        NoRepliesBeyond(s.replies, d);
      }
    }
  }

  lemma InvNext(s: State, l: Label)
    requires Inv(s) && Enabled(s, l)
    ensures Inv(Next(s, l))
  {
    hide Shapes, Borrows, Conserved, Accounted, Next, Enabled;
    BorrowsNext(s, l);
    AccountedNext(s, l);
    match l
    case Deliver(frame, rawId) =>
      ShapesDeliver(s, frame, rawId);
      ConservedDeliver(s, frame, rawId);
    case Swap(_, _, _) =>
      ShapesSwap(s, l);
      ConservedSwap(s, l);
    case Finish(t, queued) =>
      ShapesFinish(s, t, queued);
      ConservedFinish(s, t, queued);
    case _ =>
      ShapesDiscard(s, l);
      ConservedDiscard(s, l);
  }
}
