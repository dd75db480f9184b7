# rpc-it: a verified model of the request/response engine

This project models the request/response engine of rpc-it in Dafny and proves what its parts promise each other:
the pending-request protocol of the client, the deferred writer task, the in-memory pipe, the one-shot right to
answer a request on the server, the msgpack-rpc and rawrpc frame codecs, and two peers joined together.

Where the source changes an object in place, the model has a class with the same fields whose methods change them.
Where several threads work on the same object, the model also has a step machine: one step is one lock region, one
access to an atomic, one waker registration or one wake, and any number of futures and threads interleave freely. The
two layers are tied together. Every method ends in the state that a transition function describes, and lemmas named
`Undisturbed...` show that the steps of the same call in the machine, run without interference, have that effect.

| file | contents |
|---|---|
| `Common.dfy`, `Codec.dfy`, `Utf8.dfy`, `Utf8Theorems.dfy` | numbers in bytes, the output buffer, error codes, frame shapes, UTF-8 |
| `WireFormat.dfy` | both codecs against literal bytes |
| `MsgPackRpc.dfy`, `MsgPackRoundTrip.dfy`, `MsgPackLanguage.dfy`, `MsgPackDecoder.dfy` | the msgpack-rpc codec, its round trips, the frames it accepts, and its decoder as it runs |
| `RawRpc.dfy`, `RawRoundTrip.dfy`, `RawLanguage.dfy` | the rawrpc codec, its round trips, and the frames it accepts |
| `Codecs.dfy`, `Retries.dfy`, `Leftovers.dfy` | both codecs behind one interface; frames of retried requests; answers behind what refused calls left in the buffer |
| `Requests.dfy`, `RequestInvariants.dfy`, `RequestTheorems.dfy`, `RequestClosed.dfy` | the pending-request protocol as a step machine |
| `RequestSpec.dfy`, `RequestContext.dfy` | its calls as transitions, and the objects |
| `PipeMachine.dfy`, `PipeTheorems.dfy`, `InMemoryPipe.dfy` | the in-memory pipe: machine, theorems, object |
| `InboundTokens.dfy`, `TokenTheorems.dfy`, `Inbound.dfy` | the right to answer: machine, theorems, object |
| `WriterSpec.dfy`, `WriterOperations.dfy`, `Writer.dfy`, `WriterTheorems.dfy`, `WriterReport.dfy` | the writer task as a fold over directives, what decides its result, the objects, theorems, and its report to the context among all other actors |
| `Sender.dfy` | id allocation, sending requests, bursts |
| `Receiver.dfy`, `ReaderAgreement.dfy` | the reader, and its agreement with the reader of the joined peers |
| `EndToEnd.dfy`, `EndToEndProofs.dfy`, `EndToEndTheorems.dfy`, `Exchanges.dfy` | two peers joined by links: machine, invariant, theorems, and two whole runs |

## What does not hold

Some things a reader of the documentation might expect are not what the code does. Each has a lemma that shows it,
with the exact condition where there is one.

- The buffer is cleared once before the retry loop of `encode_request`, so after a retry the frame carries the id of
  the *first* candidate, which is in use by another request. `Sender.SentUnderItsIdIff`: the peer sees the registered
  id exactly when the first candidate was free. Although no registered id repeats, the answer to the retried request
  then goes to the future of the other one (`Exchanges.RetriedAnswerGoesToWrongFuture`).
- The documentation of `try_shutdown_writer` (src/rpc/sender.rs:154-158) says that with `drop_after_this` deferred
  messages are dropped. The directive is queued behind them, so they are all written
  (`WriterTheorems.ShutdownStillWritesEarlier`). Without the flag the transport is never closed: the `close` after the
  loop is dead code (`WriterTheorems.CloseAfterLoopIsDead`).
- `response` and `try_response` append to the caller's buffer and never clear it (src/rpc/receiver.rs:525, 547). Over
  msgpack an object that stops serialising half-way leaves an opened response there; the next answer encoded into the
  same buffer arrives as the rest of that response, and the wrong future returns it
  (`Exchanges.AnswerGoesToWrongFuture`). With either codec a request that was encoded and then refused by the context
  leaves whole frames there, and the answer behind them is lost (`Leftovers.AnswerLostBehindRequest`). An answer behind
  refused calls arrives as itself exactly if they left the buffer empty, which what they returned tells
  (`Leftovers.OwnAnswerIff`, `Leftovers.LeftoverEmptyIff`). A buffer used for answers only is always empty over rawrpc,
  and over msgpack as long as every object serialises to the end (`EndToEndTheorems.DisciplinedIsCareful`).
- The correlation of answers with requests therefore takes care: answers encoded into empty buffers, and requests that
  carry the ids under which they are registered. Each is exactly what is needed at its step
  (`EndToEndTheorems.EmptyBufferIsNeeded`, `EndToEndTheorems.OwnIdIsNeeded`), and without either one the correlation
  fails (the two runs above).
- A failed request write is swallowed when the context is gone. `WriterTheorems.NoSilentLoss`: a run without an error has
  written every frame exactly if no request write failed with the context gone, and otherwise lacks exactly that many.
- `try_recv` on an expired context says `Closed` and keeps the registration, although its comment calls a response
  impossible (src/rpc/req_rep.rs:161-162); the same future may answer afterwards (`RequestTheorems.ClosedThenAnswer`).
  `RequestClosed.ClosedIsFinalUnless`: exactly if a response is in its cell already, or the cell is empty and a
  `set_response` has passed its expiry check.
- The pipe may report end of file with a message still queued (`PipeTheorems.EofWithQueuedMessage`; exact meaning of
  end of file: `PipeTheorems.EndOfFile`).
- Over msgpack a request whose wire id is below 2^16 can be sent but never answered, because the encoder writes the
  shortest form and the responder reads only the five-byte one (`Codecs.AnswerableIff`).
- Over msgpack an error object without a code may be read as something else (`MsgPackRoundTrip.ErrorObjectSurvivesIff`).
- A msgpack response that stops right behind its id decodes to a payload range outside the frame
  (`MsgPackRoundTrip.PayloadOutOfBounds`; exactly when: `MsgPackRoundTrip.DecodedRangesInBounds`).
- A reader that reaches the end of its stream does not expire the context (`Receivers.ReadingNeverExpires`); only
  dropping a receiver that still has its core does (`Receivers.Receiver.Drop`).
- `try_response` uses up the token even if the answer cannot be encoded or queued (`Inbounds.Inbound.TryResponse`).

## Model

| member | source | states |
|---|---|---|
| EndToEndTheorems.AnswerIsItsOwn | src/rpc/receiver.rs:243-307 | In every run of two joined peers in which registered ids do not repeat, answers are encoded into empty buffers, submitted requests carry the ids under which they are registered (the wire id of the first candidate is that of the last), and other frames do not arrive as requests or responses: a response that a future returns reads as the payload of the one reply produced when the token of that future's own request was consumed (once), for a delivery whose frame is the one sent; over msgpack its wire id is at least 2^16 |
| EndToEndTheorems.ReaderFindsNoResponse | src/rpc/req_rep.rs:330-354 | In the same runs the client's reader never finds a cell that already holds a response or had one taken out |
| EndToEndTheorems.EmptyBufferIsNeeded | src/rpc/receiver.rs:537-583 | In a buffer that holds what refused answers, requests and notifications left there, an answer that gets queued arrives as the answer to its request if and only if the buffer was empty |
| EndToEndTheorems.OwnIdIsNeeded | src/rpc/sender.rs:293-326 | The frame of a submitted request arrives under the id under which the request is registered if and only if it carries that id, which is so exactly after a first attempt |
| EndToEndTheorems.OwnTrafficIsApart | src/codec.rs:279-314 | Notifications arrive as neither requests nor responses, requests of the other direction not as responses, and answers of the other direction not as requests |
| EndToEndTheorems.DisciplinedIsCareful | src/rpc/receiver.rs:537-583 | In buffers used for answers only, or emptied before they are used for answers again, every answer that gets queued is encoded into an empty buffer: over rawrpc always, over msgpack as long as every object serialises to the end |
| Exchanges.ExchangeCompletes | src/rpc/sender.rs:268-285 | Every request whose answer can be encoded has a run in which its future returns exactly that answer |
| Exchanges.RetriedAnswerGoesToWrongFuture | src/rpc/sender.rs:293-326 | For either codec and any two requests of which the second was retried under the first one's id: a run without repeating registered ids and with empty buffers in which the first future returns the answer to the second request |
| Exchanges.AnswerGoesToWrongFuture | src/rpc/receiver.rs:542-583 | For any two msgpack requests, a first answer that stops serialising half-way and a second one in the same buffer: a run in which the first future returns a success made of the first part and the whole second answer, with no reply to its request |
| Leftovers.OwnAnswerIff | src/rpc/receiver.rs:564-583 | Behind what any sequence of refused answers, requests and notifications left in a buffer that was empty, an answer arrives as itself exactly if they left nothing |
| Leftovers.LeftoverEmptyIff | src/rpc/sender.rs:287-332 | The results of the refused calls tell exactly whether the buffer is empty, for each codec |
| Leftovers.AnswersOnly | src/rpc/receiver.rs:564-583 | Refused answers alone leave nothing over rawrpc, and over msgpack exactly if all were refused for their ids |
| Leftovers.AnswerLostBehindRequest | src/rpc/sender.rs:298-331 | Behind the encodings of a request that the context refused, the peer takes an answer for part of a request, with either codec |
| Leftovers.OpenResponseSwallows | src/ext_codec/msgpack_rpc.rs:221-287 | Whatever stands behind an opened response becomes part of its payload, but for one byte at most |
| Leftovers.StolenAnswer | src/ext_codec/msgpack_rpc.rs:113-140 | Behind a result that stopped serialising half-way, what follows in the buffer arrives as the rest of that result, under its request's id |
| Leftovers.LeftBehindIsPrefix | src/ext_codec/msgpack_rpc.rs:113-140 | What a half-written answer leaves is the complete answer without, for errors, its empty result slot |
| EndToEndProofs.InvNext | src/rpc/receiver.rs:243-307 | Every step of either peer or of the links, retried requests included, keeps the invariant that ties waiters, frames under way, deliveries, replies and cells together, if it is a step with care for buffers, ids and other traffic |
| EndToEndProofs.ResponseFinds | src/rpc/req_rep.rs:314-323 | Among requests that arrived under their registered ids, the id decoded from a response finds the waiter of the very request the response answers, and no earlier response was picked up for it |
| EndToEndProofs.RepliesDiffer | src/rpc/receiver.rs:564-583 | Two replies of the server never answer the same request of the client |
| RequestInvariants.InvNext | src/rpc/req_rep.rs:73-231 | Every atomic step of polls, drops, readers, writers and expiry keeps the protocol invariant |
| RequestTheorems.AssertionsNeverFire | src/rpc/req_rep.rs:203-225 | The assertion of `free_request_id` and the `unreachable!` for a consumed cell hold in every run |
| RequestTheorems.ContextDropsEmpty | src/rpc/req_rep.rs:416-425 | When no future holds a registration the wait list is empty, so the drop assertion holds |
| RequestTheorems.WaitListBijection | src/rpc/req_rep.rs:278-309 | An id is mapped to a waiter exactly when one live future holds that registration |
| RequestTheorems.NoLostWakeup | src/rpc/req_rep.rs:101-116 | A parked future that was not woken has a registered waker, an empty cell and an unexpired context, unless a writer or `mark_expired` is about to wake it |
| RequestTheorems.ExpiryIsFinal | src/rpc/req_rep.rs:362-387 | After expiry the flag stays set, the wait list only shrinks and no poll returns Pending |
| RequestTheorems.ResolvesAtNextPoll | src/rpc/req_rep.rs:101-126 | On an expired context the next poll of a live future ends within five of its own steps with the stored response or `Closed`, and unregisters it |
| RequestTheorems.CellsAreMonotone | src/rpc/req_rep.rs:346-353 | Along every run a cell never empties, a failed write is absorbing, and a consumed cell can only become a failed write |
| RequestTheorems.ConsumedNeverReadAgain | src/rpc/req_rep.rs:203-225 | A cell that was found filled is never inspected again |
| RequestTheorems.WriteFailedNeverAnswers | src/rpc/req_rep.rs:389-413 | Once a request's write failed, no inspection of its cell yields a response |
| RequestTheorems.LastWriterWins | src/rpc/req_rep.rs:330-354 | A response found in a cell is the one of the latest `set_response` that stored there |
| RequestTheorems.NoCrossTalk | src/rpc/req_rep.rs:314-360 | A returned response was carried by a `set_response` for that future's id, which found it registered to that future |
| RequestTheorems.SingleDelivery | src/rpc/req_rep.rs:191-201 | A registration is released at most once, through whatever handles it moved, so it delivers at most one terminal result |
| RequestTheorems.RetrievedForGood | src/rpc/req_rep.rs:79-99 | After a future has returned its response or `Closed` and is unregistered, no later call returns anything but `Empty` from `poll` and `Retrieved` from `try_recv` |
| RequestTheorems.NoRedundantWakes | src/rpc/req_rep.rs:191-201 | Once an unregistering future has taken its waker, nothing that any actor does wakes its task again |
| RequestTheorems.ClosedThenAnswer | src/rpc/req_rep.rs:158-167 | A run in which `try_recv` says `Closed` and the same future answers later |
| RequestClosed.ClosedIsFinalUnless | src/rpc/req_rep.rs:158-167 | When `try_recv` reports `Closed`, some run still answers the same request if and only if its cell holds a response, or is empty with a `set_response` past its expiry check |
| RequestClosed.ClosedIsFinalInRuns | src/rpc/req_rep.rs:158-167 | The same in every state that a run from the beginning reaches |
| RequestSpec.UndisturbedPoll | src/rpc/req_rep.rs:79-127 | The steps of a poll that nothing disturbs have the effect and the outcome of `Polled` |
| RequestSpec.UndisturbedTryRecv | src/rpc/req_rep.rs:151-178 | The same for `try_recv` |
| RequestSpec.UndisturbedSetResponse | src/rpc/req_rep.rs:314-360 | The same for `set_response` |
| RequestSpec.UndisturbedWriteFailure | src/rpc/req_rep.rs:390-413 | The same for `set_request_write_failed` |
| RequestSpec.UndisturbedMarkExpired | src/rpc/req_rep.rs:365-379 | The same for `mark_expired`, whatever order its wakes take |
| RequestContexts.RequestContext.TryAllocateNewRequest | src/rpc/req_rep.rs:278-298 | Registers a fresh waiter exactly when the context is in use and the id is free, and changes nothing otherwise |
| RequestContexts.RequestContext.FreeRequestId | src/rpc/req_rep.rs:305-309 | Removes exactly this id |
| RequestContexts.RequestContext.SetResponse | src/rpc/req_rep.rs:314-360 | Stores over an empty cell or an unread response, wakes, and refuses unknown ids and expired contexts |
| RequestContexts.RequestContext.SetRequestWriteFailed | src/rpc/req_rep.rs:390-413 | The cell of the waiter registered under the id becomes a failed write, whatever it held, and its task is woken; no other waiter changes |
| RequestContexts.RequestContext.MarkExpired | src/rpc/req_rep.rs:365-379 | Sets the flag and wakes every waiter in the wait list, once |
| RequestContexts.ReceiveResponse.Poll | src/rpc/req_rep.rs:79-127 | New wait list, waiter, future state and outcome of a poll |
| RequestContexts.ReceiveResponse.TryRecv | src/rpc/req_rep.rs:151-178 | New state and outcome of `try_recv`, including the case that reports `Closed` without unregistering |
| RequestContexts.ReceiveResponse.TryUnregister | src/rpc/req_rep.rs:191-201 | Gives up the registration, takes the waker and frees the id |
| RequestContexts.ReceiveResponse.IntoOwned | src/rpc/req_rep.rs:140-145 | Moves the registration to a new handle and leaves none behind |
| Sender.RequestSender.EncodeRequest | src/rpc/sender.rs:287-332 | Under any interference by other tasks between its accesses: outcome, context and buffer are those of the retry loop, with one encoding per attempt in the buffer, or what the codec leaves when the parameters do not serialise to the end |
| Sender.LoopContract | src/rpc/sender.rs:298-331 | At most four attempts; a granted id was free at the moment it was registered and is the id of the last encoding; any other outcome leaves the context as the other tasks made it |
| Sender.UndisturbedLoop | src/rpc/sender.rs:298-331 | Without interference the first free candidate is taken, and the context is unchanged if there is none |
| Sender.RequestSender.TrySendRequest | src/rpc/sender.rs:268-285 | On success exactly one directive is queued: the write of this request, with the id under which the future is registered to its own waiter, and with a payload that the peer decodes as a request for this method with these parameters under the first candidate; a request that cannot be queued is taken off the wait list again, and nothing else is |
| Retries.EncodingsCarry | src/rpc/sender.rs:298-311 | What any number of attempts wrote decodes as a request for the method under the first candidate, with the parameters at the head of its parameters |
| Sender.CandidatesRefused | src/rpc/sender.rs:298-331 | Every candidate passed over was in the wait list, or the context expired, at the moment it was tried |
| Retries.RetriedFrameCarriesFirstId | src/rpc/sender.rs:293-311 | A frame sent after retries decodes to the first candidate's id, with the later encodings as trailing parameters |
| Sender.SentUnderItsIdIff | src/rpc/sender.rs:293-326 | Without interference the peer sees the registered id exactly when the first candidate was free |
| Retries.SentUnderLastIdIff | src/rpc/sender.rs:293-326 | Under any interference the peer sees the registered id exactly when the first candidate's wire id is the last one's |
| Sender.RequestSender.TrySendNotify | src/rpc/sender.rs:106-117 | On success one directive with the notification is queued and the buffer is empty; parameters that do not serialise to the end leave what the codec leaves, and nothing is queued |
| Sender.Gather | src/rpc/sender.rs:535-564 | The loop over prepared packets yields all their data in order, or a mismatch exactly when two hashes differ |
| Sender.BurstTakenIff | src/rpc/sender.rs:502-526 | A burst is accepted exactly when all its packets carry this codec's reusability id, and then the writer gets all of them in order |
| Writer.WriteRunner.Run | src/rpc/core.rs:348-469 | Frames written, closes, result and request context are those of executing all accepted directives in order. The first operation that stops the task decides the result: the error of the close, flush or write that failed, or the end by an immediate close; if it is the write of a request, the waiter registered for it holds a failed write afterwards. If the context is still in use, it has expired and the channel is closed; a close directive closes the channel too |
| Writer.WriteRunner.Loop | src/rpc/core.rs:359-456 | The receive loop equals the fold over everything ever accepted, under any interference by other senders |
| WriterOperations.FirstStopDecides | src/rpc/core.rs:362-454 | Among the closes, flushes and writes that the directives ask for, the first that fails (other than the write of a request with the context gone) or closes the transport decides the result, and a failing request write is the one reported |
| WriterOperations.NoStopNoError | src/rpc/core.rs:362-454 | Without such an operation all of them are carried out, there is no error, and no request is reported |
| WriterOperations.FailedRequestIsReported | src/rpc/core.rs:414-441 | If the write of a queued request fails while the context is in use, this request is reported and the result is a write error |
| Writer.Transport.WriteFrameBurst | src/io.rs:16-27 | Writes the chunks in order up to the first failure |
| Writer.Channel.TryShutdown | src/rpc/sender.rs:159-174 | Queues the close directive behind everything accepted before and closes the channel, or changes nothing |
| WriterTheorems.WriterRefinement | src/rpc/core.rs:362-454 | With a transport that never fails: the frames written are the payloads in order up to the first `CloseImmediately`, and the close directives determine the result and whether the transport is closed |
| WriterTheorems.NoSilentLoss | src/rpc/core.rs:396-443 | For every queue and every transport: a run without an error has written or swallowed every frame, so it has written all of them if and only if no request write failed with the context gone; without such a failure a prefix is written; and the reported request is the first directive not written |
| WriterTheorems.NothingSwallowed | src/rpc/core.rs:414-441 | Nothing is swallowed while the context outlives the queued requests |
| WriterTheorems.SwallowedWriteFailure | src/rpc/core.rs:414-441 | The shortest run that shows it: the gap is reported exactly if the context is still in use |
| WriterTheorems.ShutdownStillWritesEarlier | src/rpc/sender.rs:154-174 | Shutting down never drops what was queued before, and only `CloseImmediately` closes the transport |
| WriterTheorems.CloseAfterLoopIsDead | src/rpc/core.rs:446-452 | The loop never ends with the exit type that would close the transport behind it |
| WriterReport.NobodyHangs | src/rpc/core.rs:458-466 | Once the writer's `mark_expired` has returned, and however its steps were mixed with those of all other actors: every waiting future has been woken, no poll returns Pending, no id is registered any more |
| WriterReport.FailedRequestIsClosed | src/rpc/core.rs:437-441 | After the writer has looked a request up and marked it, with any other actors' steps in between, whoever inspects its cell goes on to report `Closed` |
| WriterTheorems.NobodyHangs | src/rpc/core.rs:458-466 | From the context that the writer task leaves, whatever the other actors do then, no poll returns Pending, no id is registered, and a polled live future resolves and leaves no entry |
| WriterTheorems.FailedRequestIsClosed | src/rpc/core.rs:437-441 | After a failed write was reported, and whatever the other actors do then, a future that inspects that request's cell reports `Closed` |
| WriterTheorems.FailedRequestPollsClosed | src/rpc/core.rs:437-441 | Behind a writer task that failed to write a live request, the next poll of that request is `Closed`, whatever its cell held |
| PipeMachine.InvNext | src/io.rs:153-279 | Every micro-step of sender and receiver keeps the pipe's invariant |
| PipeTheorems.PipeAccounting | src/io.rs:180-202 | At every micro-step the semaphore is the free space, plus one between push and decrement, minus one between pop and increment, and it never wraps |
| PipeTheorems.SpinLoopNeverSpins | src/io.rs:180-202 | A push after a successful `poll_ready` succeeds at once |
| PipeTheorems.NoLostWakeup | src/io.rs:158-178 | A parked side that was not woken waits for a reason, up to an actor about to wake it, and both sides never wait on each other |
| PipeTheorems.PipeOrder | src/io.rs:248-279 | What was received, what the receiver holds and what is queued is what was sent, in order |
| PipeTheorems.EndOfFile | src/io.rs:252-267 | End of file means that everything sent before the empty pop was received, and nothing is left behind exactly when nothing was sent since; after a close before that pop nothing ever will be |
| PipeTheorems.ReturnsAreTrue | src/io.rs:153-279 | At every step that ends a call the result is so: ready means a free slot, a broken pipe or end of file a closed pipe, a message the next one in the order of sending, pending a registered waker or a wake since |
| PipeTheorems.EofWithQueuedMessage | src/io.rs:252-267 | A run that reports end of file with a message still queued |
| InMemoryPipe.UndisturbedPollReady | src/io.rs:158-178 | The steps of an undisturbed `poll_ready` have the effect of `ReadyPolled` |
| InMemoryPipe.UndisturbedStartSend | src/io.rs:180-202 | The steps of an undisturbed `start_send` have the effect of `SentInto` |
| InMemoryPipe.UndisturbedPollRead | src/io.rs:248-279 | The steps of an undisturbed read have the effect of `ReadPolled` |
| InMemoryPipe.InMemoryInner.PollReady | src/io.rs:158-178 | Result and new state of `poll_ready` |
| InMemoryPipe.InMemoryInner.StartSend | src/io.rs:180-202 | Appends the message, takes a permit, wakes a waiting receiver; the loop ends after one push |
| InMemoryPipe.InMemoryInner.PollReadFrame | src/io.rs:248-279 | Result and new state of the two receive attempts around the registration |
| InMemoryPipe.InMemoryInner.CloseSender | src/io.rs:220-234 | Closes the pipe and wakes a waiting receiver; nothing else changes |
| InMemoryPipe.InMemoryInner.CloseReceiver | src/io.rs:289-303 | Closes the pipe and wakes a waiting sender; nothing else changes |
| InboundTokens.WordRoundTrip | src/rpc/receiver.rs:337-346 | Packing an id range and unpacking it are inverse on either byte order, and zero means exactly no token |
| InboundTokens.UnpackedWord | src/rpc/receiver.rs:459-467 | Any word that unpacks to a range packs back to itself |
| InboundTokens.InvNext | src/rpc/receiver.rs:409-457 | Every step of `take`, `clone_message`, responses and drops on shared handles keeps the token invariant |
| TokenTheorems.TokenConservation | src/rpc/receiver.rs:448-457 | Handles with the token, calls under way with it and consumed tokens add up to one for each delivered request |
| TokenTheorems.AtMostOneReply | src/rpc/receiver.rs:520-562 | At most one reply is queued for a request, whatever handles were derived from it |
| TokenTheorems.RepliesEchoTheId | src/rpc/receiver.rs:564-583 | Every reply carries exactly the raw id bytes of the request it answers |
| TokenTheorems.RepliesSayTheirCall | src/rpc/receiver.rs:542-583 | A new reply says what its call was given, or `Unhandled` when the handle was dropped, and goes to the request the handle came from |
| TokenTheorems.ReplyIsAdded | src/rpc/receiver.rs:542-583 | A call that ends uses a token up exactly when it was to answer and held one, and adds a reply exactly when it was also queued |
| TokenTheorems.ConsumedOnceWhenGone | src/rpc/receiver.rs:642-652 | Once all handles are dropped each request's token was consumed exactly once |
| Inbounds.UndisturbedTake | src/rpc/receiver.rs:409-420 | `take` moves buffer and token to the new handle |
| Inbounds.UndisturbedClone | src/rpc/receiver.rs:431-445 | `clone_message` moves the token only when asked to |
| Inbounds.UndisturbedResponse | src/rpc/receiver.rs:564-583 | A response uses up the token whether or not it gets queued |
| Inbounds.UserResultSurvivesIff | src/rpc/receiver.rs:572-580 | Status, code and object of a user's answer are what the peer reads, exactly unless it is, over msgpack, an error object under `Unknown` that can be taken for nil or for a coded pair |
| Inbounds.ErrorResultSurvivesIff | src/rpc/receiver.rs:668-678 | The same for a plain error result |
| Inbounds.ConversionsRead | src/rpc/receiver.rs:662-687 | An answer made from a code reads with that code, one made from a result as the result, one made from a code other than `Unknown` and an object as both |
| Inbounds.Inbound.Take | src/rpc/receiver.rs:409-420 | The new handle has the old one's contents and token, the old one has neither |
| Inbounds.Inbound.CloneMessage | src/rpc/receiver.rs:431-445 | The clone shares the message; exactly one of the two handles has the token |
| Inbounds.Inbound.EncodeResponse | src/rpc/receiver.rs:564-583 | Without a token nothing happens; with one it is used up, and the buffer holds what was there and the answer, or what the codec leaves when it refuses the id or the object does not serialise to the end |
| Inbounds.Inbound.TryResponse | src/rpc/receiver.rs:542-562 | What gets queued is the caller's buffer followed by the encoded answer, which, if that buffer was empty, decodes as the answer to this request; a refused answer queues nothing, and the token is gone either way |
| Inbounds.Inbound.DropRequest | src/rpc/receiver.rs:597-600 | Uses up the token and sends nothing |
| Inbounds.Inbound.Drop | src/rpc/receiver.rs:642-652 | A request nobody answered is answered with a frame that decodes as a response to its id with the code `Unhandled`, if its id can be answered and the channel takes it; a handle without a token sends nothing |
| Receivers.Receiver.HandleInboundOnce | src/rpc/receiver.rs:243-307 | A response is stored for the waiter registered under its id, raw frame, code and payload as the frame says, and for no other, or goes back to the caller; a request or a notification arrives with its name, parameters and, for a request, a token for its raw id; malformed frames and names are errors that show the frame |
| Receivers.ResponseHandled | src/rpc/receiver.rs:271-296 | For any frame that decodes as a response with a verdict: the cell of the waiter under its id becomes a reply with this frame that reads as the verdict, unless it was filled for good; without such a waiter, or on an expired context, it goes back to the caller |
| Receivers.RequestHandled | src/rpc/receiver.rs:255-304 | For any frame that decodes as a request: name, parameters and raw id of the message slice the frame to those of the request; a name that is not UTF-8 is an error that shows it |
| Receivers.NotifyHandled | src/rpc/receiver.rs:265-304 | The same for notifications, without a token |
| ReaderAgreement.InboundAgrees | src/rpc/receiver.rs:243-270 | The server of the joined peers delivers exactly the messages that `handle_inbound_once` hands over |
| ReaderAgreement.ClientAgrees | src/rpc/receiver.rs:271-296 | The client of the joined peers begins the `set_response` that `handle_inbound_once` makes; undisturbed it leaves the same context |
| Receivers.Receiver.Recv | src/rpc/receiver.rs:74-97 | Applies responses in order until a message, an error of the frame or of the transport, or the end |
| Receivers.ReceiveIsTrace | src/rpc/receiver.rs:74-97 | `recv` handles frames one after the other, all of them responses that were taken, up to the first that is something else, which is its result |
| Receivers.Receiver.IntoWeakRunnerTask | src/rpc/receiver.rs:142-172 | Gives the core away and handles frame after frame, past messages and errors, until the stream ends or fails or the last strong handle is gone |
| Receivers.RunIsTrace | src/rpc/receiver.rs:142-172 | The task handles frame after frame and shows all but the responses taken, in order, up to the end or failure of the stream or the last strong handle |
| Receivers.Receiver.Drop | src/rpc/receiver.rs:196-203 | Expires the context exactly when the receiver still has its core |
| Receivers.ReadingNeverExpires | src/rpc/receiver.rs:153-172 | Reading to the end of the stream, past every message and every error, leaves every registration and the expired flag as they were |
| Receivers.MessagesAreSound | src/rpc/receiver.rs:298-306 | A message that reaches the caller has a UTF-8 name and ranges in its frame, and a request's range packs into a token |
| Codecs.AnswerableIff | src/ext_codec/msgpack_rpc.rs:113-120 | A request can be answered exactly if the codec is rawrpc or its wire id is at least 2^16 |
| Codecs.RequestArrives | src/rpc/receiver.rs:248-264 | With either codec an encoded request arrives with its id bytes, name and parameters in place |
| Codecs.AnswerArrives | src/rpc/receiver.rs:564-583 | The answer built from a request's own id bytes decodes to the request's wire id and to what was answered |
| Codecs.AnswerArrivesFor | src/rpc/receiver.rs:564-583 | The same for whatever id bytes a request came with, if they restore to an id |
| Codecs.RawIdInjective | src/codec.rs:285-298 | Different wire ids have different id bytes |
| Codecs.DecodedCallInBounds | src/rpc/receiver.rs:255-267 | For any frame the ranges of a decoded call are in bounds and a raw id does not end at 0 |
| MsgPackRoundTrip.RequestRoundTrip | src/ext_codec/msgpack_rpc.rs:182-220 | Decoding an encoded request yields ordered in-bounds ranges that slice back to id, method and parameters |
| MsgPackRoundTrip.NotifyRoundTrip | src/ext_codec/msgpack_rpc.rs:70-80 | The same for notifications |
| MsgPackRoundTrip.WireId | src/ext_codec/msgpack_rpc.rs:89-107 | The wire id is the id modulo 2^32 with 0 replaced by 1, and is restored from its bytes exactly when it is at least 2^16 |
| MsgPackRoundTrip.ResponseRoundTrip | src/ext_codec/msgpack_rpc.rs:113-140 | All four payload forms decode to the same id and to what `Received` says |
| MsgPackRoundTrip.ErrorObjectSurvivesIff | src/ext_codec/msgpack_rpc.rs:225-287 | An error object without a code is read back unchanged exactly unless it starts with nil or opens a pair headed by one of the nine code names |
| MsgPackRoundTrip.ReadErrorCodeIff | src/ext_codec/msgpack_rpc.rs:253-272 | The search for a code succeeds exactly on a two-element array whose first element spells a code name, in one of the twelve ways of writing that |
| MsgPackRoundTrip.DecodedRangesInBounds | src/ext_codec/msgpack_rpc.rs:171-295 | For any frame: ranges of calls are ordered and in bounds, and a response's payload is in bounds exactly when the frame goes on behind the id |
| MsgPackRoundTrip.PayloadOutOfBounds | src/ext_codec/msgpack_rpc.rs:225-241 | A frame that stops behind its id and decodes to a payload range that ends before it begins |
| MsgPackLanguage.RequestLanguage | src/ext_codec/msgpack_rpc.rs:171-220 | A frame decodes as a request with these parts exactly if it is made of a head of four, the type 0, a form of an unsigned 32-bit id, a form of the name's length, the name and the parameters, in any of the ways MessagePack has to write each |
| MsgPackLanguage.NotifyLanguage | src/ext_codec/msgpack_rpc.rs:171-220 | The same for notifications, with a head of three and the type 2 |
| MsgPackLanguage.ResponseLanguage | src/ext_codec/msgpack_rpc.rs:221-287 | A frame decodes as a response with this id and verdict exactly if it is made of a head of four, the type 1, a form of the id, and either nil and the result, or a pair headed by the code's name, its object and nil, or an error object that opens no such pair and nil |
| MsgPackRpc.EncodeResponse | src/ext_codec/msgpack_rpc.rs:113-140 | Appends the frame (byte by byte: `WireFormat.MsgPackAnswers`, `WireFormat.CodesOnTheWire`); refuses an id it cannot read and leaves the buffer alone; or leaves what was written when the object does not serialise to the end |
| WireFormat.MsgPackAnswers | src/ext_codec/msgpack_rpc.rs:113-140 | An answer is refused exactly unless its id is in the five-byte form; the literal bytes of results and of errors without a code |
| WireFormat.CodesOnTheWire | src/codec.rs:64-89 | For each of the nine codes, its name as a literal byte string: in the error slot of every answer with the code, and read as that code in every frame that has it there |
| WireFormat.MsgPackCalls | src/ext_codec/msgpack_rpc.rs:70-111 | The literal bytes of requests and notifications: array heads, message types, the shortest forms of the id and of the name's length |
| MsgPackRpc.EncodeRequest | src/ext_codec/msgpack_rpc.rs:82-111 | Appends the frame under the narrowed id and returns that id |
| MsgPackDecoder.DecodeInbound | src/ext_codec/msgpack_rpc.rs:171-295 | The cursor-advancing decoder reads back every encoded request, notification and response |
| RawRoundTrip.VarintRoundTrip | src/ext_codec/rawrpc.rs:183-186 | Postcard's variable-length integers are read back, for every width |
| RawRoundTrip.RequestRoundTrip | src/ext_codec/rawrpc.rs:136-145 | Decoding an encoded request yields ordered in-bounds ranges that slice back to id bytes, method and parameters |
| RawRoundTrip.NotifyRoundTrip | src/ext_codec/rawrpc.rs:44-54 | The same for notifications |
| RawRoundTrip.IdBytesRoundTrip | src/ext_codec/rawrpc.rs:188-204 | `from_bytes` undoes `as_bytes`, whatever follows |
| RawRoundTrip.ResponseRoundTrip | src/ext_codec/rawrpc.rs:69-105 | All four payload forms decode to the same id, code and payload |
| RawRoundTrip.EchoedIdRoundTrip | src/ext_codec/rawrpc.rs:56-105 | Answering with the id slice of a decoded request yields a response that decodes to the original id, code and payload |
| RawRoundTrip.DecodedRangesInBounds | src/ext_codec/rawrpc.rs:126-181 | For any frame: all ranges are in bounds, the assertions of `range_of` hold, and a request's raw id does not end at 0 |
| RawLanguage.RequestLanguage | src/ext_codec/rawrpc.rs:126-146 | A frame decodes as a request with these parts exactly if it is made of the variant 1, the id bytes with their length, the name with its length, and the parameters, with each number in any of the varint forms that fit its width |
| RawLanguage.NotifyLanguage | src/ext_codec/rawrpc.rs:126-142 | The same for notifications, with the variant 0 |
| RawLanguage.ResponseLanguage | src/ext_codec/rawrpc.rs:126-165 | The same for responses, with the variant 2, or 3 and the number of a code; the id is the first eight bytes of its field |
| RawRpc.EncodeResponse | src/ext_codec/rawrpc.rs:69-105 | Appends the frame; refuses an id it cannot restore and leaves the buffer alone; or leaves the buffer empty when the object does not serialise to the end |
| RawRpc.EncodeRequest | src/ext_codec/rawrpc.rs:56-67 | Appends the frame and returns the id; parameters that do not serialise to the end leave the buffer empty |
| RawRpc.Serialize | src/ext_codec/rawrpc.rs:183-186 | Appends the whole item, or takes everything that was in the buffer with it |
| WireFormat.RawCalls | src/ext_codec/rawrpc.rs:44-67 | The literal bytes of requests and notifications: variant tags, the eight id bytes with their length, the name with its length |
| WireFormat.RawAnswers | src/ext_codec/rawrpc.rs:69-105 | The literal bytes of results and of errors without a code |
| WireFormat.CodeNumbersOnTheWire | src/codec.rs:114-146 | For each of the nine codes, its number as a literal byte: in every answer with the code, and read as that code; every other number reads as `Unknown` |
| Utf8Theorems.ValidIff | src/rpc/receiver.rs:298-306 | A name passes the check exactly if it is the encoding of a sequence of Unicode scalar values |
| Codec.CodeNameRoundTrip | src/codec.rs:75-111 | A name parses as a code exactly when it is that code's name |

## Left out

- Weak memory orderings and the inside of `AtomicWaker`: steps are sequentially consistent; register, take and wake are
  atomic.
- Real transports, `Sink` and `Stream` adapters, executors, `select!` and the builder: pass-through code.
- serde, the JSON-RPC codec and the dynamic codec: parameters and results are arbitrary byte strings; a serialiser may
  also stop half-way.
- `macros/` and `src/macros/`: generated forwarding code.
- Random ids: the generated ids are parameters.
- Reference counts: only that a live future keeps the context alive, and that a weak reference that is gone stays gone.
- Peers built without the request feature: `reqs` is optional in the reader; the writer task has a context.
- `send_request`, `send_notify` and `response` that wait for room in the channel: only the `try_` forms are objects. In
  the joined peers submitting is a step of its own, which may come late or never.
- `split_recv_task` and the scheduling of `into_weak_runner_task`: only what each frame does to the context.
- Frames of 2^32 bytes and more: the codec interface forbids them, and every round trip assumes a shorter frame.
- `clone_reusable_packet` and packet forwarding: plain copies.
- Writer.WriteRunner.Run: other tasks act on the channel between receives but not on the request context; the context
  under interference is what `RequestTheorems` and `WriterReport` are about.
- Receivers.Receiver.HandleInboundOnce: with the codec running past the end of a frame the source panics; the model
  reports that as an outcome.
- EndToEndTheorems.AnswerIsItsOwn: assumes that registered ids never repeat, and the care named in its row; two
  requests under one id can be confused, as src/rpc/req_rep.rs:338-344 says.
- EndToEnd: requests of the server to the client, and the client's answers to them, are other traffic on the links; the
  joined peers are symmetric otherwise.
