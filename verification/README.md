# Verified model of the Lambda Rust runtime

A Dafny model of the parts of aws-lambda-rust-runtime whose correctness is hard to see from one
function at a time, with proofs of what they keep.

* **Invocation protocol** (`Invocation.dfy`, `WorkerPool.dfy`, `Supervisor.dfy`). N workers poll
  `/next`, run the handler through the panic, response and client layers and post one answer, against
  a Runtime API that may time an invocation out at any moment and deliver its request id again, over a
  network that may lose deliveries and bring answers after their worker has given them up. The
  service call is first a function of what the handler and the API do (`Invocation.BigStep`); the
  poll-level futures, overwritten in place, refine it under every schedule; the pool is a transition
  system whose every run is covered, with the supervision loop's turns among its steps. A handler is
  any relation between payloads and what it may do with them.
* **SnapStart lifecycle and pool reset** (`SnapStart.dfy`, `WholeRun.dfy`). The lifecycle as methods on
  the client, whose hooks may fail or panic; and whole processes as one transition system in which the
  hooks, `/restore/next`, the reset, every `/next` and every answer are steps and each request looks up
  the write-once pool cell when it is sent.
* **Rate limiter** (`RateLimiter.dfy`). Any number of threads over one atomic, with its modification
  order and stale relaxed loads that respect per-thread coherence.
* **Body channel and streaming** (`Watch.dfy`, `BodyChannel.dfy`, `JsonText.dfy`, `Streaming.dfy`). The
  watch cell, the two halves as objects and as an interleaved machine, and the task that streams a
  response through it.
* **Codecs** (`Headers.dfy`, `QueryParams.dfy`, `Timestamps.dfy` over `Float64.dfy` and `Decimals.dfy`).

Transition systems are partial step functions; `Runs.dfy` holds what is common to them, and a theorem
about a system speaks of every state reached by every list of events.

## External pieces

Used through contracts only: the futures mpsc and one-shot channels and `AtomicWaker` (stated at the
top of `BodyChannel.dfy` and `Watch.dfy`), `HeaderMap`, hash maps, unordered sets of task handles, and
double-precision arithmetic. The last is any function rounding every real to a nearest double
(`Float64.CorrectlyRounded`); only where a product lies exactly between two doubles does a result ask
that the even one is taken (`Float64.TiesToEven`, the default rounding of IEEE 754). Printing a double
gives a decimal that parses back to it with as few fraction digits as any (`Timestamps.Prints`; such a
decimal exists for everything the encoders write, `Timestamps.EncodedIsPrinted`).

## Where the code and its documentation differ

* `rate_limited!` is documented as running a call at most once per interval. That is so for the clock
  values the winners read (`RateLimiter.CallsAreSpaced`), not for the moments the calls happen: those
  keep the rate in every run for no interval but zero (`RateLimiter.OncePerIntervalIff`), and just after
  a call the next can come too early exactly when the stored second begins before the interval is over
  (`RateLimiter.RateBrokenIff`). Only whole seconds are compared, so an interval under a second does not
  even single out one winner (`RateLimiter.OneWinnerIff`).
* `send_error` is documented to terminate the stream. It does not: whenever it can be called on a body
  still being read, any chunk can follow the error (`BodyChannel.ErrorDoesNotTerminate`). What ends a
  stream is the drop of either half and nothing else (`BodyChannel.StreamGoesOnIff`); `abort` drops the
  sender.
* A timestamp with fractional seconds is read with its fraction digits taken as an integer after
  trailing zeros are gone, so 1.500 s reads as 1.005 s (`Timestamps.SecondsRoundTripIff`). Millisecond
  timestamps can read one millisecond early (`Timestamps.MillisLosesOne`); which ones do is an integer
  condition on the number (`Timestamps.MillisExactIff`). A fraction in a millisecond timestamp panics
  (`Timestamps.DecoderPanicsIff`).
* The cross-wiring protection needs the stale invocation's own id to be readable
  (`WorkerPool.NoCrossWiringIff`).

## Model

| member | source | states |
|---|---|---|
| WorkerPool.NoCrossWiring | lambda-runtime/src/layers/api_response.rs:129-166 | In every run of N workers against an API that times invocations out and delivers request ids again, an accepted answer whose own invocation had a readable id was accepted for that invocation, and is what something the handler may do with that invocation's payload leads to |
| WorkerPool.NoCrossWiringIff | lambda-runtime/src/layers/api_response.rs:135-150 | That protection holds for an id header exactly when it is readable: absent and opaque headers have a run in which it fails |
| WorkerPool.TimelineWithIds | examples/invocation-id-concurrent/src/main.rs:38-50 | The documented timeline: the late answer gets 410, the right one is then accepted, and both workers go on |
| WorkerPool.TimelineWithoutId | examples/invocation-id-concurrent/src/main.rs:38-50 | The same schedule without a readable id: the stale answer is accepted for the other invocation |
| WorkerPool.LateAnswer | examples/invocation-id-concurrent/src/main.rs:41-46 | The timeline up to the late answer is a run of the pool |
| WorkerPool.DeliveryLost | lambda-runtime/src/runtime.rs:655-661 | A run in which an invocation is open at the API and in no worker's hands |
| WorkerPool.AnswerOutlivesWorker | lambda-runtime/src/layers/api_client.rs:101-136 | A run in which an answer is accepted after its worker was told it could not be sent and left its loop |
| WorkerPool.AnsweredAtMostOnce | lambda-runtime/src/requests.rs:237-254 | No invocation has two accepted answers and no answer is accepted twice |
| WorkerPool.OneWorkerPerInvocation | lambda-runtime/src/runtime.rs:654-666 | Two workers never hold the same invocation |
| WorkerPool.WorkersSurvive | lambda-runtime/src/runtime.rs:647-705 | Over every run the live workers number the limit less the fatal failures (a preparation failure, an answer that cannot be built, a panic outside the caught handler, a transport failure, sequentially a polling failure); the invocations in hand are those delivered less those ended, and never more than the live workers |
| WorkerPool.HarmlessRunKeepsAll | lambda-runtime/src/layers/api_client.rs:101-136 | With more than one worker, polling failures, handler errors, handler panics in call or poll, expiries, lost deliveries and answers refused with any status, in any number and order, cost no worker |
| WorkerPool.PollErrorsAreRetried | lambda-runtime/src/runtime.rs:655-661 | In no reachable state of the concurrent pool has a worker exited because polling failed (how many are left is what WorkersSurvive says) |
| WorkerPool.PoolAccounting | lambda-runtime/src/runtime.rs:291-327 | Throughout a run the supervisor's counter is the number of workers not yet joined and with the recorded errors adds up to the limit; each joined worker has exactly one entry, a failure with the error it left its loop by, or with the join error after a panic, and no clean exit is ever recorded |
| WorkerPool.ExitHasCause | lambda-runtime/src/runtime.rs:655-705 | The error a worker left its loop by is that of an event of this worker in the run: of a failed poll of the sequential loop, a failed preparation, an answer that could not be built or a transport failure; and it left by a panic only where its own code panicked |
| WorkerPool.Supervise | lambda-runtime/src/runtime.rs:293-332 | The supervision loop, run on the exits of any run whose workers were all joined, returns Err with the errors that run recorded, one for each worker |
| WorkerPool.ExitsAreComplete | lambda-runtime/src/runtime.rs:276-293 | Those exits are each spawned task's, once |
| Supervisor.RunConcurrentInner | lambda-runtime/src/runtime.rs:257-332 | From spawning to the result, for every order in which the handles finish: an error whose i-th entry is clean for a loop that returned without an error and a failure with the loop's error, or the join error, otherwise; one for each spawned worker, so the Ok branch is not reachable whatever the limit |
| Supervisor.EntryOfExit | lambda-runtime/src/runtime.rs:295-326 | The entry each exit leaves |
| Supervisor.SpawnWorkers | lambda-runtime/src/runtime.rs:276-280 | One task for each slot, and one when the limit is zero |
| Supervisor.Describe | lambda-runtime/src/runtime.rs:368-397 | Each entry is listed once, in order, in the list of its kind, a failure with its error; the message says "all clean" exactly when every exit was clean and there was one |
| Supervisor.ListsPartition | lambda-runtime/src/runtime.rs:370-376 | The two printed lists together list every worker as often as it has entries |
| Supervisor.NoFailuresIff | lambda-runtime/src/runtime.rs:387-391 | The failure list is empty just when all exits were clean; the lengths of both lists add up |
| Invocation.ResponseIff | lambda-runtime/src/layers/api_response.rs:215-223 | `/response` is sent exactly for a handler answer that can be serialized and addressed, and carries it |
| Invocation.ReportIff | lambda-runtime/src/layers/panic.rs:76-111 | `/error` is sent exactly for an undeserializable payload, a handler error, a panic in call or a panic in poll, with that diagnostic; a panic's is spelled out with its text |
| Invocation.UnwindsIff | lambda-runtime/src/layers/api_response.rs:152-167 | A panic leaves the service call exactly when user code outside the caught handler panics: reading the payload, converting the error, encoding the answer |
| Invocation.FailsWith | lambda-runtime/src/layers/api_client.rs:76-140 | The call fails with the transport's error once a request was sent, before that only with an error of building one |
| Invocation.AnswerIsAddressed | lambda-runtime/src/requests.rs:143-145 | At most one request is sent; it carries the request id and echoes the invocation id when that was readable |
| Invocation.SurvivesIff | lambda-runtime/src/layers/api_client.rs:101-137 | The service call succeeds exactly when a request could be built without a stray panic and the API replied with any status at all |
| FutureStack.ClientFuture.Poll | lambda-runtime/src/layers/api_client.rs:76-140 | One poll: the inner loop terminates; pending uses up one pending poll and changes nothing that remains; ready means all that remained has happened |
| FutureStack.CallRefinesBigStep | lambda-runtime/src/layers/api_response.rs:109-167 | What remains of a fresh call is the big step of its invocation |
| FutureStack.Await | lambda-runtime/src/layers/api_client.rs:76-140 | Driving the future to its end yields what remained and takes one poll more than there are pending ones |
| FutureStack.RunService | lambda-runtime/src/layers/api_client.rs:44-48 | Under every schedule the stack has the outcome and the requests of the big step, so at most one client call |
| SnapStart.RunRestoreLifecycle | lambda-runtime/src/runtime.rs:485-527 | Outcome, events and client of the lifecycle for every list of hooks that pass, fail or panic and every answer of the API |
| SnapStart.RunBeforeHooks | lambda-runtime/src/runtime.rs:492-496 | Before-hooks run in reverse registration order and stop at the first that does not pass, with a report unless a panic unwinds |
| SnapStart.RunAfterHooks | lambda-runtime/src/runtime.rs:520-524 | After-hooks run in registration order and stop at the first that does not pass, with a report unless a panic unwinds |
| SnapStart.ReportDiagnostic | lambda-runtime/src/runtime.rs:551-581 | One report attempt to the endpoint of its phase; the original error comes back |
| SnapStart.BeforeHookStops | lambda-runtime/src/runtime.rs:492-496 | A before-hook that fails ends the lifecycle with its error after one init report, one that panics without a report; the whole trace is given |
| SnapStart.RestoreNextUnbuilt | lambda-runtime/src/runtime.rs:499-499 | A `/restore/next` request that cannot be built ends it unreported with that error |
| SnapStart.RestoreNextFails | lambda-runtime/src/runtime.rs:500-513 | A transport failure or a status outside 200 to 299 ends it with the transport's error or the one naming the status, after one init report, with no reset and no after-hook |
| SnapStart.AfterHookStops | lambda-runtime/src/runtime.rs:515-524 | After a status of 200 to 299 the pool is reset; an after-hook that fails ends the lifecycle with its error after one restore report through the rebuilt pool |
| SnapStart.NothingStops | lambda-runtime/src/runtime.rs:492-526 | With nothing in the way the lifecycle completes, and its whole trace is given |
| SnapStart.OneReportPerFailure | lambda-runtime/src/runtime.rs:492-526 | A lifecycle that does not complete makes exactly one report attempt, last, to the endpoint of its phase; unreported are exactly those unwound by a hook's panic and those whose `/restore/next` request cannot be built; a completed one reports nothing |
| SnapStart.AfterHooksNeedRestore | lambda-runtime/src/runtime.rs:509-524 | An after-hook runs only after all before-hooks, `/restore/next` and the reset, in registration order, all earlier ones having passed |
| SnapStart.BeforeHooksReversed | lambda-runtime/src/runtime.rs:492-496 | Before-hooks form a gapless run from the last registered down |
| SnapStart.PoolsOfLifecycle | lambda-runtime/src/runtime.rs:498-523 | `/restore/next` and `/init/error` use the original pool, `/restore/error` the rebuilt one and only after the restore, and the lifecycle sends nothing else |
| SnapStart.FirstResetCounts | lambda-runtime-api-client/src/lib.rs:137-150 | However often the pool is reset, requests use the original pool until the first reset and the pool that one built ever after |
| WholeRun.Boot | lambda-runtime/src/runtime.rs:420-432 | What the code does on the client up to the first poll is a run of the process system to the point where the workers take over, or the process is over; outside SnapStart nothing happens |
| WholeRun.LifecycleEnds | lambda-runtime/src/runtime.rs:485-527 | Every lifecycle of the process system runs to its end, with the outcome and the events of the method |
| WholeRun.NoWorkBeforeLifecycle | lambda-runtime/src/runtime.rs:231-247 | In every run of a SnapStart process a `/next` or an answer comes after all before-hooks in reverse order, `/restore/next`, the reset and all after-hooks in order, and all of these succeeded |
| WholeRun.PoolOfEveryRequest | lambda-runtime-api-client/src/lib.rs:142-153 | With the pool looked up at each call: in every run of a SnapStart process every `/next`, every answer and `/restore/error` use the rebuilt pool, `/restore/next` and `/init/error` the original one; other processes use the original one throughout |
| WholeRun.OneResetAtMost | lambda-runtime/src/runtime.rs:514-515 | The pool is rebuilt at most once, only after a successful restore, and has been when workers run |
| WholeRun.WorkersRunInside | lambda-runtime/src/runtime.rs:236-247 | The workers of a process run the worker pool's system, so its theorems hold there, and every answer they sent is in the log |
| WholeRun.EveryPollIsSent | lambda-runtime/src/runtime.rs:630-633 | The log has one `/next` for every poll of a worker and no others |
| RateLimiter.CallsAreSpaced | lambda-runtime/src/rate_limiter.rs:24-38 | Over every interleaving with stale loads, the j-th success read a clock at least j - i whole intervals past the i-th, in seconds |
| RateLimiter.NextCallIsDue | lambda-runtime/src/rate_limiter.rs:29-30 | A success read a clock not before the previous one's clock plus the interval, rounded down |
| RateLimiter.StoredSecond | lambda-runtime/src/rate_limiter.rs:30-35 | Every success stores the second in which its clock reading plus the interval falls, or the counter's last |
| RateLimiter.CallsOnceDue | lambda-runtime/src/rate_limiter.rs:24-38 | Once the interval has passed since the last success's reading, or before any success, an undisturbed evaluation runs the call |
| RateLimiter.WallClockGap | lambda-runtime/src/rate_limiter.rs:26-38 | By the wall clock two calls are apart by more than the interval less one second less the earlier thread's delay |
| RateLimiter.RateBrokenIff | lambda-runtime/src/rate_limiter.rs:15-40 | Just after any call of any run, some continuation calls again within the interval exactly when the interval is positive and the stored second begins before it is over |
| RateLimiter.OncePerIntervalIff | lambda-runtime/src/rate_limiter.rs:15-40 | As a statement about the moments of the calls the documented rate holds in every run for the interval zero only |
| RateLimiter.TwoCallsAtOneInstant | lambda-runtime/src/rate_limiter.rs:15-40 | For every interval there is a run in which two calls happen at one instant |
| RateLimiter.OneWinnerIff | lambda-runtime/src/rate_limiter.rs:29-35 | Of the threads that loaded one value at most one runs the call, in all runs without clock overflow, exactly when the interval is a second or more |
| RateLimiter.SlowIntervalHasOneWinner | lambda-runtime/src/rate_limiter.rs:29-35 | The positive half of that |
| RateLimiter.FastIntervalHasTwoWinners | lambda-runtime/src/rate_limiter.rs:29-35 | The run that breaks it for shorter intervals |
| RateLimiter.LoserLostToAnotherThread | lambda-runtime/src/rate_limiter.rs:32-35 | A failed exchange means another thread succeeded after the success this thread had observed |
| RateLimiter.CallSite.Evaluate | lambda-runtime/src/rate_limiter.rs:24-38 | One uninterrupted evaluation: the call runs exactly when the stored second has begun, and then the second in which the interval is over is stored |
| RateLimiter.EvaluationIsRun | lambda-runtime/src/rate_limiter.rs:24-38 | Such an evaluation, from any reachable state, is a run of the interleaved machine |
| Watch.NoLostWakeUp | lambda-runtime-api-client/src/body/watch.rs:47-65 | If the value differs from what the receiver last loaded, its task was woken since it registered or the sender is about to wake it |
| Watch.SameValueWakesNobody | lambda-runtime-api-client/src/body/watch.rs:47-52 | The receiver is notified of a different value only |
| Watch.PendingWakeArrives | lambda-runtime-api-client/src/body/watch.rs:48-52 | The pending wake reaches a registered receiver |
| Watch.ClosedStays | lambda-runtime-api-client/src/body/watch.rs:55-59 | After the sender is dropped every load yields CLOSED |
| Watch.Shared.Send | lambda-runtime-api-client/src/body/watch.rs:48-52 | An uninterrupted send stores the value and wakes only on a change |
| Watch.Shared.LoadValue | lambda-runtime-api-client/src/body/watch.rs:62-65 | An uninterrupted load has the waker in place and yields the value |
| BodyChannel.Conservation | lambda-runtime-api-client/src/body/channel.rs:75-93 | Accepted items are the delivered ones followed by the queued ones, in order; early close leaves a prefix |
| BodyChannel.TrailersComeLast | lambda-runtime-api-client/src/body/channel.rs:85-92 | Trailers come at most once, as sent, after every accepted item, and only the end follows |
| BodyChannel.WantIsReadyOrClosed | lambda-runtime-api-client/src/body/sender.rs:49-56 | The want value goes from READY to CLOSED only; poll_want neither pends nor panics |
| BodyChannel.ClosedIsReportedTruly | lambda-runtime-api-client/src/body/sender.rs:64-69 | When the try_send of send_data reports ChannelClosed the channel is closed: it never meets a full queue |
| BodyChannel.QueueHoldsOneChunk | lambda-runtime-api-client/src/body/channel.rs:51-51 | At most one data item is queued at any time |
| BodyChannel.TrailersWaitOnlyForDrop | lambda-runtime-api-client/src/body/channel.rs:85-92 | poll_frame waits for trailers only between the drops of the sender's two halves |
| BodyChannel.ClosedForGood | lambda-runtime-api-client/src/body/sender.rs:41-69 | Once the receiver is dropped nothing is accepted and every completed send_data ends with ChannelClosed |
| BodyChannel.ClosedMeansDropped | lambda-runtime-api-client/src/body/channel.rs:59-69 | The data queue is closed by the body's drop and by nothing else |
| BodyChannel.DroppedBodyRefuses | lambda-runtime-api-client/src/body/sender.rs:49-56 | A send_data that starts after the body began to drop is refused at once |
| BodyChannel.DroppedSenderAddsNothing | lambda-runtime-api-client/src/body/sender.rs:101-103 | Nothing is accepted after the sender is dropped |
| BodyChannel.StreamGoesOnIff | lambda-runtime-api-client/src/body/sender.rs:64-112 | From any point of any run the channel can still accept something exactly when the sender is not dropped and the queue is open, and can still deliver something new exactly when the sender is not dropped and the body is being read: an error before makes no difference |
| BodyChannel.ErrorDoesNotTerminate | lambda-runtime-api-client/src/body/sender.rs:105-112 | Whenever send_error can be called on a body being read, any chunk can be sent and delivered right after the error, against its doc comment |
| BodyChannel.Sender.SendData | lambda-runtime-api-client/src/body/sender.rs:64-69 | One poll of send_data: the whole new state, and that the call is a run of the machine |
| BodyChannel.Sender.TrySendData | lambda-runtime-api-client/src/body/sender.rs:89-93 | The chunk is accepted exactly when the queue is open and holds no earlier chunk |
| BodyChannel.Sender.SendTrailers | lambda-runtime-api-client/src/body/sender.rs:73-79 | Succeeds once, while the body lives |
| BodyChannel.Sender.SendError | lambda-runtime-api-client/src/body/sender.rs:106-112 | Gets through even when a chunk is queued |
| BodyChannel.Sender.Abort | lambda-runtime-api-client/src/body/sender.rs:101-103 | The error is the last item the channel accepts |
| BodyChannel.Sender.Drop | lambda-runtime-api-client/src/body/sender.rs:33-37 | Both halves are dropped, in field order |
| BodyChannel.ChannelBody.PollFrame | lambda-runtime-api-client/src/body/channel.rs:75-93 | The whole new state: head of the queue first, trailers or end only after the data has ended; the call is a run of the machine |
| BodyChannel.ChannelBody.IsEndStream | lambda-runtime-api-client/src/body/channel.rs:95-97 | A channel body, whatever it has delivered, never claims to be at the end of its stream |
| BodyChannel.ChannelBody.SizeHint | lambda-runtime-api-client/src/body/channel.rs:99-107 | Nor does it promise a length |
| BodyChannel.ChannelBody.Drop | lambda-runtime-api-client/src/body/channel.rs:43-48 | Want CLOSED, queue closed and emptied, trailers slot closed, in that order |
| JsonText.WriteHasNoControl | lambda-runtime/src/requests.rs:178-178 | The prelude's text holds no control byte, whatever its strings hold |
| JsonText.ValueRoundTrip | lambda-runtime/src/requests.rs:178-178 | The prelude's text reads back as the prelude, whatever follows it |
| Streaming.DeliveredIsPrefix | lambda-runtime/src/requests.rs:184-206 | Whatever the reader does it sees prelude, delimiter and chunks in order, a frame-level prefix on early close |
| Streaming.EndMeansComplete | lambda-runtime/src/requests.rs:184-206 | A reader told the body has ended, not having dropped it, has seen every chunk |
| Streaming.FrameAt | lambda-runtime/src/requests.rs:184-206 | The chunks sent: the prelude's text, eight NULs, then for each item in order its bytes, or the trailer's two header lines with the base64 of its message |
| Streaming.WireSplits | lambda-runtime/src/requests.rs:185-204 | The bytes are the prelude's text, eight NULs and the items' bytes in order, and they split at the first run of eight NULs into exactly that text and those bytes |
| Streaming.SplitIsFirst | lambda-runtime/src/requests.rs:190-190 | Splitting takes out the first run of eight NULs of any bytes |
| Streaming.WireIsUnambiguous | lambda-runtime/src/requests.rs:185-204 | Equal bytes mean equal preludes and equal body bytes |
| Streaming.ReaderRecoversResponse | lambda-runtime/src/requests.rs:182-208 | End to end: a reader told the body has ended, not having dropped it, recovers the prelude and the items' bytes in order from what it read |
| Headers.IdentityIff | lambda-events/src/custom_serde/headers.rs:40-53 | Comma-joining and splitting back is the identity exactly on maps whose keys have one readable comma-free value or several readable, comma-free, trimmed, non-empty ones |
| Headers.Idempotent | lambda-events/src/custom_serde/headers.rs:113-139 | The composite never fails and a second pass changes nothing |
| Headers.CommaRoundTrip | lambda-events/src/custom_serde/headers.rs:113-139 | What the composite does to every key, and that its results are stable |
| Headers.StableIff | lambda-events/src/custom_serde/headers.rs:154-173 | The same for one key's values, order included |
| Headers.MultiRoundTrip | lambda-events/src/custom_serde/headers.rs:9-22 | The multi-value form read back gives the map |
| Headers.MultiFailsIff | lambda-events/src/custom_serde/headers.rs:14-18 | Serializing it fails exactly on a value that is not UTF-8 |
| Headers.MultiErrorIs | lambda-events/src/custom_serde/headers.rs:17-17 | The error names such a value |
| Headers.SplitAndAppend | lambda-events/src/custom_serde/headers.rs:154-173 | The loop appends the trimmed non-empty parts, or fails at the first that is no value |
| Headers.VisitMap | lambda-events/src/custom_serde/headers.rs:97-151 | It succeeds exactly on acceptable names and texts; per key, a lone string stays whole with splitting off and gives its trimmed non-empty parts with splitting on and a comma in it, a list gives its strings as they are or each split likewise, and several fields of one name add up until a lone unsplit one replaces them |
| Headers.LoneReplaces | lambda-events/src/custom_serde/headers.rs:122-126 | A lone unsplit string replaces what its key had |
| Headers.ListsAddUp | lambda-events/src/custom_serde/headers.rs:128-139 | A list is added to what its key had |
| Headers.FirstErrorWins | lambda-events/src/custom_serde/headers.rs:115-124 | The first unacceptable field decides the error |
| Headers.NameIs | lambda-events/src/custom_serde/headers.rs:115-116 | A name is a non-empty token and counts in lower case |
| Headers.UnsplitIs | lambda-events/src/custom_serde/headers.rs:122-124 | A text not split is acceptable when it has no control byte but TAB, and not DEL |
| Headers.SplitIs | lambda-events/src/custom_serde/headers.rs:163-163 | Splitting cuts at every comma and nowhere else |
| Headers.TrimIs | lambda-events/src/custom_serde/headers.rs:164-164 | Trimming takes white space, all of it, off both ends |
| Headers.PartsAre | lambda-events/src/custom_serde/headers.rs:163-171 | The parts appended are the trimmed ones in order, without the empty |
| Headers.SerializeCommaSeparated | lambda-events/src/custom_serde/headers.rs:40-53 | The loop writes one joined field for every key with a readable value |
| Headers.SerializedAre | lambda-events/src/custom_serde/headers.rs:45-51 | Key by key: the readable values joined, or no field without one |
| Headers.ReadableOnesAre | lambda-events/src/custom_serde/headers.rs:46-46 | The values kept are those of visible ASCII and tabs only, in order |
| Headers.JoinIs | lambda-events/src/custom_serde/headers.rs:48-48 | A comma and a space go between the values and nothing else |
| Timestamps.SecondsRoundTrip | lambda-events/src/encodings/time.rs:119-145 | For every instant chrono can hold from the epoch on: second kept (a leap second counts as the next), millisecond digits read without their trailing zeros; only a leap second in chrono's last second is refused |
| Timestamps.SecondsRoundTripIff | lambda-events/src/encodings/time.rs:119-145 | The millisecond survives exactly when it is 0 or does not end in 0 |
| Timestamps.NegativeSecondsFail | lambda-events/src/encodings/time.rs:201-207 | An instant before the epoch is written but not read |
| Timestamps.WrittenText | lambda-events/src/encodings/time.rs:123-132 | The text written for an instant: the leap carried, three fraction digits unless the milliseconds are zero |
| Timestamps.EncodedText | lambda-events/src/encodings/time.rs:127-132 | The same for the two parts of the format string |
| Timestamps.DecodeSecondsIs | lambda-events/src/encodings/time.rs:139-145 | What is read from any printed number: fraction digits as milliseconds cut to 32 bits of nanoseconds, refused when negative, too wide or outside chrono's instants |
| Timestamps.StripIs | lambda-events/src/encodings/time.rs:201-207 | The digits that get lost are all the trailing zeros and nothing else |
| Timestamps.MillisAtMostOneEarly | lambda-events/src/encodings/time.rs:105-117 | For every instant chrono can hold from the epoch on: decoded second exact; millisecond exact or one early, never late |
| Timestamps.MillisExactIff | lambda-events/src/encodings/time.rs:111-112 | The millisecond is exact if and only if an integer condition on the number holds: what 53 bits cut off its quotient by 1000 is nothing or more than half a place, or so little that the product is rounded back up |
| Timestamps.QuotientRounds | lambda-events/src/encodings/time.rs:111-111 | The first rounding in integers: not below the true quotient when nothing or more than half a place is cut off, below by exactly the part cut off otherwise |
| Timestamps.ProductRounds | lambda-events/src/encodings/time.rs:112-112 | The second rounding: a product short of a whole millisecond is rounded up to it exactly when it lies above the middle to the double below, ties going to even |
| Timestamps.DecoderPanicsIff | lambda-events/src/encodings/time.rs:109-110 | The decoder panics exactly on a non-negative printed number with a nonzero fraction, both parts fitting 64 bits |
| Timestamps.EighthsAreExact | lambda-events/src/encodings/time.rs:111-112 | Multiples of 125 ms are exact |
| Timestamps.MillisLosesOne | lambda-events/src/encodings/time.rs:111-112 | 1001 ms decodes to 1000 ms on any correctly rounding arithmetic |
| Timestamps.MillisRoundTrip | lambda-events/src/encodings/time.rs:97-117 | From an instant through its text back to an instant: same second, and the millisecond kept or lost by one just as that condition says |
| Timestamps.MillisText | lambda-events/src/encodings/time.rs:101-102 | The text written is the plain decimal number of milliseconds |
| Timestamps.NegativeMillisFail | lambda-events/src/encodings/time.rs:201-207 | An instant before the epoch is written but not read |
| Timestamps.IntegersPrint | lambda-events/src/encodings/time.rs:195-212 | A written integer below 2^53 is seen as itself by the decoder |
| Timestamps.ThousandthsPrint | lambda-events/src/encodings/time.rs:201-202 | A number of thousandths up to chrono's last second is printed as itself without trailing zeros |
| Timestamps.EncodedIsPrinted | lambda-events/src/encodings/time.rs:127-132 | Whatever is written has a printed form, so the round trips speak of every instant |
| Decimals.NormalizeText | lambda-events/src/encodings/time.rs:203-212 | Taking the text apart reads the fraction digits as an integer; it is refused exactly when a part does not fit 64 bits |
| Decimals.PartsMakeUp | lambda-events/src/encodings/time.rs:203-212 | The two parts make up the number again |
| Decimals.NegativeIsRefused | lambda-events/src/encodings/time.rs:203-207 | A printed negative number is refused |
| QueryParams.Collapse | lambda-events/src/custom_serde/query_string_parameters.rs:10-23 | The run-grouping loop builds the map that inserting every pair in order would |
| QueryParams.LastValueWins | lambda-events/src/custom_serde/query_string_parameters.rs:10-23 | That map has exactly the occurring keys, each with its last value |

## Left out

- FutureStack.RunService: futures that are pending for ever have no outcome; for them only the per-poll contract of `ClientFuture.Poll` speaks.
- Real HTTP, TLS, URI building and the response bodies of the Runtime API; the API is an abstract step relation that lets an answer without an invocation id through.
- `lambda-http`, `lambda-extension` and the event structures of `lambda-events`: adapters and data declarations.
- Reading a `/next` response into a context: whether the body, the headers and the service's readiness are in order is a free outcome of the preparation step, not computed from header bytes. A handler that never finishes has no event.
- The context a handler gets beside its payload: request id, deadline and trace headers.
- Debug-only branches (204 responses, the 5xx check), logging, tracing, environment variables and shutdown signals.
- `serialize_headers`, which keeps the first value of each key, and the binary branch of `visit_map`, which is the byte-list case of the modelled one.
- Trimming of non-ASCII white space in comma-separated values read from elsewhere; the serializer never writes any.
- Negative numbers and fractions in JSON text; the prelude has none.
- Base64 in the error trailer, which is a parameter, and the default Content-Type of the streaming prelude.
- The streaming task is a transition system only; waiting for the user's stream and its cancellation at process shutdown are not steps of it.
- Infinities, NaN and negative zero among the doubles; numbers are reals here.
- A leading plus sign, which `u64` parsing accepts and printed numbers never have.
