# Verified model of the Elastic distribution of OpenTelemetry PHP

This project models the parts of the distribution that keep state over time, and the text and
grouping algorithms beside them, and proves what they keep, what they promise, and exactly when
they do not.

| module | what it models |
|---|---|
| `InferredSpans`, `InferredSpansRuns`, `InferredSpansEffects`, `StackDiffer` | the stack differ that turns samples of the PHP stack into spans, with span reduction |
| `Transport`, `TransportProgress` | the asynchronous HTTP transport: a bounded queue, a worker thread, fork and shutdown |
| `ChunkedMessages`, `ChunkContents`, `ChunkSenders` | the chunked message protocol between workers and coordinator process over a lossy queue |
| `ConfigPropagation`, `ConfigComponents` | the chain of caches from the OpAMP server to the snapshot a request reads |
| `CompiledFiles` | the incremental index of compiled files and the decision that uses it |
| `OtlpGrouping`, `OtlpIdentifiers`, `PhpSerialize` | the grouping of spans, logs and metrics by resource and scope, and the identifiers it uses |
| `Wildcard`, `WildcardMeaning`, `WildcardExactness` | the wildcard matcher, its parser and its printer |
| `Utf8`, `UrlEncoded`, `CaseConversion` | the UTF-8 validator, percent decoding and key=value lists, name conversion |

Code that updates fields or loops is modelled by classes and methods with loops. Each of them is
proved against a function or relation on values; what the program promises over whole runs is
then proved about these. The worker thread of the transport is cut into its critical sections,
one method each, because its mutex is released between them; the theorems range over every
interleaving of these sections. `Common` and `Strings` hold what several models share.

## What the code does not promise

Some expectations are false of the code. In each case the model follows the code, and a theorem
gives the exact condition.

- The wildcard matcher moves on by a literal's length instead of to the end of its occurrence,
  and its suffix test ignores what earlier literals used. It decides the glob language only for
  the patterns that pass `Exact`: at most one literal is searched for behind a star, and a last
  literal that ends the pattern cannot overlap the one before it. `*ab*cd*` fails, and so does
  `ab*bc`.
- A child process drops the inherited queue in `postfork` but not the bytes charged for it; its
  send queue is smaller for ever by what it dropped.
- The destructor of the transport flushes nothing when no worker thread was ever started, because
  no connection was initialised, or when the thread has not yet taken the mutex for the first
  time; payloads are accepted in both cases. A payload that is accepted after the worker has
  exited and before it is joined is never attempted either.
- A forked process keeps the process id and the message id of its sender object. When two
  processes both send after their common fork, they use one key for two payloads, and the
  receiver can put together a message that nobody sent.
- Resources, or scopes of one resource, whose serialization fails share one group, labelled with
  the contents of the first record.
- Shared configuration files are only merged into: a file that the server withdraws stays.
- A first remote configuration whose hash is empty is ignored; the heartbeat reports no hash.
- A new configuration under an unchanged hash is ignored, although the heartbeat reports that hash
  as applied.
- File names and texts are read up to their first NUL.

## Model

| member | source | states |
|---|---|---|
| `InferredSpansRuns.NoFinishedSpanPointsAtDropped` | prod/php/ElasticOTel/InferredSpans/InferredSpans.php:122-187 | Over every run of captures and shutdowns, with reduction on or off and any re-parenting attempts failing, the final parent of a finished span is an earlier span that was not dropped, and after shutdown a finished one |
| `InferredSpansRuns.StepPreserves` | prod/php/ElasticOTel/InferredSpans/InferredSpans.php:90-117 | Each capture and each shutdown keeps the whole invariant: scopes mirror frames, open spans are the tracked ones, sample ids never increase downwards, parents chain, no kept span points at a dropped one, and inside a run of equal sample ids a frame's only kept child is the frame above it |
| `InferredSpansRuns.RunIsValid` | prod/php/ElasticOTel/InferredSpans/InferredSpans.php:90-187 | The invariant holds in every state of every run from the constructor on |
| `InferredSpans.NearestKeptAncestor` | prod/php/ElasticOTel/InferredSpans/InferredSpans.php:255-299 | A surviving ended span gets, as final parent, its nearest original ancestor that is not dropped; everything between them is dropped |
| `InferredSpans.EndPreserves` | prod/php/ElasticOTel/InferredSpans/InferredSpans.php:136-154 | Ending any number of top frames together keeps the invariant, including when re-parenting fails |
| `InferredSpans.StartAllPreserves` | prod/php/ElasticOTel/InferredSpans/InferredSpans.php:162-186 | Starting spans from the lowest new frame upwards keeps the invariant |
| `InferredSpans.FinishTopPreserves` | prod/php/ElasticOTel/InferredSpans/InferredSpans.php:180-182 | Ending the newest frame at once, because it is internal, keeps the invariant |
| `InferredSpans.RunIsUniform` | prod/php/ElasticOTel/InferredSpans/InferredSpans.php:263-277 | The frames from the top of a run to its lowest ended frame all come from one sample |
| `InferredSpansRuns.ClosedIsFinal` | prod/php/ElasticOTel/InferredSpans/InferredSpans.php:395-427 | A finished or dropped span is never changed again by any later capture or shutdown |
| `InferredSpansRuns.ShutdownLeavesNothingOpen` | prod/php/ElasticOTel/InferredSpans/InferredSpans.php:111-117 | After a shutdown no frame is tracked and no span is open |
| `InferredSpansRuns.ProjectsToStack` | prod/php/ElasticOTel/InferredSpans/InferredSpans.php:122-187 | After a comparison the tracked frames are the new stack, without its top frame exactly when that was newly started and internal; the shared lowest frames keep their spans |
| `InferredSpansRuns.SpansAreConserved` | prod/php/ElasticOTel/InferredSpans/InferredSpans.php:361-427 | Spans started are the finished, the dropped and those still tracked, counted exactly |
| `InferredSpansEffects.AgreeingFramesAreKept` | prod/php/ElasticOTel/InferredSpans/InferredSpans.php:221-253 | Frames that agree with the new stack all the way from the bottom, however many, are all kept with their spans; together with the projection this fixes which frames end |
| `InferredSpansEffects.RepeatedStackChangesNothing` | prod/php/ElasticOTel/InferredSpans/InferredSpans.php:122-161 | A capture of the stack that is already tracked leaves frames, spans and scopes as they are; only the sample id moves on |
| `InferredSpansEffects.CaptureLooksAt` | prod/php/ElasticOTel/InferredSpans/InferredSpans.php:98-218 | A capture leaves out the two topmost frames, and of the others everything down to the lowest one whose class name begins with OpenTelemetry\ or Elastic\, and nothing else |
| `InferredSpansEffects.DroppedIff` | prod/php/ElasticOTel/InferredSpans/InferredSpans.php:255-299 | A gone frame is dropped exactly when reduction is on, its sample started a frame further up as well, and the topmost frame of that sample could be re-parented; otherwise its span is finished |
| `InferredSpansEffects.FinalParent` | prod/php/ElasticOTel/InferredSpans/InferredSpans.php:263-290 | The final parent of a gone frame that is not dropped is the frame below it, or the one below the dropped frames right under it |
| `InferredSpansEffects.NewFrames` | prod/php/ElasticOTel/InferredSpans/InferredSpans.php:162-186 | Every new frame has a new open span whose parent is that of the frame below, and one sample id above all earlier ones |
| `InferredSpansEffects.InternalTopIsFinished` | prod/php/ElasticOTel/InferredSpans/InferredSpans.php:180-182 | The span of a new internal top frame is the newest one, finished at once under the frame below it |
| `InferredSpansEffects.NothingAfterShutdown` | prod/php/ElasticOTel/InferredSpans/InferredSpans.php:90-117 | From the shutdown on no call of a run starts or changes a span, and captures do nothing at all |
| `InferredSpansEffects.RunsGoOn` | prod/php/ElasticOTel/InferredSpans/InferredSpans.php:75-117 | Runs begin with the state that the constructor leaves and go on with any capture or shutdown |
| `StackDiffer.InferredSpansDiffer.constructor` | prod/php/ElasticOTel/InferredSpans/InferredSpans.php:75-87 | Starts with no frame, sample id 0 and not shut down, which satisfies the invariant |
| `StackDiffer.InferredSpansDiffer.CaptureStackTrace` | prod/php/ElasticOTel/InferredSpans/InferredSpans.php:90-109 | One capture is one step of the run relation and keeps the invariant; after shutdown it does nothing |
| `StackDiffer.InferredSpansDiffer.Shutdown` | prod/php/ElasticOTel/InferredSpans/InferredSpans.php:111-117 | Shutdown is one step of the run relation and keeps the invariant |
| `StackDiffer.InferredSpansDiffer.CompareStackTraces` | prod/php/ElasticOTel/InferredSpans/InferredSpans.php:122-187 | The two loops together have the effect of the comparison relation: which spans end, are dropped or re-parented, which start, and the new stack |
| `StackDiffer.InferredSpansDiffer.EndOldFrames` | prod/php/ElasticOTel/InferredSpans/InferredSpans.php:133-154 | The ending loop leaves exactly the values that the specification gives to each ended span, touches no other span, and pops exactly the ended scopes |
| `StackDiffer.InferredSpansDiffer.StartNewFrames` | prod/php/ElasticOTel/InferredSpans/InferredSpans.php:162-186 | The starting loop builds the specified stack of frames and scopes, with or without the explicit parent context |
| `StackDiffer.InferredSpansDiffer.FilterOutAPMFrames` | prod/php/ElasticOTel/InferredSpans/InferredSpans.php:198-218 | Keeps exactly the frames below the lowest frame of the instrumentation and returns where it cut, if it did |
| `StackDiffer.InferredSpansDiffer.GetHowManyStackFramesAreIdenticalFromStackBottom` | prod/php/ElasticOTel/InferredSpans/InferredSpans.php:221-253 | Returns the greatest number of frames that agree from the bottom |
| `StackDiffer.InferredSpansDiffer.ShouldReduceFrame` | prod/php/ElasticOTel/InferredSpans/InferredSpans.php:255-299 | Drops exactly when the frame above came from the same sample and the last re-parenting did not fail; re-parents a run's first frame to the original parent of the lowest ended frame of the run |
| `StackDiffer.InferredSpansDiffer.StartFrameSpan` | prod/php/ElasticOTel/InferredSpans/InferredSpans.php:361-390 | Starts a span under the given or the current context and attaches its scope on top |
| `StackDiffer.InferredSpansDiffer.EndFrameSpan` | prod/php/ElasticOTel/InferredSpans/InferredSpans.php:395-427 | Detaches the scope of the frame and marks its span finished or dropped |
| `Transport.StepPreserves` | prod/native/libcommon/code/transport/HttpTransportAsync.h:60-174 | Every critical section keeps the byte account equal to the queued bytes plus the bytes discarded at a fork (so the subtraction never underflows), keeps accepted payloads as attempted ones followed by queued ones, and lets the worker exit only when asked to |
| `Transport.UsageStaysBounded` | prod/native/libcommon/code/transport/HttpTransportAsync.h:79-170 | Over any run of a process whose limits stay at or below a bound, the queued bytes stay within the account and the account within the bound |
| `Transport.CapacityIsIntactIffForksWereClean` | prod/native/libcommon/code/transport/HttpTransportAsync.h:102-113 | Over any tree of forks, a process that has come out of its fork accepts payloads by the size of its queue alone exactly when every fork it descends from found no bytes queued; its account is its queue plus the bytes queued at those forks |
| `Transport.InheritedFromForks` | prod/native/libcommon/code/transport/HttpTransportAsync.h:102-113 | What a process has discarded, or is about to, is what was queued at the forks on its line of descent |
| `Transport.FirstProcessIsExact` | prod/native/libcommon/code/transport/HttpTransportAsync.h:79-113 | The process in which everything started never discards, so its account is exactly its queued bytes |
| `Transport.UsageStaysBoundedInTree` | prod/native/libcommon/code/transport/HttpTransportAsync.h:79-113 | Under limits up to a bound no process of the tree ever accounts for more than the bound |
| `Transport.ChildOfFullQueueIsStarved` | prod/native/libcommon/code/transport/HttpTransportAsync.h:102-113 | A run over a fork with a full queue, after which the child has an empty queue and refuses every payload |
| `Transport.DiscardedIsPermanent` | prod/native/libcommon/code/transport/HttpTransportAsync.h:102-113 | Discarded bytes stay charged to the process and to its children; only a postfork in a child adds to them |
| `TransportProgress.RunTakesWhatFits` | prod/native/libcommon/code/transport/HttpTransportAsync.h:79-93 | In any run of a process, an enqueue that fits beside the queued and the discarded bytes puts its payload last in the queue and in the history, whatever the worker does; any other enqueue changes nothing |
| `TransportProgress.EnqueueTakesWhatFits` | prod/native/libcommon/code/transport/HttpTransportAsync.h:79-93 | The same for one step, with the whole new state; an enqueue is possible until the transport is destroyed |
| `TransportProgress.WorkingWorkerTakesFront` | prod/native/libcommon/code/transport/HttpTransportAsync.h:149-174 | While the transport works, every step of the worker hands the front payload to the sender, or goes to wait when nothing is queued |
| `TransportProgress.FlushingWorkerTakesFront` | prod/native/libcommon/code/transport/HttpTransportAsync.h:149-237 | While the destructor waits, so does every step, but the worker exits when nothing is queued, on the shutdown timeout, and when it has only just been started |
| `TransportProgress.ForkingWorkerTakesFront` | prod/native/libcommon/code/transport/HttpTransportAsync.h:149-174 | Before a fork a waiting worker exits at once with the queue untouched, one that is sending first gets through the queue |
| `TransportProgress.OwnerStepsKeepQueue` | prod/native/libcommon/code/transport/HttpTransportAsync.h:95-147 | The steps of the owning thread change no history, no account and no queue, except that a child empties its own, and the worker only by starting or joining it |
| `TransportProgress.WorkerCanMove` | prod/native/libcommon/code/transport/HttpTransportAsync.h:149-174 | When each step of the worker is possible: entering once, ending a send, and waking as soon as something is queued or it is asked to stop |
| `TransportProgress.OwnerCanMove` | prod/native/libcommon/code/transport/HttpTransportAsync.h:60-147 | When each step of the owning thread is possible; a worker is joined only when it has exited or is missing |
| `TransportProgress.WorkerDrains` | prod/native/libcommon/code/transport/HttpTransportAsync.h:149-237 | From every state with a worker in its loop, steps of the worker alone lead to an empty queue with everything accepted attempted in order |
| `TransportProgress.DestructorDrains` | prod/native/libcommon/code/transport/HttpTransportAsync.h:132-237 | So they do while the destructor waits, and the worker then exits |
| `Transport.FlushIsComplete` | prod/native/libcommon/code/transport/HttpTransportAsync.h:132-237 | For every interleaving, if the worker was in its loop when the destructor cleared the flag and no timeout strikes, it exits with an empty queue, having attempted exactly what was accepted until then, in order |
| `Transport.FlushCompleteIff` | prod/native/libcommon/code/transport/HttpTransportAsync.h:60-65 | Without timeout, at any moment after the worker has stopped and so also when the transport is destroyed, everything accepted was attempted if and only if the worker was in its loop when the flag was cleared, or nothing was queued then, and every enqueue after the worker stopped is refused for want of room |
| `Transport.DestroyedHasStopped` | prod/native/libcommon/code/transport/HttpTransportAsync.h:132-147 | When the transport is destroyed the worker has stopped at some moment of the run |
| `Transport.ClearingStartsFlush` | prod/native/libcommon/code/transport/HttpTransportAsync.h:132-141 | The state in which the flag is cleared is such a starting point, whatever the worker was doing |
| `Transport.FlushFailsWithoutWorker` | prod/native/libcommon/code/transport/HttpTransportAsync.h:67-93 | A run in which a payload is accepted but no connection was initialised, so that no worker exists: the destructor leaves it behind |
| `Transport.FlushFailsForLatePayload` | prod/native/libcommon/code/transport/HttpTransportAsync.h:79-93 | A run in which a payload is accepted after the worker has drained the queue and exited, before it is joined |
| `Transport.FlushFailsForStartingWorker` | prod/native/libcommon/code/transport/HttpTransportAsync.h:132-164 | A run in which the worker was started but takes the mutex only after the flag is cleared |
| `Transport.SystemRunInv` | prod/native/extension/code/ForkHandler.cpp:33-71 | The invariant of every process, the single ownership of payloads and their numbering hold along every run over a tree of forks |
| `Transport.AttemptedAtMostOnce` | prod/native/extension/code/ForkHandler.cpp:33-71 | Across any tree of forks no payload is handed to the sender twice, neither by two processes nor by one |
| `Transport.NothingIsLost` | prod/native/libcommon/code/transport/HttpTransportAsync.h:79-113 | Each payload ever accepted was attempted, or waits in the queue, of a process that is not a child before its postfork |
| `Transport.QueueStaysInParent` | prod/native/libcommon/code/transport/HttpTransportAsync.h:95-113 | What is queued at the fork stays queued, in order, in the parent; the child starts over empty; both start a worker |
| `Transport.HttpTransportAsync.Enqueue` | prod/native/libcommon/code/transport/HttpTransportAsync.h:79-93 | One enqueue step: over the limit the payload is dropped silently, otherwise it is appended and charged |
| `Transport.HttpTransportAsync.StartThread` | prod/native/libcommon/code/transport/HttpTransportAsync.h:124-130 | A worker is started unless there is one |
| `Transport.HttpTransportAsync.Prefork` | prod/native/libcommon/code/transport/HttpTransportAsync.h:95-100 | The first half of prefork: the worker is asked to stop and keeps the queue |
| `Transport.HttpTransportAsync.SetForceFlush` | prod/native/libcommon/code/transport/HttpTransportAsync.h:60-63 | The destructor sets the flush flag before it stops the worker |
| `Transport.HttpTransportAsync.ShutdownThread` | prod/native/libcommon/code/transport/HttpTransportAsync.h:132-141 | Clearing the flag under the mutex |
| `Transport.HttpTransportAsync.JoinThread` | prod/native/libcommon/code/transport/HttpTransportAsync.h:143-146 | The thread is joined only after it has exited, or when there is none |
| `Transport.HttpTransportAsync.PostforkIn` | prod/native/libcommon/code/transport/HttpTransportAsync.h:102-113 | A child drops the inherited queue without touching the byte counter; both sides work again |
| `Transport.HttpTransportAsync.OuterLoop` | prod/native/libcommon/code/transport/HttpTransportAsync.h:155-163 | The head of the worker's outer loop |
| `Transport.HttpTransportAsync.EnterSender` | prod/native/libcommon/code/transport/HttpTransportAsync.h:149-156 | The first time the new thread takes the mutex |
| `Transport.HttpTransportAsync.WakeUp` | prod/native/libcommon/code/transport/HttpTransportAsync.h:156-163 | What the worker does when its wait ends |
| `Transport.HttpTransportAsync.TakeNext` | prod/native/libcommon/code/transport/HttpTransportAsync.h:166-174 | The front payload leaves the queue and the account and is attempted |
| `Transport.HttpTransportAsync.AfterSend` | prod/native/libcommon/code/transport/HttpTransportAsync.h:229-237 | After a send: stop on the shutdown timeout, drain on, or return to the outer loop |
| `Transport.SendWithRetries` | prod/native/libcommon/code/transport/HttpTransportAsync.h:189-227 | Stops at the first success or fatal answer and otherwise after the maximum number of attempts; the outcome says which |
| `ChunkedMessages.LossyDeliveryIsSafe` | prod/native/libcommon/code/coordinator/ChunkedMessageProcessor.cpp:51-114 | As long as a key names one payload, with any chunks lost and cleanups at any time: what is under reassembly is a strict prefix of the payload sent under its key, what is delivered is what was sent, and nothing is delivered twice |
| `ChunkSenders.KeysAreDistinctIff` | prod/native/libcommon/code/coordinator/ChunkedMessageProcessor.h:106-110 | Over any tree of forked senders, before the message ids wrap around, all payloads have different keys if and only if no two processes both send after their common fork |
| `ChunkSenders.CountsItsLine` | prod/native/libcommon/code/coordinator/ChunkedMessageProcessor.cpp:25 | The message id of a process is the number of payloads sent on its line of descent, which is all payloads exactly when every one of them was sent on that line |
| `ChunkSenders.SentIsAMap` | prod/native/libcommon/code/coordinator/ChunkedMessageProcessor.h:106-110 | Without rivals the payloads sent form the map from keys that the delivery theorems assume |
| `ChunkSenders.SiblingsShareKey` | prod/native/libcommon/code/coordinator/ChunkedMessageProcessor.h:106-110 | A parent and a child that both send after the fork use one key |
| `ChunkSenders.MixedDelivery` | prod/native/libcommon/code/coordinator/ChunkedMessageProcessor.cpp:51-93 | Two chunks of different payloads under one key are put together and delivered without error |
| `ChunkedMessages.DeliveredIffArrivedInTime` | prod/native/libcommon/code/coordinator/ChunkedMessageProcessor.cpp:51-114 | With any chunks lost and cleanups at any time, a non-empty message is delivered if and only if all its chunks arrive and no cleanup finds it stale between two of them |
| `ChunkedMessages.RunFollows` | prod/native/libcommon/code/coordinator/ChunkedMessageProcessor.cpp:51-114 | With cleanups, the receiver's state of a message is a function of its progress: growing without a gap, or never to be completed |
| `ChunkedMessages.DeliveredIffNothingLost` | prod/native/libcommon/code/coordinator/CoordinatorProcess.cpp:63-73 | Without cleanup a non-empty message is delivered if and only if none of its chunks was lost |
| `ChunkedMessages.LosslessDeliveryIsComplete` | prod/native/libcommon/code/coordinator/ChunkedMessageProcessor.cpp:51-93 | Any order-preserving interleaving of complete chunk streams raises no error, delivers exactly the non-empty payloads and leaves the table empty |
| `ChunkedMessages.DeliversAtLastChunk` | prod/native/libcommon/code/coordinator/ChunkedMessageProcessor.cpp:51-93 | In such a trace each chunk is received without error and a message is delivered exactly by its last chunk |
| `ChunkedMessages.ArrivesInTurn` | prod/native/libcommon/code/coordinator/ChunkedMessageProcessor.cpp:66-69 | In a lossless trace every chunk has the offset that the receiver expects |
| `ChunkedMessages.ProgressIsMeant` | prod/native/libcommon/code/coordinator/ChunkedMessageProcessor.cpp:51-114 | Growing progress means that exactly the first chunks arrived and no cleanup found them stale; otherwise a chunk was overtaken, and so lost, or a cleanup found the message stale |
| `ChunkedMessages.RunIsSafe` | prod/native/libcommon/code/coordinator/ChunkedMessageProcessor.cpp:51-114 | The safety invariant holds after every trace of arrivals and cleanups |
| `ChunkedMessages.ReceiveChunk` | prod/native/libcommon/code/coordinator/ChunkedMessageProcessor.cpp:51-93 | The effect of one chunk: an unexpected offset is an error that changes no data, the expected one appends, the last one delivers; no other message is touched |
| `ChunkedMessages.CleanedUpEntry` | prod/native/libcommon/code/coordinator/ChunkedMessageProcessor.cpp:95-114 | Cleanup removes exactly the messages older than the age and leaves no sender without messages |
| `ChunkContents.ChunkCarries` | prod/native/libcommon/code/coordinator/ChunkedMessageProcessor.cpp:24-49 | Every chunk but the last carries 4064 bytes of the payload from its offset on, the last one the rest, never nothing |
| `ChunkContents.ChunksMakePayload` | prod/native/libcommon/code/coordinator/ChunkedMessageProcessor.cpp:24-49 | The chunks one after the other are the payload; only the empty payload has none |
| `ChunkContents.OnePayloadArrives` | prod/native/libcommon/code/coordinator/ChunkedMessageProcessor.cpp:24-93 | The chunks of one payload received in turn deliver it without error and leave an empty table |
| `ChunkContents.AnyChunk` | prod/native/libcommon/code/coordinator/ChunkedMessageProcessor.cpp:51-93 | For any chunk on any table: an error exactly when it does not continue what is held or overruns its own or the announced length, a delivery exactly when the announced length is reached; errors keep the data, other messages are untouched |
| `ChunkContents.NothingOverruns` | prod/native/libcommon/code/coordinator/ChunkedMessageProcessor.cpp:51-114 | After any chunks and cleanups no message under reassembly exceeds the length that a chunk of it has announced |
| `ChunkContents.DeliveredAsAnnounced` | prod/native/libcommon/code/coordinator/ChunkedMessageProcessor.h:46-54 | Whatever arbitrary senders send, everything delivered has exactly a length that a chunk of its message has announced |
| `ChunkedMessages.ChunkedMessageProcessor.SendPayload` | prod/native/libcommon/code/coordinator/ChunkedMessageProcessor.cpp:24-49 | Hands over a prefix of the payload's chunks under one new message id, all of them exactly when it returns true |
| `ChunkedMessages.ChunkedMessageProcessor.ProcessReceivedChunk` | prod/native/libcommon/code/coordinator/ChunkedMessageProcessor.cpp:51-93 | Has the effect of the receiver's step on the nested table, error cases included |
| `ChunkedMessages.ChunkedMessageProcessor.CleanupAbandonedMessages` | prod/native/libcommon/code/coordinator/ChunkedMessageProcessor.cpp:95-114 | Leaves the cleaned-up table |
| `ChunkedMessages.RemoveStale` | prod/native/libcommon/code/coordinator/ChunkedMessageProcessor.cpp:99-106 | The inner loop keeps exactly the recent messages of a sender |
| `ChunkedMessages.RemoveStaleOfAll` | prod/native/libcommon/code/coordinator/ChunkedMessageProcessor.cpp:95-114 | The outer loop drops senders whose table became empty |
| `Utf8.IsUtf8` | prod/native/libcommon/code/CommonUtils.cpp:295-339 | True exactly when the bytes are the concatenated encoding of some sequence of Unicode scalar values |
| `Utf8.IsWellFormed` | prod/native/libcommon/code/CommonUtils.cpp:295-339 | The scanning loop with its table and bit tests accepts exactly the concatenations of well-formed characters, and never reads out of range |
| `Utf8.EncodingIsUnique` | prod/native/libcommon/code/CommonUtils.cpp:295-339 | A text encodes at most one sequence of scalar values |
| `Utf8.DecodeFront` | prod/native/libcommon/code/CommonUtils.cpp:295-339 | Every accepted front of a text is the encoding of a scalar value: no overlong form, no surrogate, nothing above U+10FFFF |
| `Utf8.EncodeFront` | prod/native/libcommon/code/CommonUtils.cpp:295-339 | The encoding of every scalar value is accepted and decodes to it |
| `Utf8.TextIffSyntax` | prod/native/libcommon/code/CommonUtils.cpp:295-339 | A text is the encoding of scalar values exactly when its first bytes are in the ranges of section 4 of RFC 3629 and the rest is one |
| `Utf8.EncodedMeans` | prod/native/libcommon/code/CommonUtils.cpp:295-339 | Each scalar value is the sum of what its bytes carry, six bits each below the mark of the first |
| `Utf8.EncodedLength` | prod/native/libcommon/code/CommonUtils.cpp:295-339 | Which values are scalar and how many bytes each takes |
| `Utf8.TableEntry` | prod/native/libcommon/code/CommonUtils.cpp:299-312 | The index stays within the table, and the entry is the number of following bytes |
| `Utf8.FrontIsTested` | prod/native/libcommon/code/CommonUtils.cpp:312-335 | The masks and comparisons of the code are the byte ranges of the standard |
| `WildcardExactness.MatchDecidesTheGlobIff` | prod/php/ElasticOTel/Util/WildcardMatcher.php:75-123 | For every expression: matching decides the glob language on all texts if and only if the parsed pattern passes the test Exact, which looks at the pattern alone |
| `WildcardExactness.ExactAcceptsOnlyTheLanguage` | prod/php/ElasticOTel/Util/WildcardMatcher.php:85-123 | A pattern that passes the test accepts no text outside its language |
| `WildcardExactness.Fools` | prod/php/ElasticOTel/Util/WildcardMatcher.php:101-118 | For each pattern that fails the test there is a text outside the language that is accepted |
| `WildcardExactness.SwapFoolsFloating` | prod/php/ElasticOTel/Util/WildcardMatcher.php:101-108 | Two searched literals that may come anywhere are accepted in the wrong order, because the position advances by the literal's length |
| `WildcardExactness.OverlapFoolsPair` | prod/php/ElasticOTel/Util/WildcardMatcher.php:109-118 | When the last two literals can overlap, a text too short for both is accepted, because the suffix test ignores what was used before |
| `Wildcard.MatchIsComplete` | prod/php/ElasticOTel/Util/WildcardMatcher.php:85-123 | A text of the glob's language is never refused |
| `Wildcard.Match` | prod/php/ElasticOTel/Util/WildcardMatcher.php:85-123 | Accepts exactly when each loop part occurs at or after the summed lengths of the earlier parts, subject to the prefix and suffix anchors |
| `WildcardMeaning.SameIff` | prod/php/ElasticOTel/Util/WildcardMatcher.php:75-83 | Without the mark two characters agree exactly when they are equal or are the same ASCII letter in different case; with it, when they are equal |
| `WildcardMeaning.CaseOfTextIsIgnored` | prod/php/ElasticOTel/Util/WildcardMatcher.php:75-123 | A pattern without the mark accepts alike all texts that differ only by the case of ASCII letters |
| `WildcardMeaning.CaseOfPatternIsIgnored` | prod/php/ElasticOTel/Util/WildcardMatcher.php:75-123 | Patterns without the mark whose literals differ only by the case of ASCII letters accept the same texts |
| `WildcardMeaning.MarkedExpression` | prod/php/ElasticOTel/Util/WildcardMatcher.php:43-123 | An expression with the mark "(?-i)" and no star accepts exactly what follows the mark |
| `WildcardMeaning.UnmarkedExpression` | prod/php/ElasticOTel/Util/WildcardMatcher.php:43-123 | Without the mark it accepts exactly what differs from it only by the case of ASCII letters |
| `WildcardMeaning.GlobOfStar` | prod/php/ElasticOTel/Util/WildcardMatcher.php:85-123 | In the glob language a star stands for any text between what comes before and after it |
| `WildcardMeaning.GlobOfLiteral` | prod/php/ElasticOTel/Util/WildcardMatcher.php:85-123 | In the glob language a pattern without a star stands for the texts that agree with it in every place |
| `Wildcard.FindSubString` | prod/php/ElasticOTel/Util/WildcardMatcher.php:75-78 | The earliest occurrence from the offset on, if there is one |
| `Wildcard.Parse` | prod/php/ElasticOTel/Util/WildcardMatcher.php:43-73 | The constructor's loop finds the literals between the stars and whether stars stand at the ends |
| `Wildcard.ParsedDefinesTheGlob` | prod/php/ElasticOTel/Util/WildcardMatcher.php:43-73 | The parts and flags that the parser keeps define the same language as the expression |
| `Wildcard.Print` | prod/php/ElasticOTel/Util/WildcardMatcher.php:125-159 | Builds the printed form |
| `Wildcard.ParseInvertsPrint` | prod/php/ElasticOTel/Util/WildcardMatcher.php:125-159 | Every well-formed matcher whose first literal is not the case mark is read back unchanged from what it prints |
| `Wildcard.PrintingIsStable` | prod/php/ElasticOTel/Util/WildcardMatcher.php:125-159 | For every expression, parsing what its matcher prints gives identical fields |
| `Wildcard.CollapsingKeepsTheGlob` | prod/php/ElasticOTel/Util/WildcardMatcher.php:125-148 | Collapsing repeated stars, as the printer does, keeps the glob language |
| `UrlEncoded.PercentDecode` | prod/native/libcommon/code/CommonUtils.cpp:341-357 | The loop computes the decoding and terminates on every input |
| `UrlEncoded.EscapeIsDecoded` | prod/native/libcommon/code/CommonUtils.cpp:345-349 | A percent sign and two hexadecimal digits, upper or lower case each, give the byte of that value, for all 256 values |
| `UrlEncoded.OtherBytesAreKept` | prod/native/libcommon/code/CommonUtils.cpp:345-353 | Every byte that does not begin an escape stands for itself |
| `UrlEncoded.DecodeInvertsEncoding` | prod/native/libcommon/code/CommonUtils.cpp:341-357 | Decoding inverts every percent-encoding (section 2.1 of RFC 3986) that escapes the percent sign, in either letter case |
| `UrlEncoded.DecodeInvertsEncoder` | prod/native/libcommon/code/CommonUtils.cpp:341-357 | In particular that of an encoder with any set of kept bytes without the percent sign |
| `UrlEncoded.DecodeKeepsIff` | prod/native/libcommon/code/CommonUtils.cpp:341-357 | Decoding leaves a text alone exactly when it holds no escape |
| `UrlEncoded.InsertPair` | prod/native/libcommon/code/CommonUtils.cpp:364-369 | A piece without an equals sign adds nothing; otherwise the first value of a key is kept |
| `UrlEncoded.ParseKeyValues` | prod/native/libcommon/code/CommonUtils.cpp:359-378 | The loop computes the attributes and terminates on every input |
| `UrlEncoded.AttrsOfJoin` | prod/native/libcommon/code/CommonUtils.cpp:359-378 | Parsing two texts joined by a comma is the union of their attributes, the left one taking precedence |
| `UrlEncoded.PieceIsRead` | prod/native/libcommon/code/CommonUtils.cpp:359-378 | A piece without a comma sets what precedes its first equals sign to the decoded rest, and sets nothing without one |
| `UrlEncoded.ParseInvertsJoin` | prod/native/libcommon/code/CommonUtils.cpp:359-378 | Parsing a joined list of settings gives each key the first value written for it |
| `UrlEncoded.FirstWinsIsFirst` | prod/native/libcommon/code/CommonUtils.cpp:368 | The value of a key is that of its first setting |
| `UrlEncoded.ParseInvertsWriting` | prod/native/libcommon/code/CommonUtils.cpp:359-378 | Every map whose keys have neither comma nor equals sign is read back from its written form, in any order of its entries |
| `UrlEncoded.EncoderGivesSetting` | prod/native/libcommon/code/CommonUtils.cpp:359-378 | Every value has an encoding that can stand in such a list |
| `CaseConversion.CamelToSnakeCase` | prod/php/ElasticOTel/Util/TextUtil.php:93-116 | The index loop computes the conversion |
| `CaseConversion.SnakeOfCharacter` | prod/php/ElasticOTel/Util/TextUtil.php:93-116 | Wherever it stands, a letter from A to Z becomes the one from a to z, behind an underscore unless it comes first, and every other character is kept |
| `CaseConversion.CamelOfCharacter` | prod/php/ElasticOTel/Util/TextUtil.php:118-165 | Wherever it stands, a run of underscores goes, the character after it becomes a capital when it is a letter from a to z with something before the run, and is kept otherwise |
| `CaseConversion.SnakeToCamelCase` | prod/php/ElasticOTel/Util/TextUtil.php:118-165 | The loop computes the conversion |
| `CaseConversion.CamelInvertsSnakeIff` | prod/php/ElasticOTel/Util/TextUtil.php:93-165 | A name survives the way to snake case and back exactly when it has no underscore and does not start with a capital |
| `CaseConversion.SnakeInvertsCamelIff` | prod/php/ElasticOTel/Util/TextUtil.php:93-165 | A name survives the way to camel case and back exactly when it has no capital and each underscore is non-initial and followed by a lower-case letter |
| `CaseConversion.CamelHasNoUnderscore` | prod/php/ElasticOTel/Util/TextUtil.php:118-165 | No underscore is left after the conversion to camel case |
| `CaseConversion.CamelStep` | prod/php/ElasticOTel/Util/TextUtil.php:124-155 | One turn of the loop: a chunk, a run of underscores and the character raised after it |
| `CompiledFiles.IncrementalRefinesStateless` | prod/native/libcommon/code/DependencyAutoLoaderGuard.cpp:40-76 | Over any run of requests, compilations and questions, the guard with its cursors answers as one that scans all the tables at each question |
| `CompiledFiles.ScanKeepsAgreement` | prod/native/libphpbridge/code/PhpBridge.cpp:431-457 | A scan from the cursors of tables that have grown leaves what a full scan would have found, although the cursors lag behind when slots are unused; the cursors stay within the tables |
| `CompiledFiles.AnswerIsFullDecision` | prod/native/libcommon/code/DependencyAutoLoaderGuard.cpp:40-76 | Each single answer is the decision of a full scan |
| `CompiledFiles.FullDecisionIff` | prod/native/libcommon/code/DependencyAutoLoaderGuard.cpp:78-100 | A file is discarded exactly when it is outside the delivered directory and the tables name a file inside that directory, not under "/composer/", that has there the path which follows the first "/vendor/" of the file; and the tables do not name the directory itself |
| `CompiledFiles.ComposerFilesDiscardNothing` | prod/native/libcommon/code/DependencyAutoLoaderGuard.cpp:51-59 | When the tables name only files of the autoloader in the delivered directory, nothing is discarded |
| `CompiledFiles.WithoutVendorNothingFollows` | prod/native/libcommon/code/DependencyAutoLoaderGuard.cpp:79-84 | A path without "/vendor/" has no relative path |
| `CompiledFiles.ScanOneMore` | prod/native/libphpbridge/code/PhpBridge.cpp:435-445 | One more slot at the end of a table is visited unless unused, and recorded when it has a file |
| `CompiledFiles.AfterVendorIsFirst` | prod/native/libcommon/code/DependencyAutoLoaderGuard.cpp:79-86 | The relative path is what follows the first "/vendor/" |
| `CompiledFiles.VendorPathComesFirst` | prod/native/libcommon/code/DependencyAutoLoaderGuard.cpp:88-94 | The recorded path whose suffix cannot be taken would be looked at before any match |
| `CompiledFiles.ScanFrom` | prod/native/libphpbridge/code/PhpBridge.cpp:435-445 | One table is recorded from the cursor to its end, and the cursor counts the visited slots only |
| `CompiledFiles.GetCompiledFiles` | prod/native/libphpbridge/code/PhpBridge.cpp:408-429 | The full scan of both tables |
| `CompiledFiles.GetNewlyCompiledFiles` | prod/native/libphpbridge/code/PhpBridge.cpp:431-457 | The scan of both tables from their cursors |
| `CompiledFiles.DependencyAutoLoaderGuard.ShouldDiscardFileCompilation` | prod/native/libcommon/code/DependencyAutoLoaderGuard.cpp:40-76 | The decision is that of a full scan; files of the vendor directory and failures leave the state alone and are never discarded |
| `CompiledFiles.DependencyAutoLoaderGuard.WasDeliveredByEDOT` | prod/native/libcommon/code/DependencyAutoLoaderGuard.cpp:78-100 | Throws exactly when the vendor path itself is stored and a vendor directory was found, otherwise tells whether a stored file matches |
| `CompiledFiles.DependencyAutoLoaderGuard.Store` | prod/native/libcommon/code/DependencyAutoLoaderGuard.cpp:48-60 | Adds exactly the recorded files under the vendor path, without those of the autoloader |
| `CompiledFiles.DependencyAutoLoaderGuard.OnRequestInit` | prod/native/libcommon/code/DependencyAutoLoaderGuard.h:38-40 | Forgets files and cursors, whatever the tables become |
| `CompiledFiles.DependencyAutoLoaderGuard.Clear` | prod/native/libcommon/code/DependencyAutoLoaderGuard.h:51-55 | Sets both cursors to 0 and empties the stored files |
| `OtlpGrouping.Convert` | prod/native/libphpbridge/code/OtlpExporter/SpanConverter.h:44-90 | The loop with its two maps puts each record under the labels of the first record with the same joined key |
| `OtlpGrouping.ConvertGroupsIff` | prod/native/libphpbridge/code/OtlpExporter/LogsConverter.h:45-85 | The result is the stable grouping by resource and scope if and only if no two records with different identifiers have the same joined key |
| `OtlpGrouping.PrefixFreeHasNoClash` | prod/native/libphpbridge/code/OtlpExporter/ConverterHelpers.h:45-89 | That holds when no resource identifier is a prefix of another one |
| `OtlpGrouping.ConvertConserves` | prod/native/libphpbridge/code/OtlpExporter/MetricConverter.h:47-83 | Clash or not, every record is in the request exactly as often as in the batch, and sibling groups have different labels |
| `OtlpGrouping.GroupHoldsMatching` | prod/native/libphpbridge/code/OtlpExporter/SpanConverter.h:44-90 | A group of the stable grouping holds exactly the records with its labels, in batch order |
| `OtlpGrouping.GroupIsInBatchOrder` | prod/native/libphpbridge/code/OtlpExporter/SpanConverter.h:44-90 | The records of a group are those at the positions of the batch with its two identifiers, all of them, in rising order |
| `OtlpGrouping.ResourcesInOrder` | prod/native/libphpbridge/code/OtlpExporter/SpanConverter.h:44-90 | Resource groups are distinct and stand in the order in which their resources first occur |
| `OtlpGrouping.ScopesInOrder` | prod/native/libphpbridge/code/OtlpExporter/SpanConverter.h:44-90 | So are and do the scope groups of one resource |
| `OtlpGrouping.EveryRecordHasGroup` | prod/native/libphpbridge/code/OtlpExporter/SpanConverter.h:44-90 | Every record finds a group with its identifiers |
| `OtlpGrouping.GroupedIsWellPlaced` | prod/native/libphpbridge/code/OtlpExporter/SpanConverter.h:44-90 | In the stable grouping each record stands under its own resource and scope |
| `OtlpGrouping.OwnersAgree` | prod/native/libphpbridge/code/OtlpExporter/SpanConverter.h:74-82 | A record gets the labels of the first record of the batch with its key |
| `OtlpGrouping.NewScopeStep` | prod/native/libphpbridge/code/OtlpExporter/SpanConverter.h:74-82 | A key not seen before adds a scope group and its map entry |
| `OtlpGrouping.OldScopeStep` | prod/native/libphpbridge/code/OtlpExporter/SpanConverter.h:80-84 | A key seen before leads to the scope group of its first record |
| `OtlpGrouping.ResourceStep` | prod/native/libphpbridge/code/OtlpExporter/SpanConverter.h:65-72 | The map of resources finds or adds the group of the record's resource |
| `OtlpIdentifiers.EveryBatchIsGrouped` | prod/native/libphpbridge/code/OtlpExporter/ConverterHelpers.h:45-89 | Every batch of records with the identifiers that the code builds, failed serializations included, is converted into the stable grouping by these identifiers |
| `OtlpIdentifiers.ResourceGroupsAreFaithfulIff` | prod/native/libphpbridge/code/OtlpExporter/ConverterHelpers.h:32-63 | The records of each resource group have one resource if and only if no two different resources of the batch both failed to serialize |
| `OtlpIdentifiers.ScopeGroupsAreFaithfulIff` | prod/native/libphpbridge/code/OtlpExporter/ConverterHelpers.h:32-89 | The records of each scope group have one scope if and only if no two different scopes of one resource group both failed to serialize |
| `OtlpIdentifiers.ResourceGroupIff` | prod/native/libphpbridge/code/OtlpExporter/ConverterHelpers.h:45-63 | Two records share a resource group exactly when their resources are equal or both failed to serialize |
| `OtlpIdentifiers.FailedResourcesShareGroup` | prod/native/libphpbridge/code/OtlpExporter/ConverterHelpers.h:36-39 | Two records whose resources and scopes fail to serialize get the same labels |
| `OtlpIdentifiers.ConvertSources` | prod/native/libphpbridge/code/OtlpExporter/SpanConverter.h:44-90 | The conversion from the identifying contents yields that grouping |
| `OtlpIdentifiers.KeysNeverClash` | prod/native/libphpbridge/code/OtlpExporter/SpanConverter.h:75 | Two joined keys agree only if both the resource and the scope identifiers do |
| `OtlpIdentifiers.ResourceIdIsFaithful` | prod/native/libphpbridge/code/OtlpExporter/ConverterHelpers.h:45-63 | Resource identifiers are equal exactly for equal schema URL, attributes and dropped count |
| `OtlpIdentifiers.ScopeIdIsFaithful` | prod/native/libphpbridge/code/OtlpExporter/ConverterHelpers.h:65-89 | Scope identifiers are equal exactly for equal name, version, schema URL, attributes and dropped count |
| `PhpSerialize.SerializeIsPrefixFree` | prod/native/libphpbridge/code/OtlpExporter/ConverterHelpers.h:32-43 | No serialization is a prefix of that of another value |
| `PhpSerialize.ValueIsRead` | prod/native/libphpbridge/code/OtlpExporter/ConverterHelpers.h:32-43 | A serialization followed by anything determines its value and what follows |
| `PhpSerialize.SerializedForms` | prod/native/libphpbridge/code/OtlpExporter/ConverterHelpers.h:32-43 | The text of null, booleans, integers, floats and strings |
| `PhpSerialize.SerializedArray` | prod/native/libphpbridge/code/OtlpExporter/ConverterHelpers.h:32-43 | The text of an array: its number of entries, then keys and values one after the other |
| `PhpSerialize.DecimalReads` | prod/native/libphpbridge/code/OtlpExporter/ConverterHelpers.h:32-43 | Lengths and numbers are written in decimal without needless zeros and read as themselves |
| `ConfigPropagation.RequestReadsTheTrigger` | prod/native/libcommon/code/RequestScope.h:57-58 | For every interleaving, the storage that a request reads holds what the process reads of the merge of all accepted configurations at the moment of its trigger |
| `ConfigPropagation.RequestReadsWhatTheServerMeant` | prod/native/libcommon/code/RequestScope.h:57-58 | From the server to the request: a request reads what the client held at its trigger exactly when the latest accepted configuration has no NUL and every name ever accepted reads as one of its names; given either of this and that the client held what the server meant, the other decides whether the request reads what the server meant |
| `ConfigPropagation.StepKeepsInv` | prod/native/libcommon/code/coordinator/CoordinatorConfigurationProvider.h:75-132 | Every message, trigger, pull and fork keeps the agreement of hash, shared revision and files, worker copies, manager and storage |
| `ConfigPropagation.RunKeepsInv` | prod/native/libcommon/code/coordinator/CoordinatorConfigurationProvider.h:75-132 | Along every run of messages, triggers, pulls and forks, in any order, hash, shared revision and files, worker copies, manager and storage stay in agreement |
| `ConfigPropagation.InitIsOk` | prod/native/extension/code/ModuleInit.cpp:72-106 | They agree after module initialisation |
| `ConfigPropagation.EqualRevisionsEqualFiles` | prod/native/libcommon/code/coordinator/CoordinatorConfigurationProvider.h:75-88 | Equal revisions mean equal contents, between workers and between manager and storage, and no worker is ahead of the coordinator |
| `ConfigPropagation.SharedIsLatestIff` | prod/native/libcommon/code/coordinator/CoordinatorConfigurationProvider.h:122-132 | The shared files are the latest accepted configuration exactly when it still has every file name ever accepted, because the map is only merged into |
| `ConfigPropagation.NewestTextWins` | prod/native/libcommon/code/coordinator/CoordinatorConfigurationProvider.h:122-132 | A shared file has the text of the newest accepted configuration that has the file |
| `ConfigPropagation.ClientFollowsServerIff` | prod/native/libcommon/code/transport/OpAmp.cpp:113-129 | The client holds the server's configuration after every message exactly when a repeated hash comes with a repeated configuration, the initial empty hash included |
| `ConfigPropagation.ProcessReadsLatestIff` | prod/native/libcommon/code/coordinator/CoordinatorConfigurationProvider.h:113-132 | What a process reads is the latest accepted configuration exactly when that one has no NUL and every accepted name, up to its first NUL, is a name of it |
| `ConfigPropagation.WithdrawnFileStays` | prod/native/libcommon/code/coordinator/CoordinatorConfigurationProvider.h:122-132 | A file that a later configuration no longer has stays in the shared files |
| `ConfigPropagation.EmptyHashIsIgnored` | prod/native/libcommon/code/transport/OpAmp.cpp:118-126 | A first configuration under the empty hash is ignored |
| `ConfigPropagation.RepeatedHashIsIgnored` | prod/native/libcommon/code/transport/OpAmp.cpp:118-126 | A new configuration under the hash held is ignored, and the hash is held as before |
| `ConfigPropagation.NulCutsText` | prod/native/libcommon/code/coordinator/CoordinatorConfigurationProvider.h:116 | A file text with a NUL is read only up to it |
| `ConfigPropagation.ViewIsFaithfulIff` | prod/native/libcommon/code/coordinator/CoordinatorConfigurationProvider.h:113-119 | A process reads the shared files as they are exactly when no name and no text has a NUL |
| `ConfigPropagation.ViewIsUnique` | prod/native/libcommon/code/coordinator/CoordinatorConfigurationProvider.h:113-119 | What a process reads is determined by the shared files |
| `ConfigPropagation.FirstNameIsRead` | prod/native/libcommon/code/coordinator/CoordinatorConfigurationProvider.h:113-119 | Of names that read alike the first in byte order is the one whose text is read |
| `Strings.FirstDifferenceDecides` | prod/native/libcommon/code/coordinator/CoordinatorConfigurationProvider.h:113-119 | Byte order, in which the ordered maps and sets of the code keep their names: the first differing place decides, or the end of one of them |
| `ConfigPropagation.RunsGoOn` | prod/native/extension/code/ModuleInit.cpp:72-106 | Runs begin with the state that module initialisation leaves and go on with any event |
| `ConfigPropagation.LeastExists` | prod/native/libcommon/code/coordinator/CoordinatorConfigurationProvider.h:113-119 | The names have a least one, which the ordered map yields first |
| `ConfigPropagation.TriggerReadsShared` | prod/native/libcommon/code/coordinator/CoordinatorConfigurationProvider.h:75-88 | After a trigger, changed or not, the manager's files are what the process reads of the shared ones |
| `ConfigPropagation.OthersKeepWorker` | prod/native/libcommon/code/RequestScope.h:57-58 | Events of other processes do not touch a worker's caches |
| `ConfigComponents.OpAmp.HandleServerToAgent` | prod/native/libcommon/code/transport/OpAmp.cpp:113-129 | Replaces files and hash and calls the watchers exactly when the hash changes |
| `ConfigComponents.OpAmp.HeartbeatHash` | prod/native/libcommon/code/transport/OpAmp.cpp:187-199 | Acknowledges the hash of the last message, none while it is empty |
| `ConfigComponents.SharedData.StoreConfigFiles` | prod/native/libcommon/code/coordinator/CoordinatorConfigurationProvider.h:122-132 | Raises the revision and overrides file by file, in whatever order the files come |
| `ConfigComponents.SharedData.GetConfigurationNoLock` | prod/native/libcommon/code/coordinator/CoordinatorConfigurationProvider.h:113-119 | Reads C strings in the order of the names, the first of equal names winning |
| `ConfigComponents.ConfigurationManager.constructor` | prod/native/libcommon/code/ConfigurationManager.h:60-62 | The first snapshot has revision 1 |
| `ConfigComponents.ConfigurationManager.Update` | prod/native/libcommon/code/ConfigurationManager.cpp:94-142 | The new snapshot has the next revision and the given files |
| `ConfigComponents.ConfigurationManager.GetNextRevision` | prod/native/libcommon/code/ConfigurationManager.cpp:166-168 | Revisions are consecutive |
| `ConfigComponents.ConfigurationManager.UpdateIfChanged` | prod/native/libcommon/code/ConfigurationManager.h:73-79 | Copies the current snapshot exactly when the revisions differ |
| `ConfigComponents.ConfigurationStorage.Update` | prod/native/libcommon/code/ConfigurationStorage.h:43-49 | Pulls the manager's snapshot exactly when the revisions differ |
| `ConfigComponents.WorkerProcess.constructor` | prod/native/extension/code/ModuleInit.cpp:72-73 | Module initialisation leaves revision 2 without files in manager and storage, and no copy of the shared revision |
| `ConfigComponents.WorkerProcess.TriggerUpdateIfChanged` | prod/native/libcommon/code/coordinator/CoordinatorConfigurationProvider.h:75-88 | One trigger step of the system, with the watcher that updates the manager |
| `ConfigComponents.WorkerProcess.OnRequestInit` | prod/native/libcommon/code/RequestScope.h:57-58 | A trigger step followed by a pull step |

## Left out

- A minimum span duration above zero, scopes attached by other code on top of the differ's own,
  spans that are not recorded by the SDK, and exceptions in the middle of a capture: they break
  the parent and scope structure that the invariant describes.
- Span names, attributes and times: they do not influence which spans exist or who their parent is.
- Liveness of the worker thread, condition variable wake-ups without cause, and the choice of when
  the shutdown timeout strikes: a run may contain any enabled step, and a timeout at any send.
- The wrap-around of the byte sum in the enqueue guard, of revision numbers at 64 bits and of the
  reuse of message ids after 64 bits: counters are unbounded, except for the message id itself.
- ChunkedMessages.LossyDeliveryIsSafe: it and the other delivery theorems assume that a process id
  and message id name one payload, because delivery is unsafe otherwise (`ChunkSenders.MixedDelivery`);
  `ChunkSenders.KeysAreDistinctIff` gives the exact condition on the forks and sends.
- CaseConversion.SnakeToCamelCase: leaving the loop at lines 150-152 is not modelled, because an
  assertion in the loop proves that its test never succeeds.
- Chunks shorter than their header, which the code would subtract below zero, are not modelled.
- Exhaustion of the shared memory region: storing files always succeeds.
- Option values and their parsing in `ConfigurationManager::update`: the snapshot is its revision
  and its remote files. Watchers of the storage, which set log levels, are represented by the
  result that says whether they run.
- Deletion from, and compaction of, the engine's tables within a request: tables grow at their end
  and may hold unused slots from the start.
- The file system: the canonical path of a file is a parameter, absent when it cannot be found out.
- OtlpGrouping.Convert: one method stands for the three converters, whose maps are looked up in
  different ways with the same effect; the conversion of the records themselves is left out.
- Serialization of objects: attributes are null, booleans, integers, floats, strings and arrays of
  these. A float is kept as its text, of which only the absence of a semicolon is assumed.
- Wildcard.Match: case folding is that of the ASCII letters; characters stand for bytes.
- HTTP, libcurl, OpAMP and protobuf encoding, INI registration, diagnostics, log formatting, URL
  parsing by regular expression, duration and size parsing: wrappers or tables.
