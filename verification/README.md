# jflac: ownership, streaming and transport, verified

jflac wraps libFLAC for the JVM and adds a Java Sound adapter. The codec itself is somebody else's code; what the
repository adds is the machinery around it. This project models that machinery in Dafny and proves it for every behaviour
libFLAC, the JVM callers and the scheduler may show. libFLAC and the outside world appear as scripts or answers with a
stated contract; clocks, input and output and thread scheduling appear as parameters and steps.

| module | what it models |
|---|---|
| `HandleRegistry`, `SessionRegistry`, `HandleProtocol` | the two native handle registries: their value semantics, the linked lists that implement them, and all interleavings of their locked sections |
| `HandleCleanup`, `DecodingSession`, `DecodingProtocol` | the JVM decoding session, its claim-and-restore token and the cleaner, over the native registry |
| `EncodingSession`, `EncodingProtocol` | the JVM encoding session with native finish and its fallback release |
| `PlainStream`, `CodecScript`, `PullDecoder` | reads of any size against a codec that hands over whole blocks |
| `Interleaving` | channel buffers, interleaved PCM and back |
| `RangeDecoder`, `ChainedDecoder` | seek, crop and count checks of reusable sessions; the per-link accounting of chained Ogg |
| `PcmCodec`, `PcmValues`, `PcmInputStream`, `PcmSampleReader`, `PcmWriter`, `PcmPipeline` | samples as bytes and back, bit for bit and as the numbers they stand for, under any portions, from the pull decoder up to the encoder's chunks |
| `VorbisComments`, `MetadataOrder`, `MetadataContent` | comment grouping, the type and index table, what blocks hold and which are accepted |
| `MetadataBuilders`, `MetadataWriter` | the native block builders with a failure at any of their steps, the block table and the rewritten chain |
| `PlaybackSession`, `PlaybackProtocol`, `PlaybackTime`, `SkipFrames` | the playback worker against its controls, its time arithmetic and its skip loop |

Code that changes state is a class or a method proved equal to a specification function; what the repository promises is
then proved of that function, of every run of the state machine built from it, or as an if-and-only-if where the promise
holds only under a condition. What an operation answers is also
stated in the terms of its caller, without the specification function: when a call is let in and what it leaves behind
(`BeginAnswer`, `WriteAnswer`, `InspectAnswer`), which number a byte stands for (`DecodedValue`), which time a frame
(`PositionIs`), and that the good runs go through to their end (`DecodeTwiceThenClose`, `WriteTwiceThenFinish`).

What the proofs showed about the code:

- `finishEncoder` drops the result of its unlink. That loses a session exactly when the handle was issued again to an idle
  one in the meantime, which needs a finish call that outlives a whole round of the handle counter (`FinishLosesIff`, and
  `FinishCanLoseAfterWrap` for a run that gets there). Nothing else ever loses a session (`NothingLost`).
- The cleaner action swallows a failing release, and that alone loses the token (`LosesIff`). For a decoder it means that
  the native record lives until unload, and every session can get there (`ClosedMeansDestroyed`, `LostForGood`,
  `LostIsReached`). Every other failing release can be retried (`TokenInOnePlace`, `FailedReleaseCanBeRetried`).
- The JVM frame-count check refuses a correct native decode exactly when the stream is longer than it declares and the
  range passes the declared end (`RangeCountExact`, `OverlongRangeRefused`).
- An abort that raised no exception would count as success in the unbounded branch. A stream of unknown length then
  passes however little was decoded; a known total lets only the exact count through (`AbortedAcceptedIff`).
- A playback seek that is accepted once the worker has left its loop is never served: a run that ends in ENDED played the
  last accepted seek exactly if the worker was still in its loop then (`SeekServedIff`, `EndedServedLatestIff`,
  `LateSeekIsNeverServed`; `SeekOvertakenByEnd` is one schedule).
- `start` does not look at a close request. A start that slips into a close leaves LOADING behind until the close ends,
  but opens nothing (`StartIntoClose`).
- The skip loop reports a stream of whole frames as broken exactly if it over-reads: less than a frame left, a refused
  skip, and a read longer than what is left (`SoundStreamBrokenIff`, `SkippingEnds`, `OverReadFails`).
- A position in microseconds finds its frame again up to a bounded loss exactly for frames up to that loss beyond the
  longest track that a long of microseconds stands for (`FramesRoundTrip`, `SeekToReported`, `LongestCountLosesMore`).
- The scaling helper is inexact only for factors beyond 31 bits, which no rate reaches (`ScaleExactly`).

## Model

| member | source | states |
|---|---|---|
| `HandleRegistry.ReservationUnique` | native/src/jflac_jni.c:2658-2678 | the handle a reservation finds is determined by the table and the counter alone |
| `HandleRegistry.FreshCounterReservesItself` | native/src/jflac_jni.c:2658-2678 | while every registered handle is below the counter, the first probe succeeds and the counter itself is issued |
| `HandleRegistry.ProbesBounded` | native/src/jflac_jni.c:2658-2678 | consecutive probes that all hit registered handles are no more than the table has entries, also across the wrap from the largest handle to 1 |
| `HandleRegistry.LiveResolves` | native/src/jflac_jni.c:2626-2652 | a session that is not released is found under its own handle and under no other |
| `HandleRegistry.RegisteredOk` | native/src/jflac_jni.c:2709-2729 | registering makes the new handle positive and resolvable, changes no other lookup, and keeps handles distinct |
| `HandleRegistry.AcquiredOk` | native/src/jflac_jni.c:2735-2766 | acquire succeeds exactly for a registered handle whose session is idle, and takes its only reference |
| `HandleRegistry.DroppedOk` | native/src/jflac_jni.c:2773-2801 | dropping the reference makes the session idle and asks for destruction exactly when it was released meanwhile |
| `HandleRegistry.RemovedOk` | native/src/jflac_jni.c:2808-2852 | removing makes the handle unresolvable and no other, marks the session released, and hands it over exactly when nobody holds it |
| `HandleRegistry.DestroyedOk` | native/src/jflac_jni.c:2684-2702 | freeing a released record leaves the table well formed and every lookup unchanged |
| `SessionRegistry.SessionTable.Reserve` | native/src/jflac_jni.c:2658-2678 | the probe loop ends after at most one more probe than there are entries, with a free positive handle and the counter behind it |
| `SessionRegistry.SessionTable.Register` | native/src/jflac_jni.c:2709-2729 | the linked list and its heap after registering are those of HandleRegistry.Registered |
| `SessionRegistry.SessionTable.Acquire` | native/src/jflac_jni.c:2735-2766 | the linked-list acquire is HandleRegistry.Acquired, failure cases included |
| `SessionRegistry.SessionTable.ReleaseReference` | native/src/jflac_jni.c:2773-2801 | the linked-list drop is HandleRegistry.Dropped |
| `SessionRegistry.SessionTable.Remove` | native/src/jflac_jni.c:2808-2852 | unlinking from the list is HandleRegistry.Removed, wherever the entry stands |
| `SessionRegistry.SessionTable.Destroy` | native/src/jflac_jni.c:2684-2702 | destroying a released record deletes its one codec, drops every reference to the caller, and then frees it: HandleRegistry.Destroyed |
| `SessionRegistry.SessionTable.DestroyAll` | native/src/jflac_jni.c:2856-2874 | library unload detaches the list and clears every record on it, one codec deleted for each; a record that had left the list before, lost or owed, stays as it was |
| `SessionRegistry.AllListed` | native/src/jflac_jni.c:2856-2874 | the list names exactly the records that are not released, each once and with its codec |
| `HandleProtocol.StepKeeps` | native/src/jflac_jni.c:2709-2852 | every locked section of either registry, and the destruction after the unlock, keeps the ownership invariant whichever thread takes it |
| `HandleProtocol.RunInv` | native/src/jflac_jni.c:2709-2852 | the invariant holds in every state of every interleaving |
| `HandleProtocol.DestroyedAtMostOnce` | native/src/jflac_jni.c:2684-2801 | in every interleaving no session is destroyed twice, none while another call holds it, and a destroyed one never comes back |
| `HandleProtocol.NeverFaults` | native/src/jflac_jni.c:2684-2852 | in every state of every interleaving no step has touched freed memory |
| `HandleProtocol.NothingLost` | native/src/jflac_jni.c:2684-2852 | a registry without finish calls, the decoder's, loses no session in any run, also past the wrap of the counter |
| `HandleProtocol.GoneForGood` | native/src/jflac_jni.c:2684-2702 | a destroyed session is in no later heap |
| `HandleProtocol.RemovedHasOneOwner` | native/src/jflac_jni.c:2773-2852 | a session that left the table and was not lost belongs to exactly one frame until it is freed: its holder, or the one that owes its destruction once the references are gone |
| `HandleProtocol.BusyFlag` | native/src/jflac_jni.c:2735-2801 | in_use is set exactly while the reference count is one, which is exactly while some call works on the session |
| `HandleProtocol.UnloadCompletes` | native/src/jflac_jni.c:2856-2874 | with no call in flight, unloading completes the destruction log to every session ever opened and not lost, each exactly once, in every run |
| `HandleProtocol.StaleHandleStaysDead` | native/src/jflac_jni.c:2658-2678 | before the counter wraps, an issued handle that no longer resolves never resolves again |
| `HandleProtocol.FinishLosesIff` | native/src/jflac_jni.c:8579-8615 | the discarded result of the unlink in finishEncoder loses a session exactly when the handle now names another idle one, never before the counter wraps |
| `HandleProtocol.FinishCanLoseAfterWrap` | native/src/jflac_jni.c:8579-8615 | that loss is reached: a run from an empty registry in which a finish call outlives a whole round of the handle counter |
| `HandleProtocol.AcquireThenDrop` | native/src/jflac_jni.c:2735-2801 | a call that finds its session idle is let in, and taking and giving back its reference leaves registry and frames exactly as they were |
| `HandleProtocol.RemoveThenDestroy` | native/src/jflac_jni.c:2684-2852 | removing an idle session and destroying it makes its handle dead, logs it once and leaves every other frame as it was |
| `HandleProtocol.AcquireThenUnlink` | native/src/jflac_jni.c:8579-8600 | a finish call that finds its session idle takes it and unlinks the handle; the record is released and still its own |
| `HandleProtocol.DropThenDestroy` | native/src/jflac_jni.c:2684-2801 | the last holder of a released session destroys it, once |
| `HandleCleanup.NativeHandleCleanup.ClaimHandle` | src/main/kotlin/org/zzvsjs/jflac/internal/NativeHandleCleanup.kt:32-32 | claiming empties the cell and returns what was in it |
| `HandleCleanup.NativeHandleCleanup.RestoreHandle` | src/main/kotlin/org/zzvsjs/jflac/internal/NativeHandleCleanup.kt:37-43 | restoring succeeds exactly into an empty cell and never overwrites a token |
| `DecodingSession.NativeFlacDecodingSession.BeginDecode` | src/main/kotlin/org/zzvsjs/jflac/FlacDecoder.kt:1072-1082 | a decode is let in exactly in an active session that still has its token, and gets that handle |
| `DecodingSession.NativeFlacDecodingSession.FinishDecode` | src/main/kotlin/org/zzvsjs/jflac/FlacDecoder.kt:1084-1102 | a good decode returns the session to active, or carries out the close that came meanwhile |
| `DecodingSession.NativeFlacDecodingSession.ReleaseAfterFailure` | src/main/kotlin/org/zzvsjs/jflac/FlacDecoder.kt:1104-1131 | a failed decode makes the session terminal and takes its token |
| `DecodingSession.NativeFlacDecodingSession.Close` | src/main/kotlin/org/zzvsjs/jflac/FlacDecoder.kt:1018-1042 | close takes the token at rest, leaves a request during a decode, and retries a failed release |
| `DecodingSession.NativeFlacDecodingSession.ReleaseFailed` | src/main/kotlin/org/zzvsjs/jflac/internal/NativeHandleCleanup.kt:76-120 | a release that threw puts the token back |
| `DecodingProtocol.StepKeeps` | src/main/kotlin/org/zzvsjs/jflac/FlacDecoder.kt:1018-1131 | every step of the JVM session, of the cleaner and of all other users of the registry keeps the joint invariant |
| `DecodingProtocol.RunInv` | src/main/kotlin/org/zzvsjs/jflac/FlacDecoder.kt:1018-1131 | the joint invariant holds in every state of every interleaving |
| `DecodingProtocol.TokenInOnePlace` | src/main/kotlin/org/zzvsjs/jflac/internal/NativeHandleCleanup.kt:24-61 | in every reachable state the handle token is in the cell, with one call, spent or lost, and in one of these only |
| `DecodingProtocol.NativeAlwaysAccepts` | src/main/kotlin/org/zzvsjs/jflac/FlacDecoder.kt:1044-1082 | whenever a decode reaches native code its handle resolves to its session and the session is idle, so the call is accepted |
| `DecodingProtocol.BeginAnswer` | src/main/kotlin/org/zzvsjs/jflac/FlacDecoder.kt:1072-1082 | a decode call is let in exactly when the session is active; then the phase is decoding and the token stays in the cell, otherwise nothing changes |
| `DecodingProtocol.CloseAnswer` | src/main/kotlin/org/zzvsjs/jflac/FlacDecoder.kt:1018-1042 | a close of an idle or failed session takes its token to a release, during a decode it only leaves a request, and without a token it changes nothing |
| `DecodingProtocol.GoodDecodeIsNeutral` | src/main/kotlin/org/zzvsjs/jflac/FlacDecoder.kt:1044-1102 | a good decode of an active session runs through to the end and leaves session, registry and frames exactly as they were |
| `DecodingProtocol.ReleaseDestroys` | src/main/kotlin/org/zzvsjs/jflac/internal/NativeHandleCleanup.kt:76-91 | a call with the token in hand destroys the native session once, makes its handle dead and spends the cleaner |
| `DecodingProtocol.DecodeTwiceThenClose` | src/main/kotlin/org/zzvsjs/jflac/FlacDecoder.kt:1018-1102 | from every newly opened session the run decode, decode, close goes through, ends closed and has destroyed the native session once |
| `DecodingProtocol.LeadsIsRun` | src/main/kotlin/org/zzvsjs/jflac/FlacDecoder.kt:1018-1131 | such a path from an opened session is one of the runs that the invariant speaks of |
| `DecodingProtocol.CleanerAnswer` | src/main/kotlin/org/zzvsjs/jflac/internal/NativeHandleCleanup.kt:45-61 | the cleaner takes whatever token is in the cell |
| `DecodingProtocol.ForgottenIsDestroyed` | src/main/kotlin/org/zzvsjs/jflac/internal/NativeHandleCleanup.kt:45-61 | a session dropped without a close is destroyed by the cleaner, once |
| `DecodingProtocol.CloseDuringDecode` | src/main/kotlin/org/zzvsjs/jflac/FlacDecoder.kt:1018-1102 | a close that came during a decode is carried out by the decoding thread, however the decode ends |
| `DecodingProtocol.DecodeOutcome` | src/main/kotlin/org/zzvsjs/jflac/FlacDecoder.kt:1084-1131 | a decode keeps the session exactly when it succeeded and no close waits; otherwise the token goes to a release |
| `DecodingProtocol.FailedReleaseCanBeRetried` | src/main/kotlin/org/zzvsjs/jflac/internal/NativeHandleCleanup.kt:76-91 | after a release that threw, the token is back and the next close releases it |
| `DecodingProtocol.ClosedMeansDestroyed` | src/main/kotlin/org/zzvsjs/jflac/FlacDecoder.kt:1018-1131 | when no call runs and the cell is empty, the native session has been destroyed, once, exactly if the token was not lost; if it was lost, the handle still resolves to the session |
| `DecodingProtocol.LosesIff` | src/main/kotlin/org/zzvsjs/jflac/internal/NativeHandleCleanup.kt:46-61 | the token is lost exactly when the release fails that the cleaner makes |
| `DecodingProtocol.LostForGood` | src/main/kotlin/org/zzvsjs/jflac/internal/NativeHandleCleanup.kt:46-61 | once the token is lost, in every later state of every run the record is registered, undestroyed, and among those that library unload destroys |
| `DecodingProtocol.LostIsReached` | src/main/kotlin/org/zzvsjs/jflac/internal/NativeHandleCleanup.kt:46-61 | from every newly opened session three steps lose the token: the owner goes away, the cleaner runs, its release throws |
| `DecodingProtocol.NeverDeferred` | src/main/kotlin/org/zzvsjs/jflac/FlacDecoder.kt:1018-1131 | the registry's deferred destruction is never needed by a JVM session, and a restore always finds the cell empty |
| `EncodingSession.NativeFlacEncodingSession.BeginWrite` | src/main/kotlin/org/zzvsjs/jflac/FlacEncoder.kt:322-344 | a write is let in exactly in an active session with its token |
| `EncodingSession.NativeFlacEncodingSession.FailWrite` | src/main/kotlin/org/zzvsjs/jflac/FlacEncoder.kt:419-433 | a failed write makes the session terminal and takes its token |
| `EncodingSession.NativeFlacEncodingSession.BeginFinish` | src/main/kotlin/org/zzvsjs/jflac/FlacEncoder.kt:346-380 | finish finalises an active session, retries only the release of a failed one, refuses inside a write and ignores the rest |
| `EncodingSession.NativeFlacEncodingSession.ReleaseFailed` | src/main/kotlin/org/zzvsjs/jflac/internal/NativeHandleCleanup.kt:99-120 | a release that threw puts the token back |
| `EncodingProtocol.StepKeeps` | src/main/kotlin/org/zzvsjs/jflac/FlacEncoder.kt:305-433 | every step of write, finish, fallback, cleaner and foreign native calls keeps the joint invariant |
| `EncodingProtocol.RunInv` | src/main/kotlin/org/zzvsjs/jflac/FlacEncoder.kt:305-433 | the joint invariant holds in every state of every interleaving |
| `EncodingProtocol.DestroyedExactlyOnce` | src/main/kotlin/org/zzvsjs/jflac/FlacEncoder.kt:346-410 | a session at rest without its token has had its native context destroyed exactly once, with no freed memory touched, before the counter wraps |
| `EncodingProtocol.FallbackAfterFinishIsHarmless` | src/main/kotlin/org/zzvsjs/jflac/FlacEncoder.kt:382-402 | when finish consumed the handle and then threw, the fallback release changes neither registry nor frames |
| `EncodingProtocol.FinisherDestroys` | native/src/jflac_jni.c:8579-8615 | the finish call that unlinked its handle destroys the context itself, whether finishing worked or not |
| `EncodingProtocol.FailureReleases` | src/main/kotlin/org/zzvsjs/jflac/FlacEncoder.kt:384-433 | a failed write or finish always goes on to a release with no token left in the cell |
| `EncodingProtocol.FinishChoices` | src/main/kotlin/org/zzvsjs/jflac/FlacEncoder.kt:346-380 | the lost-ownership check never fails, and a failed session retries only its release |
| `EncodingProtocol.CallbacksChangeNothing` | src/main/kotlin/org/zzvsjs/jflac/FlacEncoder.kt:322-380 | in every interleaving, while the session's own native frame works on its record, which is when its callbacks run, calls made into the session are refused (inside a write) or ignored (inside a finish) and change nothing |
| `EncodingProtocol.WriteAnswer` | src/main/kotlin/org/zzvsjs/jflac/FlacEncoder.kt:322-332 | a write is let in exactly when the session is active; then the phase is writing and the token stays in the cell, otherwise nothing changes |
| `EncodingProtocol.WriteEndAnswer` | src/main/kotlin/org/zzvsjs/jflac/FlacEncoder.kt:333-340 | a good write leaves the session active with its token; a failed one leaves a failed session and goes on to the release |
| `EncodingProtocol.FinishAnswer` | src/main/kotlin/org/zzvsjs/jflac/FlacEncoder.kt:346-380 | finish takes the token of an active session to finalise it, that of a failed one to release it, and changes nothing otherwise |
| `EncodingProtocol.FinishEndAnswer` | src/main/kotlin/org/zzvsjs/jflac/FlacEncoder.kt:382-406 | a good finish is final; a failed one leaves a failed session and goes on to the fallback release |
| `EncodingProtocol.ResultIsKept` | native/src/jflac_jni.c:8579-8615 | how the native call ended is what the session's call goes on with |
| `EncodingProtocol.NotLetIn` | native/src/jflac_jni.c:2735-2766 | a native write or finish that finds no idle session under the handle is a failed one |
| `EncodingProtocol.FailedReleaseCanBeRetried` | src/main/kotlin/org/zzvsjs/jflac/internal/NativeHandleCleanup.kt:76-120 | after a release that threw, the failed session has its token back and the next finish call retries the release |
| `EncodingProtocol.GoodWriteIsNeutral` | src/main/kotlin/org/zzvsjs/jflac/FlacEncoder.kt:322-344 | a good write of an active session runs through to the end and leaves session, registry and frames exactly as they were |
| `EncodingProtocol.FailedWriteDestroys` | src/main/kotlin/org/zzvsjs/jflac/FlacEncoder.kt:419-433 | a failed write of a session that nobody else is inside releases and destroys its context once, spends the cleaner and leaves a failed session |
| `EncodingProtocol.GoodFinishCompletes` | src/main/kotlin/org/zzvsjs/jflac/FlacEncoder.kt:346-406 | a good finish of an active session runs through, destroys the native context once, makes its handle dead and leaves a finished session |
| `EncodingProtocol.WriteTwiceThenFinish` | src/main/kotlin/org/zzvsjs/jflac/FlacEncoder.kt:322-406 | from every opened session that nobody else is inside, the run write, write, finish goes through, ends finished and has destroyed the context once |
| `EncodingProtocol.LeadsIsRun` | src/main/kotlin/org/zzvsjs/jflac/FlacEncoder.kt:305-433 | such a path from an opened session is one of the runs that the invariant speaks of |
| `EncodingProtocol.CleanerAnswer` | src/main/kotlin/org/zzvsjs/jflac/internal/NativeHandleCleanup.kt:45-61 | the cleaner takes whatever token is in the cell |
| `EncodingProtocol.ForgottenIsDestroyed` | src/main/kotlin/org/zzvsjs/jflac/internal/NativeHandleCleanup.kt:45-61 | a session dropped without a finish is destroyed by the cleaner, once |
| `EncodingProtocol.LosesIff` | src/main/kotlin/org/zzvsjs/jflac/internal/NativeHandleCleanup.kt:46-61 | the encoder's token is lost exactly when the release fails that the cleaner makes |
| `Interleaving.SplitInterleave` | src/main/kotlin/org/zzvsjs/jflac/FlacDecodingModels.kt:75-85 | splitting an interleaved block gives the channel buffers back, cut to the frames that were kept |
| `Interleaving.InterleaveSplit` | src/main/kotlin/org/zzvsjs/jflac/FlacDecodingModels.kt:75-85 | interleaving what was split gives the samples back |
| `Interleaving.InterleaveBlock` | native/src/jflac_jni.c:3709-3715 | the copy loops put sample f of channel c at f * channels + c and nowhere else |
| `Interleaving.SplitByChannel` | src/main/kotlin/org/zzvsjs/jflac/FlacDecodingModels.kt:75-85 | the split loops fill one array per channel with exactly that channel |
| `Interleaving.FlatCut` | native/src/jflac_jni.c:3633-3660 | cutting at a sample offset that is a whole number of frames cuts between frames |
| `PlainStream.ReadsDeliverPrefix` | native/src/jflac_jni.c:5323-5454 | any run of reads inside the good part of the stream delivers exactly its prefix and leaves the rest |
| `PlainStream.NextRead` | native/src/jflac_jni.c:5323-5454 | the next read throws, answers -1, or answers min(request, left) exactly when it should |
| `PlainStream.EndAnswer` | native/src/jflac_jni.c:3045-3066 | a read past the end answers the stream's own failure, a count mismatch exactly when a declared total is missed, the rest, or -1 |
| `PlainStream.EndIsStable` | native/src/jflac_jni.c:5443-5454 | after -1 every read answers -1 and delivers nothing |
| `PlainStream.ShortStreamThrows` | native/src/jflac_jni.c:3045-3066 | a stream that ends short of its declared total is reported to the read that meets its end |
| `PullDecoder.PullDecoder.DrainPending` | native/src/jflac_jni.c:3613-3668 | draining moves min(pending, still wanted) frames to the next free place of the array and keeps the rest pending; with a large enough array its bounds check never fires |
| `PullDecoder.PullDecoder.WriteCallback` | native/src/jflac_jni.c:3677-3724 | a block becomes pending and its wanted prefix is delivered; it is refused exactly when it is too large or something is still pending |
| `PullDecoder.PullDecoder.ProcessSingle` | native/src/jflac_jni.c:5391-5444 | one codec step moves frames from the front of the flow to the array, in order, or reports the flow's own end |
| `PullDecoder.PullDecoder.ReadInterleaved` | native/src/jflac_jni.c:5323-5454 | one read answers, fills the array and leaves the decoder exactly as the plain frame sequence says, whatever the block boundaries; its arguments are refused exactly for a negative count, no channels, or an array too small for the frames |
| `CodecScript.StopCause` | native/src/jflac_jni.c:5391-5444 | a script ends by itself exactly if it has no fault and no oversized block; otherwise it stops for a reason of the codec, its source or a block's size, the last never for legal blocks |
| `RangeDecoder.TilesJoin` | src/main/kotlin/org/zzvsjs/jflac/FlacModels.kt:512-536 | chunks that tile some frames hold exactly their samples, without gap or overlap, each starting where the last ended |
| `RangeDecoder.SummaryTrackingConsumer.OnPcmInterleaved` | src/main/kotlin/org/zzvsjs/jflac/FlacDecoder.kt:1248-1263 | a chunk is positioned at the frames delivered so far, and refused exactly for its shape, its index range, its time or its handler |
| `RangeDecoder.SummaryTrackingConsumer.OnComplete` | src/main/kotlin/org/zzvsjs/jflac/FlacDecoder.kt:1265-1284 | completion is refused exactly when the count misses what limit and declared total demand |
| `RangeDecoder.DecodeContext.WriteCallback` | native/src/jflac_jni.c:3730-3850 | a block is cropped to what the range still wants, the subtraction never goes below zero, and the range is complete exactly at its limit |
| `RangeDecoder.DecodeContext.ProcessRange` | native/src/jflac_jni.c:3128-3166 | the bounded loop succeeds exactly when the range is filled or the stream ends with its declared count, with exactly that prefix delivered |
| `RangeDecoder.DecodeContext.ProcessUntilEndOfStream` | native/src/jflac_jni.c:3118-3126 | the unbounded branch succeeds exactly at a well-counted end, or at an abort without an exception |
| `RangeDecoder.DecodeContext.DecodeRange` | native/src/jflac_jni.c:5179-5311 | the range is refused exactly when it is negative or leaves the long range; later starts fail, empty ranges complete at once; over a sound stream every range completes with exactly frames [first, min(first + max, length)) in contiguous chunks, and whatever completes has emitted exactly those; otherwise a front part of them went out |
| `RangeDecoder.DecodeContext.DecodeFrom` | native/src/jflac_jni.c:5054-5173 | over a sound stream an unbounded decode completes with exactly the frames from first on, in contiguous chunks; after an abort without exception a front part of them; so is what a rejected one emitted |
| `RangeDecoder.SliceOf` | native/src/jflac_jni.c:5268-5303 | the frames reachable after the seek, cropped, are the requested slice of the whole stream |
| `CodecScript.NeverTooLarge` | native/src/jflac_jni.c:3784-3793 | no legal block is ever too large for one JVM array |
| `RangeDecoder.RangeCountExact` | src/main/kotlin/org/zzvsjs/jflac/FlacModels.kt:551-577 | for a bounded range over a stream that ends by itself, the native side succeeds exactly with the whole range or all that is declared, and the JVM check then fails exactly when the stream is overlong and the range passes the declared end |
| `RangeDecoder.UnboundedCountExact` | src/main/kotlin/org/zzvsjs/jflac/FlacModels.kt:551-577 | an unbounded decode passes all checks exactly when the total is unknown or met exactly |
| `RangeDecoder.FlawlessCounts` | src/main/kotlin/org/zzvsjs/jflac/FlacModels.kt:551-577 | a stream as long as it declares passes the native and the JVM checks of every range that starts inside it |
| `RangeDecoder.AbortedAcceptedIff` | native/src/jflac_jni.c:3118-3126 | an abort without an exception counts as native success, and passes the JVM's count check exactly when the total is unknown or met to the frame |
| `RangeDecoder.OverlongRangeRefused` | src/main/kotlin/org/zzvsjs/jflac/FlacModels.kt:551-577 | twelve frames declared as ten: a native success that the JVM check refuses |
| `ChainedDecoder.ChainedDecoder.OnStreamInfo` | native/src/jflac_jni.c:3866-3888 | a link's STREAMINFO opens its count at the frames emitted so far, and is refused exactly when it differs from the first link's format |
| `ChainedDecoder.ChainedDecoder.ValidateLinkSampleCount` | native/src/jflac_jni.c:3019-3038 | a link passes exactly when its total is unknown or met; the subtraction never goes below zero |
| `ChainedDecoder.ChainedDecoder.ProcessLink` | native/src/jflac_jni.c:3073-3116 | one link is passed exactly when it has the common format, no fault, its declared count and, unless last, a clean finish, and the handler takes its chunks; on failure a front part of the frames so far has gone out |
| `ChainedDecoder.ChainedDecoder.ProcessChain` | native/src/jflac_jni.c:3073-3116 | a chain is decoded exactly when every link passes and the handler takes the chunks, which then are all its frames, link after link; otherwise they are a front part |
| `ChainedDecoder.ChainPassesIff` | native/src/jflac_jni.c:3019-3116 | the links of a chain all pass exactly if they share one format, none faults, each has its declared frames or declares none, and all but the last finish |
| `ChainedDecoder.PassedFrames` | native/src/jflac_jni.c:3019-3041 | when every link declares its length, the emitted total is the sum of the declared lengths |
| `PcmCodec.ExtendedExactly` | jflac-java-sound/src/main/java/org/zzvsjs/jflac/sound/PcmSampleReader.java:164-170 | sign extension is the identity exactly on the samples of that depth |
| `PcmCodec.GatheredEncoded` | jflac-java-sound/src/main/java/org/zzvsjs/jflac/sound/FlacPcmInputStream.java:128-133 | the little-endian bytes of a sample, put together again, are its low octets |
| `PcmCodec.SampleRoundTrip` | jflac-java-sound/src/main/java/org/zzvsjs/jflac/sound/PcmSampleReader.java:139-171 | encode then decode gives the sample back exactly when it fits its octets |
| `PcmCodec.DecodedInRange` | jflac-java-sound/src/main/java/org/zzvsjs/jflac/sound/PcmSampleReader.java:139-171 | whatever the bytes and the layout, the decoded sample passes the encoder's range check |
| `PcmCodec.ByteOrder` | jflac-java-sound/src/main/java/org/zzvsjs/jflac/sound/PcmSampleReader.java:153-162 | big-endian bytes decode like the reversed little-endian ones |
| `PcmCodec.RoundTrip` | jflac-java-sound/src/main/java/org/zzvsjs/jflac/sound/PcmSampleReader.java:128-171 | the byte form of any samples in range decodes to the same samples |
| `PcmCodec.DecodedAllInRange` | jflac-java-sound/src/main/java/org/zzvsjs/jflac/sound/PcmSampleReader.java:128-171 | every sample of any decoded byte run is in range |
| `PcmValues.DecodedValue` | jflac-java-sound/src/main/java/org/zzvsjs/jflac/sound/PcmSampleReader.java:139-171 | a decoded sample is the number its bytes stand for: the two's complement of their little-endian or big-endian value, or the distance of an unsigned byte from 128 |
| `PcmValues.EncodedValue` | jflac-java-sound/src/main/java/org/zzvsjs/jflac/sound/FlacPcmInputStream.java:128-133 | the bytes of a sample are the base-256 digits of its number modulo the power of 256 |
| `PcmValues.InRangeValue` | src/main/kotlin/org/zzvsjs/jflac/FlacEncoder.kt:729-744 | the validator's range is exactly the signed numbers that so many octets hold |
| `PcmValues.CutValue` | jflac-java-sound/src/main/java/org/zzvsjs/jflac/sound/PcmSampleReader.java:164-170 | cut to its low octets and sign-extended, a sample is its number wrapped into that many octets |
| `PcmValues.DecodedAt` | jflac-java-sound/src/main/java/org/zzvsjs/jflac/sound/PcmSampleReader.java:128-137 | sample number i comes from group number i of the bytes |
| `PcmValues.UnsignedSample` | jflac-java-sound/src/main/java/org/zzvsjs/jflac/sound/PcmSampleReader.java:139-147 | an unsigned byte is its distance from 128, which is the signed byte with its top bit flipped, in either byte order |
| `PcmValues.UnsignedStream` | jflac-java-sound/src/main/java/org/zzvsjs/jflac/sound/PcmSampleReader.java:128-147 | an unsigned stream decodes like the signed stream with all top bits flipped, byte for byte around 128 |
| `PcmInputStream.FlacPcmInputStream.FillByteBuffer` | jflac-java-sound/src/main/java/org/zzvsjs/jflac/sound/FlacPcmInputStream.java:84-121 | a refill loses and invents no byte: what is left to deliver stays the same, and the end or failure is reported only with nothing left |
| `PcmInputStream.FlacPcmInputStream.EncodeSamples` | jflac-java-sound/src/main/java/org/zzvsjs/jflac/sound/FlacPcmInputStream.java:114-118 | the conversion loop writes the encoding of all samples, inside the buffer |
| `PcmInputStream.WriteLittleEndianSample` | jflac-java-sound/src/main/java/org/zzvsjs/jflac/sound/FlacPcmInputStream.java:128-133 | the low octets go out first, behind what was there |
| `PcmInputStream.FlacPcmInputStream.Read` | jflac-java-sound/src/main/java/org/zzvsjs/jflac/sound/FlacPcmInputStream.java:61-82 | read answers and fills the buffer exactly as the plain sequence of encoded bytes says, for any length and any frame counts of the session |
| `PcmSampleReader.PcmSampleReader.ReadBytesForFrames` | jflac-java-sound/src/main/java/org/zzvsjs/jflac/sound/PcmSampleReader.java:105-126 | short reads add up to the same answer as one read of the plain byte sequence |
| `PcmSampleReader.PcmSampleReader.DecodeSample` | jflac-java-sound/src/main/java/org/zzvsjs/jflac/sound/PcmSampleReader.java:139-171 | the shift loops compute the sample of the bytes at that place, in either byte order; an unsigned byte gives its distance from 128 |
| `PcmSampleReader.PcmSampleReader.DecodeFrames` | jflac-java-sound/src/main/java/org/zzvsjs/jflac/sound/PcmSampleReader.java:128-137 | the frame loops decode the whole prefix into the output and touch nothing behind it |
| `PcmSampleReader.PcmSampleReader.ReadFrames` | jflac-java-sound/src/main/java/org/zzvsjs/jflac/sound/PcmSampleReader.java:44-80 | whole frames come out as their samples: as many as asked for, at most 1024, or all that are left; -1 exactly at the clean end, and a partial frame at the end is an error |
| `PcmWriter.ValidateInterleavedPcmChunk` | src/main/kotlin/org/zzvsjs/jflac/FlacEncoder.kt:719-745 | a chunk is accepted exactly when its shape fits and every sample is a number that its octets hold |
| `PcmWriter.ChunkAcceptable` | src/main/kotlin/org/zzvsjs/jflac/FlacEncoder.kt:719-745 | every chunk the reader produces is accepted |
| `PcmWriter.WritePcm` | jflac-java-sound/src/main/java/org/zzvsjs/jflac/sound/FlacAudioFileWriter.java:310-324 | the session gets the input's frames in order, in chunks of exactly frames * channels samples; normal return exactly for a clean whole-frame input the session accepts, and a prefix otherwise |
| `PcmWriter.FramesArriveInOrder` | jflac-java-sound/src/main/java/org/zzvsjs/jflac/sound/PcmSampleReader.java:128-171 | the bytes of the first frames of encoded samples decode to the first samples |
| `PcmWriter.WriteEncoded` | jflac-java-sound/src/main/java/org/zzvsjs/jflac/sound/FlacAudioFileWriter.java:310-324 | samples that fit, as bytes through reader and writer, reach the session in order in chunks it accepts, and all of them unless the input or the session fails by itself |
| `PcmPipeline.DecoderKeepsContract` | native/src/jflac_jni.c:5323-5454 | the pull decoder answers the byte stream with between one and 1024 whole frames, as the stream relies on |
| `PcmPipeline.SessionCarriesFlow` | jflac-java-sound/src/main/java/org/zzvsjs/jflac/sound/FlacPcmInputStream.java:84-121 | the byte stream gets every frame of a healthy decoder and then its end; of a failing or short one the full chunks and then a failure |
| `PcmPipeline.Pour` | jflac-java-sound/src/main/java/org/zzvsjs/jflac/sound/FlacPcmInputStream.java:61-82 | the answers of the byte stream to any portions are exactly what the reader's input is assumed to be: non-empty pieces with the stream's content, ended as the stream ends |
| `PcmPipeline.DecoderToEncoder` | jflac-java-sound/src/main/java/org/zzvsjs/jflac/sound/FlacAudioFileWriter.java:310-324 | over a healthy decoder whose samples fit, every frame arrives at the encoder sample for sample, no chunk is rejected and the write ends normally; over any other it does not end normally, and what went out is a prefix |
| `VorbisComments.EntrySplits` | src/main/kotlin/org/zzvsjs/jflac/internal/NativeMetadataMapping.kt:18-28 | a printed entry splits at its own separator, also when the value contains one |
| `VorbisComments.EntryRead` | src/main/kotlin/org/zzvsjs/jflac/internal/NativeMetadataMapping.kt:18-28 | one more entry is split at its first separator, and dropped exactly without one or with an empty key |
| `VorbisComments.ParseEntries` | src/main/kotlin/org/zzvsjs/jflac/internal/NativeMetadataMapping.kt:18-28 | the grouping loop computes the grouped form of the entries |
| `VorbisComments.ParsedShape` | src/main/kotlin/org/zzvsjs/jflac/internal/NativeMetadataMapping.kt:18-28 | a parse yields distinct non-empty keys without separator, each with at least one value |
| `VorbisComments.PrintThenParse` | src/main/kotlin/org/zzvsjs/jflac/internal/NativeAccess.kt:282-285 | reading back a written map gives the map exactly when its keys are non-empty and separator-free and no value list is empty |
| `VorbisComments.RoundTripIsStable` | src/main/kotlin/org/zzvsjs/jflac/internal/NativeMetadataMapping.kt:18-28 | a second read-and-write changes nothing |
| `VorbisComments.GroupingIsStable` | src/main/kotlin/org/zzvsjs/jflac/internal/NativeMetadataMapping.kt:18-28 | under every key stand exactly that key's values, in entry order |
| `VorbisComments.NothingLost` | src/main/kotlin/org/zzvsjs/jflac/internal/NativeAccess.kt:282-285 | reading and writing neither loses nor doubles nor changes a well-formed entry |
| `VorbisComments.ReadIsWritable` | src/main/kotlin/org/zzvsjs/jflac/FlacEncoder.kt:549-567 | comments that were read pass the writer's own check exactly when no entry has a blank key or a NUL |
| `MetadataOrder.CountBlocks` | native/src/jflac_jni.c:1676-1726 | the counting pass counts every type exactly and remembers the single blocks |
| `MetadataOrder.FillSlot` | native/src/jflac_jni.c:1846-1885 | a copying pass fills an array of the counted size with exactly that type's blocks in file order |
| `MetadataOrder.BuildOrderTable` | native/src/jflac_jni.c:2131-2196 | the order table holds each block's type and its index among its own type |
| `MetadataOrder.ReadMetadata` | native/src/jflac_jni.c:1612-1742 | a payload is produced exactly for a chain with STREAMINFO and at most one comment block, and holds the arrays and the table |
| `MetadataOrder.OrderIsKept` | src/main/kotlin/org/zzvsjs/jflac/internal/NativeMetadataMapping.kt:37-47 | the list rebuilt from arrays and table is the chain without STREAMINFO, block for block, nothing dropped |
| `MetadataOrder.RowResolves` | src/main/kotlin/org/zzvsjs/jflac/internal/NativeMetadataMapping.kt:37-47 | every row of the table finds its own block again |
| `MetadataContent.CString` | native/src/jflac_jni.c:786-866 | native code sees a text up to its first NUL, and all of it exactly without one |
| `MetadataContent.LengthOfFields` | src/main/kotlin/org/zzvsjs/jflac/FlacEncoder.kt:569-618 | the length of a block is the sum of the widths of its fields in section 8 of RFC 9639, and it fits exactly below 2^24 octets |
| `MetadataContent.CueSheetFitsItsFields` | src/main/kotlin/org/zzvsjs/jflac/FlacEncoder.kt:634-674 | an accepted cue sheet fits the fields of the format and the 24-bit block length, although that length is not checked |
| `MetadataContent.PointsFitTheirFields` | src/main/kotlin/org/zzvsjs/jflac/FlacEncoder.kt:620-664 | seek points and cue indices are accepted exactly when their counts fit 16 and 8 bits |
| `MetadataContent.TooLongRefused` | native/src/jflac_jni.c:6766-6775 | a fixed-width field takes no text that is too long for it |
| `MetadataContent.OwnVendorStays` | native/src/jflac_jni.c:5822-5954 | without a vendor a comment block keeps the codec's, and every entry without a separator gets one |
| `MetadataContent.AcceptedUnchanged` | src/main/kotlin/org/zzvsjs/jflac/FlacEncoder.kt:587-674 | a model that passed the API's check reaches the native block unchanged, fixed-width fields included |
| `MetadataContent.PrintedUnchanged` | native/src/jflac_jni.c:5904-5931 | printed comments that were accepted pass the native side as they are: no separator is added and no text is cut |
| `MetadataContent.RegroupedLength` | src/main/kotlin/org/zzvsjs/jflac/FlacEncoder.kt:569-585 | grouped and printed again, comments take exactly the room of the well-formed entries |
| `MetadataContent.RegroupedFits` | src/main/kotlin/org/zzvsjs/jflac/FlacEncoder.kt:569-585 | comments that fitted a block fit it again after reading and writing |
| `MetadataBuilders.Env.ToUtf8` | native/src/jflac_jni.c:786-866 | a conversion that fails at any step keeps no buffer and no local frame; otherwise the caller gets one buffer with the text |
| `MetadataBuilders.AppendEntry` | native/src/jflac_jni.c:5867-5954 | an entry is appended with a separator, or, wherever its steps fail, the block is deleted; its buffers and its frame are given back either way |
| `MetadataBuilders.BuildVorbisCommentBlock` | native/src/jflac_jni.c:5822-5958 | succeeds exactly when no call it makes fails; then one new block holds vendor and entries, otherwise none is left alive; no buffer or frame stays behind |
| `MetadataBuilders.BuildPictureBlock` | native/src/jflac_jni.c:5966-6165 | the same for pictures, with three temporary buffers and three setters |
| `MetadataBuilders.BuildApplicationBlock` | native/src/jflac_jni.c:6173-6282 | the same for application blocks, refused exactly for an ID that is not four bytes |
| `MetadataBuilders.BuildPaddingBlock` | native/src/jflac_jni.c:6289-6333 | the same for padding, refused exactly for a length outside the 24-bit field |
| `MetadataBuilders.BuildUnknownBlock` | native/src/jflac_jni.c:6341-6433 | the same for unknown blocks, cloned from borrowed bytes, refused exactly for a defined type or an overlong payload |
| `MetadataBuilders.BuildSeekTableBlock` | native/src/jflac_jni.c:6440-6596 | the same for seek tables: a failure at any point of the loop deletes the half-filled table |
| `MetadataBuilders.FillCueSheetTrack` | native/src/jflac_jni.c:6604-6819 | one track with all its indices is filled in place, or failure is reported with the text freed and the block left to the caller |
| `MetadataBuilders.BuildCueSheetBlock` | native/src/jflac_jni.c:6826-7006 | the same for cue sheets: a failure in any track or index deletes the block, an overlong catalog number or ISRC is refused |
| `MetadataBuilders.BuildRequested` | native/src/jflac_jni.c:7227-7294 | type code and model select the builder; it succeeds exactly when they belong together, the builder's checks pass and no call fails |
| `MetadataWriter.ShownIsBuilt` | src/main/kotlin/org/zzvsjs/jflac/internal/NativeAccess.kt:286-307 | every block that was read and passes the API's check is built again from its native type and value |
| `MetadataWriter.TypeCodes` | src/main/kotlin/org/zzvsjs/jflac/internal/NativeAccess.kt:286-307 | each kind of content stands under exactly its own type code, reading and writing |
| `MetadataWriter.RegroupedLooksSame` | src/main/kotlin/org/zzvsjs/jflac/internal/NativeMetadataMapping.kt:18-35 | after a round trip the public view of a block is unchanged |
| `MetadataWriter.ReadThenWrite` | src/main/kotlin/org/zzvsjs/jflac/internal/NativeAccess.kt:265-280 | writing a list back that was read and passes the check gives STREAMINFO and the same blocks in the same order, comments grouped, and the same public view; every one can be built |
| `MetadataWriter.LeadingInfo` | native/src/jflac_jni.c:2143-2151 | with one leading STREAMINFO the ordered list is the rest of the chain |
| `MetadataWriter.ReadPassesCheck` | src/main/kotlin/org/zzvsjs/jflac/FlacEncoder.kt:524-674 | a list that was read passes the ordered-list check exactly with at most one seek table and blocks that pass by themselves: for comments no NUL in vendor or entries, no blank key, and well-formed entries that fit the 24-bit length |
| `MetadataWriter.ReadLengthFits` | src/main/kotlin/org/zzvsjs/jflac/FlacEncoder.kt:569-585 | for a comment block out of a file the length is no obstacle |
| `MetadataWriter.BlockTable.DestroyMetadataBlocks` | native/src/jflac_jni.c:5543-5561 | the destructor frees exactly what the table still owns, and a second call frees nothing |
| `MetadataWriter.BlockTable.BuildInto` | native/src/jflac_jni.c:7018-7054 | one element is built into its slot exactly when it can be built, fits the length field and no call fails; otherwise its block is freed or left in the slot for the destructor, and nothing else changed |
| `MetadataWriter.BlockTable.BuildMetadataBlocks` | native/src/jflac_jni.c:7301-7372 | the table is complete exactly when every block can be built and no call fails; otherwise, wherever the failure was, every block built on the way is freed |
| `MetadataWriter.MetadataChain.DeleteBlock` | native/src/jflac_jni.c:7467-7476 | deleting frees the current block and falls back to its predecessor |
| `MetadataWriter.MetadataChain.InsertBlockAfter` | native/src/jflac_jni.c:7584-7598 | inserting moves ownership to the chain and the iterator to the inserted block |
| `MetadataWriter.DeleteAllButFirst` | native/src/jflac_jni.c:7467-7476 | the delete loop leaves exactly the first block, unless a deletion fails |
| `MetadataWriter.InsertAll` | native/src/jflac_jni.c:7575-7599 | the insert loop appends the table's blocks in table order, and on failure every block is still owned once |
| `MetadataWriter.WriteMetadata` | native/src/jflac_jni.c:7387-7618 | the chain handed to the final write holds STREAMINFO and the requested blocks in order exactly when the file starts with STREAMINFO, every value can be built and no call fails; wherever a failure happens, every native block, every temporary buffer and the iterator are freed exactly once |
| `PlaybackSession.JavaSoundPlaybackSession.Start` | examples/src/main/java/org/zzvsjs/jflac/examples/playback/JavaSoundPlaybackSession.java:112-130 | start works once, on a new session, and stores the first request; it does not look at a close request |
| `PlaybackSession.JavaSoundPlaybackSession.SeekTo` | examples/src/main/java/org/zzvsjs/jflac/examples/playback/JavaSoundPlaybackSession.java:167-179 | a seek stores its frame, advances the revision and shows LOADING, exactly on a controllable session |
| `PlaybackSession.JavaSoundPlaybackSession.SetPause` | examples/src/main/java/org/zzvsjs/jflac/examples/playback/JavaSoundPlaybackSession.java:133-157 | pausing and resuming only change the request, exactly on a controllable session |
| `PlaybackSession.JavaSoundPlaybackSession.BeginClose` | examples/src/main/java/org/zzvsjs/jflac/examples/playback/JavaSoundPlaybackSession.java:595-606 | close asks for shutdown unless the session is closed already |
| `PlaybackSession.JavaSoundPlaybackSession.TakeRequested` | examples/src/main/java/org/zzvsjs/jflac/examples/playback/JavaSoundPlaybackSession.java:433-448 | the worker takes the newest request and clears it in one step |
| `PlaybackSession.JavaSoundPlaybackSession.Inspect` | examples/src/main/java/org/zzvsjs/jflac/examples/playback/JavaSoundPlaybackSession.java:249-260 | the loop head decides between stop, seek, rest and play, and shows PAUSED or PLAYING for the last two only |
| `PlaybackSession.JavaSoundPlaybackSession.EndOfStream` | examples/src/main/java/org/zzvsjs/jflac/examples/playback/JavaSoundPlaybackSession.java:299-315 | at the end of the stream the worker drains only with no close, seek or pause requested |
| `PlaybackSession.JavaSoundPlaybackSession.Publish` | examples/src/main/java/org/zzvsjs/jflac/examples/playback/JavaSoundPlaybackSession.java:384-408 | the last word is FAILED before ENDED, and none after a close request |
| `PlaybackProtocol.ControlAnswers` | examples/src/main/java/org/zzvsjs/jflac/examples/playback/JavaSoundPlaybackSession.java:112-179 | start, seek and pause take effect exactly in the states they are meant for, and what each changes |
| `PlaybackProtocol.AskAnswer` | examples/src/main/java/org/zzvsjs/jflac/examples/playback/JavaSoundPlaybackSession.java:435-448 | the worker takes the newest request and shows LOADING, unless a close came first |
| `PlaybackProtocol.OpenAnswer` | examples/src/main/java/org/zzvsjs/jflac/examples/playback/JavaSoundPlaybackSession.java:450-495 | what was opened is played exactly if no newer request and no close came meanwhile |
| `PlaybackProtocol.InspectAnswer` | examples/src/main/java/org/zzvsjs/jflac/examples/playback/JavaSoundPlaybackSession.java:249-290 | at the loop head the worker rests and shows PAUSED or plays and shows PLAYING as the pause request says, and shows nothing new before a seek or a close |
| `PlaybackProtocol.StreamEndAnswer` | examples/src/main/java/org/zzvsjs/jflac/examples/playback/JavaSoundPlaybackSession.java:299-345 | at the end of the stream it rests and shows PAUSED or drains and shows DRAINING, and an undisturbed drain is the natural end |
| `PlaybackProtocol.RestsUntilCommand` | examples/src/main/java/org/zzvsjs/jflac/examples/playback/JavaSoundPlaybackSession.java:412-418 | a resting worker can move exactly when it is resumed, sent elsewhere or closed |
| `PlaybackProtocol.StateAgrees` | examples/src/main/java/org/zzvsjs/jflac/examples/playback/JavaSoundPlaybackSession.java:231-345 | in every run without a close request: while a request waits the session shows LOADING, and with none an opening worker shows LOADING, a reading one PLAYING, a draining one DRAINING, a resting one PAUSED |
| `PlaybackProtocol.RunInv` | examples/src/main/java/org/zzvsjs/jflac/examples/playback/JavaSoundPlaybackSession.java:231-410 | the invariant of session and worker holds over every interleaving of seeks, pauses and closes |
| `PlaybackProtocol.RequestIsThere` | examples/src/main/java/org/zzvsjs/jflac/examples/playback/JavaSoundPlaybackSession.java:435-448 | the worker never finds the pending request missing |
| `PlaybackProtocol.PlaysNewestRequest` | examples/src/main/java/org/zzvsjs/jflac/examples/playback/JavaSoundPlaybackSession.java:249-262 | whenever the worker goes on or rests, its input was opened for the newest accepted request and revision |
| `PlaybackProtocol.SilentAfterClose` | examples/src/main/java/org/zzvsjs/jflac/examples/playback/JavaSoundPlaybackSession.java:231-410 | after a close request no run of worker steps changes anything the monitor protects |
| `PlaybackProtocol.CloseEndsWorker` | examples/src/main/java/org/zzvsjs/jflac/examples/playback/JavaSoundPlaybackSession.java:231-410 | after a close request at most four worker steps are left |
| `PlaybackProtocol.ClosedForGood` | examples/src/main/java/org/zzvsjs/jflac/examples/playback/JavaSoundPlaybackSession.java:595-669 | CLOSED stays in every run |
| `PlaybackProtocol.TerminalOnlyCloses` | examples/src/main/java/org/zzvsjs/jflac/examples/playback/JavaSoundPlaybackSession.java:384-408 | in every run ENDED and FAILED are followed by nothing but CLOSED |
| `PlaybackProtocol.EndedAfterDrain` | examples/src/main/java/org/zzvsjs/jflac/examples/playback/JavaSoundPlaybackSession.java:317-408 | ENDED is published only by the last step, after a finished drain, without failure and without a close request |
| `PlaybackProtocol.NaturalEndIsNewest` | examples/src/main/java/org/zzvsjs/jflac/examples/playback/JavaSoundPlaybackSession.java:323-343 | the natural end is declared only when nothing newer was requested: what drained was the newest request so far |
| `PlaybackProtocol.WorkerReports` | examples/src/main/java/org/zzvsjs/jflac/examples/playback/JavaSoundPlaybackSession.java:384-408 | without a close request the worker never leaves without publishing FAILED or ENDED, whichever holds |
| `PlaybackProtocol.EndedServedLatestIff` | examples/src/main/java/org/zzvsjs/jflac/examples/playback/JavaSoundPlaybackSession.java:317-405 | in every run that ends in ENDED, the newest accepted request was played to its end exactly if no request is left pending |
| `PlaybackProtocol.LateSeekIsNeverServed` | examples/src/main/java/org/zzvsjs/jflac/examples/playback/JavaSoundPlaybackSession.java:335-410 | a request that is pending once the worker has left its loop is taken up in no run |
| `PlaybackProtocol.SeekServedIff` | examples/src/main/java/org/zzvsjs/jflac/examples/playback/JavaSoundPlaybackSession.java:167-179 | in every run that ends in ENDED, the last accepted seek was played to its end exactly if the worker had not left its loop when the seek was accepted |
| `PlaybackProtocol.SeekOvertakenByEnd` | examples/src/main/java/org/zzvsjs/jflac/examples/playback/JavaSoundPlaybackSession.java:335-405 | one schedule of the other kind: a seek during the cleanup after the natural end is accepted, the cleanup succeeds, and ENDED is published over it (after a failing cleanup it would be FAILED) |
| `PlaybackProtocol.StartIntoClose` | examples/src/main/java/org/zzvsjs/jflac/examples/playback/JavaSoundPlaybackSession.java:112-130 | a start between the two halves of a close is accepted and shows LOADING, but in no run from there is an input opened or the state changed except to CLOSED |
| `PlaybackProtocol.NaturalEndIsReached` | examples/src/main/java/org/zzvsjs/jflac/examples/playback/JavaSoundPlaybackSession.java:317-345 | such a moment is reachable |
| `PlaybackTime.ScaleExactly` | examples/src/main/java/org/zzvsjs/jflac/examples/playback/JavaSoundPlaybackSession.java:819-835 | scaling is the exact quotient up to saturation exactly when the remainder's product fits a long or the result saturates anyway |
| `PlaybackTime.IntRatesScaleExactly` | examples/src/main/java/org/zzvsjs/jflac/examples/playback/JavaSoundPlaybackSession.java:807-842 | at rates rounded to an int scaling is min(floor(value * numerator / denominator), largest long), for every value |
| `PlaybackTime.WideRatesSaturate` | examples/src/main/java/org/zzvsjs/jflac/examples/playback/JavaSoundPlaybackSession.java:819-835 | with two 40-bit factors a small exact result does come out as the largest long |
| `PlaybackTime.ScaleMonotone` | examples/src/main/java/org/zzvsjs/jflac/examples/playback/JavaSoundPlaybackSession.java:819-835 | scaling is monotone |
| `PlaybackTime.FramesRoundTrip` | examples/src/main/java/org/zzvsjs/jflac/examples/playback/JavaSoundPlaybackSession.java:807-835 | for every frame count a long can hold, the trip to microseconds and back never gains; it loses at most ceil((rate - 1) / 1000000) frames exactly if the count is within that many of the frames the largest long of microseconds stands for |
| `PlaybackTime.LongestCountLosesMore` | examples/src/main/java/org/zzvsjs/jflac/examples/playback/JavaSoundPlaybackSession.java:807-835 | the largest count at 44.1 kHz does lose more than a million frames, to saturation |
| `PlaybackTime.OneFrameLost` | examples/src/main/java/org/zzvsjs/jflac/examples/playback/JavaSoundPlaybackSession.java:807-813 | up to 1 MHz that is at most one frame |
| `PlaybackTime.PositionInTrack` | examples/src/main/java/org/zzvsjs/jflac/examples/playback/JavaSoundPlaybackSession.java:525-592 | a reported position is inside the known duration, grows with the frames written and never exceeds the written position |
| `PlaybackTime.PositionIs` | examples/src/main/java/org/zzvsjs/jflac/examples/playback/JavaSoundPlaybackSession.java:525-566 | the reported position is the segment's start plus what was heard of the written frames at the source's rate, as microseconds, kept to a long and to the duration |
| `PlaybackTime.PositionStartsAtSegment` | examples/src/main/java/org/zzvsjs/jflac/examples/playback/JavaSoundPlaybackSession.java:543-566 | with nothing heard yet it is the time of the segment's start; at equal rates it advances frame by frame |
| `PlaybackTime.FramesAsTime` | examples/src/main/java/org/zzvsjs/jflac/examples/playback/JavaSoundPlaybackSession.java:807-835 | the two conversions are the floored quotients, kept to a long |
| `PlaybackTime.PositionOfFrame` | examples/src/main/java/org/zzvsjs/jflac/examples/playback/JavaSoundPlaybackSession.java:525-592 | clamping the position to the duration is the same as clamping the heard frame to the track |
| `PlaybackTime.SeekToReported` | examples/src/main/java/org/zzvsjs/jflac/examples/playback/JavaSoundPlaybackSession.java:525-566 | seeking to any reported position, whatever was written and queued and whether or not the length is known, never goes past the frame that was heard, and comes back to within the loss above exactly under the same condition |
| `PlaybackTime.ReportAfterSeek` | examples/src/main/java/org/zzvsjs/jflac/examples/playback/JavaSoundPlaybackSession.java:525-592 | right after seeking to any reported position the new report is never later, and earlier by at most one source frame's length, rounded up |
| `PlaybackTime.RelativeSeek` | examples/src/main/java/org/zzvsjs/jflac/examples/playback/JavaSoundPlaybackSession.java:182-194 | the relative seek is the true sum kept between zero and the largest long |
| `SkipFrames.SkipPcmFrames` | examples/src/main/java/org/zzvsjs/jflac/examples/playback/JavaSoundPlaybackSession.java:742-805 | ends for every mix of partial, zero and negative skips and short reads; on normal return the stream advanced by exactly result * frameSize, result is at most the target, and below it only at the end |
| `SkipFrames.SkipBytes` | examples/src/main/java/org/zzvsjs/jflac/examples/playback/JavaSoundPlaybackSession.java:767-797 | the loop ends as the step-by-step function Skipping says, in step with every answer of the stream |
| `SkipFrames.TurnOutcome` | examples/src/main/java/org/zzvsjs/jflac/examples/playback/JavaSoundPlaybackSession.java:767-797 | in one turn a newer seek comes first, then the skip, and only when that gets nowhere the read, which alone sees the end and alone complains of no progress |
| `SkipFrames.WillingStreamIsSkipped` | examples/src/main/java/org/zzvsjs/jflac/examples/playback/JavaSoundPlaybackSession.java:767-797 | on a stream that keeps moving the loop ends at the target, or at the end of the stream if that comes first |
| `SkipFrames.SkippingEnds` | examples/src/main/java/org/zzvsjs/jflac/examples/playback/JavaSoundPlaybackSession.java:767-797 | the loop ends past the target exactly if a turn it reaches over-reads: less than a frame left, the skip refused, the read longer than what is left |
| `SkipFrames.InsideFrameExactly` | examples/src/main/java/org/zzvsjs/jflac/examples/playback/JavaSoundPlaybackSession.java:798-802 | when the loop ends normally, it reports a broken frame exactly if it over-read or the stream itself ends inside a frame before the target |
| `SkipFrames.SoundStreamBrokenIff` | examples/src/main/java/org/zzvsjs/jflac/examples/playback/JavaSoundPlaybackSession.java:780-802 | so a stream of whole frames is reported as broken exactly if the loop over-reads |
| `SkipFrames.FramedStreamIsSound` | examples/src/main/java/org/zzvsjs/jflac/examples/playback/JavaSoundPlaybackSession.java:780-802 | in particular never when every skip and read moves in whole frames |
| `SkipFrames.OverReadFails` | examples/src/main/java/org/zzvsjs/jflac/examples/playback/JavaSoundPlaybackSession.java:780-802 | a skip of half a frame followed by a refused one makes the loop over-read a sound stream and report it as broken |
| `SkipFrames.FramesConsumed` | examples/src/main/java/org/zzvsjs/jflac/examples/playback/JavaSoundPlaybackSession.java:798-805 | the fallback read can pass the target by less than a frame, so whole frames never exceed it |

## Left out

- libFLAC, libogg and the JNI layer: bitstream, MD5, exception texts and single local references are not modelled; libFLAC
  appears as `CodecScript.Event`, `RangeDecoder.Seek`, `ChainedDecoder.Link` and, with JNI and the allocator, as
  `MetadataBuilders.Env`, where a call just succeeds or fails.
- The codec contract assumed: one step delivers at most one block, a step that reports the end delivers none, block
  channel counts equal STREAMINFO's, a stream is finite, and for reusable sessions block sizes are those of RFC 9639.
- Loading and extracting the native library, the terminal interfaces, file dialogs, mixer negotiation, the fuzz transport,
  `ReplayPrefixInputStream` and `CountingOutputStream`: plumbing or easy members.
- The public request and summary classes, the `FlacDecoder` overloads and the validators of formats and
  options: thin forwarding or single checks.
- The pull session's JVM wrapper (src/main/kotlin/org/zzvsjs/jflac/FlacDecoder.kt:1147-1223): one lock serialises its
  reads and its close, so it has no interleavings beyond those of the decoding session.
- Timeouts, joins, thread interruption timing and when the cleaner runs: the cleaner is a step that may fire once the owner
  is unreachable, an interruption a failure that may end a wait after a close request.
- JNI unload is modelled as quiescent: no native call is in flight when it runs.
- HandleProtocol.StaleHandleStaysDead: claimed until the handle counter wraps, not beyond, because a reissued handle does
  resolve again.
- HandleProtocol.RemovedHasOneOwner: not claimed for a session that a finish call lost; `FinishLosesIff` says when that
  happens.
- HandleProtocol.UnloadCompletes: not claimed for such a session, which stays in memory.
- EncodingProtocol.DestroyedExactlyOnce: claimed until the counter wraps; the fallback release uses a handle that may have
  been reissued after it.
- Direct native calls on a decoder handle by code that did not open it: `DecodingProtocol` lets other users act on their
  own handles only; `EncodingProtocol` also lets them release this session's handle.
- RangeDecoder.DecodeContext.DecodeRange: a handler that throws is represented by the number of chunks it takes; what it
  throws and what `onComplete` handlers throw is not modelled.
- PullDecoder.PullDecoder.ReadInterleaved: after a failure of the codec or the source the array's contents and the rest of
  the flow are not described, because the JVM session closes the decoder then.
- PcmInputStream.FlacPcmInputStream.Read: the bytes copied before a failing refill are lost to the caller, as in the code;
  the state after a failure is not described.
- Reading a chain: allocation and conversion failures on the way are not modelled.
- Null references inside public models and arrays, and the success without a block that the comment and picture builders
  have for "nothing to build": no Kotlin caller can produce them.
- libFLAC's verdicts on seek tables and cue sheets, and its refusal of comment entries, pictures and other values in its
  setters, are calls that succeed or fail; its rules are its own.
- MetadataWriter.WriteMetadata: ends with the chain that is handed to the final write; what that write does to padding
  under the caller's padding policy, and to the file, is libFLAC's.
- Integer fields of metadata models keep their JVM values: the narrowing casts of range-checked fields and the seek point
  sentinel, which reader and builder translate both ways, are not written out. Text is a sequence of Unicode characters;
  unpaired surrogates are not part of the model.
- MetadataBuilders.AppendEntry: the refusal of an entry of four gigabytes is not modelled; a Java byte array is shorter.
- MetadataWriter.BlockTable.BuildMetadataBlocks: covers the ordered and the grouped builder with one loop; the grouped
  arrays are given as one list in the order the code builds them, and the counts of the ordered arrays are equal.
- Exact order of comment entries across different keys is not claimed: the code groups by key.
- PlaybackProtocol.PlaysNewestRequest: does not say that every accepted seek is served; `SeekServedIff` says which are.
- PlaybackProtocol.EndedServedLatestIff: claimed below the largest revision, at which a request is stored but refused.
- The playback worker's errors other than exceptions, I/O errors and linkage errors leave the thread without a last word;
  they are not modelled.
- PlaybackTime.PositionInTrack: covers the computed positions; the cached position of a closed session is clamped the same
  way and not modelled.
- EncodingSession.NativeFlacEncodingSession.BeginWrite: models a write of at least one frame that passed the chunk check
  (`PcmWriter.ValidateInterleavedPcmChunk`); a refused chunk and a write of no frames leave an active session as it is.
- EncodingProtocol.WriteTwiceThenFinish: asks that nobody else is inside the session's native record when it starts, because
  `EncodingProtocol` lets foreign calls use the session's handle.
- PcmValues.InRangeValue: samples are whole octets deep, as in every format the Java Sound side handles; the chunk check of
  the encoder also knows other depths.
