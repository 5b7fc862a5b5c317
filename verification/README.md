# PicturePlayerView in Dafny

A model of PicturePlayerView, an Android library that plays an image
sequence. The library decodes frames ahead of time on a reader thread and
shows them on a texture at a fixed frame rate. The model covers the pieces
that decide which frame is shown and what happens to its bitmap buffer:

- `CacheList`: the fixed-capacity ring buffer that holds decoded frames.
  Removing from it reports every dropped element to a callback.
- `Scheduler`: the frame clock. It delivers frame indices at a fixed
  interval, can skip late frames, and can be paused, resumed and stopped
  once.
- `ImageUtil`: the bitmap-reuse test and the bitmap recycling helper.
- `PicturePlayer`: the library's playback controller. It runs the reader,
  the cache of decoded frames, the pool of reusable buffers, seeking and
  teardown.
- `PlayerCore`: the older playback core. It uses a six-slot ring with two
  cursors and an unbounded list of reusable buffers.
- `PlayerView` and `GLPlayerView`: the state machines of the two library
  views (STOP / START / STOPPING and STOP / START / PAUSE).
- `PlayerView3` and `PlayerView4`: two players from the sample app, which
  show how the design evolved.
- `FpsMeasure`: the sample app's frame-rate meter.

Support modules:

- `Wrappers` holds `Option` and `Result`.
- `CursorRing` is the slot array with read and play cursors shared by
  `PlayerCore` and `PlayerView3`.
- `ReusePool` is the bounded list of reusable buffers. A full list recycles
  its oldest buffer.

Modelling conventions:

- Every component is an immutable datatype, and every operation is a pure
  transition.
- Java exceptions are `Result.Failure`, and `null` is `Option.None`.
- Callbacks and listener calls are appended to a log in the state (`events`,
  `calls`, `notices`, `recycled`). Properties about them are stated over that
  log.
- The threads are interleaved as atomic steps. One public call, one
  reader-loop iteration or one handled clock message is one transition.
- Time is an input (`now`). Answers that come from code outside the model
  are inputs too: a decode succeeding, a buffer fitting, a seek completing,
  a player accepting a pause.
- Java `int` overflow is written out (`ImageUtil.Wrap32`) where it matters.
  Java's truncating division is `ImageUtil.JavaDiv`.

Where a routine is wrong as written, the model keeps the as-written version
and proves what goes wrong with it. It also gives a corrected version with
its intended property proved, and the rest of the model uses the corrected
one (see "## Findings").

## Model

| member | source | states |
|---|---|---|
| CacheList.Empty | pictureplayerview/src/main/java/com/xiuyukeji/pictureplayerview/utils/CacheList.java:35-39 | a new list over an array of the given length holds nothing and has that capacity |
| CacheList.RealIndex | pictureplayerview/src/main/java/com/xiuyukeji/pictureplayerview/utils/CacheList.java:159-166 | the wrapped array position of logical index `i` is `(next - count + i) mod capacity`, always inside the array |
| CacheList.RealIndexInjective | pictureplayerview/src/main/java/com/xiuyukeji/pictureplayerview/utils/CacheList.java:159-166 | two different logical positions share an array slot only when they are the two ends of a completely full list |
| CacheList.Size | pictureplayerview/src/main/java/com/xiuyukeji/pictureplayerview/utils/CacheList.java:148-150 | the size is the length of the logical contents and never exceeds the capacity |
| CacheList.IsEmpty | pictureplayerview/src/main/java/com/xiuyukeji/pictureplayerview/utils/CacheList.java:155-157 | true exactly when the logical contents are empty |
| CacheList.Get | pictureplayerview/src/main/java/com/xiuyukeji/pictureplayerview/utils/CacheList.java:53-58 | returns the element at logical position `i`, and null for any index outside `0 .. size-1` |
| CacheList.GetFirst | pictureplayerview/src/main/java/com/xiuyukeji/pictureplayerview/utils/CacheList.java:44-46 | returns the oldest element, or null when empty |
| CacheList.Add | pictureplayerview/src/main/java/com/xiuyukeji/pictureplayerview/utils/CacheList.java:65-77 | a non-full list appends silently; a full list drops its oldest element, reports it once through the callback, and appends |
| CacheList.AddView | pictureplayerview/src/main/java/com/xiuyukeji/pictureplayerview/utils/CacheList.java:65-77 | writing at the write cursor and advancing it appends to the logical contents, and overwrites the head when full |
| CacheList.Remove | pictureplayerview/src/main/java/com/xiuyukeji/pictureplayerview/utils/CacheList.java:91-116 | as written: an index past the end removes nothing; a lower-half index removes exactly that element; an upper-half index removes it but the view then starts one element later and ends with a stale slot; a negative index throws exactly when its wrapped slot falls before the array, and otherwise nulls and reports that slot (the live element `capacity` positions on, or a free slot) while the view also loses its head |
| CacheList.ShiftHeadRight | pictureplayerview/src/main/java/com/xiuyukeji/pictureplayerview/utils/CacheList.java:99-102 | the lower-half loop moves every element before `index` one slot towards the tail and leaves the rest alone |
| CacheList.ShiftTailLeft | pictureplayerview/src/main/java/com/xiuyukeji/pictureplayerview/utils/CacheList.java:103-107 | the upper-half loop moves every element after `index` one slot towards the head and leaves the rest alone |
| CacheList.LowerRemoveView | pictureplayerview/src/main/java/com/xiuyukeji/pictureplayerview/utils/CacheList.java:99-110 | the lower-half shift followed by the head's clearing removes exactly the element at `index` |
| CacheList.UpperRemoveView | pictureplayerview/src/main/java/com/xiuyukeji/pictureplayerview/utils/CacheList.java:103-110 | the upper-half shift with an unmoved write cursor leaves the view shifted by one with the stale write slot at its end |
| CacheList.NegativeRemoveView | pictureplayerview/src/main/java/com/xiuyukeji/pictureplayerview/utils/CacheList.java:91-110 | with a negative index the count still drops, so the view loses its head; the nulled slot is either free or the live position `index + capacity`, whose element becomes null in place |
| CacheList.RemoveFirst | pictureplayerview/src/main/java/com/xiuyukeji/pictureplayerview/utils/CacheList.java:82-84 | removes and reports the oldest element; the rest keep their order |
| CacheList.Released | pictureplayerview/src/main/java/com/xiuyukeji/pictureplayerview/utils/CacheList.java:111-113 | the callback log of a batch removal reports each removed element once, in order |
| CacheList.RemoveCount | pictureplayerview/src/main/java/com/xiuyukeji/pictureplayerview/utils/CacheList.java:123-136 | as written: removes the oldest `n` (all, when `n` exceeds the size) and reports each; a negative `n` grows the count past what is held |
| CacheList.Clear | pictureplayerview/src/main/java/com/xiuyukeji/pictureplayerview/utils/CacheList.java:141-143 | empties the list and reports every element once, oldest first |
| CacheList.RemoveFixed | pictureplayerview/src/main/java/com/xiuyukeji/pictureplayerview/utils/CacheList.java:91-116 | corrected: any index outside the contents removes nothing; any index inside removes exactly that element, keeps the others in order and reports it |
| CacheList.FixedUpperRemoveView | pictureplayerview/src/main/java/com/xiuyukeji/pictureplayerview/utils/CacheList.java:103-107 | the upper-half shift with the write cursor moved back one slot removes exactly the element at `index` |
| CacheList.RemoveCountFixed | pictureplayerview/src/main/java/com/xiuyukeji/pictureplayerview/utils/CacheList.java:123-136 | corrected: a non-positive count changes nothing; otherwise the oldest `min(n, size)` are removed and reported |
| CacheList.ThreeOfTwelve | pictureplayerview/src/test/java/com/xiuyukeji/pictureplayerview/CacheListTestCase.java:309-335 | a twelve-slot list after three numbered adds holds them in insertion order |
| CacheList.UpperRemoveExample | pictureplayerview/src/main/java/com/xiuyukeji/pictureplayerview/utils/CacheList.java:103-107 | removing the last of `[1, 2, 3]` leaves `[2, null]`, where `[1, 2]` is intended |
| CacheList.NegativeRemoveExample | pictureplayerview/src/main/java/com/xiuyukeji/pictureplayerview/utils/CacheList.java:91-95 | `remove(-1)` on `[1, 2, 3]` returns null, yet the list then reads `[2, 3]` |
| CacheList.DeepNegativeRemoveExample | pictureplayerview/src/main/java/com/xiuyukeji/pictureplayerview/utils/CacheList.java:91-110 | `remove(-10)` on `[1, 2, 3]` nulls and reports the live element 3 and the list reads `[2, null]`; `remove(-13)` throws |
| CacheList.NegativeRemoveCountExample | pictureplayerview/src/main/java/com/xiuyukeji/pictureplayerview/utils/CacheList.java:123-136 | `removeCount(-2)` on a full three-slot list reports size 5 |
| CacheList.AddThenRemoveFirst | pictureplayerview/src/main/java/com/xiuyukeji/pictureplayerview/utils/CacheList.java:65-84 | an added element is the one `removeFirst` returns and reports, leaving the list empty |
| CursorRing.Advance | pictureplayerview/src/main/java/com/xiuyukeji/pictureplayerview/PlayerCore.java:124-126 | a cursor moved past the last slot wraps to slot 0: it moves by one modulo the slot count |
| CursorRing.Slot | pictureplayerview/src/main/java/com/xiuyukeji/pictureplayerview/PlayerCore.java:257-260 | the slot `k` places after the play cursor always lies inside the array |
| CursorRing.CursorRelation | pictureplayerview/src/main/java/com/xiuyukeji/pictureplayerview/PlayerCore.java:122-128 | the write cursor is always the play cursor plus the cached count, modulo the slot count |
| CursorRing.SlotInjective | pictureplayerview/src/main/java/com/xiuyukeji/pictureplayerview/PlayerCore.java:257-260 | distinct offsets from the play cursor name distinct slots |
| CursorRing.Empty | pictureplayerview/src/main/java/com/xiuyukeji/pictureplayerview/PlayerCore.java:77 | a fresh slot array with both cursors at 0 holds nothing |
| CursorRing.Put | pictureplayerview/src/main/java/com/xiuyukeji/pictureplayerview/PlayerCore.java:122-128 | writing at the write cursor appends the frame to the held frames and keeps the cursor invariant |
| CursorRing.PutValid | pictureplayerview/src/main/java/com/xiuyukeji/pictureplayerview/PlayerCore.java:122-128 | the three field updates of a write keep the occupancy invariant and append exactly one frame |
| CursorRing.Take | pictureplayerview/src/main/java/com/xiuyukeji/pictureplayerview/PlayerCore.java:207-262 | reading at the play cursor yields the oldest held frame and leaves the rest in order |
| CursorRing.TakeValid | pictureplayerview/src/main/java/com/xiuyukeji/pictureplayerview/PlayerCore.java:254-262 | nulling the play slot and advancing the play cursor removes exactly the oldest frame |
| CursorRing.Held | pictureplayerview/src/main/java/com/xiuyukeji/pictureplayerview/PlayerCore.java:300-304 | the non-null slots in array order, never more than there are slots |
| CursorRing.HeldMembers | pictureplayerview/src/main/java/com/xiuyukeji/pictureplayerview/PlayerCore.java:300-304 | a buffer is among the non-null slots exactly when some slot holds it |
| CursorRing.HeldContents | pictureplayerview/src/main/java/com/xiuyukeji/pictureplayerview/PlayerCore.java:300-304 | scanning every slot finds exactly the frames held between the cursors |
| ReusePool.Offer | pictureplayerview/src/main/java/com/xiuyukeji/pictureplayerview/PicturePlayer.java:71-86 | adding to a full pool recycles its oldest buffer first; the new buffer is newest, the bound holds, and no buffer is lost |
| ReusePool.Release | pictureplayerview/src/main/java/com/xiuyukeji/pictureplayerview/PicturePlayer.java:71-86 | offering buffers one after another pools or recycles each exactly once |
| ReusePool.ReleaseKeepsNewest | pictureplayerview/src/main/java/com/xiuyukeji/pictureplayerview/PicturePlayer.java:71-86 | after a batch the pool holds the newest buffers, and the older ones were recycled in order |
| ReusePool.FirstFit | pictureplayerview/src/main/java/com/xiuyukeji/pictureplayerview/PicturePlayer.java:286-298 | finds the first compatible buffer, and finds none exactly when none is compatible |
| ReusePool.Claim | pictureplayerview/src/main/java/com/xiuyukeji/pictureplayerview/PicturePlayer.java:286-298 | corrected: takes out the first compatible buffer and keeps the others in order, or returns null and changes nothing (the source removes through the ring buffer's faulty `remove`; see `PicturePlayer.ClaimThroughRingExample`) |
| ImageUtil.Wrap32 | pictureplayerview/src/main/java/com/xiuyukeji/pictureplayerview/utils/ImageUtil.java:30 | a Java `int` result: in range, congruent to the exact value modulo 2^32, and equal to it when it fits |
| ImageUtil.JavaDiv | pictureplayerview/src/main/java/com/xiuyukeji/pictureplayerview/utils/ImageUtil.java:28-29 | `int` division truncates toward zero, for negative dividends too |
| ImageUtil.BytesPerPixel | pictureplayerview/src/main/java/com/xiuyukeji/pictureplayerview/utils/ImageUtil.java:40-51 | four bytes for ARGB_8888, two for RGB_565 and ARGB_4444, one otherwise |
| ImageUtil.CanUseForInBitmap | pictureplayerview/src/main/java/com/xiuyukeji/pictureplayerview/utils/ImageUtil.java:21-37 | before KitKat, reuse requires equal dimensions and no subsampling; from KitKat on, when the byte count fits in an `int`, reuse requires exactly that the request's bytes fit the buffer's allocation (the subsampled extents of lines 24-29 are `ImageUtil.Sampled`, the wrapping product of line 30 is `ImageUtil.ByteCount32`) |
| ImageUtil.WrapIsExact | pictureplayerview/src/main/java/com/xiuyukeji/pictureplayerview/utils/ImageUtil.java:30 | the wrapping byte count equals the exact one whenever the exact one fits in an `int` |
| ImageUtil.RecycleBitmap | pictureplayerview/src/main/java/com/xiuyukeji/pictureplayerview/utils/ImageUtil.java:58-62 | null stays null; a bitmap is marked recycled and otherwise unchanged |
| ImageUtil.RecycleIdempotent | pictureplayerview/src/main/java/com/xiuyukeji/pictureplayerview/utils/ImageUtil.java:58-62 | recycling twice is recycling once |
| ImageUtil.SampledMonotone | pictureplayerview/src/main/java/com/xiuyukeji/pictureplayerview/utils/ImageUtil.java:28-29 | a smaller extent never subsamples to a larger one |
| ImageUtil.ExactCompatibilityMonotone | pictureplayerview/src/main/java/com/xiuyukeji/pictureplayerview/utils/ImageUtil.java:28-31 | shrinking the request never increases its byte count |
| ImageUtil.CompatibilityMonotone | pictureplayerview/src/main/java/com/xiuyukeji/pictureplayerview/utils/ImageUtil.java:23-31 | as written, while the byte count fits in an `int`: a larger buffer, or a smaller request, stays compatible |
| ImageUtil.OverflowAcceptsTinyBuffer | pictureplayerview/src/main/java/com/xiuyukeji/pictureplayerview/utils/ImageUtil.java:30 | a 32768×32768 ARGB_8888 request (2^32 bytes) passes the as-written test against a 1-byte buffer |
| ImageUtil.CanUseForInBitmapWide | pictureplayerview/src/main/java/com/xiuyukeji/pictureplayerview/utils/ImageUtil.java:21-37 | corrected: from KitKat on, compatible exactly when the exact byte count fits the allocation; unchanged before KitKat |
| ImageUtil.WideCompatibilityMonotone | pictureplayerview/src/main/java/com/xiuyukeji/pictureplayerview/utils/ImageUtil.java:23-31 | with exact arithmetic, a larger buffer or a smaller request stays compatible for every size |
| Scheduler.Delivered | pictureplayerview/src/main/java/com/xiuyukeji/scheduler/Scheduler.java:246-274 | the frame indices handed to `onFrameUpdate`, one per update call at most |
| Scheduler.Create | pictureplayerview/src/main/java/com/xiuyukeji/scheduler/Scheduler.java:60-71 | throws exactly when there are more frames than time units; otherwise the interval times `frameCount - 1` is the duration, and the clock is unstarted and without skipping |
| Scheduler.Start | pictureplayerview/src/main/java/com/xiuyukeji/scheduler/Scheduler.java:76-84 | throws exactly when already started (a clock runs once); otherwise only the phase changes (`isStarted` and `isRunning`, Scheduler.java:144-155, are the predicates `Scheduler.IsStarted`, any phase after `Idle`, and `Scheduler.IsRunning`, the `Looping` phase) |
| Scheduler.SetSkipFrame | pictureplayerview/src/main/java/com/xiuyukeji/scheduler/Scheduler.java:171-177 | as written: throws on every clock that was never started, and sets the flag only on a started one |
| Scheduler.SetSkipFrameFixed | pictureplayerview/src/main/java/com/xiuyukeji/scheduler/Scheduler.java:167-177 | corrected: throws exactly when already started, and otherwise sets only the flag |
| Scheduler.SkipFrameOnFreshClock | pictureplayerview/src/main/java/com/xiuyukeji/scheduler/Scheduler.java:171-174 | on the clock the constructor returns, the as-written setter throws and the corrected one enables skipping |
| Scheduler.LooperPrepared | pictureplayerview/src/main/java/com/xiuyukeji/scheduler/Scheduler.java:230-240 | the clock thread reports the start, delivers frame 0 at once and queues the next tick one interval later |
| Scheduler.Pause | pictureplayerview/src/main/java/com/xiuyukeji/scheduler/Scheduler.java:108-117 | succeeds exactly on a running, unpaused, unstopped clock, and then removes the queued tick |
| Scheduler.Resume | pictureplayerview/src/main/java/com/xiuyukeji/scheduler/Scheduler.java:91-101 | succeeds exactly on a running, paused, unstopped clock, and then queues a tick from `now` |
| Scheduler.PauseTwice | pictureplayerview/src/main/java/com/xiuyukeji/scheduler/Scheduler.java:108-117 | a second pause fails and changes nothing |
| Scheduler.PauseThenResume | pictureplayerview/src/main/java/com/xiuyukeji/scheduler/Scheduler.java:91-117 | pausing then resuming restores the clock, re-based at `now` |
| Scheduler.Stop | pictureplayerview/src/main/java/com/xiuyukeji/scheduler/Scheduler.java:122-137 | throws before start and after a stop; between start and the looper it does nothing; a running clock is cancelled, its tick dropped and a quit queued |
| Scheduler.StopTwice | pictureplayerview/src/main/java/com/xiuyukeji/scheduler/Scheduler.java:122-137 | a second stop throws "has stopped" |
| Scheduler.SkipCount | pictureplayerview/src/main/java/com/xiuyukeji/scheduler/Scheduler.java:249-256 | a late tick skips the least number of intervals that covers the lag, and an on-time tick skips none |
| Scheduler.HandleFrame | pictureplayerview/src/main/java/com/xiuyukeji/scheduler/Scheduler.java:246-266 | a tick advances by one plus the skipped frames; reaching the last frame delivers it and stops; otherwise it delivers the new index and requeues unless paused or stopped |
| Scheduler.HandleFrameKeepsInv | pictureplayerview/src/main/java/com/xiuyukeji/scheduler/Scheduler.java:246-266 | every tick keeps the clock invariant: delivered indices strictly increase and stay within `0 .. frameCount-1`, and the stop comes last |
| Scheduler.FinalFrameKeepsInv | pictureplayerview/src/main/java/com/xiuyukeji/scheduler/Scheduler.java:258-260 | delivering the last frame and stopping keeps the invariant |
| Scheduler.NextFrameKeepsInv | pictureplayerview/src/main/java/com/xiuyukeji/scheduler/Scheduler.java:261-266 | delivering a later, non-final frame keeps the invariant |
| Scheduler.DeliveredGrows | pictureplayerview/src/main/java/com/xiuyukeji/scheduler/Scheduler.java:257-266 | appending a larger in-range index keeps the delivered indices strictly increasing and in range |
| Scheduler.AppendIncreasingWhenLooping | pictureplayerview/src/main/java/com/xiuyukeji/scheduler/Scheduler.java:257 | any index past the current one extends the delivered indices in strictly increasing order |
| Scheduler.HandleQuit | pictureplayerview/src/main/java/com/xiuyukeji/scheduler/Scheduler.java:269-272 | a manual quit reports cancel then stop, delivers no frame, and keeps the invariant |
| Scheduler.Run | pictureplayerview/src/main/java/com/xiuyukeji/scheduler/Scheduler.java:246-274 | running the message loop keeps the invariant and leaves a finished clock untouched |
| Scheduler.NoSkipRunDeliversEveryFrame | pictureplayerview/src/main/java/com/xiuyukeji/scheduler/Scheduler.java:246-274 | without skipping and without interference, every remaining frame is delivered once, in order, followed by the stop |
| Scheduler.SkipRunEnds | pictureplayerview/src/main/java/com/xiuyukeji/scheduler/Scheduler.java:246-274 | with skip-frame on or off, a running clock with a tick queued ends within one tick per remaining frame: it keeps what it reported, and its last events are the final frame `frameCount - 1` and the stop |
| Scheduler.FreshClockPrepared | pictureplayerview/src/main/java/com/xiuyukeji/scheduler/Scheduler.java:60-84 | a new clock, started and prepared, runs without skipping, has reported its start and frame 0, and waits for its next tick |
| Scheduler.RunFromFrameZero | pictureplayerview/src/main/java/com/xiuyukeji/scheduler/Scheduler.java:246-274 | from frame 0, a clock left alone reports every later frame in order and then stops |
| Scheduler.FreshRunDeliversEveryFrame | pictureplayerview/src/main/java/com/xiuyukeji/scheduler/Scheduler.java:60-84 | a new clock started and left alone reports start, frames `0 .. frameCount-1` in order, then stop |
| Scheduler.LateTickSkips | pictureplayerview/src/main/java/com/xiuyukeji/scheduler/Scheduler.java:249-257 | a tick 35 ms late at a 10 ms interval jumps four frames and reschedules on the interval grid |
| Scheduler.EndedClockIsInert | pictureplayerview/src/main/java/com/xiuyukeji/scheduler/Scheduler.java:76-177 | a finished clock refuses start, pause, resume and skip changes, and stop only throws or does nothing |
| PicturePlayer.Create | pictureplayerview/src/main/java/com/xiuyukeji/pictureplayerview/PicturePlayer.java:61-87 | a new controller has an empty cache and pool of the given capacity and no pending seek |
| PicturePlayer.SetDataSource | pictureplayerview/src/main/java/com/xiuyukeji/pictureplayerview/PicturePlayer.java:89-93 | only the duration and frame count change |
| PicturePlayer.ReleaseCache | pictureplayerview/src/main/java/com/xiuyukeji/pictureplayerview/PicturePlayer.java:319-340 | the oldest `n` cached buffers move to the pool in order, and nothing else changes |
| PicturePlayer.ReleaseCacheFrames | pictureplayerview/src/main/java/com/xiuyukeji/pictureplayerview/PicturePlayer.java:319-340 | after releasing `n`, the `n` oldest frames are gone from the cache and every later frame keeps its buffer |
| PicturePlayer.Hit | pictureplayerview/src/main/java/com/xiuyukeji/pictureplayerview/PicturePlayer.java:334-337 | asking for a cached frame releases exactly the older ones and returns that frame, now at the head of the cache |
| PicturePlayer.Reset | pictureplayerview/src/main/java/com/xiuyukeji/pictureplayerview/PicturePlayer.java:167-179 | cache and pool are emptied into the recycled log, the read position returns to 0 and the flags clear |
| PicturePlayer.ThreadStop | pictureplayerview/src/main/java/com/xiuyukeji/pictureplayerview/PicturePlayer.java:350-359 | teardown runs exactly when the reader has exited and the clock has stopped or never started; it resets and reports the stop once |
| PicturePlayer.ThreadStopOnce | pictureplayerview/src/main/java/com/xiuyukeji/pictureplayerview/PicturePlayer.java:350-359 | a completed teardown does not fire again: the stop is reported once |
| PicturePlayer.ReadExit | pictureplayerview/src/main/java/com/xiuyukeji/pictureplayerview/PicturePlayer.java:250-251 | the reader's exit tears down when the clock is done or never started, and otherwise only marks the reader done |
| PicturePlayer.OnClockStop | pictureplayerview/src/main/java/com/xiuyukeji/pictureplayerview/PicturePlayer.java:342-348 | the clock's stop tears down when the reader is done, and otherwise only marks the clock done |
| PicturePlayer.TeardownNeedsBoth | pictureplayerview/src/main/java/com/xiuyukeji/pictureplayerview/PicturePlayer.java:342-359 | on a started clock the stop is reported once both sides finish, in either order, and not before |
| PicturePlayer.GetBitmap | pictureplayerview/src/main/java/com/xiuyukeji/pictureplayerview/PicturePlayer.java:319-340 | returns the cached buffer of frame `i` or null; older frames move to the pool; asking past the read position drains the cache and moves the reader past `i` |
| PicturePlayer.GetBitmapFrames | pictureplayerview/src/main/java/com/xiuyukeji/pictureplayerview/PicturePlayer.java:319-340 | after fetching frame `i` no older frame is cached, and frames from `i` on keep their buffers |
| PicturePlayer.UpdateFrame | pictureplayerview/src/main/java/com/xiuyukeji/pictureplayerview/PicturePlayer.java:300-317 | draws the frame at the requested position (null when not cached); the drawn buffer is the newest released one |
| PicturePlayer.UpdateFrameFrames | pictureplayerview/src/main/java/com/xiuyukeji/pictureplayerview/PicturePlayer.java:300-317 | after a draw, nothing at or before the drawn position is cached, and later frames are untouched |
| PicturePlayer.DrainsTrans | pictureplayerview/src/main/java/com/xiuyukeji/pictureplayerview/PicturePlayer.java:71-86 | two drains in a row are one drain: buffers leave the cache only for the pool, oldest first |
| PicturePlayer.Stop | pictureplayerview/src/main/java/com/xiuyukeji/pictureplayerview/PicturePlayer.java:113-120 | marks the controller cancelled and stops a started, unstopped clock; otherwise leaves the clock alone |
| PicturePlayer.Start | pictureplayerview/src/main/java/com/xiuyukeji/pictureplayerview/PicturePlayer.java:95-103 | corrected (with `setSkipFrame` fixed; as written it always throws): throws exactly when the clock constructor does; otherwise the reader runs on an empty cache with a fresh, unstarted, frame-skipping clock |
| PicturePlayer.Pause | pictureplayerview/src/main/java/com/xiuyukeji/pictureplayerview/PicturePlayer.java:105-107 | succeeds exactly when the clock is running and not paused or stopped, and then pauses it |
| PicturePlayer.Resume | pictureplayerview/src/main/java/com/xiuyukeji/pictureplayerview/PicturePlayer.java:109-111 | succeeds exactly when the clock is paused and not stopped, and then requeues a tick |
| PicturePlayer.StartOnFirstFrame | pictureplayerview/src/main/java/com/xiuyukeji/pictureplayerview/PicturePlayer.java:241-245 | after the first frame is read, the clock is started unless playback was cancelled; nothing else changes |
| PicturePlayer.Append | pictureplayerview/src/main/java/com/xiuyukeji/pictureplayerview/PicturePlayer.java:228-245 | the decoded frame joins the end of the cache in a claimed compatible buffer (or a new one), and the first frame starts the clock |
| PicturePlayer.AppendFrames | pictureplayerview/src/main/java/com/xiuyukeji/pictureplayerview/PicturePlayer.java:228-239 | the new frame is cached under its own index, and every earlier frame keeps its buffer |
| PicturePlayer.ReadError | pictureplayerview/src/main/java/com/xiuyukeji/pictureplayerview/PicturePlayer.java:181-185 | a read error stops the player, reports the error after the calls made so far, and ends the reader; while the clock plays on, the cache and the pool are left as they were |
| PicturePlayer.ReadStep | pictureplayerview/src/main/java/com/xiuyukeji/pictureplayerview/PicturePlayer.java:213-262 | a cancelled reader exits; a full cache, or a paused clock with a frame ready, makes it wait; otherwise it decodes and appends; a file that cannot be opened ends it with the pool untouched, and a failed decode ends it after the claimed buffer left the pool |
| PicturePlayer.FailedReadPool | pictureplayerview/src/main/java/com/xiuyukeji/pictureplayerview/PicturePlayer.java:247-262 | while the clock plays, a failed open keeps the cache and pool and a failed decode loses exactly the claimed buffer; both report the error and end the reader |
| PicturePlayer.ClaimThroughRingExample | pictureplayerview/src/main/java/com/xiuyukeji/pictureplayerview/PicturePlayer.java:286-298 | claiming through the as-written ring buffer from pool `[1, 2]` with only `2` compatible leaves the pool reading `[null]`, where the corrected claim leaves `[1]` |
| PicturePlayer.SeekJump | pictureplayerview/src/main/java/com/xiuyukeji/pictureplayerview/PicturePlayer.java:133-142 | a seek moves the reader to the target and releases the whole cache to the pool, oldest first |
| PicturePlayer.SeekTo | pictureplayerview/src/main/java/com/xiuyukeji/pictureplayerview/PicturePlayer.java:122-146 | ignored before start or after the clock stopped; during a seek the request is kept for later; otherwise the cache drains and reading restarts at the target |
| PicturePlayer.SeekComplete | pictureplayerview/src/main/java/com/xiuyukeji/pictureplayerview/PicturePlayer.java:203-210 | a finished seek runs the kept request, if any, and always clears it |
| PicturePlayer.PendingSeekDroppedWhenIncomplete | pictureplayerview/src/main/java/com/xiuyukeji/pictureplayerview/PicturePlayer.java:203-210 | a kept request whose own seek cannot complete is dropped, not retried |
| PicturePlayer.OnClockEvent | pictureplayerview/src/main/java/com/xiuyukeji/pictureplayerview/PicturePlayer.java:300-348 | each clock callback leaves both lists within their bounds |
| PicturePlayer.Dispatch | pictureplayerview/src/main/java/com/xiuyukeji/pictureplayerview/PicturePlayer.java:300-348 | a run of callbacks without the stop never touches the clock or ends the reader |
| PicturePlayer.Prepared | pictureplayerview/src/main/java/com/xiuyukeji/pictureplayerview/PicturePlayer.java:300-317 | when the clock's looper starts, frame 0 is drawn from the cache |
| PicturePlayer.Tick | pictureplayerview/src/main/java/com/xiuyukeji/pictureplayerview/PicturePlayer.java:300-317 | a clock tick and the draws it causes keep both lists within their bounds |
| PicturePlayer.Quit | pictureplayerview/src/main/java/com/xiuyukeji/pictureplayerview/PicturePlayer.java:342-359 | a manual quit either marks the clock done or completes the teardown |
| PlayerCore.Create | pictureplayerview/src/main/java/com/xiuyukeji/pictureplayerview/PlayerCore.java:65-79 | a new core holds six empty slots, no reusable buffer, no clock and no notice |
| PlayerCore.SetDataSource | pictureplayerview/src/main/java/com/xiuyukeji/pictureplayerview/PlayerCore.java:81-85 | only the duration and frame count change |
| PlayerCore.Start | pictureplayerview/src/main/java/com/xiuyukeji/pictureplayerview/PlayerCore.java:87-93 | throws exactly when the clock constructor does; otherwise a fresh unstarted clock is installed and the reader runs, with nothing else reset |
| PlayerCore.Cancel | pictureplayerview/src/main/java/com/xiuyukeji/pictureplayerview/PlayerCore.java:95-101 | throws exactly when a running clock was already stopped; otherwise marks the core cancelled and stops a running clock |
| PlayerCore.ClaimReusable | pictureplayerview/src/main/java/com/xiuyukeji/pictureplayerview/PlayerCore.java:174-189 | takes the first compatible reusable buffer; when none fits, recycles the oldest ones until ten remain |
| PlayerCore.ClaimReusableKeepsBuffers | pictureplayerview/src/main/java/com/xiuyukeji/pictureplayerview/PlayerCore.java:174-189 | a claim loses no buffer: pool, recycled and claimed together are what the pool and recycled held before |
| PlayerCore.ClaimedKeepsBuffers | pictureplayerview/src/main/java/com/xiuyukeji/pictureplayerview/PlayerCore.java:176-183 | a successful claim moves exactly one buffer out of the pool |
| PlayerCore.ThreadStop | pictureplayerview/src/main/java/com/xiuyukeji/pictureplayerview/PlayerCore.java:296-319 | as written: teardown runs exactly when both the reader and the clock have finished |
| PlayerCore.Teardown | pictureplayerview/src/main/java/com/xiuyukeji/pictureplayerview/PlayerCore.java:300-318 | every held slot and reusable buffer is recycled, the cursors and flags reset, and the stop reported once |
| PlayerCore.ThreadStopFixed | pictureplayerview/src/main/java/com/xiuyukeji/pictureplayerview/PlayerCore.java:296-319 | corrected: teardown runs exactly when the reader has finished and the clock has stopped or never started |
| PlayerCore.TeardownRecyclesHeld | pictureplayerview/src/main/java/com/xiuyukeji/pictureplayerview/PlayerCore.java:300-304 | the slot scan finds exactly the held frames, and every one of them ends up recycled |
| PlayerCore.ReadExit | pictureplayerview/src/main/java/com/xiuyukeji/pictureplayerview/PlayerCore.java:138-139 | corrected (uses `ThreadStopFixed`; as written see `CancelBeforeFirstFrameStalls`): the reader's exit tears down when the clock is done or never started, and otherwise only marks the reader done |
| PlayerCore.OnClockStop | pictureplayerview/src/main/java/com/xiuyukeji/pictureplayerview/PlayerCore.java:288-294 | the clock's stop tears down when the reader is done, and otherwise only marks the clock done |
| PlayerCore.CancelBeforeFirstFrameStalls | pictureplayerview/src/main/java/com/xiuyukeji/pictureplayerview/PlayerCore.java:297-299 | cancelled before its first frame, the as-written core never tears down or reports a stop, and it stays cancelled; the corrected exit reports the stop |
| PlayerCore.Write | pictureplayerview/src/main/java/com/xiuyukeji/pictureplayerview/PlayerCore.java:122-131 | the decoded frame is appended to the held frames and the first one starts the clock; this throws exactly when the clock was already started |
| PlayerCore.Store | pictureplayerview/src/main/java/com/xiuyukeji/pictureplayerview/PlayerCore.java:120-127 | the decoded frame joins the end of the held frames and the reader moves to the next frame; nothing else changes |
| PlayerCore.Fail | pictureplayerview/src/main/java/com/xiuyukeji/pictureplayerview/PlayerCore.java:133-137 | a read error cancels the core, reports the error and ends the reader through the corrected exit; when the cancel throws, the reader just ends, with the core already marked cancelled |
| PlayerCore.FailedCancelStaysCancelled | pictureplayerview/src/main/java/com/xiuyukeji/pictureplayerview/PlayerCore.java:95-111 | a cancel that throws still leaves the core cancelled, so a reader started on it afterwards exits at once |
| PlayerCore.ReadStep | pictureplayerview/src/main/java/com/xiuyukeji/pictureplayerview/PlayerCore.java:107-160 | a cancelled or finished reader exits (through the corrected exit); a full ring makes it wait; otherwise it decodes into a claimed buffer and writes; a file that cannot be opened goes to the catch block before any claim, a failed decode after it, and a clock that refuses to start after the frame was stored |
| PlayerCore.OnFrameUpdate | pictureplayerview/src/main/java/com/xiuyukeji/pictureplayerview/PlayerCore.java:201-263 | nothing happens when the ring is empty or the frame is not read yet; otherwise the oldest held frame is drawn and its buffer becomes reusable |
| PlayerCore.OnFrameUpdateFrames | pictureplayerview/src/main/java/com/xiuyukeji/pictureplayerview/PlayerCore.java:201-263 | the drawn buffer is that of the oldest cached frame, which is then no longer cached; all other frames are untouched |
| PlayerCore.WriteThenDraw | pictureplayerview/src/main/java/com/xiuyukeji/pictureplayerview/PlayerCore.java:122-263 | a frame written to an empty ring is the next one drawn, and its buffer then becomes reusable |
| PlayerCore.OnFrameUpdateKeepsBuffers | pictureplayerview/src/main/java/com/xiuyukeji/pictureplayerview/PlayerCore.java:201-263 | a draw loses no buffer: held, reusable and recycled buffers are the same before and after |
| PlayerCore.OnClockEvent | pictureplayerview/src/main/java/com/xiuyukeji/pictureplayerview/PlayerCore.java:201-294 | an update draws, the stop runs the stop listener, and other callbacks change nothing |
| PlayerCore.Dispatch | pictureplayerview/src/main/java/com/xiuyukeji/pictureplayerview/PlayerCore.java:201-294 | callbacks without the stop never end the reader or move the read position |
| PlayerCore.Prepared | pictureplayerview/src/main/java/com/xiuyukeji/pictureplayerview/PlayerCore.java:201-263 | when the clock's looper starts, the oldest held frame is drawn as frame 0 |
| PlayerCore.Tick | pictureplayerview/src/main/java/com/xiuyukeji/pictureplayerview/PlayerCore.java:201-263 | a tick advances the clock as the clock's own tick does, and the ring stays well formed |
| PlayerCore.Quit | pictureplayerview/src/main/java/com/xiuyukeji/pictureplayerview/PlayerCore.java:288-294 | a manual quit ends the clock, and tears down when the reader is already done |
| PlayerView3.Create | app/src/main/java/com/xiuyukeji/pictureplayerview/sample/step3/PicturePlayerView3.java:60-68 | a new view holds twelve empty slots, no clock, and has drawn nothing |
| PlayerView3.Start | app/src/main/java/com/xiuyukeji/pictureplayerview/sample/step3/PicturePlayerView3.java:82-88 | the reader starts while the view still holds the old clock, or none |
| PlayerView3.CreateClock | app/src/main/java/com/xiuyukeji/pictureplayerview/sample/step3/PicturePlayerView3.java:89-90 | the clock is built afterwards, unstarted; this throws exactly when frames outnumber time units |
| PlayerView3.StartFixed | app/src/main/java/com/xiuyukeji/pictureplayerview/sample/step3/PicturePlayerView3.java:82-91 | corrected: the clock is built first, so a started reader always has an unstarted clock to start |
| PlayerView3.ReadStep | app/src/main/java/com/xiuyukeji/pictureplayerview/sample/step3/PicturePlayerView3.java:93-120 | exits when done, waits while twelve are cached, appends each decoded frame, and survives its first frame exactly when a fresh clock is there to start |
| PlayerView3.OnFrameUpdate | app/src/main/java/com/xiuyukeji/pictureplayerview/sample/step3/PicturePlayerView3.java:128-146 | when a frame is cached and the index has been read, the oldest frame is drawn and its buffer recycled; otherwise nothing happens |
| PlayerView3.SurfaceDestroyed | app/src/main/java/com/xiuyukeji/pictureplayerview/sample/step3/PicturePlayerView3.java:72-78 | the reader is told all frames are read and a started clock is stopped; this throws exactly when that clock was stopped already |
| PlayerView3.SurfaceDestroyedEndsReader | app/src/main/java/com/xiuyukeji/pictureplayerview/sample/step3/PicturePlayerView3.java:72-99 | after the surface goes, the reader's next iteration ends it |
| PlayerView3.OnFrameUpdateKeepsBuffers | app/src/main/java/com/xiuyukeji/pictureplayerview/sample/step3/PicturePlayerView3.java:128-146 | a draw loses no buffer: held plus recycled is unchanged |
| PlayerView3.ReadThenDrawInOrder | app/src/main/java/com/xiuyukeji/pictureplayerview/sample/step3/PicturePlayerView3.java:103-146 | frames are drawn in the order they were read |
| PlayerView3.ReaderOutrunsClock | app/src/main/java/com/xiuyukeji/pictureplayerview/sample/step3/PicturePlayerView3.java:87-90 | a reader that decodes its first frame before the clock is built ends, and the clock built afterwards is never started; building the clock first avoids this |
| PlayerView4.Create | app/src/main/java/com/xiuyukeji/pictureplayerview/sample/step4/PicturePlayerView4.java:66-78 | a new view has an empty cache, no reusable buffer and no clock |
| PlayerView4.Start | app/src/main/java/com/xiuyukeji/pictureplayerview/sample/step4/PicturePlayerView4.java:91-97 | the reader starts while the view still holds the old clock, or none |
| PlayerView4.CreateClock | app/src/main/java/com/xiuyukeji/pictureplayerview/sample/step4/PicturePlayerView4.java:98-99 | the clock is built afterwards, unstarted; this throws exactly when frames outnumber time units |
| PlayerView4.StartFixed | app/src/main/java/com/xiuyukeji/pictureplayerview/sample/step4/PicturePlayerView4.java:91-100 | corrected: the clock is built first |
| PlayerView4.ReadStep | app/src/main/java/com/xiuyukeji/pictureplayerview/sample/step4/PicturePlayerView4.java:102-126 | exits when done, waits while six are cached, claims the first compatible buffer, drops it on a failed decode, and appends the decoded frame; a file that cannot be opened ends it before any claim |
| PlayerView4.OnFrameUpdate | app/src/main/java/com/xiuyukeji/pictureplayerview/sample/step4/PicturePlayerView4.java:169-189 | draws the head of the cache, whatever index was asked for, and offers its buffer to the bounded reusable list |
| PlayerView4.OnFrameUpdateKeepsBuffers | app/src/main/java/com/xiuyukeji/pictureplayerview/sample/step4/PicturePlayerView4.java:169-189 | a draw loses no buffer: cached, reusable and recycled together are unchanged |
| PlayerView4.DrawOrder | app/src/main/java/com/xiuyukeji/pictureplayerview/sample/step4/PicturePlayerView4.java:112-189 | the next draw shows the oldest cached frame, and a frame read into an empty cache is the next one drawn |
| PlayerView4.SurfaceDestroyed | app/src/main/java/com/xiuyukeji/pictureplayerview/sample/step4/PicturePlayerView4.java:81-87 | the reader is told all frames are read and a started clock is stopped; this throws exactly when that clock was stopped already |
| PlayerView4.SurfaceDestroyedEndsReader | app/src/main/java/com/xiuyukeji/pictureplayerview/sample/step4/PicturePlayerView4.java:81-110 | after the surface goes, the reader's next iteration ends it |
| PlayerView4.ReaderOutrunsClock | app/src/main/java/com/xiuyukeji/pictureplayerview/sample/step4/PicturePlayerView4.java:96-99 | the same race as the third player's: the first frame read before the clock exists ends the reader, and the clock is never started |
| GLPlayerView.Create | pictureplayerview/src/main/java/com/xiuyukeji/glpictureplayerview/GLPicturePlayerView.java:41-43 | a new view is stopped and enabled and has made no calls |
| GLPlayerView.IsPlaying | pictureplayerview/src/main/java/com/xiuyukeji/glpictureplayerview/GLPicturePlayerView.java:262-264 | playing means started or paused |
| GLPlayerView.IsPaused | pictureplayerview/src/main/java/com/xiuyukeji/glpictureplayerview/GLPicturePlayerView.java:258-260 | paused exactly in PAUSE, and a paused view counts as playing |
| GLPlayerView.SetEnabled | pictureplayerview/src/main/java/com/xiuyukeji/glpictureplayerview/GLPicturePlayerView.java:117-119 | only the enabled flag changes |
| GLPlayerView.SetLoop | pictureplayerview/src/main/java/com/xiuyukeji/glpictureplayerview/GLPicturePlayerView.java:227-229 | only the loop flag changes |
| GLPlayerView.SetDataSource | pictureplayerview/src/main/java/com/xiuyukeji/glpictureplayerview/GLPicturePlayerView.java:148-153 | the source reaches the player only while stopped |
| GLPlayerView.SetScaleType | pictureplayerview/src/main/java/com/xiuyukeji/glpictureplayerview/GLPicturePlayerView.java:215-220 | the scale type reaches the renderer only while stopped |
| GLPlayerView.Start | pictureplayerview/src/main/java/com/xiuyukeji/glpictureplayerview/GLPicturePlayerView.java:158-169 | an enabled view that is not started (stopped or paused) becomes started and starts the player |
| GLPlayerView.Resume | pictureplayerview/src/main/java/com/xiuyukeji/glpictureplayerview/GLPicturePlayerView.java:174-182 | only a paused view with a started player asks to resume, and it returns to START only if the player resumed |
| GLPlayerView.Pause | pictureplayerview/src/main/java/com/xiuyukeji/glpictureplayerview/GLPicturePlayerView.java:187-195 | only a started view with a started player asks to pause, and it moves to PAUSE only if the player paused |
| GLPlayerView.Stop | pictureplayerview/src/main/java/com/xiuyukeji/glpictureplayerview/GLPicturePlayerView.java:200-208 | a playing view stops at once and tells the player; afterwards it is never playing |
| GLPlayerView.OnPlayerStop | pictureplayerview/src/main/java/com/xiuyukeji/glpictureplayerview/GLPicturePlayerView.java:96-107 | a looping, still-playing view restarts the player; otherwise it clears, stops and reports the stop |
| GLPlayerView.StopIdempotent | pictureplayerview/src/main/java/com/xiuyukeji/glpictureplayerview/GLPicturePlayerView.java:200-208 | stopping twice is stopping once |
| GLPlayerView.PauseThenResume | pictureplayerview/src/main/java/com/xiuyukeji/glpictureplayerview/GLPicturePlayerView.java:174-195 | an effective pause then an effective resume return the view to START |
| GLPlayerView.StopIsNotLooped | pictureplayerview/src/main/java/com/xiuyukeji/glpictureplayerview/GLPicturePlayerView.java:96-107 | a user's stop is never looped: the player's stop that follows is reported, and the view stays stopped |
| GLPlayerView.OnlyStartLeavesStop | pictureplayerview/src/main/java/com/xiuyukeji/glpictureplayerview/GLPicturePlayerView.java:117-229 | from STOP, every operation except `start` leaves the view stopped, and `start` plays exactly when enabled |
| PlayerView.Create | pictureplayerview/src/main/java/com/xiuyukeji/pictureplayerview/PicturePlayerView.java:38-43 | a new view is stopped, enabled and unreleased, with no deferred start and no calls |
| PlayerView.IsPlaying | pictureplayerview/src/main/java/com/xiuyukeji/pictureplayerview/PicturePlayerView.java:251-253 | playing means started or stopping |
| PlayerView.SetEnabled | pictureplayerview/src/main/java/com/xiuyukeji/pictureplayerview/PicturePlayerView.java:109-111 | only the enabled flag changes |
| PlayerView.SetLoop | pictureplayerview/src/main/java/com/xiuyukeji/pictureplayerview/PicturePlayerView.java:194-196 | only the loop flag changes |
| PlayerView.SetDataSource | pictureplayerview/src/main/java/com/xiuyukeji/pictureplayerview/PicturePlayerView.java:139-144 | the source reaches the core only while stopped |
| PlayerView.SetScaleType | pictureplayerview/src/main/java/com/xiuyukeji/pictureplayerview/PicturePlayerView.java:182-187 | the scale type reaches the core only while stopped |
| PlayerView.Start | pictureplayerview/src/main/java/com/xiuyukeji/pictureplayerview/PicturePlayerView.java:149-162 | from STOP an enabled view starts the core; while stopping, the start is deferred; otherwise nothing happens |
| PlayerView.Stop | pictureplayerview/src/main/java/com/xiuyukeji/pictureplayerview/PicturePlayerView.java:167-175 | a started view cancels its core and waits in STOPPING; otherwise nothing happens |
| PlayerView.Release | pictureplayerview/src/main/java/com/xiuyukeji/pictureplayerview/PicturePlayerView.java:205-208 | stops, marks the view released, and leaves it not started |
| PlayerView.ClearSurface | pictureplayerview/src/main/java/com/xiuyukeji/pictureplayerview/PicturePlayerView.java:236-249 | the surface is cleared only when the view is not released and can draw |
| PlayerView.OnCoreStop | pictureplayerview/src/main/java/com/xiuyukeji/pictureplayerview/PicturePlayerView.java:89-105 | a looping view that was not asked to stop restarts the core; otherwise it clears, stops, calls the stop listener when one is set, and runs a deferred start |
| PlayerView.DeferredStartRuns | pictureplayerview/src/main/java/com/xiuyukeji/pictureplayerview/PicturePlayerView.java:89-162 | a start asked for while stopping runs once the core's stop arrives |
| PlayerView.StopIsNotLooped | pictureplayerview/src/main/java/com/xiuyukeji/pictureplayerview/PicturePlayerView.java:89-105 | a user's stop is never looped, even on a looping view |
| PlayerView.StopThenStart | pictureplayerview/src/main/java/com/xiuyukeji/pictureplayerview/PicturePlayerView.java:149-175 | stop is idempotent, and a start cannot cut a stop short |
| PlayerView.ReleasedNeverClears | pictureplayerview/src/main/java/com/xiuyukeji/pictureplayerview/PicturePlayerView.java:205-249 | after release the surface is never cleared again, not even by the core's stop |
| FpsMeasure.MeasureFps | app/src/main/java/com/xiuyukeji/pictureplayerview/sample/utils/FpsMeasureUtil.java:25-40 | the list keeps a suffix of the old timestamps plus now; exactly the leading ones older than one second are dropped |
| FpsMeasure.MeasureFpsKeepsWindow | app/src/main/java/com/xiuyukeji/pictureplayerview/sample/utils/FpsMeasureUtil.java:25-40 | for monotonic timestamps, the list holds exactly the timestamps of the last second, in order |
| FpsMeasure.FpsOf | app/src/main/java/com/xiuyukeji/pictureplayerview/sample/utils/FpsMeasureUtil.java:42-49 | no rate exactly with fewer than two timestamps; an infinite rate exactly when they all share one instant |
| FpsMeasure.FpsFormula | app/src/main/java/com/xiuyukeji/pictureplayerview/sample/utils/FpsMeasureUtil.java:47-48 | the formula is `1000·count/span − 1`, so a one-second span reads `count − 1` |
| FpsMeasure.EvenFramesRate | app/src/main/java/com/xiuyukeji/pictureplayerview/sample/utils/FpsMeasureUtil.java:47-48 | frames evenly spaced over exactly one second read `1000 / interval` |

## Left out

- Threads, `Thread.sleep`, `join`, `interrupt`, `wait` and `notify` are not modelled. Each thread's step is one atomic transition, so data races inside a step are out of scope. The interleavings across steps are in scope.
- File and asset I/O and the decoding itself are left out. Whether the next file opens (`openOk`) and whether its decode succeeds (`decodeOk`) are inputs, and so is whether a pooled buffer fits the next frame (`fits`).
- Drawing, scaling and the renderers (`PictureRenderer`, `GLPictureRenderer`, `OpenGLUtils`) are left out. They are canvas or OpenGL calls; a draw is recorded as a logged call.
- The `NoticeHandler` message relay is left out. Notices go straight into the log.
- The scheduler's wall clock and `double` arithmetic are idealised as exact `real`s with `now` as an input. Wake-up rounding is not modelled.
- The scheduler's `seekTo`, `isSeekToComplete` and `isCanceled` are not part of this model. The controller's seek takes "the seek completed" as an input. `PicturePlayer.Stop` reads `isCanceled` as the clock's cancel flag.
- `PicturePlayer.Start` does not show the reset that a failed start performs before throwing. The `Failure` result carries only the error.
- `ReusePool.Claim` is the claim the ring buffer is meant to perform. In the source the claim goes through the ring buffer's `remove` (PicturePlayer.java:294), whose upper-half fault (first row of "## Findings") can leave a null in the pool and lose a buffer unrecycled. The next scan then passes that null to `canUseForInBitmap`, which throws, and the reader ends with an error. The controller model does not follow that path.
- `PlayerView3.SurfaceDestroyed`: when the clock's `stop` throws, the `Failure` result carries only the error, although `readFrame` was already set to `frameCount`.
- `PlayerView4.SurfaceDestroyed`: the same as for the third player.
- `PlayerCore.Cancel`: when the clock's `stop` throws, the `Failure` result carries only the error, although the cancel flag is already set. `PlayerCore.Fail`, the catch block that meets this case, keeps the flag.
- `PlayerView3.ReadStep`: a decode that returns null is not distinguished from a decoded frame.
- `PlayerView4.ReadStep`: a decode that returns null is not distinguished from a decoded frame either.
- `PlayerView.Start` does not model the exception the core may throw after the state has already changed to START. `PlayerView.Stop` does not model an exception from the core's `cancel`, which is called before the state changes to STOPPING and would leave the view in START.
- `PicturePlayerView` builds its core with the old core's constructor, which does not match `PicturePlayer`'s constructor in this version of the source. The view is therefore modelled only through the calls it makes on its core.
- `GLPlayerView`: the player's answers (`isStarted`, the result of pause and resume) are inputs rather than a link to `PicturePlayer`.
- `FpsMeasure.FpsOf` computes over exact reals. The `float` rounding and the `DecimalFormat` text are not modelled.
- The annotations' integer ranges are preconditions (`frameCount >= 2`, capacity at least 2). Java `long` and `int` overflow is modelled only in the reuse test, where it matters.
- The step-1 and step-2 sample players, the activities and `PictureInfoUtil` are left out. They are demo screens around the same pieces.

## Findings

| source | as written | input that shows it | evidently intended | confidence | as-written member | corrected member |
|---|---|---|---|---|---|---|
| pictureplayerview/src/main/java/com/xiuyukeji/pictureplayerview/utils/CacheList.java:103-107 | removing from the upper half shifts the tail left but never moves the write cursor back | a 12-slot list `[1, 2, 3]`, `remove(2)`: it then reads `[2, null]`. Its production caller is the buffer claim at PicturePlayer.java:294: a pool `[a, b]` where only `b` fits then reads `[null]`, `a` is lost unrecycled, and the next scan throws on the null | the list reads `[1, 2]` | not executed; high | CacheList.UpperRemoveExample | CacheList.RemoveFixed |
| pictureplayerview/src/main/java/com/xiuyukeji/pictureplayerview/PicturePlayer.java:294 | the buffer claim removes through the ring buffer's `remove`, so the upper-half fault above reaches the reader | a 12-slot pool `[1, 2]` where only `2` fits: after the claim the pool reads `[null]`, buffer 1 is lost unrecycled, and the next scan hands null to `canUseForInBitmap`, which throws and ends the reader with an error | the pool reads `[1]` | not executed; high | PicturePlayer.ClaimThroughRingExample | ReusePool.Claim |
| pictureplayerview/src/main/java/com/xiuyukeji/pictureplayerview/utils/CacheList.java:91-95 | only `index >= size` is rejected | `remove(-1)` on `[1, 2, 3]` returns null and the list then reads `[2, 3]`; `remove(-10)` nulls the live element 3 and the list reads `[2, null]` | a negative index removes nothing | not executed; high | CacheList.NegativeRemoveExample | CacheList.RemoveFixed |
| pictureplayerview/src/main/java/com/xiuyukeji/pictureplayerview/utils/CacheList.java:123-136 | a negative count is subtracted from the size | `removeCount(-2)` on a full 3-slot list leaves size 5 | a non-positive count removes nothing | not executed; high | CacheList.NegativeRemoveCountExample | CacheList.RemoveCountFixed |
| pictureplayerview/src/main/java/com/xiuyukeji/scheduler/Scheduler.java:171-174 | `setSkipFrame` throws when the clock is NOT started | the controller's `start` calls it on a freshly built clock (PicturePlayer.java:101) and it throws | throw only once the clock has started, as its message says | not executed; high | Scheduler.SkipFrameOnFreshClock | Scheduler.SetSkipFrameFixed |
| pictureplayerview/src/main/java/com/xiuyukeji/pictureplayerview/utils/ImageUtil.java:30 | the byte count is computed in 32-bit `int` | a 32768×32768 ARGB_8888 request wraps to 0 bytes and fits a 1-byte buffer | compare the exact byte count | not executed; medium | ImageUtil.OverflowAcceptsTinyBuffer | ImageUtil.CanUseForInBitmapWide |
| pictureplayerview/src/main/java/com/xiuyukeji/pictureplayerview/PlayerCore.java:297-299 | teardown needs the clock's stop, which never comes if the clock never started | `cancel()` before the first frame is read: the reader exits, nothing is recycled and no stop is reported | also tear down when the clock never started, as PicturePlayer.java:351-352 does | not executed; medium | PlayerCore.CancelBeforeFirstFrameStalls | PlayerCore.ThreadStopFixed |
| app/src/main/java/com/xiuyukeji/pictureplayerview/sample/step3/PicturePlayerView3.java:87-90 | the reader thread starts before the clock is built | the reader decodes frame 0 before the constructor runs: starting the null clock throws, the reader ends, and nothing is ever drawn | build the clock before starting the reader | not executed; low (timing-dependent) | PlayerView3.ReaderOutrunsClock | PlayerView3.StartFixed |
| app/src/main/java/com/xiuyukeji/pictureplayerview/sample/step4/PicturePlayerView4.java:96-99 | the same ordering as the third player | the same interleaving | build the clock before starting the reader | not executed; low (timing-dependent) | PlayerView4.ReaderOutrunsClock | PlayerView4.StartFixed |
