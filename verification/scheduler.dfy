/** The frame clock. It delivers frame indices `0 .. frameCount-1` at a fixed
    interval `duration / (frameCount - 1)`, optionally skipping frames when a
    tick runs late, and can be paused, resumed and stopped once.

    The clock's own thread is modelled by its message queue: `framePending`
    is a queued frame tick and `quitPending` a queued manual quit. Each public
    call and each handled message is one atomic transition over an immutable
    `Clock`. Time is an input (`now`) and the interval is an exact `real`; the
    source's `double` arithmetic and the rounding of wake-up times are
    idealised. Listener calls are appended to `events`. */
module Scheduler {
  import opened Wrappers

  /** The runtime exceptions the scheduler throws on misuse. */
  datatype Misuse =
    | DurationTooShort   // "duration must be greater than frameCount"
    | AlreadyStarted     // "scheduler can only run once"
    | NotStarted         // "scheduler not yet running"
    | AlreadyStopped     // "scheduler has stopped"
    | SkipFrameRejected  // "scheduler has been running"

  /** The calls made to the frame listeners, in order. */
  datatype Event = OnStart | Update(index: int) | OnCancel | OnStop

  /** Where the clock's thread is: not created (`isStarted` false), created
      but its looper not yet prepared, delivering frames (`isRunning` true),
      or quit. */
  datatype Phase = Idle | Starting | Looping | Ended

  datatype Clock = Clock(
    frameCount: int,
    interval: real,      // mDelayTime
    scheduled: real,     // mCurrentUptimeMs
    index: int,          // mFrameIndex
    skipFrame: bool,
    phase: Phase,
    paused: bool,
    cancel: bool,
    framePending: bool,
    quitPending: bool,
    events: seq<Event>)

  predicate IsStarted(c: Clock) {
    c.phase != Idle
  }

  predicate IsRunning(c: Clock) {
    c.phase == Looping
  }

  /** The indices delivered through `onFrameUpdate`, in order. */
  function Delivered(events: seq<Event>): (d: seq<int>)
    ensures |d| <= |events|
  {
    if events == [] then []
    else Delivered(events[..|events| - 1])
         + (match events[|events| - 1] case Update(i) => [i] case _ => [])
  }

  lemma DeliveredAppend(events: seq<Event>, e: Event)
    ensures Delivered(events + [e]) == Delivered(events) + (if e.Update? then [e.index] else [])
  {
    assert (events + [e])[..|events|] == events;
  }

  predicate StrictlyIncreasing(s: seq<int>) {
    forall i, j :: 0 <= i < j < |s| ==> s[i] < s[j]
  }

  lemma AppendIncreasing(s: seq<int>, x: int)
    requires StrictlyIncreasing(s)
    requires s != [] ==> s[|s| - 1] < x
    ensures StrictlyIncreasing(s + [x])
  {
    var t := s + [x];
    forall i, j | 0 <= i < j < |t|
      ensures t[i] < t[j]
    {
      if j == |s| && i < |s| - 1 {
        assert s[i] < s[|s| - 1];
      }
    }
  }

  /** What every reachable clock satisfies. */
  ghost predicate Inv(c: Clock) {
    && c.frameCount >= 2 && c.interval > 0.0
    && (c.framePending ==> c.phase == Looping && !c.paused && !c.cancel)
    && (c.phase == Looping && !c.paused && !c.cancel ==> c.framePending)
    && (c.quitPending ==> c.phase == Looping && c.cancel && !c.framePending)
    && (c.phase == Idle || c.phase == Starting ==>
          c.events == [] && c.index == 0 && !c.paused && !c.cancel)
    && (c.phase == Looping ==>
          && 0 <= c.index < c.frameCount - 1
          && Delivered(c.events) != [] && Delivered(c.events)[|Delivered(c.events)| - 1] == c.index
          && OnStop !in c.events)
    && (c.phase == Ended ==>
          && !c.framePending && !c.quitPending
          && c.events != [] && c.events[|c.events| - 1] == OnStop)
    && StrictlyIncreasing(Delivered(c.events))
    && (forall k :: 0 <= k < |Delivered(c.events)| ==> 0 <= Delivered(c.events)[k] <= c.frameCount - 1)
  }

  /** The constructor. It throws when there are more frames than time units;
      otherwise the interval is `duration / (frameCount - 1)`. */
  function Create(duration: int, frameCount: int): (r: Result<Clock, Misuse>)
    requires frameCount >= 2
    ensures r.Failure? <==> frameCount > duration
    ensures r.Success? ==>
              && Inv(r.value) && !IsStarted(r.value) && !r.value.skipFrame
              && r.value.interval * (frameCount - 1) as real == duration as real
              && r.value.interval >= 1.0 / (frameCount - 1) as real
  {
    if frameCount > duration then Failure(DurationTooShort)
    else
      var interval := duration as real / (frameCount - 1) as real;
      Success(Clock(frameCount, interval, 0.0, 0, false, Idle, false, false, false, false, []))
  }

  /** `start`: allowed once; a second call throws. */
  function Start(c: Clock): (r: Result<Clock, Misuse>)
    ensures IsStarted(c) <==> r.Failure?
    ensures r.Success? ==> r.value == c.(phase := Starting) && IsStarted(r.value) && !IsRunning(r.value)
    ensures r.Success? && Inv(c) ==> Inv(r.value)
  {
    if IsStarted(c) then Failure(AlreadyStarted) else Success(c.(phase := Starting))
  }

  /** `setSkipFrame` as the source writes it: it throws when the clock has NOT
      been started, the opposite of what its documentation and its only
      caller expect. */
  function SetSkipFrame(c: Clock, skip: bool): (r: Result<Clock, Misuse>)
    ensures !IsStarted(c) ==> r.Failure?
    ensures IsStarted(c) ==> r == Success(c.(skipFrame := skip))
  {
    if !IsStarted(c) then Failure(SkipFrameRejected) else Success(c.(skipFrame := skip))
  }

  /** `setSkipFrame` as evidently intended: settable only before `start`. */
  function SetSkipFrameFixed(c: Clock, skip: bool): (r: Result<Clock, Misuse>)
    ensures IsStarted(c) ==> r.Failure?
    ensures !IsStarted(c) ==> r == Success(c.(skipFrame := skip))
    ensures r.Success? && Inv(c) ==> Inv(r.value)
  {
    if IsStarted(c) then Failure(SkipFrameRejected) else Success(c.(skipFrame := skip))
  }

  /** A freshly built clock cannot have skip-frame switched on as the source
      writes it, so the controller's `start` (construct, then
      `setSkipFrame(true)`) always throws; the corrected guard accepts it. */
  lemma SkipFrameOnFreshClock(duration: int, frameCount: int)
    requires 2 <= frameCount <= duration
    ensures SetSkipFrame(Create(duration, frameCount).value, true).Failure?
    ensures SetSkipFrameFixed(Create(duration, frameCount).value, true).Success?
    ensures SetSkipFrameFixed(Create(duration, frameCount).value, true).value.skipFrame
  {
  }

  /** `onLooperPrepared`: the clock starts running, reports its start,
      delivers frame 0 at once and schedules the next tick one interval
      later. */
  function LooperPrepared(c: Clock, now: real): (c': Clock)
    requires c.phase == Starting
    ensures IsRunning(c') && c'.framePending && c'.scheduled == now + c.interval
    ensures c'.events == c.events + [OnStart, Update(0)]
    ensures Inv(c) ==> Inv(c') && Delivered(c'.events) == [0]
  {
    var c' := c.(phase := Looping, scheduled := now + c.interval, framePending := true,
                 events := c.events + [OnStart, Update(0)]);
    DeliveredAppend(c.events, OnStart);
    DeliveredAppend(c.events + [OnStart], Update(0));
    c'
  }

  /** `pause`: effective only while running, not paused and not stopping; it
      then marks the clock paused and drops the queued tick. */
  function Pause(c: Clock): (r: (Clock, bool))
    ensures r.1 <==> IsRunning(c) && !c.paused && !c.cancel
    ensures r.1 ==> r.0 == c.(paused := true, framePending := false)
    ensures !r.1 ==> r.0 == c
    ensures Inv(c) ==> Inv(r.0)
  {
    if !IsRunning(c) || c.paused || c.cancel then (c, false)
    else (c.(paused := true, framePending := false), true)
  }

  /** `resume`: effective only while running, paused and not stopping; it
      clears the pause and re-bases the schedule at `now`, queueing a tick for
      `now` itself, so the paused time is not caught up. */
  function Resume(c: Clock, now: real): (r: (Clock, bool))
    ensures r.1 <==> IsRunning(c) && c.paused && !c.cancel
    ensures r.1 ==> r.0 == c.(paused := false, scheduled := now, framePending := true)
    ensures !r.1 ==> r.0 == c
    ensures Inv(c) ==> Inv(r.0)
  {
    if !IsRunning(c) || !c.paused || c.cancel then (c, false)
    else (c.(paused := false, scheduled := now, framePending := true), true)
  }

  /** Pausing twice: the second call has no effect. */
  lemma PauseTwice(c: Clock)
    requires Pause(c).1
    ensures !Pause(Pause(c).0).1
    ensures Pause(Pause(c).0).0 == Pause(c).0
  {
  }

  /** A successful pause followed by a resume restores the running clock,
      re-based at the time of the resume. */
  lemma PauseThenResume(c: Clock, now: real)
    requires Inv(c) && Pause(c).1
    ensures Resume(Pause(c).0, now).1
    ensures Resume(Pause(c).0, now).0 == c.(scheduled := now)
  {
  }

  /** `stop`: throws before `start` and after a previous effective stop; does
      nothing once the clock has finished by itself; otherwise marks it
      cancelled, drops the queued tick and queues a quit. */
  function Stop(c: Clock): (r: Result<Clock, Misuse>)
    ensures !IsStarted(c) ==> r == Failure(NotStarted)
    ensures IsStarted(c) && c.cancel ==> r == Failure(AlreadyStopped)
    ensures IsStarted(c) && !c.cancel && !IsRunning(c) ==> r == Success(c)
    ensures IsRunning(c) && !c.cancel ==>
              r == Success(c.(cancel := true, framePending := false, quitPending := true))
    ensures r.Success? && Inv(c) ==> Inv(r.value)
  {
    if !IsStarted(c) then Failure(NotStarted)
    else if c.cancel then Failure(AlreadyStopped)
    else if !IsRunning(c) then Success(c)
    else Success(c.(cancel := true, framePending := false, quitPending := true))
  }

  /** An effective stop cannot be repeated. */
  lemma StopTwice(c: Clock)
    requires IsRunning(c) && !c.cancel
    ensures Stop(c).Success? && Stop(Stop(c).value) == Failure(AlreadyStopped)
  {
  }

  lemma ScaleLt(a: real, b: real, k: real)
    requires a < b && k > 0.0
    ensures a * k < b * k
  {
    assert b * k - a * k == (b - a) * k;
  }

  lemma ScaleLe(a: real, b: real, k: real)
    requires a <= b && k > 0.0
    ensures a * k <= b * k
  {
    assert b * k - a * k == (b - a) * k;
  }

  /** The number of extra frames skipped for a lateness `lag`: the ceiling of
      `lag / interval` when `lag` is positive, else none. */
  function SkipCount(lag: real, interval: real): (k: int)
    requires interval > 0.0
    ensures lag <= 0.0 ==> k == 0
    ensures lag > 0.0 ==> k >= 1 && (k - 1) as real * interval < lag <= k as real * interval
  {
    if lag <= 0.0 then 0
    else
      var q := lag / interval;
      var k := if q.Floor as real == q then q.Floor else q.Floor + 1;
      CeilBounds(lag, interval, q, k);
      k
  }

  lemma CeilBounds(lag: real, interval: real, q: real, k: int)
    requires lag > 0.0 && interval > 0.0 && q == lag / interval
    requires k == if q.Floor as real == q then q.Floor else q.Floor + 1
    ensures k >= 1 && (k - 1) as real * interval < lag <= k as real * interval
  {
    assert q * interval == lag;
    if q <= 0.0 {
      ScaleLe(q, 0.0, interval);
    }
    assert (k - 1) as real < q <= k as real;
    ScaleLt((k - 1) as real, q, interval);
    ScaleLe(q, k as real, interval);
  }

  /** The frame-message handler. With skip-frame on, a tick that runs more
      than one interval late first jumps the index (and the schedule) by
      `ceil(lag / interval)` frames, where `lag` is how far the tick is behind
      the following deadline. The index then moves on by one; reaching the
      last frame delivers `frameCount - 1` and quits, otherwise the new index
      is delivered and, unless paused or stopping, the next tick is queued one
      interval after the (possibly advanced) schedule. */
  function HandleFrame(c: Clock, now: real): (c': Clock)
    requires c.phase == Looping && c.framePending && c.interval > 0.0
    ensures var lag := now - c.scheduled - c.interval;
            var skip := c'.index - c.index - 1;
            && skip >= 0
            && (!c.skipFrame || lag <= 0.0 ==> skip == 0)
            && (c.skipFrame && lag > 0.0 ==>
                  (skip - 1) as real * c.interval < lag <= skip as real * c.interval)
    ensures c'.index >= c.frameCount - 1 ==>
              && c'.phase == Ended && !c'.framePending
              && c'.events == c.events + [Update(c.frameCount - 1), OnStop]
    ensures c'.index < c.frameCount - 1 ==>
              && c'.phase == Looping
              && c'.events == c.events + [Update(c'.index)]
              && (c'.framePending <==> !c.paused && !c.cancel)
              && c'.scheduled == c.scheduled + (c'.index - c.index - 1) as real * c.interval
                                 + (if c'.framePending then c.interval else 0.0)
    ensures c'.frameCount == c.frameCount && c'.interval == c.interval && c'.skipFrame == c.skipFrame
    ensures c'.paused == c.paused && c'.cancel == c.cancel && c'.quitPending == c.quitPending
  {
    var skip := if c.skipFrame then SkipCount(now - c.scheduled - c.interval, c.interval) else 0;
    var index := c.index + skip + 1;
    var scheduled := c.scheduled + skip as real * c.interval;
    if index >= c.frameCount - 1 then
      c.(index := index, scheduled := scheduled, phase := Ended, framePending := false,
         events := c.events + [Update(c.frameCount - 1), OnStop])
    else
      var rearm := !c.paused && !c.cancel;
      c.(index := index,
         scheduled := if rearm then scheduled + c.interval else scheduled,
         framePending := rearm,
         events := c.events + [Update(index)])
  }

  /** Handling a frame keeps the clock's invariant: delivered indices stay
      strictly increasing and within `0 .. frameCount-1`, and the clock ends
      exactly when it delivers the last frame. */
  lemma HandleFrameKeepsInv(c: Clock, now: real)
    requires Inv(c) && c.phase == Looping && c.framePending
    ensures Inv(HandleFrame(c, now))
  {
    var c' := HandleFrame(c, now);
    if c'.index >= c.frameCount - 1 {
      FinalFrameKeepsInv(c, c');
    } else {
      NextFrameKeepsInv(c, c');
    }
  }

  lemma FinalFrameKeepsInv(c: Clock, c': Clock)
    requires Inv(c) && c.phase == Looping && c.framePending
    requires c'.phase == Ended && !c'.framePending && !c'.quitPending
    requires c'.frameCount == c.frameCount && c'.interval == c.interval
    requires c'.paused == c.paused && c'.cancel == c.cancel
    requires c'.events == c.events + [Update(c.frameCount - 1), OnStop]
    ensures Inv(c')
  {
    DeliveredAppend(c.events, Update(c.frameCount - 1));
    DeliveredAppend(c.events + [Update(c.frameCount - 1)], OnStop);
    assert c.events + [Update(c.frameCount - 1)] + [OnStop] == c'.events;
    DeliveredGrows(c, c'.events, c.frameCount - 1);
  }

  lemma NextFrameKeepsInv(c: Clock, c': Clock)
    requires Inv(c) && c.phase == Looping && c.framePending
    requires c'.phase == Looping && c.index < c'.index < c.frameCount - 1
    requires c'.frameCount == c.frameCount && c'.interval == c.interval
    requires c'.paused == c.paused && c'.cancel == c.cancel && c'.quitPending == c.quitPending
    requires c'.framePending <==> !c.paused && !c.cancel
    requires c'.events == c.events + [Update(c'.index)]
    ensures Inv(c')
  {
    DeliveredAppend(c.events, Update(c'.index));
    DeliveredGrows(c, c'.events, c'.index);
  }

  /** Appending an index beyond the running clock's current one, and at most
      the last frame, keeps the delivered indices increasing and in range. */
  lemma DeliveredGrows(c: Clock, events: seq<Event>, x: int)
    requires Inv(c) && c.phase == Looping && c.index < x <= c.frameCount - 1
    requires Delivered(events) == Delivered(c.events) + [x]
    ensures StrictlyIncreasing(Delivered(events))
    ensures forall k :: 0 <= k < |Delivered(events)| ==> 0 <= Delivered(events)[k] <= c.frameCount - 1
  {
    AppendIncreasing(Delivered(c.events), x);
  }

  /** A frame index beyond the running clock's current one extends the
      delivered indices in increasing order. */
  lemma AppendIncreasingWhenLooping(c: Clock, x: int)
    requires Inv(c) && c.phase == Looping && x > c.index
    ensures StrictlyIncreasing(Delivered(c.events) + [x])
  {
    AppendIncreasing(Delivered(c.events), x);
  }

  /** The manual-quit handler: reports the cancellation, then quits, which
      discards whatever is still queued. */
  function HandleQuit(c: Clock): (c': Clock)
    requires c.phase == Looping && c.quitPending
    ensures c'.phase == Ended && !c'.framePending && !c'.quitPending
    ensures c'.events == c.events + [OnCancel, OnStop]
    ensures Delivered(c'.events) == Delivered(c.events)
    ensures Inv(c) ==> Inv(c')
  {
    DeliveredAppend(c.events, OnCancel);
    DeliveredAppend(c.events + [OnCancel], OnStop);
    assert c.events + [OnCancel] + [OnStop] == c.events + [OnCancel, OnStop];
    c.(phase := Ended, framePending := false, quitPending := false,
       events := c.events + [OnCancel, OnStop])
  }

  /** The frame ticks handled at the given times, one per time, for as long as
      a tick is queued. */
  function Run(c: Clock, nows: seq<real>): (c': Clock)
    requires Inv(c)
    ensures Inv(c')
    ensures c'.frameCount == c.frameCount && c'.skipFrame == c.skipFrame
    ensures c.phase == Ended ==> c' == c
    decreases |nows|
  {
    if nows == [] || !c.framePending then c
    else
      HandleFrameKeepsInv(c, nows[0]);
      Run(HandleFrame(c, nows[0]), nows[1..])
  }

  /** The updates for the frames `a .. b-1`, in order. */
  function Frames(a: int, b: int): (s: seq<Event>)
    requires a <= b
    ensures |s| == b - a
    ensures forall i :: 0 <= i < |s| ==> s[i] == Update(a + i)
  {
    seq(b - a, i => Update(a + i))
  }

  lemma FramesCons(a: int, b: int)
    requires a < b
    ensures Frames(a, b) == [Update(a)] + Frames(a + 1, b)
  {
    var l, r := Frames(a, b), [Update(a)] + Frames(a + 1, b);
    assert |l| == |r|;
    forall i | 0 <= i < |l|
      ensures l[i] == r[i]
    {
      if i > 0 {
        assert r[i] == Frames(a + 1, b)[i - 1];
      }
    }
  }

  /** Without skip-frame and without pause or stop, a running clock delivers
      every remaining frame once, in order, and then stops: one tick per
      frame suffices, whenever the ticks happen. */
  lemma {:induction false} NoSkipRunDeliversEveryFrame(c: Clock, nows: seq<real>)
    requires Inv(c) && c.phase == Looping && c.framePending && !c.skipFrame
    requires |nows| >= c.frameCount - 1 - c.index
    ensures Run(c, nows).phase == Ended
    ensures Run(c, nows).events == c.events + Frames(c.index + 1, c.frameCount) + [OnStop]
    decreases c.frameCount - c.index
  {
    var c1 := HandleFrame(c, nows[0]);
    HandleFrameKeepsInv(c, nows[0]);
    assert c1.index == c.index + 1;
    assert Run(c, nows) == Run(c1, nows[1..]);
    if c1.index >= c.frameCount - 1 {
      FramesCons(c.index + 1, c.frameCount);
    } else {
      NoSkipRunDeliversEveryFrame(c1, nows[1..]);
      FramesCons(c.index + 1, c.frameCount);
    }
  }

  /** A running clock with a tick queued (so neither paused nor stopped),
      skip-frame on or off, ends within one tick per remaining frame, whenever the ticks
      happen: its last events are the final frame and the stop, and what it
      reported before is kept. */
  lemma {:induction false} SkipRunEnds(c: Clock, nows: seq<real>)
    requires Inv(c) && c.phase == Looping && c.framePending
    requires |nows| >= c.frameCount - 1 - c.index
    ensures var e := Run(c, nows).events;
            && Run(c, nows).phase == Ended
            && |e| >= |c.events| + 2 && e[..|c.events|] == c.events
            && e[|e| - 2..] == [Update(c.frameCount - 1), OnStop]
    decreases c.frameCount - c.index
  {
    var c1 := HandleFrame(c, nows[0]);
    HandleFrameKeepsInv(c, nows[0]);
    assert Run(c, nows) == Run(c1, nows[1..]);
    if c1.index < c.frameCount - 1 {
      SkipRunEnds(c1, nows[1..]);
      var e := Run(c1, nows[1..]).events;
      assert e[..|c.events|] == e[..|c1.events|][..|c.events|];
    }
  }

  lemma Regroup(x: Event, y: Event, s: seq<Event>, t: seq<Event>)
    ensures [x, y] + s + t == [x] + ([y] + s) + t
  {
  }

  /** A fresh clock, once started and prepared, is running without
      skip-frame, has reported its start and frame 0, and waits for its
      next tick. */
  lemma FreshClockPrepared(duration: int, frameCount: int, t0: real) returns (c: Clock)
    requires 2 <= frameCount <= duration
    ensures c == LooperPrepared(Start(Create(duration, frameCount).value).value, t0)
    ensures && Inv(c) && c.phase == Looping && c.framePending && !c.skipFrame
            && c.index == 0 && c.frameCount == frameCount && c.events == [OnStart, Update(0)]
  {
    var c0 := Create(duration, frameCount).value;
    var c1 := Start(c0).value;
    assert Inv(c1) && c1.phase == Starting && c1.events == [] && c1.index == 0;
    c := LooperPrepared(c1, t0);
  }

  /** A running clock without skip-frame that has reported its start and
      frame 0 goes on to report every later frame, in order, then `onStop`. */
  lemma RunFromFrameZero(c: Clock, nows: seq<real>)
    requires Inv(c) && c.phase == Looping && c.framePending && !c.skipFrame
    requires c.index == 0 && c.events == [OnStart, Update(0)] && |nows| >= c.frameCount - 1
    ensures Run(c, nows).events == [OnStart] + Frames(0, c.frameCount) + [OnStop]
  {
    NoSkipRunDeliversEveryFrame(c, nows);
    var f1 := Frames(1, c.frameCount);
    FramesCons(0, c.frameCount);
    Regroup(OnStart, Update(0), f1, [OnStop]);
  }

  /** A whole run of a fresh clock without skip-frame: after its start it
      reports `onStart`, then every frame `0 .. frameCount-1` exactly once and
      in order, then `onStop`. */
  lemma FreshRunDeliversEveryFrame(duration: int, frameCount: int, t0: real, nows: seq<real>)
    requires 2 <= frameCount <= duration && |nows| >= frameCount - 1
    ensures var c := LooperPrepared(Start(Create(duration, frameCount).value).value, t0);
            Run(c, nows).events == [OnStart] + Frames(0, frameCount) + [OnStop]
  {
    var c := FreshClockPrepared(duration, frameCount, t0);
    RunFromFrameZero(c, nows);
  }

  /** With skip-frame on and a 10 ms interval, a tick 35 ms behind its own
      deadline (25 ms behind the next) skips three frames besides the usual
      one, and the schedule moves forward by the same four intervals. */
  lemma LateTickSkips(c: Clock)
    requires c.phase == Looping && c.framePending && !c.paused && !c.cancel
    requires c.skipFrame && c.interval == 10.0 && c.index + 4 < c.frameCount - 1
    ensures HandleFrame(c, c.scheduled + 35.0).index == c.index + 4
    ensures HandleFrame(c, c.scheduled + 35.0).scheduled == c.scheduled + 40.0
    ensures HandleFrame(c, c.scheduled + 35.0).events == c.events + [Update(c.index + 4)]
  {
  }

  /** Once the clock has ended nothing revives it: start throws, pause and
      resume report failure, and stop either throws (after an earlier stop)
      or changes nothing. */
  lemma EndedClockIsInert(c: Clock, now: real, skip: bool)
    requires c.phase == Ended
    ensures Start(c).Failure? && !Pause(c).1 && !Resume(c, now).1
    ensures Stop(c) == (if c.cancel then Failure(AlreadyStopped) else Success(c))
    ensures SetSkipFrameFixed(c, skip).Failure?
  {
  }
}
