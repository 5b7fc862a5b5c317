/** The first playback core: a reader thread decodes frames into a fixed ring
    of six slots, the frame clock's update listener draws the oldest cached
    frame and hands its buffer to an unbounded list of reusable buffers, and
    the decoder claims its next buffer from that list. The ring is
    `CursorRing`; the reusable list and the buffers given to `recycleBitmap`
    are a `Reuse`. Threads are interleaved as atomic steps (one reader
    iteration, one listener call, one public call). */
module PlayerCore {
  import opened Wrappers
  import opened ReusePool
  import CursorRing
  import Scheduler

  /** `MAX_CACHE_NUMBER`, the number of ring slots. */
  const MaxCacheNumber: int := 6
  /** `MAX_REUSABLE_NUMBER`: what a claim that finds nothing trims the list to. */
  const MaxReusableNumber: int := MaxCacheNumber + 4

  /** What the core reports: a frame drawn (and `noticeUpdate`), the stop,
      or a read error. */
  datatype Notice<B> = Drawn(frameIndex: int, bitmap: B) | Stopped | Error

  datatype Core<B> = Core(
    duration: int,
    frameCount: int,
    ring: CursorRing.Ring<B>,   // mCacheBitmaps with mReadIndex, mPlayIndex, mCacheCount
    reuse: Reuse<B>,            // mReusableBitmaps and what was recycled
    readFrame: int,
    readCancel: bool,
    playCancel: bool,
    cancel: bool,
    reading: bool,              // the read thread is alive
    clock: Option<Scheduler.Clock>,
    notices: seq<Notice<B>>)

  ghost predicate Valid<B>(p: Core<B>) {
    CursorRing.Valid(p.ring) && |p.ring.slots| == MaxCacheNumber
  }

  /** The cached buffer of frame `i`: the ring holds frames
      `readFrame - count .. readFrame - 1`, oldest first. */
  ghost function FrameAt<B>(p: Core<B>, i: int): Option<B>
    requires Valid(p)
  {
    var first := p.readFrame - p.ring.count;
    if first <= i < p.readFrame then Some(CursorRing.Contents(p.ring)[i - first]) else None
  }

  /** The constructor: six empty slots and no reusable buffer. */
  function Create<B>(): (p: Core<B>)
    ensures Valid(p) && CursorRing.Contents(p.ring) == [] && p.reuse == Reuse([], [])
    ensures p.readFrame == 0 && !p.cancel && !p.reading && p.clock.None? && p.notices == []
  {
    Core(0, 0, CursorRing.Empty(MaxCacheNumber), Reuse([], []), 0, false, false, false, false, None, [])
  }

  function SetDataSource<B>(p: Core<B>, duration: int, frameCount: int): (p': Core<B>)
    ensures p' == p.(duration := duration, frameCount := frameCount)
    ensures Valid(p) ==> Valid(p')
  {
    p.(duration := duration, frameCount := frameCount)
  }

  /** `start`: builds a fresh clock (which throws when there are more frames
      than time units) and starts the reader. Nothing is reset here: the
      previous run's teardown did that. */
  function Start<B>(p: Core<B>): (r: Result<Core<B>, Scheduler.Misuse>)
    requires p.frameCount >= 2
    ensures r.Failure? <==> p.frameCount > p.duration
    ensures r.Success? ==>
              && r.value.clock.Some? && r.value.reading
              && Scheduler.Inv(r.value.clock.value) && !Scheduler.IsStarted(r.value.clock.value)
              && !r.value.clock.value.skipFrame
              && r.value == p.(clock := r.value.clock, reading := true)
  {
    match Scheduler.Create(p.duration, p.frameCount)
    case Failure(e) => Failure(e)
    case Success(c) => Success(p.(clock := Some(c), reading := true))
  }

  /** `cancel`: marks the core cancelled and stops the clock if it is
      running. The clock's `stop` throws if it was already stopped. */
  function Cancel<B>(p: Core<B>): (r: Result<Core<B>, Scheduler.Misuse>)
    requires p.clock.Some?
    ensures r.Failure? <==> Scheduler.IsRunning(p.clock.value) && p.clock.value.cancel
    ensures r.Success? && !Scheduler.IsRunning(p.clock.value) ==> r.value == p.(cancel := true)
    ensures r.Success? && Scheduler.IsRunning(p.clock.value) ==>
              && r.value.clock.Some? && r.value.clock.value.cancel && r.value.clock.value.quitPending
              && r.value == p.(cancel := true, clock := r.value.clock)
  {
    var c := p.clock.value;
    if !Scheduler.IsRunning(c) then Success(p.(cancel := true))
    else
      match Scheduler.Stop(c)
      case Failure(e) => Failure(e)
      case Success(c') => Success(p.(cancel := true, clock := Some(c')))
  }

  /** `getBitmapFromReusableSet`: the first compatible buffer leaves the
      list; when none is compatible, the oldest buffers beyond
      `MaxReusableNumber` are recycled. No buffer is lost either way. */
  function ClaimReusable<B>(r: Reuse<B>, fits: B -> bool): (res: (Option<B>, Reuse<B>))
    ensures res.0 == Claim(r.pool, fits).0
    ensures res.0.Some? ==> res.1 == r.(pool := Claim(r.pool, fits).1)
    ensures res.0.None? ==>
              && |res.1.pool| == (if |r.pool| > MaxReusableNumber then MaxReusableNumber else |r.pool|)
              && res.1.pool == r.pool[|r.pool| - |res.1.pool|..]
              && res.1.recycled == r.recycled + r.pool[..|r.pool| - |res.1.pool|]
  {
    var (claimed, rest) := Claim(r.pool, fits);
    if claimed.Some? then (claimed, r.(pool := rest))
    else if |r.pool| > MaxReusableNumber then
      var k := |r.pool| - MaxReusableNumber;
      assert r.pool == r.pool[..k] + r.pool[k..];
      (None, Reuse(r.pool[k..], r.recycled + r.pool[..k]))
    else (None, r)
  }

  /** A claim only moves buffers: the claimed one (if any) plus everything
      left in the list or recycled is exactly what was there before. */
  lemma ClaimReusableKeepsBuffers<B>(r: Reuse<B>, fits: B -> bool)
    ensures var (claimed, r') := ClaimReusable(r, fits);
            multiset(Released(r')) + (if claimed.Some? then multiset{claimed.value} else multiset{})
              == multiset(Released(r))
  {
    var (c, rest) := Claim(r.pool, fits);
    if c.Some? {
      ClaimedKeepsBuffers(r, fits);
    } else if |r.pool| > MaxReusableNumber {
      var k := |r.pool| - MaxReusableNumber;
      assert r.pool == r.pool[..k] + r.pool[k..];
      assert Released(ClaimReusable(r, fits).1) == r.recycled + r.pool[..k] + r.pool[k..];
    }
  }

  lemma ClaimedKeepsBuffers<B>(r: Reuse<B>, fits: B -> bool)
    requires Claim(r.pool, fits).0.Some?
    ensures var (c, rest) := Claim(r.pool, fits);
            multiset(r.recycled + rest) + multiset{c.value} == multiset(Released(r))
  {
    var (c, rest) := Claim(r.pool, fits);
    var k := FirstFit(r.pool, fits).value;
    var x, a, b := c.value, rest[..k], rest[k..];
    assert r.pool == a + [x] + b;
    assert rest == a + b;
    assert multiset(r.pool) == multiset(a) + multiset{x} + multiset(b);
    assert multiset(rest) == multiset(a) + multiset(b);
  }

  /** `threadStop` as the source writes it: the teardown runs only once both
      the reader and the clock have reported their end. It recycles the
      buffers left in the slots (walking them from slot 0) and then the
      reusable list, zeroes the cursors, counters and flags, and reports the
      stop. */
  function ThreadStop<B>(p: Core<B>): (p': Core<B>)
    requires Valid(p)
    ensures Valid(p')
    ensures !(p.readCancel && p.playCancel) ==> p' == p
    ensures p.readCancel && p.playCancel ==> Torn(p, p')
  {
    if !p.readCancel || !p.playCancel then p else Teardown(p)
  }

  /** The teardown's result: empty stores, zeroed cursors and flags, the
      held and reusable buffers recycled, the stop reported. */
  ghost predicate Torn<B>(p: Core<B>, p': Core<B>)
    requires Valid(p) && Valid(p')
  {
    && CursorRing.Contents(p'.ring) == [] && p'.ring.readIndex == 0 && p'.ring.playIndex == 0
    && p'.reuse.pool == []
    && p'.reuse.recycled == p.reuse.recycled + CursorRing.Held(p.ring.slots) + p.reuse.pool
    && p'.readFrame == 0 && !p'.readCancel && !p'.playCancel && !p'.cancel
    && p'.notices == p.notices + [Stopped]
    && p'.clock == p.clock && p'.reading == p.reading
  }

  function Teardown<B>(p: Core<B>): (p': Core<B>)
    requires Valid(p)
    ensures Valid(p') && Torn(p, p')
  {
    p.(ring := CursorRing.Empty(MaxCacheNumber),
       reuse := Reuse([], p.reuse.recycled + CursorRing.Held(p.ring.slots) + p.reuse.pool),
       readFrame := 0, readCancel := false, playCancel := false, cancel := false,
       notices := p.notices + [Stopped])
  }

  /** `threadStop` as evidently intended, the condition the later controller
      uses: the teardown also runs when the reader has ended and the clock
      never started, since a clock that never started never reports its
      end. */
  function ThreadStopFixed<B>(p: Core<B>): (p': Core<B>)
    requires Valid(p) && p.clock.Some?
    ensures Valid(p')
    ensures var fires := p.readCancel && (p.playCancel || !Scheduler.IsStarted(p.clock.value));
            && (fires ==> Torn(p, p'))
            && (!fires ==> p' == p)
  {
    if !p.readCancel || (!p.playCancel && Scheduler.IsStarted(p.clock.value)) then p
    else Teardown(p)
  }

  /** The teardown recycles every frame still held in the ring, and nothing
      else from it. */
  lemma TeardownRecyclesHeld<B>(p: Core<B>, x: B)
    requires Valid(p)
    ensures x in CursorRing.Contents(p.ring) <==> x in CursorRing.Held(p.ring.slots)
    ensures x in CursorRing.Contents(p.ring) ==> x in Teardown(p).reuse.recycled
  {
    CursorRing.HeldContents(p.ring, x);
  }

  /** The reader's exit: it marks itself done and tries the teardown. */
  function ReadExit<B>(p: Core<B>): (p': Core<B>)
    requires Valid(p) && p.clock.Some?
    ensures Valid(p') && !p'.reading && p'.clock == p.clock
    ensures p'.notices == p.notices || p'.notices == p.notices + [Stopped]
    ensures p.playCancel || !Scheduler.IsStarted(p.clock.value) ==> p'.notices == p.notices + [Stopped]
    ensures !p.playCancel && Scheduler.IsStarted(p.clock.value) ==>
              p' == p.(readCancel := true, reading := false)
  {
    ThreadStopFixed(p.(readCancel := true, reading := false))
  }

  /** The clock's `onStop` listener: playback is over; try the teardown. */
  function OnClockStop<B>(p: Core<B>): (p': Core<B>)
    requires Valid(p) && p.clock.Some?
    ensures Valid(p') && p'.clock == p.clock
    ensures p.readCancel ==> p'.notices == p.notices + [Stopped]
    ensures !p.readCancel ==> p' == p.(playCancel := true)
  {
    ThreadStopFixed(p.(playCancel := true))
  }

  /** The source's teardown condition leaves a core that is cancelled before
      its first frame (or whose first decode fails) stuck: the clock never
      started, so it never reports its end, the reader's exit does not tear
      down, the stop is never reported and `cancel` stays set, so the next
      `start`'s reader exits at once. The corrected condition tears down. */
  lemma CancelBeforeFirstFrameStalls<B>(duration: int, frameCount: int)
    requires 2 <= frameCount <= duration
    ensures var p0 := SetDataSource(Create<B>(), duration, frameCount);
            var p1 := Start(p0).value;
            var p2 := Cancel(p1).value;
            var p3 := p2.(readCancel := true, reading := false);
            && ThreadStop(p3) == p3 && Stopped !in ThreadStop(p3).notices && ThreadStop(p3).cancel
            && ReadExit(p2).notices == [Stopped] && !ReadExit(p2).cancel
  {
  }

  /** The store of a decoded frame: it goes into the slot under the write
      cursor and the reader moves to the next frame. */
  function Store<B>(p: Core<B>, buffer: B): (p': Core<B>)
    requires Valid(p) && p.ring.count < MaxCacheNumber
    ensures Valid(p') && p'.readFrame == p.readFrame + 1
    ensures CursorRing.Contents(p'.ring) == CursorRing.Contents(p.ring) + [buffer]
    ensures p' == p.(ring := p'.ring, readFrame := p.readFrame + 1)
  {
    p.(ring := CursorRing.Put(p.ring, buffer), readFrame := p.readFrame + 1)
  }

  /** The write of a decoded frame: it is stored, and reading frame 0 starts
      the clock. Starting throws when the clock has already been started. */
  function Write<B>(p: Core<B>, buffer: B): (r: Result<Core<B>, Scheduler.Misuse>)
    requires Valid(p) && p.clock.Some? && p.ring.count < MaxCacheNumber
    ensures r.Failure? <==> p.readFrame == 0 && Scheduler.IsStarted(p.clock.value)
    ensures r.Success? ==>
              && Valid(r.value) && r.value.readFrame == p.readFrame + 1
              && CursorRing.Contents(r.value.ring) == CursorRing.Contents(p.ring) + [buffer]
              && r.value.clock.Some?
              && (p.readFrame == 0 ==> Scheduler.IsStarted(r.value.clock.value))
              && (p.readFrame != 0 ==> r.value.clock == p.clock)
              && r.value == p.(ring := r.value.ring, readFrame := p.readFrame + 1, clock := r.value.clock)
  {
    var p1 := Store(p, buffer);
    if p1.readFrame == 1 then
      match Scheduler.Start(p.clock.value)
      case Failure(e) => Failure(e)
      case Success(c) => Success(p1.(clock := Some(c)))
    else Success(p1)
  }

  /** The catch block of the reader: `cancel` (which may itself throw, and
      then the thread ends without reporting anything, its cancel flag
      already set), the error notice, and the reader's exit. */
  function Fail<B>(p: Core<B>): (p': Core<B>)
    requires Valid(p) && p.clock.Some?
    ensures Valid(p') && !p'.reading
    ensures Cancel(p).Success? ==> p'.notices == p.notices + [Error] || p'.notices == p.notices + [Error, Stopped]
    ensures Cancel(p).Failure? ==> p' == p.(cancel := true, reading := false)
  {
    match Cancel(p)
    case Failure(_) => p.(cancel := true, reading := false)
    case Success(p1) =>
      var p2 := p1.(notices := p1.notices + [Error]);
      ReadExit(p2)
  }

  /** A catch block whose `cancel` throws still leaves the core cancelled:
      a reader started on it afterwards exits on its first iteration. */
  lemma FailedCancelStaysCancelled<B>(p: Core<B>, fits: B -> bool, blank: B, openOk: bool, decodeOk: bool)
    requires Valid(p) && p.clock.Some? && Cancel(p).Failure?
    ensures Fail(p).cancel && !Fail(p).reading
    ensures var q := Fail(p).(reading := true);
            ReadStep(q, fits, blank, openOk, decodeOk) == ReadExit(q)
  {
  }

  /** One iteration of the read thread. It exits once cancelled or once
      every frame has been read, and waits (no change) while all six slots
      are full. Otherwise it opens the next file, claims a reusable buffer
      (or takes a `blank` one) and decodes the next frame into it. A failed
      open (`openOk` false) goes to the catch block before any claim; a
      failed decode goes there after it, and the claimed buffer is dropped.
      A clock that refuses to start goes there after the frame was stored,
      so the teardown can still recycle it. */
  function ReadStep<B>(p: Core<B>, fits: B -> bool, blank: B, openOk: bool, decodeOk: bool): (p': Core<B>)
    requires Valid(p) && p.clock.Some? && p.reading
    ensures Valid(p')
    ensures p.cancel || p.readFrame >= p.frameCount ==> p' == ReadExit(p)
    ensures !p.cancel && p.readFrame < p.frameCount && p.ring.count >= MaxCacheNumber ==> p' == p
    ensures var decodes := !p.cancel && p.readFrame < p.frameCount && p.ring.count < MaxCacheNumber;
            var (claimed, r1) := ClaimReusable(p.reuse, fits);
            var buffer := if claimed.Some? then claimed.value else blank;
            && (decodes && !openOk ==> p' == Fail(p))
            && (decodes && openOk && !decodeOk ==> p' == Fail(p.(reuse := r1)))
            && (decodes && openOk && decodeOk && Write(p.(reuse := r1), buffer).Success? ==>
                  p' == Write(p.(reuse := r1), buffer).value)
            && (decodes && openOk && decodeOk && Write(p.(reuse := r1), buffer).Failure? ==>
                  p' == Fail(Store(p.(reuse := r1), buffer)))
  {
    if p.cancel || p.readFrame >= p.frameCount then ReadExit(p)
    else if p.ring.count >= MaxCacheNumber then p
    else if !openOk then Fail(p)
    else
      var (claimed, r1) := ClaimReusable(p.reuse, fits);
      var p1 := p.(reuse := r1);
      if !decodeOk then Fail(p1)
      else
        var buffer := if claimed.Some? then claimed.value else blank;
        match Write(p1, buffer)
        case Failure(_) => Fail(Store(p1, buffer))
        case Success(p2) => p2
  }

  /** The frame-update listener. It does nothing when the ring is empty or
      the requested frame has not been read yet; otherwise it draws the
      oldest cached frame under the requested index, then clears its slot,
      appends its buffer to the reusable list and moves the read cursor on. */
  function OnFrameUpdate<B>(p: Core<B>, frameIndex: int): (p': Core<B>)
    requires Valid(p)
    ensures Valid(p')
    ensures p.ring.count <= 0 || frameIndex >= p.readFrame ==> p' == p
    ensures p.ring.count > 0 && frameIndex < p.readFrame ==>
              var held := CursorRing.Contents(p.ring);
              && CursorRing.Contents(p'.ring) == held[1..]
              && p'.notices == p.notices + [Drawn(frameIndex, held[0])]
              && p'.reuse == p.reuse.(pool := p.reuse.pool + [held[0]])
              && p'.ring.readIndex == p.ring.readIndex
              && p' == p.(ring := p'.ring, reuse := p'.reuse, notices := p'.notices)
  {
    if p.ring.count <= 0 || frameIndex >= p.readFrame then p
    else
      var (ring', bitmap) := CursorRing.Take(p.ring);
      p.(ring := ring', reuse := p.reuse.(pool := p.reuse.pool + [bitmap]),
         notices := p.notices + [Drawn(frameIndex, bitmap)])
  }

  /** The drawn buffer is the one decoded for frame `readFrame - count`, the
      oldest cached frame, which need not be the requested index; the frames
      after it stay cached in the same buffers. */
  lemma OnFrameUpdateFrames<B>(p: Core<B>, frameIndex: int)
    requires Valid(p) && p.ring.count > 0 && frameIndex < p.readFrame
    ensures var first := p.readFrame - p.ring.count;
            var p' := OnFrameUpdate(p, frameIndex);
            && FrameAt(p, first).Some?
            && p'.notices == p.notices + [Drawn(frameIndex, FrameAt(p, first).value)]
            && FrameAt(p', first).None?
            && forall j :: j != first ==> FrameAt(p', j) == FrameAt(p, j)
  {
    var p' := OnFrameUpdate(p, frameIndex);
    var held := CursorRing.Contents(p.ring);
    assert CursorRing.Contents(p'.ring) == held[1..];
  }

  /** A frame written into an empty ring is the next one drawn. */
  lemma WriteThenDraw<B>(p: Core<B>, buffer: B, frameIndex: int)
    requires Valid(p) && p.clock.Some? && CursorRing.Contents(p.ring) == [] && p.readFrame != 0
    requires frameIndex <= p.readFrame
    ensures Write(p, buffer).Success?
    ensures var p' := OnFrameUpdate(Write(p, buffer).value, frameIndex);
            && p'.notices == p.notices + [Drawn(frameIndex, buffer)]
            && CursorRing.Contents(p'.ring) == []
            && p'.reuse.pool == p.reuse.pool + [buffer]
  {
    var p1 := Write(p, buffer).value;
    assert CursorRing.Contents(p1.ring) == [buffer];
  }

  /** Drawing moves a buffer from the ring to the reusable list and loses
      none: the held frames plus the reusable and recycled buffers are the
      same before and after. */
  lemma OnFrameUpdateKeepsBuffers<B>(p: Core<B>, frameIndex: int)
    requires Valid(p)
    ensures var p' := OnFrameUpdate(p, frameIndex);
            multiset(CursorRing.Contents(p'.ring)) + multiset(Released(p'.reuse))
              == multiset(CursorRing.Contents(p.ring)) + multiset(Released(p.reuse))
  {
    var p' := OnFrameUpdate(p, frameIndex);
    if p.ring.count > 0 && frameIndex < p.readFrame {
      var held := CursorRing.Contents(p.ring);
      assert held == [held[0]] + held[1..];
      assert Released(p'.reuse) == Released(p.reuse) + [held[0]];
    }
  }

  /** The core's reaction to one clock event. */
  function OnClockEvent<B>(p: Core<B>, e: Scheduler.Event): (p': Core<B>)
    requires Valid(p) && p.clock.Some?
    ensures Valid(p') && p'.clock == p.clock
    ensures e.Update? ==> p' == OnFrameUpdate(p, e.index)
    ensures e.OnStop? ==> p' == OnClockStop(p)
    ensures e.OnStart? || e.OnCancel? ==> p' == p
  {
    match e
    case Update(i) => OnFrameUpdate(p, i)
    case OnStop => OnClockStop(p)
    case _ => p
  }

  function Dispatch<B>(p: Core<B>, events: seq<Scheduler.Event>): (p': Core<B>)
    requires Valid(p) && p.clock.Some?
    ensures Valid(p') && p'.clock == p.clock
    ensures Scheduler.OnStop !in events ==> p'.reading == p.reading && p'.readFrame == p.readFrame
    decreases |events|
  {
    if events == [] then p else Dispatch(OnClockEvent(p, events[0]), events[1..])
  }

  /** The clock's looper becomes ready; frame 0 is requested at once. */
  function Prepared<B>(p: Core<B>, now: real): (p': Core<B>)
    requires Valid(p) && p.clock.Some? && p.clock.value.phase == Scheduler.Starting
    ensures Valid(p') && p'.clock.Some? && Scheduler.IsRunning(p'.clock.value)
    ensures p.ring.count > 0 && p.readFrame > 0 ==>
              p'.notices == p.notices + [Drawn(0, CursorRing.Contents(p.ring)[0])]
  {
    var c := Scheduler.LooperPrepared(p.clock.value, now);
    var p1 := p.(clock := Some(c));
    assert Dispatch(p1, [Scheduler.OnStart, Scheduler.Update(0)])
        == Dispatch(OnFrameUpdate(p1, 0), []);
    Dispatch(p1, [Scheduler.OnStart, Scheduler.Update(0)])
  }

  /** A frame tick of the clock and the listener calls it makes. */
  function Tick<B>(p: Core<B>, now: real): (p': Core<B>)
    requires Valid(p) && p.clock.Some?
    requires p.clock.value.phase == Scheduler.Looping && p.clock.value.framePending
    requires p.clock.value.interval > 0.0
    ensures Valid(p') && p'.clock == Some(Scheduler.HandleFrame(p.clock.value, now))
  {
    var c := p.clock.value;
    var c' := Scheduler.HandleFrame(c, now);
    Dispatch(p.(clock := Some(c')), c'.events[|c.events|..])
  }

  /** The clock's quit after a stop: the stop listener fires. */
  function Quit<B>(p: Core<B>): (p': Core<B>)
    requires Valid(p) && p.clock.Some?
    requires p.clock.value.phase == Scheduler.Looping && p.clock.value.quitPending
    ensures Valid(p') && p'.clock.Some? && p'.clock.value.phase == Scheduler.Ended
    ensures p.readCancel ==> p'.notices == p.notices + [Stopped]
  {
    var c' := Scheduler.HandleQuit(p.clock.value);
    var p1 := p.(clock := Some(c'));
    assert Dispatch(p1, [Scheduler.OnCancel, Scheduler.OnStop]) == Dispatch(OnClockStop(p1), []);
    Dispatch(p1, [Scheduler.OnCancel, Scheduler.OnStop])
  }
}
