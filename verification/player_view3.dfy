/** The third tutorial player: a reader thread decodes frames into a ring of
    twelve slots, and the frame clock's update listener draws the oldest
    cached frame and recycles its buffer at once. There is no reuse and no
    teardown; destroying the surface ends the reader and stops the clock. */
module PlayerView3 {
  import opened Wrappers
  import CursorRing
  import Scheduler

  /** `MAX_CACHE_NUMBER`. */
  const MaxCacheNumber: int := 12

  datatype View<B> = View(
    frameCount: int,
    duration: int,
    ring: CursorRing.Ring<B>,   // mCacheBitmaps with mReadIndex, mPlayIndex, mCacheCount
    readFrame: int,
    reading: bool,              // the read thread is alive
    clock: Option<Scheduler.Clock>,
    drawn: seq<(int, B)>,       // frames drawn, with the index they were drawn for
    recycled: seq<B>)

  ghost predicate Valid<B>(v: View<B>) {
    CursorRing.Valid(v.ring) && |v.ring.slots| == MaxCacheNumber
  }

  function Create<B>(): (v: View<B>)
    ensures Valid(v) && CursorRing.Contents(v.ring) == [] && v.clock.None? && !v.reading
    ensures v.readFrame == 0 && v.drawn == [] && v.recycled == []
  {
    View(0, 0, CursorRing.Empty(MaxCacheNumber), 0, false, None, [], [])
  }

  /** The first half of `start` as the source orders it: the reader is
      started, and only afterwards (`CreateClock`) is the clock built. Until
      then the view still holds the previous clock, or none. */
  function Start<B>(v: View<B>, frameCount: int, duration: int): (v': View<B>)
    ensures v' == v.(frameCount := frameCount, duration := duration, reading := true)
    ensures Valid(v) ==> Valid(v')
  {
    v.(frameCount := frameCount, duration := duration, reading := true)
  }

  /** The second half of `start`: the clock's constructor, which throws when
      there are more frames than time units. */
  function CreateClock<B>(v: View<B>): (r: Result<View<B>, Scheduler.Misuse>)
    requires v.frameCount >= 2
    ensures r.Failure? <==> v.frameCount > v.duration
    ensures r.Success? ==>
              && r.value.clock.Some? && !Scheduler.IsStarted(r.value.clock.value)
              && Scheduler.Inv(r.value.clock.value)
              && r.value == v.(clock := r.value.clock)
  {
    match Scheduler.Create(v.duration, v.frameCount)
    case Failure(e) => Failure(e)
    case Success(c) => Success(v.(clock := Some(c)))
  }

  /** `start` with the clock built before the reader is started, so the
      reader always finds it. */
  function StartFixed<B>(v: View<B>, frameCount: int, duration: int): (r: Result<View<B>, Scheduler.Misuse>)
    requires frameCount >= 2
    ensures r.Failure? <==> frameCount > duration
    ensures r.Success? ==>
              && r.value.reading && r.value.clock.Some? && !Scheduler.IsStarted(r.value.clock.value)
              && r.value == v.(frameCount := frameCount, duration := duration, reading := true,
                                clock := r.value.clock)
  {
    match Scheduler.Create(duration, frameCount)
    case Failure(e) => Failure(e)
    case Success(c) => Success(v.(frameCount := frameCount, duration := duration, reading := true, clock := Some(c)))
  }

  /** One iteration of the read thread. It ends once every frame has been
      read and waits while all twelve slots are full. Otherwise it decodes
      the next frame (`decodeOk` false: the read threw, and the thread ends
      silently) into the slot under the write cursor; the first frame
      starts the clock, and a missing or already started clock throws, which
      also ends the thread silently. */
  function ReadStep<B>(v: View<B>, frame: B, decodeOk: bool): (v': View<B>)
    requires Valid(v) && v.reading
    ensures Valid(v')
    ensures v.readFrame >= v.frameCount ==> v' == v.(reading := false)
    ensures v.readFrame < v.frameCount && v.ring.count >= MaxCacheNumber ==> v' == v
    ensures v.readFrame < v.frameCount && v.ring.count < MaxCacheNumber && !decodeOk ==>
              v' == v.(reading := false)
    ensures v.readFrame < v.frameCount && v.ring.count < MaxCacheNumber && decodeOk ==>
              && CursorRing.Contents(v'.ring) == CursorRing.Contents(v.ring) + [frame]
              && v'.readFrame == v.readFrame + 1
              && (v'.reading <==> v.readFrame != 0 || (v.clock.Some? && !Scheduler.IsStarted(v.clock.value)))
              && (v.readFrame == 0 && v'.reading ==> v'.clock.Some? && Scheduler.IsStarted(v'.clock.value))
              && (v.readFrame != 0 || !v'.reading ==> v'.clock == v.clock)
              && v'.drawn == v.drawn && v'.recycled == v.recycled
  {
    if v.readFrame >= v.frameCount then v.(reading := false)
    else if v.ring.count >= MaxCacheNumber then v
    else if !decodeOk then v.(reading := false)
    else
      var v1 := v.(ring := CursorRing.Put(v.ring, frame), readFrame := v.readFrame + 1);
      if v1.readFrame != 1 then v1
      else
        match v.clock
        case None => v1.(reading := false)
        case Some(c) =>
          match Scheduler.Start(c)
          case Failure(_) => v1.(reading := false)
          case Success(c') => v1.(clock := Some(c'))
  }

  /** The frame-update listener. It does nothing when the ring is empty or
      the requested frame has not been read yet; otherwise it draws the
      oldest cached frame, recycles its buffer, clears its slot and moves
      the read cursor on. */
  function OnFrameUpdate<B>(v: View<B>, frameIndex: int): (v': View<B>)
    requires Valid(v)
    ensures Valid(v')
    ensures v.ring.count <= 0 || frameIndex >= v.readFrame ==> v' == v
    ensures v.ring.count > 0 && frameIndex < v.readFrame ==>
              var held := CursorRing.Contents(v.ring);
              && CursorRing.Contents(v'.ring) == held[1..]
              && v'.drawn == v.drawn + [(frameIndex, held[0])]
              && v'.recycled == v.recycled + [held[0]]
              && v' == v.(ring := v'.ring, drawn := v'.drawn, recycled := v'.recycled)
  {
    if v.ring.count <= 0 || frameIndex >= v.readFrame then v
    else
      var (ring', bitmap) := CursorRing.Take(v.ring);
      v.(ring := ring', drawn := v.drawn + [(frameIndex, bitmap)], recycled := v.recycled + [bitmap])
  }

  /** `onSurfaceTextureDestroyed`: the reader is told every frame has been
      read, and a started clock is stopped (which throws if it was already
      stopped). */
  function SurfaceDestroyed<B>(v: View<B>): (r: Result<View<B>, Scheduler.Misuse>)
    ensures r.Failure? <==> v.clock.Some? && Scheduler.IsStarted(v.clock.value) && v.clock.value.cancel
    ensures r.Success? ==> r.value.readFrame == v.frameCount && r.value.ring == v.ring
    ensures r.Success? && v.clock.Some? && Scheduler.IsRunning(v.clock.value) ==>
              r.value.clock.Some? && r.value.clock.value.cancel
  {
    var v1 := v.(readFrame := v.frameCount);
    match v.clock
    case None => Success(v1)
    case Some(c) =>
      if !Scheduler.IsStarted(c) then Success(v1)
      else
        match Scheduler.Stop(c)
        case Failure(e) => Failure(e)
        case Success(c') => Success(v1.(clock := Some(c')))
  }

  /** After the surface is destroyed the reader's next iteration ends it,
      whatever the decode would have given. */
  lemma SurfaceDestroyedEndsReader<B>(v: View<B>, frame: B, decodeOk: bool)
    requires Valid(v) && v.reading && SurfaceDestroyed(v).Success?
    ensures Valid(SurfaceDestroyed(v).value)
    ensures !ReadStep(SurfaceDestroyed(v).value, frame, decodeOk).reading
  {
  }

  /** Drawing recycles exactly the buffer that leaves the ring: the held
      frames plus the recycled buffers are the same before and after. */
  lemma OnFrameUpdateKeepsBuffers<B>(v: View<B>, frameIndex: int)
    requires Valid(v)
    ensures var v' := OnFrameUpdate(v, frameIndex);
            multiset(CursorRing.Contents(v'.ring)) + multiset(v'.recycled)
              == multiset(CursorRing.Contents(v.ring)) + multiset(v.recycled)
  {
    if v.ring.count > 0 && frameIndex < v.readFrame {
      var held := CursorRing.Contents(v.ring);
      assert held == [held[0]] + held[1..];
    }
  }

  /** Frames are drawn in the order they were read: a frame written after
      the ones already held is drawn after all of them. */
  lemma ReadThenDrawInOrder<B>(v: View<B>, frame: B, frameIndex: int)
    requires Valid(v) && v.reading && v.readFrame < v.frameCount && v.ring.count < MaxCacheNumber
    requires frameIndex < v.readFrame
    ensures var v1 := ReadStep(v, frame, true);
            var held := CursorRing.Contents(v.ring);
            && CursorRing.Contents(v1.ring) == held + [frame]
            && OnFrameUpdate(v1, frameIndex).drawn == v.drawn + [(frameIndex, (held + [frame])[0])]
  {
    var v1 := ReadStep(v, frame, true);
    assert v1.ring.count == v.ring.count + 1;
  }

  /** The reader races the clock's construction: when it decodes the first
      frame before `CreateClock` runs on a fresh view, starting the missing
      clock throws and the reader ends with that frame cached; the clock
      built afterwards is never started, so nothing is ever drawn. With the
      clock built first, the same read starts it. */
  lemma ReaderOutrunsClock<B>(frameCount: int, duration: int, frame: B)
    requires 2 <= frameCount <= duration
    ensures var v1 := ReadStep(Start(Create<B>(), frameCount, duration), frame, true);
            && !v1.reading && CursorRing.Contents(v1.ring) == [frame]
            && CreateClock(v1).Success?
            && !Scheduler.IsStarted(CreateClock(v1).value.clock.value)
            && !CreateClock(v1).value.reading
    ensures var v2 := ReadStep(StartFixed(Create<B>(), frameCount, duration).value, frame, true);
            && v2.reading && Scheduler.IsStarted(v2.clock.value)
  {
    var v0 := Start(Create<B>(), frameCount, duration);
    assert v0.ring.count == 0;
    var w0 := StartFixed(Create<B>(), frameCount, duration).value;
    assert w0.ring.count == 0;
  }
}
