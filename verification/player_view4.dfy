/** The fourth tutorial player: the cache is a plain list, a drawn frame's
    buffer goes to a bounded list of reusable buffers (the oldest reusable
    buffer is recycled when that list is full), and the decoder claims the
    first compatible reusable buffer. The reader waits on the reuse bound,
    six, not on the cache bound of twelve. */
module PlayerView4 {
  import opened Wrappers
  import opened ReusePool
  import Scheduler

  /** `MAX_CACHE_NUMBER`. */
  const MaxCacheNumber: int := 12
  /** `MAX_REUSABLE_NUMBER`: the bound of the reusable list, and the bound the
      reader waits on. */
  const MaxReusableNumber: int := MaxCacheNumber / 2

  /** `mCacheBitmaps` is `cache`; `mCacheCount` always equals its length, so
      it is not kept separately. */
  datatype View<B> = View(
    frameCount: int,
    duration: int,
    cache: seq<B>,
    reuse: Reuse<B>,            // mReusableBitmaps and what it recycled
    readFrame: int,
    reading: bool,
    clock: Option<Scheduler.Clock>,
    drawn: seq<(int, B)>)

  predicate Valid<B>(v: View<B>) {
    |v.cache| <= MaxReusableNumber && |v.reuse.pool| <= MaxReusableNumber
  }

  function Create<B>(): (v: View<B>)
    ensures Valid(v) && v.cache == [] && v.reuse == Reuse([], []) && v.clock.None? && !v.reading
  {
    View(0, 0, [], Reuse([], []), 0, false, None, [])
  }

  /** The first half of `start` as the source orders it: the reader is
      started before the clock is built. */
  function Start<B>(v: View<B>, frameCount: int, duration: int): (v': View<B>)
    ensures v' == v.(frameCount := frameCount, duration := duration, reading := true)
    ensures Valid(v) ==> Valid(v')
  {
    v.(frameCount := frameCount, duration := duration, reading := true)
  }

  /** The second half of `start`: the clock's constructor. */
  function CreateClock<B>(v: View<B>): (r: Result<View<B>, Scheduler.Misuse>)
    requires v.frameCount >= 2
    ensures r.Failure? <==> v.frameCount > v.duration
    ensures r.Success? ==>
              && r.value.clock.Some? && !Scheduler.IsStarted(r.value.clock.value)
              && r.value == v.(clock := r.value.clock)
  {
    match Scheduler.Create(v.duration, v.frameCount)
    case Failure(e) => Failure(e)
    case Success(c) => Success(v.(clock := Some(c)))
  }

  /** `start` with the clock built before the reader is started. */
  function StartFixed<B>(v: View<B>, frameCount: int, duration: int): (r: Result<View<B>, Scheduler.Misuse>)
    requires frameCount >= 2
    ensures r.Failure? <==> frameCount > duration
    ensures r.Success? ==>
              && r.value.reading && r.value.clock.Some? && !Scheduler.IsStarted(r.value.clock.value)
              && r.value == v.(frameCount := frameCount, duration := duration, reading := true,
                                clock := r.value.clock)
  {
    match Scheduler.Create(duration, frameCount)
    case Failure(e) => Failure(e)
    case Success(c) => Success(v.(frameCount := frameCount, duration := duration, reading := true, clock := Some(c)))
  }

  /** One iteration of the read thread. It ends once every frame has been
      read and waits while six frames are cached. Otherwise it claims the
      first compatible reusable buffer (`fits` is the decoder's test for the
      next frame), or takes a `blank` one, and decodes into it; a failed
      decode ends the thread silently and drops the claimed buffer; a file
      that cannot be opened (`openOk` false) ends it before any claim. The frame
      joins the end of the cache, and the first frame starts the clock (a
      missing or already started clock throws and ends the thread). */
  function ReadStep<B>(v: View<B>, fits: B -> bool, blank: B, openOk: bool, decodeOk: bool): (v': View<B>)
    requires Valid(v) && v.reading
    ensures Valid(v')
    ensures v.readFrame >= v.frameCount ==> v' == v.(reading := false)
    ensures v.readFrame < v.frameCount && |v.cache| >= MaxReusableNumber ==> v' == v
    ensures v.readFrame < v.frameCount && |v.cache| < MaxReusableNumber && !openOk ==>
              v' == v.(reading := false)
    ensures v.readFrame < v.frameCount && |v.cache| < MaxReusableNumber && openOk ==>
              var (claimed, rest) := Claim(v.reuse.pool, fits);
              var buffer := if claimed.Some? then claimed.value else blank;
              && v'.reuse == v.reuse.(pool := rest)
              && (!decodeOk ==> v' == v.(reuse := v'.reuse, reading := false))
              && (decodeOk ==> v'.cache == v.cache + [buffer] && v'.readFrame == v.readFrame + 1)
              && (decodeOk && v.readFrame == 0 && v'.reading ==>
                    v'.clock.Some? && Scheduler.IsStarted(v'.clock.value))
              && v'.drawn == v.drawn
  {
    if v.readFrame >= v.frameCount then v.(reading := false)
    else if |v.cache| >= MaxReusableNumber then v
    else if !openOk then v.(reading := false)
    else
      var (claimed, rest) := Claim(v.reuse.pool, fits);
      var v1 := v.(reuse := v.reuse.(pool := rest));
      if !decodeOk then v1.(reading := false)
      else
        var buffer := if claimed.Some? then claimed.value else blank;
        var v2 := v1.(cache := v1.cache + [buffer], readFrame := v1.readFrame + 1);
        if v2.readFrame != 1 then v2
        else
          match v2.clock
          case None => v2.(reading := false)
          case Some(c) =>
            match Scheduler.Start(c)
            case Failure(_) => v2.(reading := false)
            case Success(c') => v2.(clock := Some(c'))
  }

  /** The frame-update listener. It does nothing when nothing is cached;
      otherwise it draws the head of the cache and only then moves that
      buffer to the reusable list (`addReusable`). The requested index is
      not compared with anything. */
  function OnFrameUpdate<B>(v: View<B>, frameIndex: int): (v': View<B>)
    requires Valid(v)
    ensures Valid(v')
    ensures v.cache == [] ==> v' == v
    ensures v.cache != [] ==>
              && v'.cache == v.cache[1..]
              && v'.drawn == v.drawn + [(frameIndex, v.cache[0])]
              && v'.reuse == Offer(v.reuse, MaxReusableNumber, v.cache[0])
              && v' == v.(cache := v'.cache, reuse := v'.reuse, drawn := v'.drawn)
  {
    if |v.cache| <= 0 then v
    else
      var bitmap := v.cache[0];
      v.(cache := v.cache[1..], reuse := Offer(v.reuse, MaxReusableNumber, bitmap),
         drawn := v.drawn + [(frameIndex, bitmap)])
  }

  /** Drawing moves the head buffer to the reusable list and loses none: the
      cached, reusable and recycled buffers are the same before and after. */
  lemma OnFrameUpdateKeepsBuffers<B>(v: View<B>, frameIndex: int)
    requires Valid(v)
    ensures var v' := OnFrameUpdate(v, frameIndex);
            multiset(v'.cache) + multiset(Released(v'.reuse)) == multiset(v.cache) + multiset(Released(v.reuse))
  {
    if v.cache != [] {
      assert v.cache == [v.cache[0]] + v.cache[1..];
    }
  }

  /** Frames are drawn in the order they were read: with frames `xs`
      cached, the next draw shows the first of them, and `xs[1..]` remain. */
  lemma DrawOrder<B>(v: View<B>, fits: B -> bool, blank: B, frameIndex: int)
    requires Valid(v) && v.reading && v.readFrame < v.frameCount && |v.cache| < MaxReusableNumber
    ensures var v1 := ReadStep(v, fits, blank, true, true);
            var v2 := OnFrameUpdate(v1, frameIndex);
            && |v1.cache| == |v.cache| + 1
            && v2.cache == v1.cache[1..]
            && (v.cache != [] ==> v2.drawn == v.drawn + [(frameIndex, v.cache[0])])
            && (v.cache == [] ==> v2.drawn == v.drawn + [(frameIndex, v1.cache[0])] && v2.cache == [])
  {
  }

  /** `onSurfaceTextureDestroyed`: the reader is told every frame has been
      read, and a started clock is stopped (which throws if it was already
      stopped). */
  function SurfaceDestroyed<B>(v: View<B>): (r: Result<View<B>, Scheduler.Misuse>)
    ensures r.Failure? <==> v.clock.Some? && Scheduler.IsStarted(v.clock.value) && v.clock.value.cancel
    ensures r.Success? ==> r.value.readFrame == v.frameCount && r.value.cache == v.cache
    ensures r.Success? && v.clock.Some? && Scheduler.IsRunning(v.clock.value) ==>
              r.value.clock.Some? && r.value.clock.value.cancel
  {
    var v1 := v.(readFrame := v.frameCount);
    match v.clock
    case None => Success(v1)
    case Some(c) =>
      if !Scheduler.IsStarted(c) then Success(v1)
      else
        match Scheduler.Stop(c)
        case Failure(e) => Failure(e)
        case Success(c') => Success(v1.(clock := Some(c')))
  }

  /** After the surface is destroyed the reader's next iteration ends it. */
  lemma SurfaceDestroyedEndsReader<B>(v: View<B>, fits: B -> bool, blank: B, openOk: bool, decodeOk: bool)
    requires Valid(v) && v.reading && SurfaceDestroyed(v).Success?
    ensures Valid(SurfaceDestroyed(v).value)
    ensures !ReadStep(SurfaceDestroyed(v).value, fits, blank, openOk, decodeOk).reading
  {
  }

  /** The same race as the third player's: a first frame read before the
      clock is built throws, ends the reader, and leaves the clock built
      afterwards unstarted; building the clock first avoids it. */
  lemma ReaderOutrunsClock<B>(frameCount: int, duration: int, fits: B -> bool, blank: B)
    requires 2 <= frameCount <= duration
    ensures var v1 := ReadStep(Start(Create<B>(), frameCount, duration), fits, blank, true, true);
            && !v1.reading && v1.cache == [blank]
            && CreateClock(v1).Success?
            && !Scheduler.IsStarted(CreateClock(v1).value.clock.value)
            && !CreateClock(v1).value.reading
    ensures var v2 := ReadStep(StartFixed(Create<B>(), frameCount, duration).value, fits, blank, true, true);
            && v2.reading && v2.clock.Some? && Scheduler.IsStarted(v2.clock.value)
  {
  }
}
