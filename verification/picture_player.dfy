/** The playback controller of the library view: a reader decodes frames
    ahead into a bounded cache, the frame clock asks for frames by index, a
    drawn frame's buffer moves to a bounded pool of reusable buffers, and the
    decoder takes its next buffer from that pool when one is compatible.

    Both bounded lists are modelled by their contents, oldest first, with the
    removal semantics the ring buffer is meant to have (`CacheList.RemoveFixed`
    proves the corrected ring buffer implements them). The cache's removal
    callback feeds the pool; the pool's overflow callback recycles, so buffers
    handed to `recycleBitmap` are logged in `Reuse.recycled`. The two threads
    and the clock's thread are interleaved as atomic steps: each public call
    and each reader iteration is one transition, and clock messages are
    dispatched to the controller's listeners through `Prepared`, `Tick` and
    `Quit`. Buffers are any type `B`; decoding is an input. */
module PicturePlayer {
  import opened Wrappers
  import opened ReusePool
  import Scheduler
  import CacheList

  /** `DEFAULT_MAX_CACHE_NUMBER`. */
  const DefaultMaxCacheNumber: int := 12

  /** Calls made to the renderer. */
  datatype Call<B> = Draw(frameIndex: int, bitmap: Option<B>) | Stopped | Error

  datatype Player<B> = Player(
    capacity: int,        // mCacheFrameNumber; the pool has the same capacity
    duration: int,
    frameCount: int,
    cache: seq<B>,        // mCacheBitmaps, oldest first
    reuse: Reuse<B>,      // mReusableBitmaps and what it recycled
    readFrame: int,       // the next frame the reader decodes
    seekToIndex: int,     // a seek waiting for the current one, or -1
    readCancel: bool,
    playCancel: bool,
    cancel: bool,
    reading: bool,        // the read thread is alive
    clock: Option<Scheduler.Clock>,
    seeks: seq<int>,      // frame indices handed to the clock's seek
    calls: seq<Call<B>>)

  /** Both lists stay within their capacity. */
  predicate Valid<B>(p: Player<B>) {
    p.capacity >= 1 && |p.cache| <= p.capacity && |p.reuse.pool| <= p.capacity
  }

  /** The cached buffer holding frame `i`: the cache holds frames
      `readFrame - |cache| .. readFrame - 1`, oldest first. */
  function FrameAt<B>(p: Player<B>, i: int): Option<B> {
    var first := p.readFrame - |p.cache|;
    if first <= i < p.readFrame then Some(p.cache[i - first]) else None
  }

  /** The buffers that left the cache between `p` and `p'` went to the pool,
      in order: `p'`'s cache is a suffix of `p`'s and the released buffers
      grew by the prefix that was dropped. */
  ghost predicate Drains<B>(p: Player<B>, p': Player<B>) {
    var k := |p.cache| - |p'.cache|;
    && 0 <= k
    && p'.cache == p.cache[k..]
    && Released(p'.reuse) == Released(p.reuse) + p.cache[..k]
  }

  /** The constructor: an empty cache and pool of the given capacity. */
  function Create<B>(capacity: int): (p: Player<B>)
    requires capacity >= 2
    ensures Valid(p) && p.cache == [] && p.reuse == Reuse([], []) && p.clock.None?
    ensures p.capacity == capacity && p.seekToIndex == -1
  {
    Player(capacity, 0, 0, [], Reuse([], []), 0, -1, false, false, false, false, None, [], [])
  }

  function SetDataSource<B>(p: Player<B>, duration: int, frameCount: int): (p': Player<B>)
    ensures p' == p.(duration := duration, frameCount := frameCount)
    ensures Valid(p) ==> Valid(p')
  {
    p.(duration := duration, frameCount := frameCount)
  }

  /** Moves the oldest `n` cached buffers to the pool (`removeFirst` `n`
      times, `removeCount(n)` or `clear`, which release in the same order). */
  function ReleaseCache<B>(p: Player<B>, n: int): (p': Player<B>)
    requires Valid(p) && 0 <= n <= |p.cache|
    ensures Valid(p') && Drains(p, p') && |p'.cache| == |p.cache| - n
    ensures p' == p.(cache := p'.cache, reuse := p'.reuse)
  {
    var r := Release(p.reuse, p.capacity, p.cache[..n]);
    p.(cache := p.cache[n..], reuse := r)
  }

  /** Releasing the oldest `n` cached frames forgets exactly the frames
      before `readFrame - |cache| + n` and keeps every later one. */
  lemma ReleaseCacheFrames<B>(p: Player<B>, n: int)
    requires Valid(p) && 0 <= n <= |p.cache|
    ensures forall j :: FrameAt(ReleaseCache(p, n), j) ==
                          if j < p.readFrame - |p.cache| + n then None else FrameAt(p, j)
  {
    var p' := ReleaseCache(p, n);
    forall j
      ensures FrameAt(p', j) == if j < p.readFrame - |p.cache| + n then None else FrameAt(p, j)
    {
      if p.readFrame - |p.cache| + n <= j < p.readFrame {
        assert p'.cache[j - (p.readFrame - |p'.cache|)] == p.cache[j - (p.readFrame - |p.cache|)];
      }
    }
  }

  /** `reset`: the cache is emptied into the pool, then every pooled buffer
      is recycled; the read position returns to 0 and the three flags clear. */
  function Reset<B>(p: Player<B>): (p': Player<B>)
    requires Valid(p)
    ensures Valid(p') && p'.cache == [] && p'.reuse.pool == []
    ensures p'.reuse.recycled == p.reuse.recycled + p.reuse.pool + p.cache
    ensures p'.readFrame == 0 && !p'.readCancel && !p'.playCancel && !p'.cancel
    ensures p'.clock == p.clock && p'.calls == p.calls && p'.reading == p.reading
  {
    var p1 := ReleaseCache(p, |p.cache|);
    p1.(reuse := Reuse([], Released(p1.reuse)), readFrame := 0,
        readCancel := false, playCancel := false, cancel := false)
  }

  /** `threadStop`: the player is torn down (reset, then `onStop` to the
      renderer) only once the reader has exited and either the clock has
      stopped or it never started. */
  function ThreadStop<B>(p: Player<B>): (p': Player<B>)
    requires Valid(p) && p.clock.Some?
    ensures Valid(p')
    ensures var fires := p.readCancel && (p.playCancel || !Scheduler.IsStarted(p.clock.value));
            && (fires ==> p'.calls == p.calls + [Stopped] && p'.cache == [] && p'.reuse.pool == []
                          && !p'.readCancel && !p'.playCancel && !p'.cancel)
            && (!fires ==> p' == p)
  {
    if !p.readCancel || (!p.playCancel && Scheduler.IsStarted(p.clock.value)) then p
    else
      var p1 := Reset(p);
      p1.(calls := p1.calls + [Stopped])
  }

  /** The teardown happens at most once per run: the reset it performs
      clears the flags it waits for. */
  lemma ThreadStopOnce<B>(p: Player<B>)
    requires Valid(p) && p.clock.Some?
    requires ThreadStop(p) != p
    ensures ThreadStop(ThreadStop(p)) == ThreadStop(p)
    ensures ThreadStop(p).calls == p.calls + [Stopped]
  {
  }

  /** The reader's exit: it marks itself cancelled and tries the teardown. */
  function ReadExit<B>(p: Player<B>): (p': Player<B>)
    requires Valid(p) && p.clock.Some?
    ensures Valid(p') && !p'.reading
    ensures p.playCancel || !Scheduler.IsStarted(p.clock.value) ==> p'.calls == p.calls + [Stopped]
    ensures !p.playCancel && Scheduler.IsStarted(p.clock.value) ==> p' == p.(readCancel := true, reading := false)
  {
    ThreadStop(p.(readCancel := true, reading := false))
  }

  /** The clock's `onStop` listener: playback is over; try the teardown. */
  function OnClockStop<B>(p: Player<B>): (p': Player<B>)
    requires Valid(p) && p.clock.Some?
    ensures Valid(p')
    ensures p.readCancel ==> p'.calls == p.calls + [Stopped]
    ensures !p.readCancel ==> p' == p.(playCancel := true)
  {
    ThreadStop(p.(playCancel := true))
  }

  /** Whichever of the reader and the clock finishes second performs the
      teardown, and only that one. */
  lemma TeardownNeedsBoth<B>(p: Player<B>)
    requires Valid(p) && p.clock.Some? && Scheduler.IsStarted(p.clock.value)
    requires !p.readCancel && !p.playCancel
    ensures OnClockStop(p).calls == p.calls
    ensures ReadExit(OnClockStop(p)).calls == p.calls + [Stopped]
    ensures ReadExit(p).calls == p.calls
    ensures OnClockStop(ReadExit(p)).calls == p.calls + [Stopped]
  {
  }

  /** The frame a `getBitmap` hit returns: `removeCount` releases the `k`
      cached frames older than the one asked for, and `getFirst` returns
      the new head, which is the frame asked for. */
  function Hit<B>(p: Player<B>, k: int): (r: (Player<B>, Option<B>))
    requires Valid(p) && 0 <= k < |p.cache|
    ensures Valid(r.0) && Drains(p, r.0) && r.0.cache == p.cache[k..]
    ensures r.1 == Some(p.cache[k]) && r.1 == FrameAt(p, p.readFrame - |p.cache| + k)
    ensures r.0 == p.(cache := r.0.cache, reuse := r.0.reuse)
  {
    var p' := ReleaseCache(p, k);
    (p', Some(p'.cache[0]))
  }

  /** `getBitmap`: the cached buffer of frame `i`, if cached. Asking for a
      cached frame first releases every older cached frame to the pool;
      asking beyond the newest cached frame releases the whole cache and
      makes the reader continue after `i`; asking for an older frame changes
      nothing. */
  function GetBitmap<B>(p: Player<B>, i: int): (r: (Player<B>, Option<B>))
    requires Valid(p)
    ensures Valid(r.0) && Drains(p, r.0)
    ensures r.1 == FrameAt(p, i)
    ensures r.1.Some? ==> r.0.cache != [] && r.0.cache[0] == r.1.value
    ensures p.cache != [] && i >= p.readFrame ==> r.0.cache == [] && r.0.readFrame == i + 1
    ensures !(p.cache != [] && i >= p.readFrame) ==> r.0.readFrame == p.readFrame
    ensures r.0 == p.(cache := r.0.cache, reuse := r.0.reuse, readFrame := r.0.readFrame)
  {
    var first := p.readFrame - |p.cache|;
    if p.cache == [] || i < first || i >= p.readFrame then
      assert FrameAt(p, i).None?;
      if p.cache == [] || i < first then
        assert p.cache[0..] == p.cache && Released(p.reuse) + p.cache[..0] == Released(p.reuse);
        (p, None)
      else (ReleaseCache(p, |p.cache|).(readFrame := i + 1), None)
    else Hit(p, i - first)
  }

  /** After `getBitmap(i)` no frame before `i` is cached any more, and every
      cached frame from `i` on is still cached in the same buffer. */
  lemma GetBitmapFrames<B>(p: Player<B>, i: int)
    requires Valid(p)
    ensures forall j :: j < i ==> FrameAt(GetBitmap(p, i).0, j).None?
    ensures forall j :: i <= j < p.readFrame ==> FrameAt(GetBitmap(p, i).0, j) == FrameAt(p, j)
  {
    var first := p.readFrame - |p.cache|;
    var q := GetBitmap(p, i).0;
    if p.cache == [] || i <= first {
      assert q == p;
    } else if i >= p.readFrame {
      assert q.cache == [];
    } else {
      assert q == ReleaseCache(p, i - first);
      ReleaseCacheFrames(p, i - first);
    }
  }

  /** `update`: draws the buffer of frame `readIndex` (or nothing) as frame
      `frameIndex`, and only after drawing moves that buffer to the pool. */
  function UpdateFrame<B>(p: Player<B>, readIndex: int, frameIndex: int): (p': Player<B>)
    requires Valid(p)
    ensures Valid(p') && Drains(p, p')
    ensures p'.calls == p.calls + [Draw(frameIndex, FrameAt(p, readIndex))]
    ensures FrameAt(p, readIndex).Some? ==>
              Released(p'.reuse) != [] && Released(p'.reuse)[|Released(p'.reuse)| - 1] == FrameAt(p, readIndex).value
  {
    var (p1, b) := GetBitmap(p, readIndex);
    var p2 := p1.(calls := p1.calls + [Draw(frameIndex, b)]);
    if b.Some? then
      var p3 := ReleaseCache(p2, 1);
      assert p2.cache[..1] == [b.value];
      DrainsTrans(p, p2, p3);
      p3
    else p2
  }

  /** After drawing frame `readIndex` no frame up to it stays cached, and
      every later cached frame keeps its buffer. */
  lemma UpdateFrameFrames<B>(p: Player<B>, readIndex: int, frameIndex: int)
    requires Valid(p)
    ensures forall j :: j <= readIndex ==> FrameAt(UpdateFrame(p, readIndex, frameIndex), j).None?
    ensures forall j :: readIndex < j < p.readFrame ==>
              FrameAt(UpdateFrame(p, readIndex, frameIndex), j) == FrameAt(p, j)
  {
    var r := GetBitmap(p, readIndex);
    var p1, b := r.0, r.1;
    GetBitmapFrames(p, readIndex);
    var p2 := p1.(calls := p1.calls + [Draw(frameIndex, b)]);
    assert forall j :: FrameAt(p2, j) == FrameAt(p1, j);
    if b.Some? {
      var p3 := ReleaseCache(p2, 1);
      assert UpdateFrame(p, readIndex, frameIndex) == p3;
      ReleaseCacheFrames(p2, 1);
      assert p1.readFrame - |p1.cache| == readIndex;
    } else {
      assert UpdateFrame(p, readIndex, frameIndex) == p2;
    }
  }

  lemma DrainsTrans<B>(p: Player<B>, q: Player<B>, s: Player<B>)
    requires Drains(p, q) && Drains(q, s)
    ensures Drains(p, s)
  {
    var k1, k2 := |p.cache| - |q.cache|, |q.cache| - |s.cache|;
    assert p.cache[..k1 + k2] == p.cache[..k1] + q.cache[..k2];
  }

  /** `stop`: marks the player cancelled and stops the clock when it has
      started and is not already stopping. Joining the reader is the
      reader's own `ReadExit` step. */
  function Stop<B>(p: Player<B>): (p': Player<B>)
    requires Valid(p) && p.clock.Some?
    ensures Valid(p') && p'.cancel && p'.clock.Some?
    ensures var c := p.clock.value;
            Scheduler.IsStarted(c) && !c.cancel ==> Scheduler.Stop(c) == Success(p'.clock.value)
    ensures var c := p.clock.value;
            !(Scheduler.IsStarted(c) && !c.cancel) ==> p'.clock == p.clock
    ensures p' == p.(cancel := true, clock := p'.clock)
  {
    var c := p.clock.value;
    if Scheduler.IsStarted(c) && !c.cancel then p.(cancel := true, clock := Some(Scheduler.Stop(c).value))
    else p.(cancel := true)
  }

  /** `start`: reset, build the clock (which throws when there are more
      frames than time units), switch skip-frame on, start the reader. The
      skip-frame switch uses the corrected guard; with the source's guard
      this call always throws (`Scheduler.SkipFrameOnFreshClock`). */
  function Start<B>(p: Player<B>): (r: Result<Player<B>, Scheduler.Misuse>)
    requires Valid(p) && p.frameCount >= 2
    ensures r.Failure? <==> p.frameCount > p.duration
    ensures r.Success? ==>
              && Valid(r.value) && r.value.reading && r.value.cache == [] && r.value.reuse.pool == []
              && r.value.readFrame == 0 && r.value.clock.Some?
              && Scheduler.Inv(r.value.clock.value)
              && !Scheduler.IsStarted(r.value.clock.value) && r.value.clock.value.skipFrame
  {
    var p1 := Reset(p);
    match Scheduler.Create(p.duration, p.frameCount)
    case Failure(e) => Failure(e)
    case Success(c) =>
      match Scheduler.SetSkipFrameFixed(c, true)
      case Failure(e) => Failure(e)
      case Success(c') => Success(p1.(clock := Some(c'), reading := true))
  }

  function Pause<B>(p: Player<B>): (r: (Player<B>, bool))
    requires p.clock.Some?
    ensures r.1 <==> Scheduler.IsRunning(p.clock.value) && !p.clock.value.paused && !p.clock.value.cancel
    ensures r.0.clock.Some? && r.0 == p.(clock := r.0.clock)
    ensures r.1 ==> r.0.clock.value.paused
  {
    var (c, ok) := Scheduler.Pause(p.clock.value);
    (p.(clock := Some(c)), ok)
  }

  function Resume<B>(p: Player<B>, now: real): (r: (Player<B>, bool))
    requires p.clock.Some?
    ensures r.1 <==> Scheduler.IsRunning(p.clock.value) && p.clock.value.paused && !p.clock.value.cancel
    ensures r.0.clock.Some? && r.0 == p.(clock := r.0.clock)
    ensures r.1 ==> !r.0.clock.value.paused && r.0.clock.value.framePending
  {
    var (c, ok) := Scheduler.Resume(p.clock.value, now);
    (p.(clock := Some(c)), ok)
  }

  /** The reader's check after a read: the first frame starts the clock
      unless playback was cancelled or the clock already started. */
  function StartOnFirstFrame<B>(p: Player<B>): (p': Player<B>)
    requires p.clock.Some?
    ensures p'.clock.Some? && p' == p.(clock := p'.clock)
    ensures p.readFrame == 1 && !p.cancel ==> Scheduler.IsStarted(p'.clock.value)
    ensures !(p.readFrame == 1 && !p.cancel) ==> p' == p
  {
    var c := p.clock.value;
    if p.readFrame == 1 && !p.cancel && !Scheduler.IsStarted(c) then
      p.(clock := Some(Scheduler.Start(c).value))
    else p
  }

  /** The body of a read that succeeds: the first compatible pooled buffer
      (`fits` is the decoder's compatibility test for the next frame), or a
      `blank` one when none fits, receives the next frame and joins the
      cache; the first frame read starts the clock. */
  function Append<B>(p: Player<B>, fits: B -> bool, blank: B): (p': Player<B>)
    requires Valid(p) && p.clock.Some? && |p.cache| < p.capacity
    ensures Valid(p') && p'.clock.Some?
    ensures p'.readFrame == p.readFrame + 1
    ensures |p'.cache| == |p.cache| + 1 && p'.cache[..|p.cache|] == p.cache
    ensures var (claimed, rest) := Claim(p.reuse.pool, fits);
            && p'.cache[|p.cache|] == (if claimed.Some? then claimed.value else blank)
            && p'.reuse == p.reuse.(pool := rest)
    ensures p'.readFrame == 1 && !p.cancel ==> Scheduler.IsStarted(p'.clock.value)
    ensures p'.calls == p.calls && p'.cancel == p.cancel && p'.playCancel == p.playCancel
  {
    var (claimed, rest) := Claim(p.reuse.pool, fits);
    assert |rest| <= |p.reuse.pool|;
    var buffer := if claimed.Some? then claimed.value else blank;
    var p1 := p.(reuse := p.reuse.(pool := rest), cache := p.cache + [buffer], readFrame := p.readFrame + 1);
    assert Valid(p1) && p1.cache[..|p.cache|] == p.cache;
    StartOnFirstFrame(p1)
  }

  /** A successful read caches the new frame under its index and leaves the
      older cached frames where they were. */
  lemma AppendFrames<B>(p: Player<B>, fits: B -> bool, blank: B)
    requires Valid(p) && p.clock.Some? && |p.cache| < p.capacity
    ensures var p' := Append(p, fits, blank);
            && FrameAt(p', p.readFrame) == Some(p'.cache[|p.cache|])
            && forall j :: j < p.readFrame ==> FrameAt(p', j) == FrameAt(p, j)
  {
    var p' := Append(p, fits, blank);
    forall j | j < p.readFrame
      ensures FrameAt(p', j) == FrameAt(p, j)
    {
      if p.readFrame - |p.cache| <= j {
        assert p'.cache[j - (p'.readFrame - |p'.cache|)] == p'.cache[..|p.cache|][j - (p.readFrame - |p.cache|)];
      }
    }
  }

  /** `error`: the player is stopped and the error reported; then the
      reader exits. The cache and the pool are left alone unless the exit
      completes the teardown. */
  function ReadError<B>(p: Player<B>): (p': Player<B>)
    requires Valid(p) && p.clock.Some?
    ensures Valid(p') && !p'.reading && p'.clock.Some?
    ensures |p'.calls| > |p.calls| && p'.calls[..|p.calls| + 1] == p.calls + [Error]
    ensures Scheduler.IsStarted(p.clock.value) && !p.playCancel ==>
              p'.cache == p.cache && p'.reuse == p.reuse && p'.readFrame == p.readFrame
  {
    var p1 := Stop(p);
    var p2 := p1.(calls := p1.calls + [Error]);
    var p' := ReadExit(p2);
    assert p'.calls[..|p.calls| + 1] == p.calls + [Error] by {
      assert p2.calls == p.calls + [Error];
      assert p'.calls[..|p2.calls|] == p2.calls;
    }
    p'
  }

  /** One iteration of the read thread. It exits once the player is
      cancelled or playback is over; it waits (no change) when every frame
      has been read, when the cache is full, or when the clock is paused and
      a frame is already cached. Otherwise it opens the next file, claims a
      buffer and decodes into it. A failed open (`openOk` false) throws
      before any buffer is claimed; a failed decode throws after the claim,
      and the claimed buffer is dropped. Either way the player is stopped,
      the error reported and the reader exits; a successful read is
      `Append`. */
  function ReadStep<B>(p: Player<B>, fits: B -> bool, blank: B, openOk: bool, decodeOk: bool): (p': Player<B>)
    requires Valid(p) && p.clock.Some? && p.reading
    ensures Valid(p') && p'.clock.Some?
    ensures p.cancel || p.playCancel ==> !p'.reading
    ensures var decodes := && !p.cancel && !p.playCancel && p.readFrame < p.frameCount
                           && |p.cache| < p.capacity && !(|p.cache| >= 1 && p.clock.value.paused);
            && (decodes && openOk && decodeOk ==> p' == Append(p, fits, blank))
            && (decodes && !openOk ==> p' == ReadError(p))
            && (decodes && openOk && !decodeOk ==>
                  p' == ReadError(p.(reuse := p.reuse.(pool := Claim(p.reuse.pool, fits).1))))
            && (!decodes && !p.cancel && !p.playCancel ==> p' == p)
  {
    if p.cancel || p.playCancel then ReadExit(p)
    else if p.readFrame >= p.frameCount then p
    else if |p.cache| >= p.capacity || (|p.cache| >= 1 && p.clock.value.paused) then p
    else if !openOk then ReadError(p)
    else if decodeOk then Append(p, fits, blank)
    else
      var rest := Claim(p.reuse.pool, fits).1;
      ReadError(p.(reuse := p.reuse.(pool := rest)))
  }

  /** While the clock plays, a file that cannot be opened ends the reader
      with the cache and the pool untouched, whereas a frame that cannot be
      decoded also loses the buffer claimed for it. */
  lemma FailedReadPool<B>(p: Player<B>, fits: B -> bool, blank: B)
    requires Valid(p) && p.clock.Some? && p.reading && !p.cancel && !p.playCancel
    requires Scheduler.IsStarted(p.clock.value)
    requires p.readFrame < p.frameCount && |p.cache| < p.capacity && !(|p.cache| >= 1 && p.clock.value.paused)
    ensures var p' := ReadStep(p, fits, blank, false, true);
            !p'.reading && Error in p'.calls && p'.reuse == p.reuse && p'.cache == p.cache
    ensures var p' := ReadStep(p, fits, blank, true, false);
            var (claimed, rest) := Claim(p.reuse.pool, fits);
            && !p'.reading && Error in p'.calls && p'.reuse.pool == rest
            && (claimed.Some? ==> |p'.reuse.pool| == |p.reuse.pool| - 1)
  {
  }

  /** The claim as the source performs it, through the ring buffer's own
      `remove` (see `CacheList.UpperRemoveView`): with the pool holding
      `[1, 2]` in its twelve slots and only `2` compatible, the claimed
      position 1 lies in the upper half, and the pool is left reading
      `[null]` where `Claim` leaves `[1]`. Buffer 1 is lost without being
      recycled, and the next scan hands null to the compatibility test. */
  method ClaimThroughRingExample() returns (claimed: Option<int>, after: seq<Option<int>>, intended: seq<int>)
    ensures claimed == Some(2) && after == [None]
    ensures intended == [1] && Claim([1, 2], x => x == 2) == (Some(2), intended)
  {
    var fits := (x: int) => x == 2;
    var r: CacheList.Ring<int> := CacheList.Empty(DefaultMaxCacheNumber);
    var (r1, _) := CacheList.Add(r, 1);
    var (r2, _) := CacheList.Add(r1, 2);
    assert CacheList.View(r2) == [Some(1), Some(2)];
    var k := FirstFit([1, 2], fits);
    assert k == Some(1);
    var res := CacheList.Remove(r2, k.value);
    claimed := res.value.removed;
    after := CacheList.View(res.value.ring);
    intended := Claim([1, 2], fits).1;
  }

  /** The jump itself: the read position moves to the target and the cache
      is released to the pool. The reuse count is computed after the read
      position moved, so it is always the cache's size and both branches of
      the source release the whole cache. */
  function SeekJump<B>(p: Player<B>, frameIndex: int): (p': Player<B>)
    requires Valid(p)
    ensures Valid(p') && Drains(p, p') && p'.cache == [] && p'.readFrame == frameIndex
    ensures p' == p.(cache := p'.cache, reuse := p'.reuse, readFrame := frameIndex)
  {
    var p1 := p.(readFrame := frameIndex);
    var reusable := frameIndex - p1.readFrame + |p1.cache|;
    if 0 < reusable < p.capacity then ReleaseCache(p1, reusable)
    else ReleaseCache(p1, |p1.cache|)
  }

  /** `seekTo`: ignored before the clock starts or after playback ends;
      while a seek is in progress only the latest target is remembered;
      otherwise the reader jumps to the target, the cache is released to
      the pool and the clock is asked to seek. `complete` is the clock's
      answer to whether its current seek is done. */
  function SeekTo<B>(p: Player<B>, frameIndex: int, complete: bool): (p': Player<B>)
    requires Valid(p) && p.clock.Some?
    ensures Valid(p') && Drains(p, p')
    ensures !Scheduler.IsStarted(p.clock.value) || p.playCancel ==> p' == p
    ensures Scheduler.IsStarted(p.clock.value) && !p.playCancel && !complete ==>
              p' == p.(seekToIndex := frameIndex)
    ensures Scheduler.IsStarted(p.clock.value) && !p.playCancel && complete ==>
              && p'.cache == [] && p'.readFrame == frameIndex && p'.seeks == p.seeks + [frameIndex]
              && p'.seekToIndex == p.seekToIndex
  {
    assert p.cache[0..] == p.cache && Released(p.reuse) + p.cache[..0] == Released(p.reuse);
    if !Scheduler.IsStarted(p.clock.value) || p.playCancel then p
    else if !complete then p.(seekToIndex := frameIndex)
    else
      var p2 := SeekJump(p, frameIndex);
      p2.(seeks := p2.seeks + [frameIndex])
  }

  /** The seek listener's completion callback: a remembered target is sought
      now (and the clock told the seek is not over), else the seek is done. */
  function SeekComplete<B>(p: Player<B>, complete: bool): (r: (Player<B>, bool))
    requires Valid(p) && p.clock.Some?
    ensures Valid(r.0) && r.0.seekToIndex == -1
    ensures r.1 <==> p.seekToIndex == -1
    ensures r.1 ==> r.0 == p
    ensures !r.1 && Scheduler.IsStarted(p.clock.value) && !p.playCancel && complete ==>
              r.0.seeks == p.seeks + [p.seekToIndex] && r.0.readFrame == p.seekToIndex && r.0.cache == []
  {
    if p.seekToIndex != -1 then
      (SeekTo(p, p.seekToIndex, complete).(seekToIndex := -1), false)
    else (p, true)
  }

  /** A remembered target is carried out only if the clock reports its seek
      complete during the callback; otherwise it is dropped. */
  lemma PendingSeekDroppedWhenIncomplete<B>(p: Player<B>)
    requires Valid(p) && p.clock.Some? && p.seekToIndex != -1
    requires Scheduler.IsStarted(p.clock.value) && !p.playCancel
    ensures SeekComplete(p, false) == (p.(seekToIndex := -1), false)
  {
  }

  /** The controller's reaction to one clock event: a frame update draws the
      frame of that index, the stop event tries the teardown. */
  function OnClockEvent<B>(p: Player<B>, e: Scheduler.Event): (p': Player<B>)
    requires Valid(p) && p.clock.Some?
    ensures Valid(p') && p'.clock.Some?
  {
    match e
    case Update(i) => UpdateFrame(p, i, i)
    case OnStop => OnClockStop(p)
    case _ => p
  }

  function Dispatch<B>(p: Player<B>, events: seq<Scheduler.Event>): (p': Player<B>)
    requires Valid(p) && p.clock.Some?
    ensures Valid(p') && p'.clock.Some?
    ensures Scheduler.OnStop !in events ==> p'.clock == p.clock && p'.reading == p.reading
    decreases |events|
  {
    if events == [] then p else Dispatch(OnClockEvent(p, events[0]), events[1..])
  }

  /** The clock's looper becomes ready: frame 0 is drawn at once. */
  function Prepared<B>(p: Player<B>, now: real): (p': Player<B>)
    requires Valid(p) && p.clock.Some? && p.clock.value.phase == Scheduler.Starting
    ensures Valid(p') && p'.clock.Some? && Scheduler.IsRunning(p'.clock.value)
    ensures p'.calls == p.calls + [Draw(0, FrameAt(p, 0))]
  {
    var c := Scheduler.LooperPrepared(p.clock.value, now);
    Dispatch(p.(clock := Some(c)), [Scheduler.OnStart, Scheduler.Update(0)])
  }

  /** A frame tick of the clock, and the listener calls it makes. */
  function Tick<B>(p: Player<B>, now: real): (p': Player<B>)
    requires Valid(p) && p.clock.Some?
    requires p.clock.value.phase == Scheduler.Looping && p.clock.value.framePending
    requires p.clock.value.interval > 0.0
    ensures Valid(p') && p'.clock.Some?
  {
    var c := p.clock.value;
    var c' := Scheduler.HandleFrame(c, now);
    Dispatch(p.(clock := Some(c')), c'.events[|c.events|..])
  }

  /** The clock's manual quit after `stop`: the stop listener fires. */
  function Quit<B>(p: Player<B>): (p': Player<B>)
    requires Valid(p) && p.clock.Some?
    requires p.clock.value.phase == Scheduler.Looping && p.clock.value.quitPending
    ensures Valid(p') && p'.clock.Some?
    ensures p'.playCancel || p'.calls == p.calls + [Stopped]
  {
    var c' := Scheduler.HandleQuit(p.clock.value);
    Dispatch(p.(clock := Some(c')), [Scheduler.OnCancel, Scheduler.OnStop])
  }
}
