/** The GL view's playback state machine: STOP, START and PAUSE, with the
    calls it makes to its player and renderer. The player's answers (whether
    it has started, whether its pause or resume took effect) are inputs. */
module GLPlayerView {
  /** `STOP`, `START`, `PAUSE`. */
  datatype State = Stopped | Started | Paused

  /** Calls the view makes on its player, renderer and notice handler. */
  datatype Call =
    | PlayerStart | PlayerStop | PlayerPause | PlayerResume
    | PlayerSetDataSource(frameCount: int, duration: int)
    | RendererScaleType(scaleType: int)
    | DrawClear | NoticeStop

  datatype GLView = GLView(state: State, loop: bool, enabled: bool, calls: seq<Call>)

  function Create(loop: bool): (v: GLView)
    ensures v.state == Stopped && v.enabled && v.calls == [] && v.loop == loop
  {
    GLView(Stopped, loop, true, [])
  }

  function IsPlaying(v: GLView): (b: bool)
    ensures b <==> v.state != Stopped
  {
    v.state != Stopped
  }

  function IsPaused(v: GLView): (b: bool)
    ensures b <==> v.state == Paused
    ensures b ==> IsPlaying(v)
  {
    v.state == Paused
  }

  function SetEnabled(v: GLView, enabled: bool): (v': GLView)
    ensures v' == v.(enabled := enabled)
  {
    v.(enabled := enabled)
  }

  function SetLoop(v: GLView, loop: bool): (v': GLView)
    ensures v' == v.(loop := loop)
  {
    v.(loop := loop)
  }

  /** `setDataSource`: handed to the player only while stopped. */
  function SetDataSource(v: GLView, frameCount: int, duration: int): (v': GLView)
    ensures v.state == Stopped ==> v' == v.(calls := v.calls + [PlayerSetDataSource(frameCount, duration)])
    ensures v.state != Stopped ==> v' == v
  {
    if v.state != Stopped then v else v.(calls := v.calls + [PlayerSetDataSource(frameCount, duration)])
  }

  /** `setScaleType`: handed to the renderer only while stopped. */
  function SetScaleType(v: GLView, scaleType: int): (v': GLView)
    ensures v.state == Stopped ==> v' == v.(calls := v.calls + [RendererScaleType(scaleType)])
    ensures v.state != Stopped ==> v' == v
  {
    if v.state != Stopped then v else v.(calls := v.calls + [RendererScaleType(scaleType)])
  }

  /** `start`: ignored when disabled or already started; otherwise (also
      from PAUSE) the view is started and the player started. */
  function Start(v: GLView): (v': GLView)
    ensures !v.enabled || v.state == Started ==> v' == v
    ensures v.enabled && v.state != Started ==> v' == v.(state := Started, calls := v.calls + [PlayerStart])
  {
    if !v.enabled || v.state == Started then v
    else v.(state := Started, calls := v.calls + [PlayerStart])
  }

  /** `resume`: only from PAUSE with a started player; the view returns to
      START only if the player's resume (answer `resumed`) took effect. */
  function Resume(v: GLView, playerStarted: bool, resumed: bool): (v': GLView)
    ensures v.state != Paused || !playerStarted ==> v' == v
    ensures v.state == Paused && playerStarted ==>
              && v'.calls == v.calls + [PlayerResume]
              && v'.state == (if resumed then Started else Paused)
              && v' == v.(state := v'.state, calls := v'.calls)
  {
    if v.state != Paused || !playerStarted then v
    else
      var v1 := v.(calls := v.calls + [PlayerResume]);
      if resumed then v1.(state := Started) else v1
  }

  /** `pause`: only from START with a started player; the view moves to
      PAUSE only if the player's pause (answer `paused`) took effect. */
  function Pause(v: GLView, playerStarted: bool, paused: bool): (v': GLView)
    ensures v.state != Started || !playerStarted ==> v' == v
    ensures v.state == Started && playerStarted ==>
              && v'.calls == v.calls + [PlayerPause]
              && v'.state == (if paused then Paused else Started)
              && v' == v.(state := v'.state, calls := v'.calls)
  {
    if v.state != Started || !playerStarted then v
    else
      var v1 := v.(calls := v.calls + [PlayerPause]);
      if paused then v1.(state := Paused) else v1
  }

  /** `stop` (and surface destruction): a no-op while stopped; otherwise the
      view is stopped at once and the player told to stop. */
  function Stop(v: GLView): (v': GLView)
    ensures v.state == Stopped ==> v' == v
    ensures v.state != Stopped ==> v' == v.(state := Stopped, calls := v.calls + [PlayerStop])
    ensures !IsPlaying(v')
  {
    if v.state == Stopped then v else v.(state := Stopped, calls := v.calls + [PlayerStop])
  }

  /** The renderer's stop listener: a looping view that was not stopped
      restarts the player and keeps its state; otherwise the surface is
      cleared, the view stops and the stop is reported. */
  function OnPlayerStop(v: GLView): (v': GLView)
    ensures v.state != Stopped && v.loop ==> v' == v.(calls := v.calls + [PlayerStart])
    ensures !(v.state != Stopped && v.loop) ==>
              v' == v.(state := Stopped, calls := v.calls + [DrawClear, NoticeStop])
  {
    if v.state != Stopped && v.loop then v.(calls := v.calls + [PlayerStart])
    else v.(state := Stopped, calls := v.calls + [DrawClear, NoticeStop])
  }

  /** Stopping twice is stopping once. */
  lemma StopIdempotent(v: GLView)
    ensures Stop(Stop(v)) == Stop(v)
  {
  }

  /** An effective pause followed by an effective resume returns the view to
      START, having asked the player to pause and then to resume. */
  lemma PauseThenResume(v: GLView)
    requires v.state == Started
    ensures Resume(Pause(v, true, true), true, true) == v.(calls := v.calls + [PlayerPause, PlayerResume])
  {
  }

  /** Once stopped by the user, the stop the player then reports does not
      restart playback, even when looping: it is reported and the view stays
      stopped. */
  lemma StopIsNotLooped(v: GLView)
    requires v.state != Stopped
    ensures OnPlayerStop(Stop(v)).state == Stopped
    ensures OnPlayerStop(Stop(v)).calls == v.calls + [PlayerStop, DrawClear, NoticeStop]
  {
  }

  /** Every transition keeps the view's state one of the three and only
      `Start` leaves STOP: playing begins only through an enabled `start`. */
  lemma OnlyStartLeavesStop(v: GLView, frameCount: int, duration: int, scaleType: int, a: bool, b: bool)
    requires v.state == Stopped
    ensures Resume(v, a, b).state == Stopped && Pause(v, a, b).state == Stopped
    ensures Stop(v).state == Stopped && OnPlayerStop(v).state == Stopped
    ensures SetDataSource(v, frameCount, duration).state == Stopped && SetScaleType(v, scaleType).state == Stopped
    ensures IsPlaying(Start(v)) <==> v.enabled
  {
  }
}
