/** The library view's playback state machine: STOP, START and STOPPING, a
    deferred start requested while stopping, and a released flag after which
    the surface is no longer cleared. It drives its core by the calls it
    logs; the core reports its stop back through `OnCoreStop`. */
module PlayerView {
  /** `STOP`, `START`, `STOPPING`. */
  datatype State = Stopped | Started | Stopping

  /** Calls the view makes on its core, its surface and its stop listener. */
  datatype Call =
    | CoreStart | CoreCancel
    | CoreSetDataSource(frameCount: int, duration: int)
    | CoreScaleType(scaleType: int)
    | DrawClear | StopListener

  datatype View = View(state: State, loop: bool, enabled: bool, waitPlay: bool, released: bool, calls: seq<Call>)

  function Create(loop: bool): (v: View)
    ensures v.state == Stopped && v.enabled && !v.waitPlay && !v.released && v.calls == [] && v.loop == loop
  {
    View(Stopped, loop, true, false, false, [])
  }

  function IsPlaying(v: View): (b: bool)
    ensures b <==> v.state != Stopped
  {
    v.state != Stopped
  }

  function SetEnabled(v: View, enabled: bool): (v': View)
    ensures v' == v.(enabled := enabled)
  {
    v.(enabled := enabled)
  }

  function SetLoop(v: View, loop: bool): (v': View)
    ensures v' == v.(loop := loop)
  {
    v.(loop := loop)
  }

  /** `setDataSource`: handed to the core only while stopped. */
  function SetDataSource(v: View, frameCount: int, duration: int): (v': View)
    ensures v.state == Stopped ==> v' == v.(calls := v.calls + [CoreSetDataSource(frameCount, duration)])
    ensures v.state != Stopped ==> v' == v
  {
    if v.state != Stopped then v else v.(calls := v.calls + [CoreSetDataSource(frameCount, duration)])
  }

  /** `setScaleType`: handed to the core only while stopped. */
  function SetScaleType(v: View, scaleType: int): (v': View)
    ensures v.state == Stopped ==> v' == v.(calls := v.calls + [CoreScaleType(scaleType)])
    ensures v.state != Stopped ==> v' == v
  {
    if v.state != Stopped then v else v.(calls := v.calls + [CoreScaleType(scaleType)])
  }

  /** `start`: ignored when disabled or already started; while stopping it
      only asks to be started once the stop completes; from STOP it starts
      the core. */
  function Start(v: View): (v': View)
    ensures !v.enabled || v.state == Started ==> v' == v
    ensures v.enabled && v.state == Stopping ==> v' == v.(waitPlay := true)
    ensures v.enabled && v.state == Stopped ==> v' == v.(state := Started, calls := v.calls + [CoreStart])
  {
    if !v.enabled || v.state == Started then v
    else if v.state == Stopping then v.(waitPlay := true)
    else v.(state := Started, calls := v.calls + [CoreStart])
  }

  /** `stop`: a no-op from STOP or STOPPING; from START it cancels the core
      and waits for the core's stop in STOPPING. */
  function Stop(v: View): (v': View)
    ensures v.state != Started ==> v' == v
    ensures v.state == Started ==> v' == v.(state := Stopping, calls := v.calls + [CoreCancel])
  {
    if v.state != Started then v else v.(state := Stopping, calls := v.calls + [CoreCancel])
  }

  /** `release`: stops, then marks the view released. */
  function Release(v: View): (v': View)
    ensures v'.released && v' == Stop(v).(released := true)
    ensures v'.state != Started
  {
    Stop(v).(released := true)
  }

  /** `drawClear`: nothing once released or while the surface cannot be
      drawn on (`canDraw` stands for a non-zero size and a canvas). */
  function ClearSurface(v: View, canDraw: bool): (v': View)
    ensures !v.released && canDraw ==> v' == v.(calls := v.calls + [DrawClear])
    ensures v.released || !canDraw ==> v' == v
  {
    if v.released || !canDraw then v else v.(calls := v.calls + [DrawClear])
  }

  /** The core's stop notice. Without looping, or when a stop was asked
      for, the surface is cleared, the view stops and its listener fires; a
      start asked for while stopping then runs, and the request is cleared.
      A looping view that was not being stopped restarts the core. The stop
      listener fires only when one is set (`listening`). */
  function OnCoreStop(v: View, canDraw: bool, listening: bool): (v': View)
    ensures v.loop && v.state != Stopping ==> v' == v.(calls := v.calls + [CoreStart])
    ensures (!v.loop || v.state == Stopping) ==>
              var v1 := ClearSurface(v, canDraw).(state := Stopped);
              var v2 := if listening then v1.(calls := v1.calls + [StopListener]) else v1;
              && !v'.waitPlay
              && (v.waitPlay ==> v' == Start(v2).(waitPlay := false))
              && (!v.waitPlay ==> v' == v2)
  {
    if !v.loop || v.state == Stopping then
      var v1 := ClearSurface(v, canDraw).(state := Stopped);
      var v2 := if listening then v1.(calls := v1.calls + [StopListener]) else v1;
      if v.waitPlay then Start(v2).(waitPlay := false) else v2
    else v.(calls := v.calls + [CoreStart])
  }

  /** A start asked for while stopping is carried out once the core's stop
      arrives: the view ends up started with the core restarted. */
  lemma DeferredStartRuns(v: View, canDraw: bool, listening: bool)
    requires v.state == Started && v.enabled
    ensures var v' := OnCoreStop(Start(Stop(v)), canDraw, listening);
            && v'.state == Started && !v'.waitPlay
            && v'.calls[|v'.calls| - 1] == CoreStart
            && (listening ==> StopListener in v'.calls)
  {
  }

  /** A stop asked for is never looped: the core's stop that follows it
      stops the view even when looping. */
  lemma StopIsNotLooped(v: View, canDraw: bool, listening: bool)
    requires v.state == Started && !v.waitPlay
    ensures OnCoreStop(Stop(v), canDraw, listening).state == Stopped
    ensures OnCoreStop(Stop(v), canDraw, listening).calls[|v.calls|] == CoreCancel
  {
  }

  /** `stop` is idempotent, and starting cannot cut a stop short: from
      STOPPING the view stays STOPPING until the core's stop arrives. */
  lemma StopThenStart(v: View)
    ensures Stop(Stop(v)) == Stop(v)
    ensures v.state == Stopping ==> Start(v).state == Stopping && Stop(Start(v)).state == Stopping
  {
  }

  /** After `release` the view never clears the surface again. */
  lemma ReleasedNeverClears(v: View, canDraw: bool, listening: bool)
    ensures ClearSurface(Release(v), canDraw).calls == Release(v).calls
    ensures DrawClear !in OnCoreStop(Release(v), canDraw, listening).calls[|Release(v).calls|..]
  {
  }
}
