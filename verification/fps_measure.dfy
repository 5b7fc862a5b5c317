/** The sample app's frame-rate meter: a list of frame timestamps (in
    milliseconds) trimmed to the last second, and the rate text derived from
    it. Time is an input; the rate is computed over exact reals, so the
    `float` rounding and the text formatting are not modelled. */
module FpsMeasure {
  /** The width of the measuring window, in milliseconds. */
  const Window: int := 1000

  predicate Sorted(s: seq<int>) {
    forall i, j :: 0 <= i < j < |s| ==> s[i] <= s[j]
  }

  /** `measureFps`: the current time joins the end of the list, then the
      leading timestamps older than one second before it are removed; the
      scan stops at the first timestamp inside the window. */
  method MeasureFps(times: seq<int>, now: int) returns (r: seq<int>)
    ensures 1 <= |r| <= |times| + 1 && r[|r| - 1] == now
    ensures r == (times + [now])[|times| + 1 - |r|..]
    ensures forall i :: 0 <= i < |times| + 1 - |r| ==> (times + [now])[i] < now - Window
    ensures r[0] >= now - Window
  {
    var all := times + [now];
    var lastTime := now - Window;
    var k := 0;
    while k < |all| && all[k] < lastTime
      invariant 0 <= k <= |all| - 1
      invariant forall i :: 0 <= i < k ==> all[i] < lastTime
    {
      k := k + 1;
    }
    r := all[k..];
  }

  /** For timestamps that never go back in time (`uptimeMillis` is
      monotonic), the trimmed list is exactly the timestamps inside the
      window, in order. */
  lemma MeasureFpsKeepsWindow(times: seq<int>, now: int, r: seq<int>)
    requires Sorted(times + [now])
    requires 1 <= |r| <= |times| + 1 && r == (times + [now])[|times| + 1 - |r|..]
    requires forall i :: 0 <= i < |times| + 1 - |r| ==> (times + [now])[i] < now - Window
    requires r[0] >= now - Window
    ensures Sorted(r)
    ensures forall x :: x in r <==> x in times + [now] && x >= now - Window
  {
    var all := times + [now];
    var k := |all| - |r|;
    forall x | x in all && x >= now - Window
      ensures x in r
    {
      var i :| 0 <= i < |all| && all[i] == x;
      assert i >= k;
      assert r[i - k] == x;
    }
    forall x | x in r
      ensures x >= now - Window
    {
      var j :| 0 <= j < |r| && r[j] == x;
      assert all[k + j] == x && all[k] == r[0];
    }
  }

  /** The meter's reading. */
  datatype Fps = NoRate | Infinite | Rate(value: real)

  /** `getFpsText`: "0.0 fps" (`NoRate`) with fewer than two timestamps;
      otherwise `(1000 - span) * count / span + count - 1`, where `span` is the
      time from the oldest to the newest timestamp; a zero span divides by
      zero, which for `float` gives infinity. */
  function FpsOf(times: seq<int>): (f: Fps)
    ensures f == NoRate <==> |times| <= 1
    ensures f == Infinite <==> |times| >= 2 && times[|times| - 1] == times[0]
  {
    var count := |times|;
    if count <= 1 then NoRate
    else
      var span := (times[count - 1] - times[0]) as real;
      if span == 0.0 then Infinite
      else Rate((1000.0 - span) * count as real / span + count as real - 1.0)
  }

  /** The formula is `1000 * count / span - 1`: the number of timestamps per
      second of span, less one. A window exactly one second wide with
      `count` timestamps reads `count - 1`, the number of frame intervals in
      that second. */
  lemma FpsFormula(times: seq<int>)
    requires |times| >= 2 && times[|times| - 1] != times[0]
    ensures var span := (times[|times| - 1] - times[0]) as real;
            FpsOf(times) == Rate(Window as real * |times| as real / span - 1.0)
    ensures times[|times| - 1] - times[0] == Window ==> FpsOf(times) == Rate(|times| as real - 1.0)
  {
    var count := |times| as real;
    var span := (times[|times| - 1] - times[0]) as real;
    assert (1000.0 - span) * count / span == 1000.0 * count / span - span * count / span;
    assert span * count / span == count;
  }

  /** One frame every `interval` milliseconds, with a window spanning exactly
      one second, reads `1000 / interval`. */
  lemma EvenFramesRate(times: seq<int>, interval: int)
    requires interval > 0 && |times| >= 2
    requires forall i :: 0 < i < |times| ==> times[i] == times[i - 1] + interval
    requires (|times| - 1) * interval == Window
    ensures FpsOf(times) == Rate(Window as real / interval as real)
  {
    Span(times, interval, |times| - 1);
    FpsFormula(times);
    var n := (|times| - 1) as real;
    assert n * interval as real == Window as real;
    assert Window as real / interval as real == n;
  }

  lemma {:induction false} Span(times: seq<int>, interval: int, k: int)
    requires 0 <= k < |times|
    requires forall i :: 0 < i < |times| ==> times[i] == times[i - 1] + interval
    ensures times[k] == times[0] + k * interval
  {
    if k > 0 {
      Span(times, interval, k - 1);
    }
  }
}
