/** The hand-rolled frame ring of the earlier players: a fixed array of
    slots, a write cursor (`readIndex`, where the next decoded frame goes), a
    read cursor (`playIndex`, the next frame to show) and the number of
    filled slots. Each cursor wraps to 0 when it reaches the end. */
module CursorRing {
  import opened Wrappers

  datatype Ring<B> = Ring(slots: seq<Option<B>>, readIndex: int, playIndex: int, count: int)

  /** A cursor moved on by one, wrapping to 0 at `n`. */
  function Advance(i: int, n: int): (j: int)
    requires 0 <= i < n
    ensures 0 <= j < n && j == (i + 1) % n
  {
    if i + 1 >= n then 0 else i + 1
  }

  /** The slot `k` places after the read cursor, wrapped once. */
  function Slot<B>(r: Ring<B>, k: int): (s: int)
    requires 0 <= r.playIndex < |r.slots| && 0 <= k <= |r.slots|
    ensures 0 <= s < |r.slots|
  {
    if r.playIndex + k < |r.slots| then r.playIndex + k else r.playIndex + k - |r.slots|
  }

  /** The filled slots are exactly the `count` slots from the read cursor on,
      and the write cursor sits just after them. */
  ghost predicate Valid<B>(r: Ring<B>) {
    && |r.slots| >= 1
    && 0 <= r.playIndex < |r.slots| && 0 <= r.count <= |r.slots|
    && r.readIndex == Slot(r, r.count)
    && (forall k :: 0 <= k < |r.slots| ==> (r.slots[Slot(r, k)].Some? <==> k < r.count))
  }

  /** The frames held, oldest first. */
  ghost function Contents<B>(r: Ring<B>): (s: seq<B>)
    requires Valid(r)
    ensures |s| == r.count
  {
    seq(r.count, k requires 0 <= k < r.count => r.slots[Slot(r, k)].value)
  }

  /** The cursor relation the players rely on. */
  lemma CursorRelation<B>(r: Ring<B>)
    requires Valid(r)
    ensures (r.playIndex + r.count) % |r.slots| == r.readIndex
    ensures 0 <= r.readIndex < |r.slots|
  {
    var n, s := |r.slots|, r.playIndex + r.count;
    assert r.readIndex == if s < n then s else s - n;
    WrapOnce(s, n);
  }

  /** Below twice the modulus, `%` subtracts it at most once. */
  lemma WrapOnce(s: int, n: int)
    requires n >= 1 && 0 <= s < 2 * n
    ensures s % n == if s < n then s else s - n
  {
    if s >= n {
      assert s == 1 * n + (s - n);
    }
  }

  function Empty<B>(n: int): (r: Ring<B>)
    requires n >= 1
    ensures Valid(r) && Contents(r) == [] && |r.slots| == n
  {
    var r := Ring(seq(n, _ => None), 0, 0, 0);
    assert forall k :: 0 <= k < n ==> r.slots[Slot(r, k)].None?;
    r
  }

  /** Slots at distinct distances from the read cursor are distinct. */
  lemma SlotInjective<B>(r: Ring<B>, i: int, j: int)
    requires 0 <= r.playIndex < |r.slots| && 0 <= i < |r.slots| && 0 <= j < |r.slots|
    ensures Slot(r, i) == Slot(r, j) <==> i == j
  {
  }

  /** The producer's write: the frame goes into the slot under the write
      cursor, which moves on; the count grows by one. The ring must have a
      free slot (the producers wait while it is full). */
  function Put<B>(r: Ring<B>, x: B): (r': Ring<B>)
    requires Valid(r) && r.count < |r.slots|
    ensures Valid(r') && Contents(r') == Contents(r) + [x]
    ensures |r'.slots| == |r.slots| && r'.playIndex == r.playIndex
  {
    var r' := Ring(r.slots[r.readIndex := Some(x)], Advance(r.readIndex, |r.slots|), r.playIndex, r.count + 1);
    PutValid(r, x, r');
    r'
  }

  lemma PutValid<B>(r: Ring<B>, x: B, r': Ring<B>)
    requires Valid(r) && r.count < |r.slots|
    requires r' == Ring(r.slots[r.readIndex := Some(x)], Advance(r.readIndex, |r.slots|), r.playIndex, r.count + 1)
    ensures Valid(r') && Contents(r') == Contents(r) + [x]
  {
    var n := |r.slots|;
    assert Slot(r, r.count) == r.readIndex;
    forall k | 0 <= k < n
      ensures Slot(r', k) == Slot(r, k)
    {
    }
    forall k | 0 <= k < n && k != r.count
      ensures r'.slots[Slot(r', k)] == r.slots[Slot(r, k)]
    {
      SlotInjective(r, k, r.count);
    }
    assert r'.readIndex == Slot(r', r'.count);
    assert forall k :: 0 <= k < n ==> (r'.slots[Slot(r', k)].Some? <==> k < r'.count);
    assert Contents(r') == Contents(r) + [x];
  }

  /** The consumer's take: the frame under the read cursor is handed out,
      its slot cleared, and the read cursor moves on; the count shrinks by
      one. */
  function Take<B>(r: Ring<B>): (res: (Ring<B>, B))
    requires Valid(r) && r.count > 0
    ensures Valid(res.0) && res.1 == Contents(r)[0] && Contents(res.0) == Contents(r)[1..]
    ensures |res.0.slots| == |r.slots| && res.0.readIndex == r.readIndex
  {
    assert Slot(r, 0) == r.playIndex;
    var r' := Ring(r.slots[r.playIndex := None], r.readIndex, Advance(r.playIndex, |r.slots|), r.count - 1);
    TakeValid(r, r');
    (r', r.slots[r.playIndex].value)
  }

  lemma TakeValid<B>(r: Ring<B>, r': Ring<B>)
    requires Valid(r) && r.count > 0
    requires r' == Ring(r.slots[r.playIndex := None], r.readIndex, Advance(r.playIndex, |r.slots|), r.count - 1)
    ensures Valid(r') && Contents(r) != [] && Contents(r') == Contents(r)[1..]
    ensures r.slots[r.playIndex] == Some(Contents(r)[0])
  {
    var n := |r.slots|;
    assert Slot(r, 0) == r.playIndex;
    forall k | 0 <= k < n
      ensures Slot(r', k) == Slot(r, k + 1)
    {
    }
    forall k | 0 <= k < n
      ensures r'.slots[Slot(r', k)] == if k + 1 < n then r.slots[Slot(r, k + 1)] else None
    {
      if k + 1 < n {
        SlotInjective(r, 0, k + 1);
      }
    }
    assert r'.readIndex == Slot(r', r'.count);
    assert forall k :: 0 <= k < n ==> (r'.slots[Slot(r', k)].Some? <==> k < r'.count);
    assert Contents(r') == Contents(r)[1..];
  }

  /** The frames still held, in slot order from slot 0: what a teardown that
      walks the array from the start meets. */
  function Held<B>(slots: seq<Option<B>>): (s: seq<B>)
    ensures |s| <= |slots|
  {
    if slots == [] then []
    else (if slots[0].Some? then [slots[0].value] else []) + Held(slots[1..])
  }

  /** A buffer is among those met by the walk exactly when some slot holds it. */
  lemma {:induction false} HeldMembers<B>(slots: seq<Option<B>>, x: B)
    ensures x in Held(slots) <==> Some(x) in slots
  {
    if slots != [] {
      HeldMembers(slots[1..], x);
      assert slots == [slots[0]] + slots[1..];
    }
  }

  /** The walk from slot 0 meets exactly the frames the ring holds, whatever
      the position of the cursors: a teardown that walks the array misses
      none of them and meets nothing else. */
  lemma HeldContents<B>(r: Ring<B>, x: B)
    requires Valid(r)
    ensures x in Held(r.slots) <==> x in Contents(r)
  {
    HeldMembers(r.slots, x);
    var n := |r.slots|;
    if Some(x) in r.slots {
      var i :| 0 <= i < n && r.slots[i] == Some(x);
      var k := if i >= r.playIndex then i - r.playIndex else i - r.playIndex + n;
      assert Slot(r, k) == i;
      assert Contents(r)[k] == x;
    }
    if x in Contents(r) {
      var k :| 0 <= k < r.count && Contents(r)[k] == x;
      assert r.slots[Slot(r, k)] == Some(x);
    }
  }
}
