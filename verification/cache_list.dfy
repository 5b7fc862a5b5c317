/** The bounded circular FIFO used both as the read-ahead frame cache and as
    the buffer reuse pool. The backing array is `slots` (a null slot is `None`),
    `count` is the number of live elements and `next` is the physical slot the
    next `add` writes to. Logical index `i` lives in physical slot
    `next - count + i`, wrapped once into `[0, |slots|)`.

    Every operation is a pure function or method of the old list: it returns
    the new list together with the calls it makes to the removal listener, in
    order. The lock of the source only serialises calls; each call here is one
    atomic step. */
module CacheList {
  import opened Wrappers

  /** One call of the removal listener: `onRemove(isOverflow, value)`. */
  datatype Removal<T> = Removal(overflow: bool, value: Option<T>)

  datatype Ring<T> = Ring(slots: seq<Option<T>>, count: int, next: int)

  /** The result of a removing call: the new list, the returned value and the
      listener calls it made. */
  datatype Step<T> = Step(ring: Ring<T>, removed: Option<T>, log: seq<Removal<T>>)

  /** Thrown by the array access of a call the list does not guard. */
  datatype Fault = IndexOutOfBounds

  /** The object invariant: a non-empty backing array, a count within it and a
      write cursor inside it. */
  predicate Valid<T>(r: Ring<T>) {
    |r.slots| >= 1 && 0 <= r.count <= |r.slots| && 0 <= r.next < |r.slots|
  }

  function Capacity<T>(r: Ring<T>): nat {
    |r.slots|
  }

  /** A fresh list over an all-null array of the given length. */
  function Empty<T>(capacity: nat): (r: Ring<T>)
    requires capacity >= 1
    ensures Valid(r) && Capacity(r) == capacity
    ensures View(r) == []
  {
    Ring(seq(capacity, _ => None), 0, 0)
  }

  /** `getRealIndex`: the physical slot of logical index `i`, wrapped once. */
  function RealIndex<T>(r: Ring<T>, i: int): (p: int)
    ensures Valid(r) && 0 <= i <= r.count ==>
              0 <= p < |r.slots| && p == (r.next - r.count + i) % |r.slots|
  {
    var raw := r.next - r.count + i;
    if raw < 0 then |r.slots| + raw else raw
  }

  /** Two logical positions of the window (the position just past the end
      included) share a physical slot only when the list is full and they are
      its two ends. */
  lemma RealIndexInjective<T>(r: Ring<T>, a: int, b: int)
    requires Valid(r) && 0 <= a < b <= r.count
    ensures RealIndex(r, a) == RealIndex(r, b) ==> a == 0 && b == r.count == |r.slots|
  {
  }

  /** The abstract contents: the live elements, oldest first. */
  function View<T>(r: Ring<T>): (v: seq<Option<T>>)
    requires Valid(r)
    ensures |v| == r.count
  {
    seq(r.count, j requires 0 <= j < r.count => r.slots[RealIndex(r, j)])
  }

  /** `size`. */
  function Size<T>(r: Ring<T>): (n: int)
    requires Valid(r)
    ensures n == |View(r)| && 0 <= n <= Capacity(r)
  {
    r.count
  }

  /** `isEmpty`. */
  function IsEmpty<T>(r: Ring<T>): (b: bool)
    requires Valid(r)
    ensures b <==> View(r) == []
  {
    r.count == 0
  }

  /** `get`: null outside `[0, size)`, otherwise the `i`-th oldest element. */
  function Get<T>(r: Ring<T>, i: int): (v: Option<T>)
    requires Valid(r)
    ensures !(0 <= i < |View(r)|) ==> v == None
    ensures 0 <= i < |View(r)| ==> v == View(r)[i]
  {
    if i < 0 || i >= r.count then None else r.slots[RealIndex(r, i)]
  }

  /** `getFirst`. */
  function GetFirst<T>(r: Ring<T>): (v: Option<T>)
    requires Valid(r)
    ensures View(r) == [] ==> v == None
    ensures View(r) != [] ==> v == View(r)[0]
  {
    Get(r, 0)
  }

  /** `add`: on a full list the oldest element is first reported with
      `isOverflow = true` and dropped; the value is then appended. */
  function Add<T>(r: Ring<T>, x: T): (res: (Ring<T>, seq<Removal<T>>))
    requires Valid(r)
    ensures Valid(res.0) && Capacity(res.0) == Capacity(r)
    ensures r.count < Capacity(r) ==> View(res.0) == View(r) + [Some(x)] && res.1 == []
    ensures r.count == Capacity(r) ==>
              View(res.0) == View(r)[1..] + [Some(x)] && res.1 == [Removal(true, View(r)[0])]
  {
    var m := |r.slots|;
    var log := if r.count == m then [Removal(true, r.slots[r.next])] else [];
    var c := if r.count == m then r.count - 1 else r.count;
    var slots := r.slots[r.next := Some(x)];
    var nx := if r.next + 1 >= m then 0 else r.next + 1;
    var r' := Ring(slots, c + 1, nx);
    AddView(r, x, r');
    (r', log)
  }

  lemma AddView<T>(r: Ring<T>, x: T, r': Ring<T>)
    requires Valid(r)
    requires r'.slots == r.slots[r.next := Some(x)]
    requires r'.count == (if r.count == |r.slots| then r.count else r.count + 1)
    requires r'.next == (if r.next + 1 >= |r.slots| then 0 else r.next + 1)
    ensures Valid(r')
    ensures r.count < |r.slots| ==> View(r') == View(r) + [Some(x)]
    ensures r.count == |r.slots| ==> View(r') == View(r)[1..] + [Some(x)]
    ensures r.count == |r.slots| ==> r.slots[r.next] == View(r)[0]
  {
    var v, v' := View(r), View(r');
    if r.count < |r.slots| {
      forall j | 0 <= j < r.count
        ensures v'[j] == v[j]
      {
        assert RealIndex(r', j) == RealIndex(r, j);
      }
      assert RealIndex(r', r.count) == r.next;
      assert v' == v + [Some(x)];
    } else {
      forall j | 0 <= j < r.count - 1
        ensures v'[j] == v[j + 1]
      {
        assert RealIndex(r', j) == RealIndex(r, j + 1);
        RealIndexInjective(r, 0, j + 1);
      }
      assert RealIndex(r', r.count - 1) == r.next;
      assert v' == v[1..] + [Some(x)];
    }
  }

  /** `remove(index)` as the source writes it. An index at or past the end
      returns null and changes nothing. Otherwise the hole is filled by
      shifting the shorter side: the head side moves right by one (lower half)
      or the tail side moves left by one (upper half), the vacated slot is
      nulled, the count drops and the removed value is reported with
      `isOverflow = false`. The upper-half branch never moves the write cursor,
      so the list loses its oldest element and gains whatever the slot at the
      cursor held. A negative index is not rejected: when its wrapped slot
      falls before the array the access throws; otherwise that slot (a free
      one, or the live one `capacity` positions on) is nulled and reported,
      and the dropped count also loses the oldest element unreported. */
  method Remove<T>(r: Ring<T>, index: int) returns (res: Result<Step<T>, Fault>)
    requires Valid(r)
    ensures index >= r.count ==> res == Success(Step(r, None, []))
    ensures r.count - |r.slots| <= index < r.count ==> res.Success?
    ensures res.Success? && index < r.count ==>
              && res.value.ring.slots != [] && |res.value.ring.slots| == |r.slots|
              && res.value.ring.next == r.next && res.value.ring.count == r.count - 1
              && res.value.log == [Removal(false, res.value.removed)]
    ensures 0 <= index < r.count ==> Valid(res.value.ring)
    ensures 0 <= index < r.count / 2 ==>
              && res.value.removed == View(r)[index]
              && View(res.value.ring) == View(r)[..index] + View(r)[index + 1..]
    ensures r.count >= 2 && r.count / 2 <= index < r.count ==>
              && res.value.removed == View(r)[index]
              && View(res.value.ring) == View(r)[1..index] + View(r)[index + 1..] + [r.slots[r.next]]
    ensures r.count == 1 && index == 0 ==>
              res.value.removed == View(r)[0] && View(res.value.ring) == []
    ensures res.Failure? <==> index < r.count - r.next - |r.slots|
    ensures r.count >= 1 && r.count - |r.slots| <= index < 0 ==>
              && Valid(res.value.ring)
              && res.value.removed == r.slots[RealIndex(r, index)]
              && View(res.value.ring) == View(r)[1..]
    ensures r.count >= 1 && r.count - r.next - |r.slots| <= index < r.count - |r.slots| ==>
              && Valid(res.value.ring)
              && res.value.removed == r.slots[RealIndex(r, index)]
              && var k := index + |r.slots|;
                 && (0 <= k ==> res.value.removed == View(r)[k] && View(res.value.ring) == View(r)[k := None][1..])
                 && (k < 0 ==> View(res.value.ring) == View(r)[1..])
  {
    if index >= r.count {
      return Success(Step(r, None, []));
    }
    var p := RealIndex(r, index);
    if p < 0 || p >= |r.slots| {
      return Failure(IndexOutOfBounds);
    }
    var value := r.slots[p];
    if index < 0 {
      var r' := Ring(r.slots[p := None], r.count - 1, r.next);
      if r.count >= 1 {
        NegativeRemoveView(r, index, r');
      }
      return Success(Step(r', value, [Removal(false, value)]));
    } else if index < r.count / 2 {
      var s := ShiftHeadRight(r, index);
      var r' := Ring(s[RealIndex(r, 0) := None], r.count - 1, r.next);
      LowerRemoveView(r, index, r');
      return Success(Step(r', value, [Removal(false, value)]));
    } else {
      var s := ShiftTailLeft(r, index, r.count);
      var r' := Ring(s[RealIndex(r, r.count) := None], r.count - 1, r.next);
      UpperRemoveView(r, index, r');
      return Success(Step(r', value, [Removal(false, value)]));
    }
  }

  /** The lower-half loop of `remove`: every slot from logical `index` down
      to 1 takes the value of its predecessor; the rest of the window keeps
      its contents. */
  method ShiftHeadRight<T>(r: Ring<T>, index: int) returns (s: seq<Option<T>>)
    requires Valid(r) && 0 <= index < r.count
    ensures |s| == |r.slots|
    ensures forall j :: 0 <= j < r.count && (j == 0 || j > index) ==>
              s[RealIndex(r, j)] == r.slots[RealIndex(r, j)]
    ensures forall j :: 0 < j <= index ==> s[RealIndex(r, j)] == r.slots[RealIndex(r, j - 1)]
  {
    s := r.slots;
    var i := index;
    while i > 0
      invariant 0 <= i <= index
      invariant |s| == |r.slots|
      invariant forall j :: 0 <= j < r.count && (j <= i || j > index) ==>
                  s[RealIndex(r, j)] == r.slots[RealIndex(r, j)]
      invariant forall j :: i < j <= index ==> s[RealIndex(r, j)] == r.slots[RealIndex(r, j - 1)]
    {
      forall j | 0 <= j < r.count && j != i
        ensures RealIndex(r, j) != RealIndex(r, i)
      {
        if j < i { RealIndexInjective(r, j, i); } else { RealIndexInjective(r, i, j); }
      }
      s := s[RealIndex(r, i) := s[RealIndex(r, i - 1)]];
      i := i - 1;
    }
  }

  /** The upper-half loop of `remove`: every slot from logical `index` up to
      (not including) `stop` takes the value of its successor; the rest of
      the window keeps its contents. The source runs it up to `stop = count`,
      so the last live slot takes the value of the slot at the write cursor. */
  method ShiftTailLeft<T>(r: Ring<T>, index: int, stop: int) returns (s: seq<Option<T>>)
    requires Valid(r) && 0 <= index <= stop <= r.count
    requires stop == r.count ==> r.count / 2 <= index
    ensures |s| == |r.slots|
    ensures forall j :: 0 <= j < r.count && (j < index || j >= stop) ==>
              s[RealIndex(r, j)] == r.slots[RealIndex(r, j)]
    ensures forall j :: index <= j < stop ==> s[RealIndex(r, j)] == r.slots[RealIndex(r, j + 1)]
  {
    s := r.slots;
    var i := index;
    while i < stop
      invariant index <= i <= stop
      invariant |s| == |r.slots|
      invariant forall j :: 0 <= j < r.count && (j < index || j >= i) ==>
                  s[RealIndex(r, j)] == r.slots[RealIndex(r, j)]
      invariant stop == r.count ==> s[RealIndex(r, r.count)] == r.slots[RealIndex(r, r.count)]
      invariant forall j :: index <= j < i ==> s[RealIndex(r, j)] == r.slots[RealIndex(r, j + 1)]
    {
      forall j | 0 <= j <= r.count && j != i
        ensures RealIndex(r, j) == RealIndex(r, i) ==> i == 0 && j == r.count == |r.slots|
      {
        if j < i { RealIndexInjective(r, j, i); } else { RealIndexInjective(r, i, j); }
      }
      s := s[RealIndex(r, i) := s[RealIndex(r, i + 1)]];
      i := i + 1;
    }
  }

  /** After the head side has moved right over the hole at `index` and the old
      head slot has been nulled, the view is the old one without `index`. */
  lemma LowerRemoveView<T>(r: Ring<T>, index: int, r': Ring<T>)
    requires Valid(r) && 0 <= index < r.count
    requires |r'.slots| == |r.slots| && r'.count == r.count - 1 && r'.next == r.next
    requires forall j :: 0 < j < r.count && j > index ==>
               r'.slots[RealIndex(r, j)] == r.slots[RealIndex(r, j)]
    requires forall j :: 0 < j <= index ==> r'.slots[RealIndex(r, j)] == r.slots[RealIndex(r, j - 1)]
    ensures Valid(r')
    ensures View(r') == View(r)[..index] + View(r)[index + 1..]
  {
    var v, v' := View(r), View(r');
    var w := v[..index] + v[index + 1..];
    assert |v'| == |w|;
    forall j | 0 <= j < |w|
      ensures v'[j] == w[j]
    {
      assert RealIndex(r', j) == RealIndex(r, j + 1);
      if j < index {
        assert w[j] == v[j];
      } else {
        assert w[j] == v[j + 1];
      }
    }
    assert v' == w;
  }

  /** After the tail side has moved left over the hole at `index` and the slot
      at the write cursor has been nulled, the window (whose cursor did not
      move) has lost the old head and ends with what the cursor slot held. */
  lemma UpperRemoveView<T>(r: Ring<T>, index: int, r': Ring<T>)
    requires Valid(r) && 0 <= index < r.count
    requires |r'.slots| == |r.slots| && r'.count == r.count - 1 && r'.next == r.next
    requires forall j :: 0 < j < index ==> r'.slots[RealIndex(r, j)] == r.slots[RealIndex(r, j)]
    requires forall j :: 0 < j < r.count && index <= j ==>
               r'.slots[RealIndex(r, j)] == r.slots[RealIndex(r, j + 1)]
    ensures Valid(r')
    ensures index >= 1 ==> View(r') == View(r)[1..index] + View(r)[index + 1..] + [r.slots[r.next]]
    ensures index == 0 && r.count == 1 ==> View(r') == []
  {
    var v, v' := View(r), View(r');
    assert RealIndex(r, r.count) == r.next;
    if index >= 1 {
      forall j | 0 <= j < r'.count
        ensures v'[j] == if j + 1 < index then v[j + 1] else if j + 2 < r.count then v[j + 2] else r.slots[r.next]
      {
        assert RealIndex(r', j) == RealIndex(r, j + 1);
      }
      assert v' == v[1..index] + v[index + 1..] + [r.slots[r.next]];
    }
  }

  /** A negative index that does not throw nulls the slot `capacity` places
      further on. When that is a live position `k` of the window, its element
      is nulled in place; otherwise a free slot is nulled. Either way the
      count drops, so the window also loses its oldest element. */
  lemma NegativeRemoveView<T>(r: Ring<T>, index: int, r': Ring<T>)
    requires Valid(r) && r.count >= 1 && r.count - r.next - |r.slots| <= index < 0
    requires |r'.slots| == |r.slots| && r'.count == r.count - 1 && r'.next == r.next
    requires r'.slots == r.slots[RealIndex(r, index) := None]
    ensures Valid(r')
    ensures var k := index + |r.slots|;
            && (0 <= k < r.count ==>
                  RealIndex(r, index) == RealIndex(r, k) && View(r') == View(r)[k := None][1..])
            && (!(0 <= k < r.count) ==> View(r') == View(r)[1..])
  {
    var v, v' := View(r), View(r');
    var k, p := index + |r.slots|, RealIndex(r, index);
    var live := 0 <= k < r.count;
    var w := if live then v[k := None] else v;
    if live {
      assert p == RealIndex(r, k);
    }
    forall j | 0 <= j < r'.count
      ensures v'[j] == w[j + 1]
    {
      assert RealIndex(r', j) == RealIndex(r, j + 1);
      if live && j + 1 != k {
        if j + 1 < k { RealIndexInjective(r, j + 1, k); } else { RealIndexInjective(r, k, j + 1); }
      }
    }
  }

  /** `removeFirst`: on a non-empty list, the oldest element is returned,
      reported with `isOverflow = false`, and the next one becomes first; an
      empty list returns null and is left alone. Both branches of `remove`
      are correct for index 0. */
  method RemoveFirst<T>(r: Ring<T>) returns (st: Step<T>)
    requires Valid(r)
    ensures Valid(st.ring) && Capacity(st.ring) == Capacity(r)
    ensures View(r) == [] ==> st == Step(r, None, [])
    ensures View(r) != [] ==>
              && st.removed == View(r)[0]
              && View(st.ring) == View(r)[1..]
              && st.log == [Removal(false, View(r)[0])]
  {
    var res := Remove(r, 0);
    st := res.value;
    if r.count >= 2 {
      assert View(r)[..0] + View(r)[1..] == View(r)[1..];
    }
  }

  /** The listener calls for values removed without overflow, in order. */
  function Released<T>(xs: seq<Option<T>>): (log: seq<Removal<T>>)
    ensures |log| == |xs|
    ensures forall j :: 0 <= j < |xs| ==> log[j] == Removal(false, xs[j])
  {
    seq(|xs|, j requires 0 <= j < |xs| => Removal(false, xs[j]))
  }

  /** `removeCount(n)` as the source writes it. A non-negative count is
      clamped to the size, the oldest `n` elements are reported oldest first
      with `isOverflow = false` and nulled, and the survivors keep their
      order. A negative count skips the loop and then raises the size by
      `-n`, so the list claims elements it does not hold. */
  method RemoveCount<T>(r: Ring<T>, n: int) returns (r': Ring<T>, log: seq<Removal<T>>)
    requires Valid(r)
    ensures |r'.slots| == |r.slots| && r'.next == r.next
    ensures n >= 0 ==> Valid(r')
    ensures 0 <= n <= r.count ==> View(r') == View(r)[n..] && log == Released(View(r)[..n])
    ensures n > r.count ==> View(r') == [] && log == Released(View(r))
    ensures n < 0 ==> r'.slots == r.slots && r'.count == r.count - n && log == []
  {
    var k := if n > r.count then r.count else n;
    var s := r.slots;
    log := [];
    var i := 0;
    while i < k
      invariant 0 <= i <= k || (k < 0 && i == 0)
      invariant |s| == |r.slots|
      invariant k < 0 ==> s == r.slots && log == []
      invariant k >= 0 ==> log == Released(View(r)[..i])
      invariant forall j :: i <= j < r.count ==> s[RealIndex(r, j)] == r.slots[RealIndex(r, j)]
    {
      var p := RealIndex(r, i);
      forall j | i < j < r.count
        ensures RealIndex(r, j) != p
      {
        RealIndexInjective(r, i, j);
      }
      log := log + [Removal(false, s[p])];
      s := s[p := None];
      i := i + 1;
    }
    r' := Ring(s, r.count - k, r.next);
    if k >= 0 {
      var v, v' := View(r), View(r');
      forall j | 0 <= j < r'.count
        ensures v'[j] == v[j + k]
      {
        assert RealIndex(r', j) == RealIndex(r, j + k);
      }
      assert v' == v[k..];
      if n > r.count {
        assert v[..k] == v;
      }
    }
  }

  /** `clear`: every element is reported once, oldest first, and the list is
      left empty. */
  method Clear<T>(r: Ring<T>) returns (r': Ring<T>, log: seq<Removal<T>>)
    requires Valid(r)
    ensures Valid(r') && Capacity(r') == Capacity(r)
    ensures View(r') == [] && log == Released(View(r))
  {
    r', log := RemoveCount(r, r.count);
    assert View(r)[..r.count] == View(r);
  }

  /** `remove(index)` as evidently intended: a negative index is rejected
      like one past the end, and the upper-half branch moves the write cursor
      back over the vacated slot, so either branch removes exactly element
      `index` and keeps the others in order. */
  method RemoveFixed<T>(r: Ring<T>, index: int) returns (st: Step<T>)
    requires Valid(r)
    ensures Valid(st.ring) && Capacity(st.ring) == Capacity(r)
    ensures !(0 <= index < |View(r)|) ==> st == Step(r, None, [])
    ensures 0 <= index < |View(r)| ==>
              && st.removed == View(r)[index]
              && View(st.ring) == View(r)[..index] + View(r)[index + 1..]
              && st.log == [Removal(false, View(r)[index])]
  {
    if index < 0 || index >= r.count {
      return Step(r, None, []);
    }
    var value := r.slots[RealIndex(r, index)];
    if index < r.count / 2 {
      var s := ShiftHeadRight(r, index);
      var r' := Ring(s[RealIndex(r, 0) := None], r.count - 1, r.next);
      forall j | 0 < j < r.count
        ensures RealIndex(r, j) != RealIndex(r, 0)
      {
        RealIndexInjective(r, 0, j);
      }
      LowerRemoveView(r, index, r');
      return Step(r', value, [Removal(false, value)]);
    } else {
      var s := ShiftTailLeft(r, index, r.count - 1);
      var last := RealIndex(r, r.count - 1);
      var r' := Ring(s[last := None], r.count - 1, last);
      forall j | 0 <= j < r.count - 1
        ensures RealIndex(r, j) != last
      {
        RealIndexInjective(r, j, r.count - 1);
      }
      FixedUpperRemoveView(r, index, r');
      return Step(r', value, [Removal(false, value)]);
    }
  }

  /** With the cursor moved back to the vacated last slot, the window is the
      old one without `index`. */
  lemma FixedUpperRemoveView<T>(r: Ring<T>, index: int, r': Ring<T>)
    requires Valid(r) && 0 <= index < r.count
    requires |r'.slots| == |r.slots| && r'.count == r.count - 1
    requires r'.next == RealIndex(r, r.count - 1)
    requires forall j :: 0 <= j < index ==> r'.slots[RealIndex(r, j)] == r.slots[RealIndex(r, j)]
    requires forall j :: index <= j < r.count - 1 ==>
               r'.slots[RealIndex(r, j)] == r.slots[RealIndex(r, j + 1)]
    ensures Valid(r')
    ensures View(r') == View(r)[..index] + View(r)[index + 1..]
  {
    var v, v' := View(r), View(r');
    var w := v[..index] + v[index + 1..];
    assert |v'| == |w|;
    forall j | 0 <= j < |w|
      ensures v'[j] == w[j]
    {
      assert RealIndex(r', j) == RealIndex(r, j);
      if j < index {
        assert w[j] == v[j];
      } else {
        assert w[j] == v[j + 1];
      }
    }
    assert v' == w;
  }

  /** `removeCount(n)` as evidently intended: a negative count removes
      nothing, so the size never leaves `[0, capacity]`. */
  method RemoveCountFixed<T>(r: Ring<T>, n: int) returns (r': Ring<T>, log: seq<Removal<T>>)
    requires Valid(r)
    ensures Valid(r') && Capacity(r') == Capacity(r)
    ensures n <= 0 ==> r' == r && log == []
    ensures 0 <= n <= |View(r)| ==> View(r') == View(r)[n..] && log == Released(View(r)[..n])
    ensures n > |View(r)| ==> View(r') == [] && log == Released(View(r))
  {
    if n <= 0 {
      return r, [];
    }
    r', log := RemoveCount(r, n);
  }

  /** The list `[1, 2, 3]` in a 12-slot array, written from slot 0 with the
      cursor at slot 3. */
  function ThreeOfTwelve(): (r: Ring<int>)
    ensures Valid(r) && View(r) == [Some(1), Some(2), Some(3)]
  {
    var r := Ring([Some(1), Some(2), Some(3)] + seq(9, _ => None), 3, 3);
    assert View(r) == [Some(1), Some(2), Some(3)];
    r
  }

  /** `remove(2)` on `[1, 2, 3]` (capacity 12) takes the upper-half branch
      and leaves `[2, null]` instead of `[1, 2]`: element 1 is lost without
      a listener call and a null appears at the end. */
  method UpperRemoveExample() returns (after: seq<Option<int>>, intended: seq<Option<int>>)
    ensures after == [Some(2), None]
    ensures intended == [Some(1), Some(2)]
  {
    var r := ThreeOfTwelve();
    var res := Remove(r, 2);
    after := View(res.value.ring);
    var fixed := RemoveFixed(r, 2);
    intended := View(fixed.ring);
    assert View(r)[..2] + View(r)[3..] == [Some(1), Some(2)];
  }

  /** `remove(-1)` on `[1, 2, 3]` (capacity 12) returns null, yet the list
      shrinks to `[2, 3]`: element 1 is dropped without a listener call. On an
      empty list the same call leaves the size at -1. */
  method NegativeRemoveExample() returns (removed: Option<int>, after: seq<Option<int>>, emptyCount: int)
    ensures removed == None && after == [Some(2), Some(3)]
    ensures emptyCount == -1
  {
    var r := ThreeOfTwelve();
    var res := Remove(r, -1);
    assert RealIndex(r, -1) == 11;
    removed := res.value.removed;
    after := View(res.value.ring);
    var e: Ring<int> := Empty(12);
    var res' := Remove(e, -1);
    emptyCount := res'.value.ring.count;
  }

  /** `remove(-10)` on `[1, 2, 3]` (capacity 12) wraps to the slot of the
      live element 3: it is nulled and reported, and the list reads
      `[2, null]`. `remove(-13)` wraps before the array and throws. */
  method DeepNegativeRemoveExample() returns (removed: Option<int>, after: seq<Option<int>>, fault: bool)
    ensures removed == Some(3) && after == [Some(2), None]
    ensures fault
  {
    var r := ThreeOfTwelve();
    var res := Remove(r, -10);
    removed := res.value.removed;
    after := View(res.value.ring);
    var res' := Remove(r, -13);
    fault := res'.Failure?;
  }

  /** `removeCount(-2)` on `[1, 2, 3]` (capacity 3) raises the size to 5,
      beyond the capacity. */
  method NegativeRemoveCountExample() returns (size: int, capacity: int)
    ensures size == 5 && capacity == 3
  {
    var r := Ring([Some(1), Some(2), Some(3)], 3, 0);
    var r', _ := RemoveCount(r, -2);
    size, capacity := r'.count, |r'.slots|;
  }

  /** The round trip of a single element through an empty list of any
      capacity: `add(x)` then `removeFirst()` returns `x` and leaves the list
      empty, with exactly one non-overflow listener call. */
  method AddThenRemoveFirst<T>(capacity: nat, x: T) returns (st: Step<T>)
    requires capacity >= 1
    ensures Valid(st.ring) && Capacity(st.ring) == capacity
    ensures st.removed == Some(x) && View(st.ring) == [] && st.log == [Removal(false, Some(x))]
  {
    var e: Ring<T> := Empty(capacity);
    var (r, _) := Add(e, x);
    st := RemoveFirst(r);
  }
}
