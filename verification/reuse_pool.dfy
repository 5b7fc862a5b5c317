/** A bounded list of reusable decode buffers, as the players keep it: new
    buffers join at the end, a full list first pushes out (and recycles) its
    oldest, and the decoder claims the first buffer its compatibility test
    accepts. Buffers pushed out are logged in `recycled`, oldest first. */
module ReusePool {
  import opened Wrappers

  /** The pool of reusable buffers, oldest first, and the buffers the pool
      has pushed out and recycled, in order. */
  datatype Reuse<B> = Reuse(pool: seq<B>, recycled: seq<B>)

  /** Everything a buffer that entered the pool can be: recycled or still pooled. */
  function Released<B>(r: Reuse<B>): seq<B> {
    r.recycled + r.pool
  }

  /** The pool's `add`: a full pool first pushes out (and recycles) its oldest
      buffer. Nothing is lost: the released buffers grow by exactly `x`. */
  function Offer<B>(r: Reuse<B>, capacity: int, x: B): (r': Reuse<B>)
    requires 1 <= capacity && |r.pool| <= capacity
    ensures |r'.pool| <= capacity && r'.pool != [] && r'.pool[|r'.pool| - 1] == x
    ensures Released(r') == Released(r) + [x]
    ensures |r'.pool| == if |r.pool| < capacity then |r.pool| + 1 else capacity
  {
    if |r.pool| < capacity then Reuse(r.pool + [x], r.recycled)
    else
      assert r.recycled + [r.pool[0]] + (r.pool[1..] + [x]) == r.recycled + r.pool + [x] by {
        assert r.pool == [r.pool[0]] + r.pool[1..];
      }
      Reuse(r.pool[1..] + [x], r.recycled + [r.pool[0]])
  }

  /** Hands `xs` to the pool one by one, in order. */
  function Release<B>(r: Reuse<B>, capacity: int, xs: seq<B>): (r': Reuse<B>)
    requires 1 <= capacity && |r.pool| <= capacity
    ensures Released(r') == Released(r) + xs
    ensures |r'.pool| == if |r.pool| + |xs| < capacity then |r.pool| + |xs| else capacity
    decreases |xs|
  {
    if xs == [] then r
    else
      var r1 := Offer(r, capacity, xs[0]);
      assert Released(r) + [xs[0]] + xs[1..] == Released(r) + xs;
      Release(r1, capacity, xs[1..])
  }

  /** The pool keeps the newest buffers it was given: after a release it is
      the last `|pool|` buffers of everything released so far, and the
      recycled ones are the older rest. */
  lemma ReleaseKeepsNewest<B>(r: Reuse<B>, capacity: int, xs: seq<B>)
    requires 1 <= capacity && |r.pool| <= capacity
    ensures var all := Released(r) + xs;
            var r' := Release(r, capacity, xs);
            && r'.pool == all[|all| - |r'.pool|..]
            && r'.recycled == all[..|all| - |r'.pool|]
            && |r'.pool| <= capacity
  {
    var all := Released(r) + xs;
    var r' := Release(r, capacity, xs);
    assert r'.recycled + r'.pool == all;
    assert all[|r'.recycled|..] == r'.pool;
    assert all[..|r'.recycled|] == r'.recycled;
  }

  /** `getBitmapFromReusableSet`: the position of the first pooled buffer the
      compatibility test accepts, if any. */
  function FirstFit<B>(pool: seq<B>, fits: B -> bool): (i: Option<int>)
    ensures i.None? <==> forall k :: 0 <= k < |pool| ==> !fits(pool[k])
    ensures i.Some? ==>
              && 0 <= i.value < |pool| && fits(pool[i.value])
              && forall k :: 0 <= k < i.value ==> !fits(pool[k])
  {
    if pool == [] then None
    else if fits(pool[0]) then Some(0)
    else
      match FirstFit(pool[1..], fits)
      case None => None
      case Some(j) => Some(j + 1)
  }

  /** `getBitmapFromReusableSet` without trimming: the first compatible buffer
      leaves the pool and the others keep their order; when none is
      compatible the pool is unchanged. Putting the claimed buffer back at
      the first compatible position restores the pool. */
  function Claim<B>(pool: seq<B>, fits: B -> bool): (r: (Option<B>, seq<B>))
    ensures r.0.None? <==> forall k :: 0 <= k < |pool| ==> !fits(pool[k])
    ensures r.0.None? ==> r.1 == pool
    ensures r.0.Some? ==>
              && fits(r.0.value) && |r.1| == |pool| - 1
              && var k := FirstFit(pool, fits).value;
                 pool == r.1[..k] + [r.0.value] + r.1[k..]
  {
    match FirstFit(pool, fits)
    case None => (None, pool)
    case Some(k) =>
      var rest := pool[..k] + pool[k + 1..];
      assert rest[..k] == pool[..k] && rest[k..] == pool[k + 1..];
      assert pool == pool[..k] + [pool[k]] + pool[k + 1..];
      (Some(pool[k]), rest)
  }
}
