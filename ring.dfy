/** The ring layout of the data set, as values: which slots hold which retained
    point, how addpoint and resize change that, how far resize grows the
    capacity, and which slots a walk from one index to another visits. */
module Ring {
  import opened SizeT
  import opened Ohlc

  /** What the model finds in a slot that malloc handed out and nothing has
      written yet (C leaves its content indeterminate). */
  const Unset: Point := Point(0.0, 0.0, 0.0, 0.0)

  function Fill(n: nat): (s: seq<Point>)
    ensures |s| == n && forall i :: 0 <= i < n ==> s[i] == Unset
  {
    seq(n, _ => Unset)
  }

  // ---------------------------------------------------------------------------
  // The retained points

  /** The retained points, oldest to newest, of a ring array `a` that retains
      `dlen` points and holds the newest one in slot `len - 1`: the older block
      sits at the end of the array and slots `0 .. len - 1` follow it. */
  function Logical(a: seq<Point>, len: nat, dlen: nat): (s: seq<Point>)
    requires len <= dlen <= |a|
    ensures |s| == dlen
  {
    a[|a| - (dlen - len)..] + a[..len]
  }

  /** The slot of the `k`th oldest retained point, without wrap-around
      arithmetic: in the older block, or in slots `0 .. len - 1`. */
  lemma LogicalSlot(a: seq<Point>, len: nat, dlen: nat, k: nat)
    requires len <= dlen <= |a| && k < dlen
    ensures Logical(a, len, dlen)[k] ==
            if k < dlen - len then a[|a| - (dlen - len) + k] else a[k - (dlen - len)]
  {
  }

  /** The `k`th oldest retained point lives in slot `(len - dlen + k) mod |a|`. */
  lemma LogicalAt(a: seq<Point>, len: nat, dlen: nat, k: nat)
    requires len <= dlen <= |a| && k < dlen
    ensures Logical(a, len, dlen)[k] == a[(len - dlen + k) % |a|]
  {
    ModNear(len - dlen + k, |a|);
  }

  /** What one addpoint does to the retained points: the new point is appended,
      and once `cap` points are retained the oldest is evicted. */
  function Push(s: seq<Point>, cap: nat, p: Point): seq<Point>
    requires 0 < cap && |s| <= cap
  {
    if |s| < cap then s + [p] else s[1..] + [p]
  }

  /** The retained points after one addpoint per reading of `ys`. */
  function PushAll(s: seq<Point>, cap: nat, ys: seq<Value>): seq<Point>
    requires 0 < cap && |s| <= cap
    decreases |ys|
  {
    if ys == [] then s else PushAll(Push(s, cap, Fresh(ys[0])), cap, ys[1..])
  }

  /** The points the readings `ys` start, one per reading. */
  function FreshAll(ys: seq<Value>): (s: seq<Point>)
    ensures |s| == |ys| && forall i :: 0 <= i < |ys| ==> s[i] == Fresh(ys[i])
  {
    if ys == [] then [] else [Fresh(ys[0])] + FreshAll(ys[1..])
  }

  /** The newest `cap` points of the run `x` (all of them while fewer). */
  function Latest(x: seq<Point>, cap: nat): seq<Point>
  {
    x[|x| - (if |x| < cap then |x| else cap)..]
  }

  /** One addpoint keeps the newest `cap` of the old points and the new one. */
  lemma PushIsLatest(s: seq<Point>, cap: nat, p: Point)
    requires 0 < cap && |s| <= cap
    ensures Push(s, cap, p) == Latest(s + [p], cap)
  {
  }

  /** Keeping the newest `cap` points early does not change the newest `cap`
      points of a longer run. */
  lemma LatestOfLatest(x: seq<Point>, y: seq<Point>, cap: nat)
    ensures Latest(Latest(x, cap) + y, cap) == Latest(x + y, cap)
  {
    var k := Latest(x, cap);
    var m := if |x + y| < cap then |x + y| else cap;
    assert k + y == (x + y)[|x| - |k|..];
    assert (k + y)[|k + y| - m..] == (x + y)[|x + y| - m..];
  }

  /** Ring eviction: after any run of readings the buffer retains exactly the
      newest `cap` points of everything it has seen (all of them while fewer
      than `cap`), in arrival order. */
  lemma {:induction false} PushAllKeepsNewest(s: seq<Point>, cap: nat, ys: seq<Value>)
    requires 0 < cap && |s| <= cap
    ensures PushAll(s, cap, ys) == Latest(s + FreshAll(ys), cap)
    decreases |ys|
  {
    if ys == [] {
      assert s + FreshAll(ys) == s;
    } else {
      var p := Fresh(ys[0]);
      var rest := FreshAll(ys[1..]);
      assert s + FreshAll(ys) == (s + [p]) + rest;
      assert PushAll(s, cap, ys) == PushAll(Push(s, cap, p), cap, ys[1..]);
      PushAllKeepsNewest(Push(s, cap, p), cap, ys[1..]);
      PushIsLatest(s, cap, p);
      LatestOfLatest(s + [p], rest, cap);
    }
  }

  // ---------------------------------------------------------------------------
  // The capacity resize grows to

  /** The capacity before a resize is rounded up from: at least 1. */
  function Base(dsize: nat): nat
  {
    if dsize == 0 then 1 else dsize
  }

  lemma Pow2Step(size: nat, k: nat)
    ensures size * Pow2(k + 1) == (2 * size) * Pow2(k) == 2 * (size * Pow2(k))
  {
  }

  lemma MulMonotone(a: nat, x: nat, y: nat)
    requires x <= y
    ensures a * x <= a * y
  {
  }

  /** The capacity the doubling loop stops at, starting from `size`. */
  function Grown(size: nat, width: int): nat
    requires size >= 1
    decreases width - size
  {
    if size >= width then size else Grown(2 * size, width)
  }

  /** The capacity resize settles on for a screen `width` columns wide. */
  function NewCapacity(dsize: nat, width: int): nat
  {
    Grown(Base(dsize), width)
  }

  /** How often the doubling loop doubles `size` before it reaches `width`. */
  function Doublings(size: nat, width: int): (k: nat)
    requires size >= 1
    decreases width - size
  {
    if size >= width then 0 else 1 + Doublings(2 * size, width)
  }

  /** The loop stops at `size * 2^k` for `k` the number of doublings, the
      first `k` for which that reaches `width`. */
  lemma {:induction false} GrownIsDoubled(size: nat, width: int)
    requires size >= 1
    ensures Grown(size, width) == size * Pow2(Doublings(size, width))
    ensures Grown(size, width) >= width
    ensures Doublings(size, width) == 0 || size * Pow2(Doublings(size, width) - 1) < width
    decreases width - size
  {
    if size < width {
      var k' := Doublings(2 * size, width);
      GrownIsDoubled(2 * size, width);
      Pow2Step(size, k');
      if k' > 0 {
        Pow2Step(size, k' - 1);
      }
    }
  }

  /** A screen wider than the capacity but at most twice as wide doubles it once. */
  lemma NewCapacityDoubles(dsize: nat, width: int)
    requires Base(dsize) < width <= 2 * Base(dsize)
    ensures NewCapacity(dsize, width) == 2 * Base(dsize)
  {
    assert Grown(2 * Base(dsize), width) == 2 * Base(dsize);
  }

  lemma {:induction false} TimesPow2IsPow2(b: nat, k: nat)
    requires IsPow2(b)
    ensures IsPow2(b * Pow2(k))
  {
    if k > 0 {
      TimesPow2IsPow2(b, k - 1);
      Pow2Step(b, k - 1);
      assert b * Pow2(k) == 2 * (b * Pow2(k - 1));
      DoubleIsPow2(b * Pow2(k - 1));
    }
  }

  /** The new capacity is the smallest number of the form `max(dsize, 1) * 2^j`
      that is at least `width`. */
  lemma NewCapacitySmallest(dsize: nat, width: int, j: nat)
    requires Base(dsize) * Pow2(j) >= width
    ensures width <= NewCapacity(dsize, width) <= Base(dsize) * Pow2(j)
  {
    var b := Base(dsize);
    var k := Doublings(b, width);
    GrownIsDoubled(b, width);
    if j < k {
      Pow2Monotone(j, k - 1);
      MulMonotone(b, Pow2(j), Pow2(k - 1));
      assert false;
    }
    Pow2Monotone(k, j);
    MulMonotone(b, Pow2(k), Pow2(j));
  }

  /** Resize never shrinks the buffer, keeps it a power of two, reallocates
      exactly when the buffer is empty-sized or narrower than the screen, and
      grows it to less than twice the width when it grows it at all. */
  lemma NewCapacityFacts(dsize: nat, width: int)
    ensures NewCapacity(dsize, width) >= width
    ensures NewCapacity(dsize, width) >= Base(dsize) >= dsize
    ensures (dsize == 0 || IsPow2(dsize)) ==> IsPow2(NewCapacity(dsize, width))
    ensures NewCapacity(dsize, width) == dsize <==> (dsize > 0 && dsize >= width)
    ensures NewCapacity(dsize, width) == Base(dsize) || NewCapacity(dsize, width) < 2 * width
  {
    var b := Base(dsize);
    var k := Doublings(b, width);
    GrownIsDoubled(b, width);
    MulMonotone(b, 1, Pow2(k));
    if dsize == 0 || IsPow2(dsize) {
      TimesPow2IsPow2(b, k);
    }
    if k > 0 {
      Pow2Step(b, k - 1);
      assert NewCapacity(dsize, width) == 2 * (b * Pow2(k - 1));
      Pow2Monotone(1, k);
      MulMonotone(b, 2, Pow2(k));
    }
  }

  // ---------------------------------------------------------------------------
  // Relocation of the points into a grown array

  /** The array resize builds with its two block copies (chart.c:51-55): slots
      `0 .. len - 1` keep their place, and the `dlen - len` slots that start at
      slot `len` move up by `newsize - |a|`; malloc's slots fill the rest. */
  function RelocatedAsWritten(a: seq<Point>, newsize: nat, len: nat, dlen: nat): (b: seq<Point>)
    requires len <= dlen <= |a| <= newsize
    ensures |b| == newsize
  {
    a[..len] + Fill(newsize - |a|) + a[len..dlen] + Fill(|a| - dlen)
  }

  /** The relocation that keeps the order: the older block, which is the last
      `dlen - len` slots of `a`, moves to the last `dlen - len` slots of the
      grown array. */
  function Relocated(a: seq<Point>, newsize: nat, len: nat, dlen: nat): (b: seq<Point>)
    requires len <= dlen <= |a| <= newsize
    ensures |b| == newsize
  {
    a[..len] + Fill(newsize - dlen) + a[|a| - (dlen - len)..]
  }

  /** Growth by `Relocated` keeps every retained point, in order. */
  lemma RelocatedKeepsOrder(a: seq<Point>, newsize: nat, len: nat, dlen: nat)
    requires len <= dlen <= |a| <= newsize
    ensures Logical(Relocated(a, newsize, len, dlen), len, dlen) == Logical(a, len, dlen)
  {
    var b := Relocated(a, newsize, len, dlen);
    assert b[..len] == a[..len];
    assert b[newsize - (dlen - len)..] == a[|a| - (dlen - len)..];
  }

  /** The copies as written agree with `Relocated`, and so keep every retained
      point in order, when the buffer is not wrapped (the newest point is in
      slot `dlen - 1`) or is full. */
  lemma AsWrittenAgrees(a: seq<Point>, newsize: nat, len: nat, dlen: nat)
    requires len <= dlen <= |a| <= newsize
    requires len == dlen || dlen == |a|
    ensures RelocatedAsWritten(a, newsize, len, dlen) == Relocated(a, newsize, len, dlen)
    ensures Logical(RelocatedAsWritten(a, newsize, len, dlen), len, dlen) == Logical(a, len, dlen)
  {
    RelocatedKeepsOrder(a, newsize, len, dlen);
    if len == dlen {
      assert Fill(newsize - |a|) + a[len..dlen] + Fill(|a| - dlen) == Fill(newsize - dlen);
      assert a[|a| - (dlen - len)..] == [];
    } else {
      assert a[len..dlen] == a[|a| - (dlen - len)..];
      assert Fill(|a| - dlen) == [];
    }
  }

  /** The copies as written lose the newest point of the older block of a
      wrapped buffer that is not full: in the grown array its slot holds what
      malloc left there. */
  lemma AsWrittenLosesOldBlock(a: seq<Point>, newsize: nat, len: nat, dlen: nat)
    requires len < dlen < |a| < newsize
    ensures Logical(a, len, dlen)[dlen - len - 1] == a[|a| - 1]
    ensures Logical(RelocatedAsWritten(a, newsize, len, dlen), len, dlen)[dlen - len - 1] == Unset
  {
    var b := RelocatedAsWritten(a, newsize, len, dlen);
    assert b[newsize - 1] == Unset;
  }

  // ---------------------------------------------------------------------------
  // Walking the ring

  /** Steps from slot `b` forward to slot `e` in a ring of `n` slots. */
  function Dist(b: nat, e: nat, n: nat): nat
    requires b < n
  {
    if b <= e then e - b else e + n - b
  }

  /** The points the loop `for (i = b; i != e; i = (i + 1) % n)` visits. */
  function Walk(a: seq<Point>, b: nat, e: nat): seq<Point>
    requires b < |a| && e < |a|
    decreases Dist(b, e, |a|)
  {
    if b == e then []
    else
      ModNear(b + 1, |a|);
      [a[b]] + Walk(a, (b + 1) % |a|, e)
  }

  /** One step of the walk: the point at `b`, then the walk from the next slot. */
  lemma WalkStep(a: seq<Point>, b: nat, e: nat)
    requires b < |a| && e < |a| && b != e
    ensures (b + 1) % |a| == if b + 1 == |a| then 0 else b + 1
    ensures Walk(a, b, e) == [a[b]] + Walk(a, (b + 1) % |a|, e)
  {
    ModNear(b + 1, |a|);
  }

  /** `dlen < w ? dlen : w`, where `w` is `width` converted to `size_t`
      (chart.c:99-100 and 126-127). */
  function WindowCount(dlen: nat, width: int): (c: nat)
    ensures c <= dlen
    ensures 0 <= width < SIZE_MOD ==> c == if dlen < width then dlen else width
  {
    var w := ToSize(width);
    if dlen < w then dlen else w
  }

  /** The points a walk over the window for a chart `width` columns wide
      visits, given the retained points `s` of a ring of `n` slots: the newest
      `min(|s|, width)` of them, or none when that count is the whole ring. */
  function Newest(s: seq<Point>, n: nat, width: int): (w: seq<Point>)
    requires |s| <= n
    ensures |w| <= |s| && w == s[|s| - |w|..]
  {
    s[|s| - Wrap(WindowCount(|s|, width), n)..]
  }

  /** The window has `min(|s|, width)` points unless that is the whole ring,
      in which case it is empty. */
  lemma NewestSize(s: seq<Point>, n: nat, width: int)
    requires |s| <= n && 0 <= width < SIZE_MOD
    ensures |s| < n || width < n ==> |Newest(s, n, width)| == if |s| < width then |s| else width
    ensures |s| == n && width >= n ==> Newest(s, n, width) == []
  {
  }

  /** A narrower chart shows a suffix of the window of a wider one, as long
      as the wider window is not the whole ring. */
  lemma NewestNarrows(s: seq<Point>, n: nat, wide: int, narrow: int)
    requires |s| <= n && 0 <= narrow <= wide < SIZE_MOD
    requires |s| < n || wide < n
    ensures var w1 := Newest(s, n, wide);
            var w2 := Newest(s, n, narrow);
            |w2| <= |w1| && w2 == w1[|w1| - |w2|..]
  {
    var w1 := Newest(s, n, wide);
    var w2 := Newest(s, n, narrow);
    NewestSize(s, n, wide);
    NewestSize(s, n, narrow);
    assert w2 == s[|s| - |w2|..];
    assert w1 == s[|s| - |w1|..];
    assert w1[|w1| - |w2|..] == s[|s| - |w2|..];
  }

  /** `WalkNewest` with the slot arithmetic spelled out: starting `c` slots
      before `e`, with wrap-around. */
  lemma {:induction false} WalkFrom(a: seq<Point>, len: nat, dlen: nat, c: nat, e: nat, b: nat)
    requires 0 < |a| && len <= dlen <= |a| && c <= dlen && c < |a|
    requires e == if len == |a| then 0 else len
    requires b == if c <= e then e - c else e - c + |a|
    ensures Walk(a, b, e) == Logical(a, len, dlen)[dlen - c..]
    decreases c
  {
    var s := Logical(a, len, dlen);
    if c == 0 {
      assert s[dlen..] == [];
    } else {
      var n := |a|;
      var b' := if c - 1 <= e then e - (c - 1) else e - (c - 1) + n;
      WalkStep(a, b, e);
      assert (b + 1) % n == b';
      WalkFrom(a, len, dlen, c - 1, e, b');
      LogicalSlot(a, len, dlen, dlen - c);
      assert a[b] == s[dlen - c];
      assert s[dlen - c..] == [s[dlen - c]] + s[dlen - (c - 1)..];
    }
  }

  /** `c mod n` for `c <= n`: the number of slots a walk of `c` steps back
      from a slot covers before it meets itself. */
  function Wrap(c: nat, n: nat): (r: nat)
    requires c <= n
    ensures r <= c
  {
    if c == n then 0 else c
  }

  lemma WrapIsMod(c: nat, n: nat)
    requires 0 < n && c <= n
    ensures c % n == Wrap(c, n)
  {
    ModNear(c, n);
  }

  /** Walking from `(end - c) mod n` to `end`, the slot after the newest point,
      visits the newest `c` retained points in order, oldest first; when `c` is
      the whole capacity the start is `end` itself and nothing is visited. */
  lemma WalkNewest(a: seq<Point>, len: nat, dlen: nat, c: nat, e: nat, b: nat)
    requires 0 < |a| && len <= dlen <= |a| && c <= dlen
    requires e == len % |a| && b == (e - c) % |a|
    ensures b < |a| && e < |a|
    ensures Walk(a, b, e) == Logical(a, len, dlen)[dlen - Wrap(c, |a|)..]
  {
    var n := |a|;
    EndSlot(len, n);
    StartSlot(e, c, n);
    if c == n {
      WalkWholeRing(a, len, dlen, e);
    } else {
      WalkFrom(a, len, dlen, c, e, b);
    }
  }

  /** A walk back over the whole ring starts where it ends and visits nothing. */
  lemma WalkWholeRing(a: seq<Point>, len: nat, dlen: nat, e: nat)
    requires len <= dlen == |a| && e < |a|
    ensures Walk(a, e, e) == Logical(a, len, dlen)[dlen - Wrap(|a|, |a|)..] == []
  {
  }

  /** The slot after the newest point: slot `len`, or 0 when that is past the end. */
  lemma EndSlot(len: nat, n: nat)
    requires 0 < n && len <= n
    ensures len % n == if len == n then 0 else len
  {
    ModNear(len, n);
  }

  /** The slot `c` steps back from slot `e`, with wrap-around. */
  lemma StartSlot(e: nat, c: nat, n: nat)
    requires e < n && c <= n
    ensures (e - c) % n == if c <= e then e - c else e - c + n
  {
    ModNear(e - c, n);
  }
}
