/** The sample store of chart.c (the globals `data`, `dsize`, `dlen`, `dptr`
    and the functions that change them) and the layout computation initdraw. */
module Chart {
  import opened SizeT
  import opened Ohlc
  import opened Ring
  import opened Scan

  /** A bound on the capacity: resize only grows it to less than twice an
      `int` screen width, so it stays below 2^32. */
  const MaxCapacity: int := 0x1_0000_0000

  /** `struct draw`: the screen size, the window `[begin, end)` of slots to
      plot, the plotted range and the width of the scale on the right. */
  datatype Draw = Draw(maxy: int, maxx: int, begin: Size, end: Size,
                       dmin: Value, dmax: Value, drange: real, margin: int)

  /** The doubling loop of resize (chart.c:47-49). */
  method GrowCapacity(dsize: Size, width: int) returns (newsize: Size)
    requires dsize <= MaxCapacity && 0 <= width <= INT_MAX
    ensures newsize == NewCapacity(dsize, width)
  {
    newsize := if dsize != 0 then dsize else 1;
    while newsize < width
      invariant 1 <= newsize && (newsize <= Base(dsize) || newsize < 2 * width)
      invariant Grown(newsize, width) == NewCapacity(dsize, width)
      decreases width - newsize
    {
      newsize := newsize * 2;
    }
  }

  /** The margin computation of initdraw (chart.c:116-122): the widest of the
      labels for the maximum, the minimum and the last close. */
  method MarginWidth(labelWidth: Value -> int, dmax: Value, dmin: Value, dlast: Value) returns (margin: int)
    ensures margin >= labelWidth(dmax) && margin >= labelWidth(dmin) && margin >= labelWidth(dlast)
    ensures margin == labelWidth(dmax) || margin == labelWidth(dmin) || margin == labelWidth(dlast)
  {
    margin := labelWidth(dmax);
    var n := labelWidth(dmin);
    if n > margin {
      margin := n;
    }
    n := labelWidth(dlast);
    if n > margin {
      margin := n;
    }
  }

  /** `memcpy(dst + to, src + from, count * sizeof *dst)`. */
  method CopyBlock(src: array<Point>, from: nat, dst: array<Point>, to: nat, count: nat)
    requires src != dst
    requires from + count <= src.Length && to + count <= dst.Length
    modifies dst
    ensures forall i :: 0 <= i < dst.Length ==>
              dst[i] == if to <= i < to + count then src[from + (i - to)] else old(dst[i])
  {
    var k := 0;
    while k < count
      invariant 0 <= k <= count
      invariant forall i :: 0 <= i < dst.Length ==>
                  dst[i] == if to <= i < to + k then src[from + (i - to)] else old(dst[i])
    {
      dst[to + k] := src[from + k];
      k := k + 1;
    }
  }

  /** The allocation and the two block copies of resize (chart.c:51-55). */
  method CopyAsWritten(data: array<Point>, newsize: nat, len: nat, dlen: nat) returns (newdata: array<Point>)
    requires len <= dlen <= data.Length <= newsize
    ensures fresh(newdata)
    ensures newdata[..] == RelocatedAsWritten(old(data[..]), newsize, len, dlen)
  {
    newdata := new Point[newsize](_ => Unset);
    CopyBlock(data, 0, newdata, 0, len);
    CopyBlock(data, len, newdata, newsize - data.Length + len, dlen - len);
    ghost var b := RelocatedAsWritten(data[..], newsize, len, dlen);
    forall i | 0 <= i < newsize
      ensures newdata[i] == b[i]
    {
      RelocatedAsWrittenAt(data[..], newsize, len, dlen, i);
    }
  }

  /** The allocation and block copies of a resize that moves the older block
      to the end of the grown array. */
  method CopyKeepingOrder(data: array<Point>, newsize: nat, len: nat, dlen: nat) returns (newdata: array<Point>)
    requires len <= dlen <= data.Length <= newsize
    ensures fresh(newdata)
    ensures newdata[..] == Relocated(old(data[..]), newsize, len, dlen)
  {
    newdata := new Point[newsize](_ => Unset);
    CopyBlock(data, 0, newdata, 0, len);
    CopyBlock(data, data.Length - (dlen - len), newdata, newsize - (dlen - len), dlen - len);
    ghost var b := Relocated(data[..], newsize, len, dlen);
    forall i | 0 <= i < newsize
      ensures newdata[i] == b[i]
    {
      RelocatedAt(data[..], newsize, len, dlen, i);
    }
  }

  /** The invariant of the data set, on the slot contents `a`: a power-of-two
      capacity (or none yet), at most that many retained points, and the
      newest in slot `dptr`, which is `(size_t)-1` exactly while nothing is
      retained; every slot holds a well-formed point. */
  ghost predicate Shape(a: seq<Point>, dsize: Size, dlen: Size, dptr: Size)
  {
    && |a| == dsize
    && dsize <= MaxCapacity
    && (dsize == 0 || IsPow2(dsize))
    && dlen <= dsize
    && (if dlen == 0 then dptr == SIZE_MAX else dptr < dsize && dptr + 1 <= dlen)
    && ToSize(dptr + 1) <= dlen
    && forall i :: 0 <= i < |a| ==> WellFormed(a[i])
  }

  /** The retained points of slot contents `a`, oldest first, when the newest
      is in slot `dptr` and `dlen` are retained. */
  ghost function Retained(a: seq<Point>, dptr: Size, dlen: Size): (s: seq<Point>)
    requires ToSize(dptr + 1) <= dlen <= |a|
    ensures |s| == dlen
  {
    Logical(a, ToSize(dptr + 1), dlen)
  }

  /** The data set: a ring of `dsize` slots of which `dlen` hold retained
      points, the newest in slot `dptr`; `dptr` is `(size_t)-1` until the
      first point arrives. */
  class DataSet {
    var data: array<Point>
    var dsize: Size
    var dlen: Size
    var dptr: Size

    ghost predicate Valid()
      reads this, data
    {
      data.Length == dsize && Shape(data[..], dsize, dlen, dptr)
    }

    /** `dptr + 1` in `size_t`: the slots `0 .. Len() - 1` end with the newest
        point (the local `len` of resize). */
    function Len(): Size
      reads this
    {
      ToSize(dptr + 1)
    }

    /** The retained points, oldest first. */
    ghost function Contents(): (s: seq<Point>)
      reads this, data
      requires Len() <= dlen <= data.Length
      ensures |s| == dlen
    {
      Retained(data[..], dptr, dlen)
    }

    /** The points a walk from `(end - count) % dsize` to `end` visits, for
        `count` the window size computed from a chart `width`. */
    ghost function Window(width: int): seq<Point>
      reads this, data
      requires 0 < dsize == data.Length && Len() <= dlen <= dsize
    {
      Newest(Contents(), dsize, width)
    }

    lemma ContentsWellFormed()
      requires Valid()
      ensures forall k :: 0 <= k < dlen ==> WellFormed(Contents()[k])
    {
      forall k | 0 <= k < dlen
        ensures WellFormed(Contents()[k])
      {
        LogicalAt(data[..], Len(), dlen, k);
      }
    }

    /** The initial state (chart.c:35): no storage, no points, `dptr == -1`. */
    constructor ()
      ensures Valid() && dsize == 0 && dlen == 0 && dptr == SIZE_MAX
      ensures Contents() == []
    {
      data := new Point[0](_ => Unset);
      dsize, dlen, dptr := 0, 0, SIZE_MAX;
    }

    /** resize (chart.c:44-60), as written: grow to the smallest
        `max(dsize, 1) * 2^k` that covers the screen width, keep slots
        `0 .. len - 1` in place and move the block starting at slot `len`
        up by the growth. The retained points keep their order when the ring
        is not wrapped or is full. */
    method Resize(width: int)
      requires Valid() && 0 <= width <= INT_MAX
      modifies this
      ensures Valid()
      ensures dsize == NewCapacity(old(dsize), width) && old(dsize) <= dsize
      ensures dlen == old(dlen) && dptr == old(dptr)
      ensures dsize == old(dsize) ==> data == old(data)
      ensures dsize != old(dsize) ==>
                fresh(data) && data[..] == RelocatedAsWritten(old(data[..]), dsize, Len(), dlen)
      ensures old(Len() == dlen || dlen == dsize) ==> Contents() == old(Contents())
    {
      var newsize := GrowCapacity(dsize, width);
      GrowthBounds(dsize, width);
      if newsize != dsize {
        Reallocate(newsize);
      }
    }

    /** The reallocating branch of resize (chart.c:50-57), as written. */
    method Reallocate(newsize: Size)
      requires Valid() && dsize < newsize <= MaxCapacity && IsPow2(newsize)
      modifies this
      ensures Valid() && dsize == newsize && dlen == old(dlen) && dptr == old(dptr)
      ensures fresh(data) && data[..] == RelocatedAsWritten(old(data[..]), dsize, Len(), dlen)
      ensures old(Len() == dlen || dlen == dsize) ==> Contents() == old(Contents())
    {
      ghost var a, n, k, p := data[..], dsize, dlen, dptr;
      var len := ToSize(dptr + 1);
      var newdata := CopyAsWritten(data, newsize, len, dlen);
      ghost var b := newdata[..];
      dsize := newsize;
      data := newdata;
      assert data[..] == b;
      GrowState(a, b, n, k, p, newsize);
    }

    /** resize with the older block moved to the end of the grown array, so
        that the retained points keep their order in every state. */
    method ResizeKeepingOrder(width: int)
      requires Valid() && 0 <= width <= INT_MAX
      modifies this
      ensures Valid()
      ensures dsize == NewCapacity(old(dsize), width) && old(dsize) <= dsize
      ensures dlen == old(dlen) && dptr == old(dptr)
      ensures dsize == old(dsize) ==> data == old(data)
      ensures dsize != old(dsize) ==>
                fresh(data) && data[..] == Relocated(old(data[..]), dsize, Len(), dlen)
      ensures Contents() == old(Contents())
    {
      var newsize := GrowCapacity(dsize, width);
      GrowthBounds(dsize, width);
      if newsize != dsize {
        ReallocateKeepingOrder(newsize);
      }
    }

    /** The reallocating branch of resize with the corrected second copy. */
    method ReallocateKeepingOrder(newsize: Size)
      requires Valid() && dsize < newsize <= MaxCapacity && IsPow2(newsize)
      modifies this
      ensures Valid() && dsize == newsize && dlen == old(dlen) && dptr == old(dptr)
      ensures fresh(data) && data[..] == Relocated(old(data[..]), dsize, Len(), dlen)
      ensures Contents() == old(Contents())
    {
      ghost var a, n, k, p := data[..], dsize, dlen, dptr;
      var len := ToSize(dptr + 1);
      var newdata := CopyKeepingOrder(data, newsize, len, dlen);
      ghost var b := newdata[..];
      dsize := newsize;
      data := newdata;
      assert data[..] == b;
      GrowStateKeepingOrder(a, b, n, k, p, newsize);
    }

    /** addpoint (chart.c:63-74): advance the head with wrap-around, write a
        point with all four fields `y`, and count it while there is room. */
    method AddPoint(y: Value)
      requires Valid() && dsize > 0
      modifies this, data
      ensures Valid() && data == old(data) && dsize == old(dsize)
      ensures dptr == ToSize(old(dptr) + 1) % dsize
      ensures data[dptr] == Fresh(y)
      ensures forall i :: 0 <= i < dsize && i != dptr ==> data[i] == old(data[i])
      ensures dlen == if old(dlen) < dsize then old(dlen) + 1 else old(dlen)
      ensures Contents() == Push(old(Contents()), dsize, Fresh(y))
    {
      ghost var a := data[..];
      var head := ToSize(dptr + 1) % dsize;
      PushState(a, dsize, dlen, dptr, head, Fresh(y));
      dptr := head;
      data[dptr] := Fresh(y);
      assert data[..] == a[head := Fresh(y)];
      if dlen < dsize {
        dlen := dlen + 1;
      }
    }

    /** updpoint (chart.c:77-84): fold a reading into the newest point. */
    method UpdPoint(y: Value)
      requires Valid() && dlen > 0
      modifies data
      ensures Valid()
      ensures data[dptr] == Fold(old(data[dptr]), y)
      ensures forall i :: 0 <= i < dsize && i != dptr ==> data[i] == old(data[i])
      ensures Contents() == old(Contents())[..dlen - 1] + [Fold(old(Contents())[dlen - 1], y)]
    {
      ghost var a, len := data[..], Len();
      ghost var before := Contents();
      var p := data[dptr];
      assert WellFormed(p);
      if y > p.high {
        p := p.(high := y);
      } else if y < p.low {
        p := p.(low := y);
      }
      p := p.(close := y);
      assert p == Fold(a[dptr], y);
      LogicalSlot(a, len, dlen, dlen - 1);
      UpdateLogical(a, len, dlen, p);
      assert before[dlen - 1] == a[len - 1];
      data[dptr] := p;
      assert data[..] == a[len - 1 := p];
    }

    /** The slot a walk that ends with the newest point stops at. */
    lemma EndFollowsNewest()
      requires Valid() && dsize > 0 && dlen > 0
      ensures data[(Len() % dsize + dsize - 1) % dsize] == Contents()[dlen - 1]
    {
      ModNear(Len(), dsize);
      ModNear(Len() % dsize + dsize - 1, dsize);
      LogicalAt(data[..], Len(), dlen, dlen - 1);
      ModNear(Len() - 1, dsize);
    }

    /** A walk from `(end - c) % dsize` in `size_t` arithmetic to the slot
        after the newest point visits the window of `c` newest points. */
    lemma WalkWindow(c: nat, begin: Size)
      requires Valid() && dsize > 0 && c <= dlen
      requires begin == ToSize(Len() % dsize - c) % dsize
      ensures begin < dsize
      ensures Walk(data[..], begin, Len() % dsize) == Contents()[dlen - Wrap(c, dsize)..]
    {
      var e := Len() % dsize;
      assert e < dsize;
      UnsignedModAgrees(e - c, dsize);
      WalkNewest(data[..], Len(), dlen, c, e, begin);
    }

    /** The scanned window has `min(dlen, width)` points, except when that
        is the whole capacity: the walk then starts where it ends and scans
        nothing. */
    lemma WindowSize(width: int)
      requires Valid() && dsize > 0 && 0 <= width < SIZE_MOD
      ensures dlen < dsize || width < dsize ==>
                |Window(width)| == if dlen < width then dlen else width
      ensures dlen == dsize && width >= dsize ==> Window(width) == []
    {
      NewestSize(Contents(), dsize, width);
    }

    /** The range scanned over a non-empty window is not inverted, and the
        last close seen is the newest point's. */
    lemma ScannedRange(width: int)
      requires Valid() && dsize > 0
      ensures RangeEndsWith(Window(width), Contents())
    {
      ContentsWellFormed();
      ghost var s := Contents();
      assert Window(width) == Newest(s, dsize, width);
      NewestRange(s, dsize, width);
    }

    /** With room for the scale, the window narrowed for a `margin` wide scale
        is a suffix of the scanned window, so the range scanned covers every
        point plotted. */
    lemma NarrowedWindow(maxx: int, margin: int)
      requires Valid() && dsize > 0 && 0 <= margin && margin + 2 <= maxx < SIZE_MOD
      requires dlen < dsize || maxx - 2 < dsize
      ensures PlottedWithin(Window(maxx - 2), Window(maxx - margin - 2))
    {
      ghost var s := Contents();
      assert Window(maxx - 2) == Newest(s, dsize, maxx - 2);
      assert Window(maxx - margin - 2) == Newest(s, dsize, maxx - margin - 2);
      NarrowedRange(s, dsize, maxx - 2, maxx - margin - 2);
    }

    /** What initdraw's two windows promise together: the scanned range is
        not inverted and ends with the newest close, and with room for a
        `margin` wide scale it covers every point plotted. */
    lemma LayoutFacts(maxx: int, margin: int)
      requires Valid() && dsize > 0 && 0 <= margin
      ensures RangeEndsWith(Window(maxx - 2), Contents())
      ensures margin + 2 <= maxx < SIZE_MOD && (dlen < dsize || maxx - 2 < dsize) ==>
                PlottedWithin(Window(maxx - 2), Window(maxx - margin - 2))
    {
      ScannedRange(maxx - 2);
      if margin + 2 <= maxx < SIZE_MOD && (dlen < dsize || maxx - 2 < dsize) {
        NarrowedWindow(maxx, margin);
      }
    }

    /** The range loop of initdraw (chart.c:103-112): walk from `begin` to
        `end`, keeping the least low, the greatest high and the last close. */
    method FindRange(begin: Size, end: Size) returns (dmin: Value, dmax: Value, dlast: Value)
      requires data.Length == dsize && begin < dsize && end < dsize
      ensures dmin == ScanMin(Walk(data[..], begin, end))
      ensures dmax == ScanMax(Walk(data[..], begin, end))
      ensures dlast == LastClose(Walk(data[..], begin, end))
    {
      dmin, dmax, dlast := DblMax, -DblMax, 0.0;
      ghost var seen: seq<Point> := [];
      var i: Size := begin;
      while i != end
        invariant i < dsize == data.Length
        invariant Walk(data[..], begin, end) == seen + Walk(data[..], i, end)
        invariant dmin == ScanMin(seen) && dmax == ScanMax(seen) && dlast == LastClose(seen)
        decreases Dist(i, end, dsize)
      {
        ghost var a := data[..];
        WalkStep(a, i, end);
        assert seen + Walk(a, i, end) == (seen + [a[i]]) + Walk(a, (i + 1) % dsize, end);
        ScanStep(seen, a[i]);
        dlast := data[i].close;
        if data[i].low < dmin {
          dmin := data[i].low;
        }
        if data[i].high > dmax {
          dmax := data[i].high;
        }
        seen := seen + [a[i]];
        i := (i + 1) % dsize;
      }
      assert Walk(data[..], i, end) == [];
      assert Walk(data[..], begin, end) == seen;
    }

    /** The slot the walk over the window for a chart `width` columns wide
        starts at (chart.c:99-100, 126-127): `end - min(dlen, width)` in
        `size_t` arithmetic, reduced modulo `dsize`. */
    function WindowStart(width: int): (begin: Size)
      reads this, data
      requires Valid() && dsize > 0
      ensures begin < dsize
      ensures Walk(data[..], begin, Len() % dsize) == Window(width)
    {
      var w := ToSize(width);
      var count := if dlen < w then dlen else w;
      var begin := ToSize(Len() % dsize - count) % dsize;
      WalkWindow(count, begin);
      begin
    }

    /** initdraw (chart.c:92-130): the slot after the newest point ends the
        window; the `min(dlen, maxx - 2)` newest points are scanned for the
        range and the last close; the scale is as wide as the widest of the
        three labels; the window is then narrowed to `min(dlen, maxx - margin - 2)`
        points without scanning again. `labelWidth` gives the number of
        characters `%g` prints for a value. */
    method InitDraw(maxy: int, maxx: int, labelWidth: Value -> int) returns (drw: Draw)
      requires Valid() && dsize > 0
      requires 0 <= maxx <= INT_MAX
      requires forall v :: 1 <= labelWidth(v) < INT_MAX
      ensures drw.maxy == maxy && drw.maxx == maxx
      ensures drw.begin < dsize && drw.end < dsize
      ensures drw.end == Len() % dsize
      // the range, over the scanned window
      ensures drw.dmin == ScanMin(Window(maxx - 2)) && drw.dmax == ScanMax(Window(maxx - 2))
      ensures drw.drange == drw.dmax - drw.dmin
      ensures Window(maxx - 2) == [] ==> drw.dmin == DblMax && drw.dmax == -DblMax
      // the margin
      ensures drw.margin >= labelWidth(drw.dmax) && drw.margin >= labelWidth(drw.dmin)
      ensures drw.margin >= labelWidth(LastClose(Window(maxx - 2)))
      ensures drw.margin == labelWidth(drw.dmax) || drw.margin == labelWidth(drw.dmin) ||
              drw.margin == labelWidth(LastClose(Window(maxx - 2)))
      ensures RangeEndsWith(Window(maxx - 2), Contents())
      ensures Window(maxx - 2) != [] ==> drw.drange >= 0.0
      // the plotted window
      ensures Walk(data[..], drw.begin, drw.end) == Window(maxx - drw.margin - 2)
      ensures drw.margin + 2 <= maxx && (dlen < dsize || maxx - 2 < dsize) ==>
                PlottedWithin(Window(maxx - 2), Window(maxx - drw.margin - 2))
    {
      var end: Size := Len() % dsize;

      // find the domain
      var begin := WindowStart(maxx - 2);

      // find the range
      var dmin, dmax, dlast := FindRange(begin, end);
      assert dlast == LastClose(Window(maxx - 2));
      var drange := dmax as real - dmin as real;

      // find the maximum width of the margin for the scale on the right
      var margin := MarginWidth(labelWidth, dmax, dmin, dlast);

      // adjust the domain with the newly-found chart width
      begin := WindowStart(maxx - margin - 2);
      LayoutFacts(maxx, margin);
      drw := Draw(maxy, maxx, begin, end, dmin, dmax, drange, margin);
    }
  }

  /** Over a non-empty window of well-formed points the scanned range is not
      inverted, and the last close seen is the newest point's. */
  lemma NewestRange(s: seq<Point>, n: nat, width: int)
    requires |s| <= n
    requires forall k :: 0 <= k < |s| ==> WellFormed(s[k])
    ensures RangeEndsWith(Newest(s, n, width), s)
  {
    var w := Newest(s, n, width);
    if w != [] {
      assert w[0] == s[|s| - |w|];
      assert w[|w| - 1] == s[|s| - 1];
      ScanRange(w);
    }
  }

  /** A narrower chart shows a suffix of the window scanned for a wider one,
      and so only points within the scanned range. */
  lemma NarrowedRange(s: seq<Point>, n: nat, wide: int, narrow: int)
    requires |s| <= n && 0 <= narrow <= wide < SIZE_MOD
    requires |s| < n || wide < n
    ensures PlottedWithin(Newest(s, n, wide), Newest(s, n, narrow))
  {
    NewestNarrows(s, n, wide, narrow);
    SuffixInRange(Newest(s, n, wide), Newest(s, n, narrow));
  }

  /** The effect of addpoint on the retained points, as values. */
  lemma PushLogical(a: seq<Point>, len: nat, dlen: nat, head: nat, p: Point)
    requires 0 < |a| && len <= dlen <= |a| && (dlen == 0 ==> len == 0)
    requires head == if len < |a| then len else 0
    ensures var dlen' := if dlen < |a| then dlen + 1 else dlen;
            head + 1 <= dlen' &&
            Logical(a[head := p], head + 1, dlen') == Push(Logical(a, len, dlen), |a|, p)
  {
    var n := |a|;
    var a' := a[head := p];
    var s := Logical(a, len, dlen);
    if dlen < n {
      assert head == len;
      assert a'[n - (dlen - len)..] == a[n - (dlen - len)..];
      assert a'[..len + 1] == a[..len] + [p];
    } else if len < n {
      assert a'[len + 1..] == a[len + 1..];
      assert a'[..len + 1] == a[..len] + [p];
      assert s[1..] == a[len + 1..] + a[..len];
    } else {
      assert head == 0;
      assert Logical(a', 1, n) == a'[1..] + [p];
      assert s == a;
    }
  }

  /** addpoint on the slot contents: it keeps the invariant, and the
      retained points become `Push` of the old ones. */
  lemma PushState(a: seq<Point>, dsize: Size, dlen: Size, dptr: Size, head: Size, p: Point)
    requires Shape(a, dsize, dlen, dptr) && dsize > 0 && WellFormed(p)
    requires head == ToSize(dptr + 1) % dsize
    ensures Shape(a[head := p], dsize, if dlen < dsize then dlen + 1 else dlen, head)
    ensures Retained(a[head := p], head, if dlen < dsize then dlen + 1 else dlen) ==
            Push(Retained(a, dptr, dlen), dsize, p)
  {
    ModNear(ToSize(dptr + 1), dsize);
    PushLogical(a, ToSize(dptr + 1), dlen, head, p);
    assert ToSize(head + 1) == head + 1;
    var a' := a[head := p];
    assert forall i :: 0 <= i < |a'| ==> WellFormed(a'[i]) by {
      forall i | 0 <= i < |a'| ensures WellFormed(a'[i]) {
        assert a'[i] == if i == head then p else a[i];
      }
    }
  }

  /** The capacity resize grows to stays a power of two within `MaxCapacity`,
      and differs from the old one only by being larger. */
  lemma GrowthBounds(dsize: Size, width: int)
    requires dsize <= MaxCapacity && (dsize == 0 || IsPow2(dsize)) && 0 <= width <= INT_MAX
    ensures var n := NewCapacity(dsize, width);
            n <= MaxCapacity && IsPow2(n) && (n != dsize ==> dsize < n)
  {
    NewCapacityFacts(dsize, width);
  }

  /** resize as written on the slot contents: the grown array `b` keeps the
      invariant, and keeps the retained points when the ring is unwrapped or
      full. */
  lemma GrowState(a: seq<Point>, b: seq<Point>, dsize: Size, dlen: Size, dptr: Size, newsize: Size)
    requires Shape(a, dsize, dlen, dptr)
    requires dsize < newsize <= MaxCapacity && IsPow2(newsize)
    requires b == RelocatedAsWritten(a, newsize, ToSize(dptr + 1), dlen)
    ensures Shape(b, newsize, dlen, dptr)
    ensures ToSize(dptr + 1) == dlen || dlen == dsize ==> Retained(b, dptr, dlen) == Retained(a, dptr, dlen)
  {
    RelocatedWellFormed(a, newsize, ToSize(dptr + 1), dlen);
    if ToSize(dptr + 1) == dlen || dlen == dsize {
      AsWrittenAgrees(a, newsize, ToSize(dptr + 1), dlen);
    }
  }

  /** The corrected resize on the slot contents: the grown array `b` keeps
      the invariant and every retained point, in order. */
  lemma GrowStateKeepingOrder(a: seq<Point>, b: seq<Point>, dsize: Size, dlen: Size, dptr: Size, newsize: Size)
    requires Shape(a, dsize, dlen, dptr)
    requires dsize < newsize <= MaxCapacity && IsPow2(newsize)
    requires b == Relocated(a, newsize, ToSize(dptr + 1), dlen)
    ensures Shape(b, newsize, dlen, dptr)
    ensures Retained(b, dptr, dlen) == Retained(a, dptr, dlen)
  {
    RelocatedWellFormed(a, newsize, ToSize(dptr + 1), dlen);
    RelocatedKeepsOrder(a, newsize, ToSize(dptr + 1), dlen);
  }

  /** The effect of updpoint on the retained points, as values. */
  lemma UpdateLogical(a: seq<Point>, len: nat, dlen: nat, p: Point)
    requires 0 < len <= dlen <= |a|
    ensures Logical(a[len - 1 := p], len, dlen) ==
            Logical(a, len, dlen)[..dlen - 1] + [p]
  {
    var a' := a[len - 1 := p];
    assert a'[|a| - (dlen - len)..] == a[|a| - (dlen - len)..];
    assert a'[..len] == a[..len - 1] + [p];
  }

  lemma RelocatedAsWrittenAt(a: seq<Point>, newsize: nat, len: nat, dlen: nat, i: nat)
    requires len <= dlen <= |a| <= newsize && i < newsize
    ensures RelocatedAsWritten(a, newsize, len, dlen)[i] ==
            if i < len then a[i]
            else if newsize - |a| + len <= i < newsize - |a| + dlen then a[len + (i - (newsize - |a| + len))]
            else Unset
  {
  }

  lemma RelocatedAt(a: seq<Point>, newsize: nat, len: nat, dlen: nat, i: nat)
    requires len <= dlen <= |a| <= newsize && i < newsize
    ensures Relocated(a, newsize, len, dlen)[i] ==
            if i < len then a[i]
            else if newsize - (dlen - len) <= i then a[|a| - (dlen - len) + (i - (newsize - (dlen - len)))]
            else Unset
  {
  }

  /** Both relocations leave only well-formed points behind. */
  lemma RelocatedWellFormed(a: seq<Point>, newsize: nat, len: nat, dlen: nat)
    requires len <= dlen <= |a| <= newsize
    requires forall i :: 0 <= i < |a| ==> WellFormed(a[i])
    ensures forall i :: 0 <= i < newsize ==> WellFormed(RelocatedAsWritten(a, newsize, len, dlen)[i])
    ensures forall i :: 0 <= i < newsize ==> WellFormed(Relocated(a, newsize, len, dlen)[i])
  {
    assert WellFormed(Unset);
  }

  // ---------------------------------------------------------------------------
  // A run of calls that shows resize losing a point

  /** A fresh data set sized for a screen two columns wide. */
  method TwoSlots() returns (d: DataSet)
    ensures fresh(d) && fresh(d.data) && d.Valid()
    ensures d.dsize == 2 && d.dlen == 0 && d.dptr == SIZE_MAX
  {
    d := new DataSet();
    NewCapacityDoubles(0, 2);
    d.Resize(2);
  }

  /** That data set given the readings 1 and 2: the ring is full and
      unwrapped. */
  method TwoSlotsTwoPoints() returns (d: DataSet)
    ensures fresh(d) && fresh(d.data) && d.Valid()
    ensures d.dsize == 2 && d.dlen == 2 && d.dptr == 1
    ensures d.Contents() == [Fresh(1.0), Fresh(2.0)]
  {
    d := TwoSlots();
    assert d.Contents() == [];
    d.AddPoint(1.0);
    assert d.dptr == 0 && d.dlen == 1;
    d.AddPoint(2.0);
  }

  /** The reading 3 then overruns the oldest point, and the newest point
      sits in slot 0. */
  method FullTwoSlots() returns (d: DataSet)
    ensures fresh(d) && fresh(d.data) && d.Valid()
    ensures d.dsize == 2 && d.dlen == 2 && d.Len() == 1
    ensures d.Contents() == [Fresh(2.0), Fresh(3.0)]
  {
    d := TwoSlotsTwoPoints();
    d.AddPoint(3.0);
  }

  /** That ring grown to four slots while full, then given the reading 4: the
      ring now wraps (the newest point is in slot 1) without being full. */
  method WrappedNotFull() returns (d: DataSet)
    ensures fresh(d) && d.Valid()
    ensures d.dsize == 4 && d.dlen == 3 && d.Len() == 2
    ensures d.Contents() == [Fresh(2.0), Fresh(3.0), Fresh(4.0)]
  {
    d := FullTwoSlots();
    NewCapacityDoubles(2, 4);
    d.Resize(4);
    assert d.dsize == 4 && d.dptr == 0 && d.dlen == 2;
    d.AddPoint(4.0);
    assert d.dptr == 1 && d.dlen == 3;
  }

  /** Growing that ring to eight slots: resize as written puts a slot malloc
      left unwritten first and drops point 2, while the corrected resize keeps
      all three points in order. */
  method ResizeLosesOldest() returns (before: seq<Point>, asWritten: seq<Point>, corrected: seq<Point>)
    ensures before == [Fresh(2.0), Fresh(3.0), Fresh(4.0)]
    ensures |asWritten| == 3 && asWritten[0] == Unset && asWritten[0] != before[0]
    ensures corrected == before
  {
    var d := WrappedNotFull();
    before := Logical(d.data[..], d.Len(), d.dlen);
    NewCapacityDoubles(4, 8);
    ghost var a := d.data[..];
    d.Resize(8);
    AsWrittenLosesOldBlock(a, 8, 2, 3);
    asWritten := Logical(d.data[..], d.Len(), d.dlen);

    var e := WrappedNotFull();
    e.ResizeKeepingOrder(8);
    corrected := Logical(e.data[..], e.Len(), e.dlen);
  }
}
