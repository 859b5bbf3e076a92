/** The range scan of initdraw (chart.c:103-113): the accumulators `dmin`,
    `dmax` and `dlast` after the loop has visited a run of points. */
module Scan {
  import opened Ohlc

  /** `dmin` after visiting `s`: it starts at DBL_MAX and drops to every lower
      `low`; it is the least `low` of a non-empty run. */
  function ScanMin(s: seq<Point>): (r: Value)
    ensures s == [] ==> r == DblMax
    ensures forall i :: 0 <= i < |s| ==> r <= s[i].low
    ensures s != [] ==> exists i :: 0 <= i < |s| && r == s[i].low
    decreases |s|
  {
    if s == [] then DblMax
    else
      var init := s[..|s| - 1];
      var acc := ScanMin(init);
      assert forall i :: 0 <= i < |init| ==> init[i] == s[i];
      if s[|s| - 1].low < acc then s[|s| - 1].low else acc
  }

  /** `dmax` after visiting `s`: it starts at -DBL_MAX and rises to every
      higher `high`; it is the greatest `high` of a non-empty run. */
  function ScanMax(s: seq<Point>): (r: Value)
    ensures s == [] ==> r == -DblMax
    ensures forall i :: 0 <= i < |s| ==> s[i].high <= r
    ensures s != [] ==> exists i :: 0 <= i < |s| && r == s[i].high
    decreases |s|
  {
    if s == [] then -DblMax
    else
      var init := s[..|s| - 1];
      var acc := ScanMax(init);
      assert forall i :: 0 <= i < |init| ==> init[i] == s[i];
      if s[|s| - 1].high > acc then s[|s| - 1].high else acc
  }

  /** `dlast` after visiting `s`: the `close` of the last point, 0 for none. */
  function LastClose(s: seq<Point>): Value
  {
    if s == [] then 0.0 else s[|s| - 1].close
  }

  /** Visiting one more point updates the accumulators as the loop body does. */
  lemma ScanStep(s: seq<Point>, p: Point)
    ensures ScanMin(s + [p]) == if p.low < ScanMin(s) then p.low else ScanMin(s)
    ensures ScanMax(s + [p]) == if p.high > ScanMax(s) then p.high else ScanMax(s)
    ensures LastClose(s + [p]) == p.close
  {
    assert (s + [p])[..|s|] == s;
  }

  /** Over a non-empty run `scanned` of the retained points `s` the range
      is not inverted and the last close seen is that of the newest point. */
  predicate RangeEndsWith(scanned: seq<Point>, s: seq<Point>)
  {
    scanned != [] ==>
      && s != []
      && ScanMin(scanned) <= ScanMax(scanned)
      && LastClose(scanned) == s[|s| - 1].close
  }

  /** `plotted` is a suffix of `scanned`, and every point of it lies within
      the range scanned over `scanned`. */
  predicate PlottedWithin(scanned: seq<Point>, plotted: seq<Point>)
  {
    && |plotted| <= |scanned|
    && plotted == scanned[|scanned| - |plotted|..]
    && forall i :: 0 <= i < |plotted| ==>
         ScanMin(scanned) <= plotted[i].low && plotted[i].high <= ScanMax(scanned)
  }

  /** The range scanned over a run covers every point of any suffix of it. */
  lemma SuffixInRange(s: seq<Point>, t: seq<Point>)
    requires |t| <= |s| && t == s[|s| - |t|..]
    ensures PlottedWithin(s, t)
  {
    forall i | 0 <= i < |t|
      ensures ScanMin(s) <= t[i].low && t[i].high <= ScanMax(s)
    {
      assert t[i] == s[|s| - |t| + i];
    }
  }

  /** Over a non-empty run of well-formed points the scanned range is not
      inverted. */
  lemma ScanRange(s: seq<Point>)
    requires s != [] && forall i :: 0 <= i < |s| ==> WellFormed(s[i])
    ensures ScanMin(s) <= s[0].low <= s[0].high <= ScanMax(s)
  {
  }
}
