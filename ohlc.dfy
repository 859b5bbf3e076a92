/** The `struct ohlc` record of chart.c and the two ways a reading enters one:
    starting a new point, or folding into the newest point. */
module Ohlc {

  /** DBL_MAX, the largest finite double, (2^53 - 1) * 2^971, written out exactly. */
  const DblMax: real := 179769313486231570814527423731704356798070567525844996598917476803157260780028538760589558632766878171540458953514382464234321326889464182768467546703537516986049910576551282076245490090389328944075868508455133942304583236903222948165808559332123348274797826204144723168738177180919299881250404026184124858368.0

  /** A finite double reading, taken as the exact real it denotes. */
  type Value = r: real | -DblMax <= r <= DblMax witness 0.0

  /** One chart position: the first, highest, lowest and last reading folded into it. */
  datatype Point = Point(open: Value, high: Value, low: Value, close: Value)

  /** The extremes bracket the first and the last reading. */
  predicate WellFormed(p: Point)
  {
    p.low <= p.open <= p.high && p.low <= p.close <= p.high
  }

  /** The point a new reading starts (the compound literal of addpoint). */
  function Fresh(y: Value): (p: Point)
    ensures WellFormed(p)
  {
    Point(y, y, y, y)
  }

  function Max(a: Value, b: Value): Value
  {
    if a < b then b else a
  }

  function Min(a: Value, b: Value): Value
  {
    if b < a then b else a
  }

  /** What folding a reading into a point means: the first reading stays, the
      extremes widen to include it, and it becomes the last reading. */
  function Fold(p: Point, y: Value): (q: Point)
    ensures WellFormed(p) ==> WellFormed(q)
  {
    Point(p.open, Max(p.high, y), Min(p.low, y), y)
  }

  /** The point after folding the readings `ys`, one after another, into `p`. */
  function FoldAll(p: Point, ys: seq<Value>): Point
    decreases |ys|
  {
    if ys == [] then p else FoldAll(Fold(p, ys[0]), ys[1..])
  }

  /** A burst of readings aggregated into one point keeps the first reading as
      open, the last as close, and the exact extremes of the burst as high and low. */
  lemma {:induction false} FoldAllAggregates(p: Point, ys: seq<Value>)
    ensures FoldAll(p, ys).open == p.open
    ensures FoldAll(p, ys).close == if ys == [] then p.close else ys[|ys| - 1]
    ensures p.high <= FoldAll(p, ys).high && FoldAll(p, ys).low <= p.low
    ensures forall i :: 0 <= i < |ys| ==> FoldAll(p, ys).low <= ys[i] <= FoldAll(p, ys).high
    ensures FoldAll(p, ys).high == p.high || exists i :: 0 <= i < |ys| && FoldAll(p, ys).high == ys[i]
    ensures FoldAll(p, ys).low == p.low || exists i :: 0 <= i < |ys| && FoldAll(p, ys).low == ys[i]
    ensures WellFormed(p) ==> WellFormed(FoldAll(p, ys))
    decreases |ys|
  {
    if ys != [] {
      var p' := Fold(p, ys[0]);
      FoldAllAggregates(p', ys[1..]);
      var q := FoldAll(p', ys[1..]);
      assert q == FoldAll(p, ys);
      forall i | 0 <= i < |ys|
        ensures q.low <= ys[i] <= q.high
      {
        if i > 0 {
          assert ys[i] == ys[1..][i - 1];
        }
      }
      if q.high != p.high && q.high != p'.high {
        var i :| 0 <= i < |ys[1..]| && q.high == ys[1..][i];
        assert q.high == ys[i + 1];
      }
      if q.low != p.low && q.low != p'.low {
        var i :| 0 <= i < |ys[1..]| && q.low == ys[1..][i];
        assert q.low == ys[i + 1];
      }
    }
  }
}
