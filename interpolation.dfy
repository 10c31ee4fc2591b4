/**
 * `scipy.interpolate.interp1d(xs, ys, kind='linear')` with its default
 * `bounds_error`: a piecewise-linear curve through the samples, and an error for
 * any query outside `[xs[0], xs[|xs| - 1]]`.
 */
module Interpolation {
  import opened Results
  import opened Sequences

  /** The two errors a query raises: below the first sample or above the last one. */
  datatype InterpError = BelowRange | AboveRange

  /** Samples of a curve that interp1d accepts: paired, at least two, ascending in x. */
  predicate IsCurve(xs: seq<real>, ys: seq<real>)
  {
    |xs| == |ys| && |xs| >= 2 && StrictlyIncreasing(xs)
  }

  /** Number of samples strictly below `x`: numpy's `searchsorted(xs, x, side='left')`. */
  function CountBelow(xs: seq<real>, x: real): (c: nat)
    requires StrictlyIncreasing(xs)
    ensures c <= |xs|
    ensures forall j :: 0 <= j < c ==> xs[j] < x
    ensures forall j :: c <= j < |xs| ==> x <= xs[j]
  {
    if xs == [] || x <= xs[0] then 0
    else
      assert StrictlyIncreasing(xs[1..]) by {
        forall i, j | 0 <= i < j < |xs| - 1 ensures xs[1..][i] < xs[1..][j] {
          assert xs[1..][i] == xs[i + 1];
        }
      }
      1 + CountBelow(xs[1..], x)
  }

  /** `0 <= a / w <= 1` for `0 <= a <= w`. */
  lemma FractionBounds(a: real, w: real)
    requires 0.0 <= a <= w && w > 0.0
    ensures 0.0 <= a / w <= 1.0
  {
    assert a / w * w == a;
  }

  /** A positive width divided by itself is one: the fraction at the right end of a segment. */
  lemma FractionOfItself(w: real)
    requires w > 0.0
    ensures w / w == 1.0
  {
  }

  /** A product of two non-negative reals is non-negative. */
  lemma ProductNonNegative(a: real, b: real)
    requires 0.0 <= a && 0.0 <= b
    ensures 0.0 <= a * b
  {
  }

  /** A point `y0 + t * (y1 - y0)` with `0 <= t <= 1` lies between `y0` and `y1`. */
  lemma LerpBounds(y0: real, y1: real, t: real)
    requires 0.0 <= t <= 1.0
    ensures y0 <= y1 ==> y0 <= y0 + t * (y1 - y0) <= y1
    ensures y1 <= y0 ==> y1 <= y0 + t * (y1 - y0) <= y0
  {
    var d := y1 - y0;
    assert (1.0 - t) * d == d - t * d;
    if y0 <= y1 {
      ProductNonNegative(t, d);
      ProductNonNegative(1.0 - t, d);
    } else {
      ProductNonNegative(t, -d);
      ProductNonNegative(1.0 - t, -d);
    }
  }

  /**
   * The straight line through `(x0, y0)` and `(x1, y1)` at `x`, as scipy writes it:
   * the slope times the distance from `x0`, plus `y0`.
   */
  function Lerp(x0: real, x1: real, y0: real, y1: real, x: real): (y: real)
    requires x0 < x1 && x0 <= x <= x1
    ensures x == x0 ==> y == y0
    ensures x == x1 ==> y == y1
    ensures y0 <= y1 ==> y0 <= y <= y1
    ensures y1 <= y0 ==> y1 <= y <= y0
  {
    var t := (x - x0) / (x1 - x0);
    FractionBounds(x - x0, x1 - x0);
    LerpBounds(y0, y1, t);
    FractionOfItself(x1 - x0);
    assert x == x1 ==> t == (x1 - x0) / (x1 - x0);
    y0 + t * (y1 - y0)
  }

  /**
   * Index of the right-hand sample of the segment scipy uses for `x`: the
   * `searchsorted` position clipped to `[1, |xs| - 1]`.
   */
  function Upper(xs: seq<real>, x: real): (hi: nat)
    requires StrictlyIncreasing(xs) && |xs| >= 2 && xs[0] <= x <= xs[|xs| - 1]
    ensures 1 <= hi < |xs| && xs[hi - 1] <= x <= xs[hi]
  {
    var c := CountBelow(xs, x);
    if c < 1 then 1 else c
  }

  /**
   * The value of the curve at an in-range `x`: on the segment that encloses `x`,
   * it is the left sample's value at the left end, the right one's at the right
   * end, and between the two in between.
   */
  function InterpolateAt(xs: seq<real>, ys: seq<real>, x: real): (y: real)
    requires IsCurve(xs, ys) && xs[0] <= x <= xs[|xs| - 1]
    ensures var hi := Upper(xs, x);
      && (x == xs[hi - 1] ==> y == ys[hi - 1])
      && (x == xs[hi] ==> y == ys[hi])
      && (ys[hi - 1] <= ys[hi] ==> ys[hi - 1] <= y <= ys[hi])
      && (ys[hi] <= ys[hi - 1] ==> ys[hi] <= y <= ys[hi - 1])
  {
    var hi := Upper(xs, x);
    Lerp(xs[hi - 1], xs[hi], ys[hi - 1], ys[hi], x)
  }

  /** The curve goes through every sample. */
  lemma InterpolateAtSample(xs: seq<real>, ys: seq<real>, j: nat)
    requires IsCurve(xs, ys) && j < |xs|
    ensures InterpolateAt(xs, ys, xs[j]) == ys[j]
  {
    var hi := Upper(xs, xs[j]);
    assert j == hi - 1 || j == hi;
  }

  /** Between two neighbouring samples the curve stays between their two values. */
  lemma InterpolateBetween(xs: seq<real>, ys: seq<real>, j: nat, x: real)
    requires IsCurve(xs, ys) && j + 1 < |xs| && xs[j] <= x <= xs[j + 1]
    ensures ys[j] <= ys[j + 1] ==> ys[j] <= InterpolateAt(xs, ys, x) <= ys[j + 1]
    ensures ys[j + 1] <= ys[j] ==> ys[j + 1] <= InterpolateAt(xs, ys, x) <= ys[j]
  {
    if x == xs[j] {
      InterpolateAtSample(xs, ys, j);
    } else {
      assert Upper(xs, x) == j + 1;
    }
  }

  /** Some query lies below the first sample. */
  predicate AnyBelow(xs: seq<real>, qs: seq<real>)
    requires |xs| > 0
  {
    exists i :: 0 <= i < |qs| && qs[i] < xs[0]
  }

  /** Some query lies above the last sample. */
  predicate AnyAbove(xs: seq<real>, qs: seq<real>)
    requires |xs| > 0
  {
    exists i :: 0 <= i < |qs| && qs[i] > xs[|xs| - 1]
  }

  /**
   * Calling the interpolator on a column of queries: one value per query, or the
   * error of scipy's bounds check, which looks for a query below the range before
   * one above it. Out-of-range queries are never clamped.
   */
  function InterpolateAll(xs: seq<real>, ys: seq<real>, qs: seq<real>): (r: Result<seq<real>, InterpError>)
    requires IsCurve(xs, ys)
    ensures r.Ok? <==> forall i :: 0 <= i < |qs| ==> xs[0] <= qs[i] <= xs[|xs| - 1]
    ensures r == Err(BelowRange) <==> AnyBelow(xs, qs)
    ensures r == Err(AboveRange) <==> !AnyBelow(xs, qs) && AnyAbove(xs, qs)
    ensures r.Ok? ==> |r.value| == |qs|
    ensures r.Ok? ==> forall i :: 0 <= i < |qs| ==> r.value[i] == InterpolateAt(xs, ys, qs[i])
  {
    if AnyBelow(xs, qs) then Err(BelowRange)
    else if AnyAbove(xs, qs) then Err(AboveRange)
    else Ok(seq(|qs|, i requires 0 <= i < |qs| => InterpolateAt(xs, ys, qs[i])))
  }

  /** Interpolating a normalised-intensity curve gives a normalised intensity. */
  lemma {:induction false} InterpolateInUnitRange(xs: seq<real>, ys: seq<real>, x: real)
    requires IsCurve(xs, ys) && xs[0] <= x <= xs[|xs| - 1]
    requires forall j :: 0 <= j < |ys| ==> 0.0 <= ys[j] <= 1.0
    ensures 0.0 <= InterpolateAt(xs, ys, x) <= 1.0
  {
    var hi := Upper(xs, x);
    InterpolateBetween(xs, ys, hi - 1, x);
  }
}
