/**
 * The `'linear'` kind of scipy's `interp1d`, which `create_blob` uses to turn
 * the closed (angle, radius) samples into its boundary function.
 *
 * Evaluation at `t` picks the segment whose upper knot is the index
 * `searchsorted(xs, t, side='left')`, clipped to `[1, |xs| - 1]`, and returns
 * `slope * (t - x_lo) + y_lo` on that segment. Evaluation outside
 * `[xs[0], xs[|xs| - 1]]` raises in scipy (`bounds_error`), so it is a
 * precondition here.
 */
module Interp1d {

  /** Abscissae in strictly increasing order. */
  predicate Increasing(xs: seq<real>)
  {
    forall i, j :: 0 <= i < j < |xs| ==> xs[i] < xs[j]
  }

  /** Knots the linear interpolant accepts: one value per abscissa, at least two. */
  predicate ValidKnots(xs: seq<real>, ys: seq<real>)
  {
    && 2 <= |xs|
    && |xs| == |ys|
    && Increasing(xs)
  }

  /** `t` lies inside the fitted domain. */
  predicate InDomain(xs: seq<real>, t: real)
  {
    0 < |xs| && xs[0] <= t <= xs[|xs| - 1]
  }

  /** `v` lies between `a` and `b`, in either order. */
  predicate Between(v: real, a: real, b: real)
  {
    (a <= v <= b) || (b <= v <= a)
  }

  /**
   * numpy's `searchsorted(xs, t, side='left')`: the number of leading
   * abscissae strictly below `t`, so that `t` fits at the returned index.
   */
  function SearchLeft(xs: seq<real>, t: real): (i: nat)
    ensures i <= |xs|
    ensures forall k :: 0 <= k < i ==> xs[k] < t
    ensures i < |xs| ==> t <= xs[i]
  {
    if xs == [] || t <= xs[0] then 0 else 1 + SearchLeft(xs[1..], t)
  }

  /** The upper knot of the segment used for `t`: the search index clipped to `[1, |xs| - 1]`. */
  function Segment(xs: seq<real>, t: real): (hi: int)
    requires 2 <= |xs| && Increasing(xs) && InDomain(xs, t)
    ensures 1 <= hi < |xs|
    ensures xs[hi - 1] <= t <= xs[hi]
  {
    var i := SearchLeft(xs, t);
    if i == 0 then 1 else if i < |xs| then i else |xs| - 1
  }

  /** The straight line through `(x0, y0)` and `(x1, y1)`, evaluated at `t` inside `[x0, x1]`. */
  function Lerp(x0: real, x1: real, y0: real, y1: real, t: real): (v: real)
    requires x0 < x1 && x0 <= t <= x1
    ensures (v - y0) * (x1 - x0) == (y1 - y0) * (t - x0)
    ensures Between(v, y0, y1)
    ensures t == x0 ==> v == y0
    ensures t == x1 ==> v == y1
  {
    var slope := (y1 - y0) / (x1 - x0);
    DivCancel(y1 - y0, x1 - x0);
    ScaledBetween(slope, t - x0, x1 - x0);
    slope * (t - x0) + y0
  }

  /** Dividing by a non-zero real and multiplying back gives the dividend. */
  lemma DivCancel(a: real, d: real)
    requires d != 0.0
    ensures a / d * d == a
  {
  }

  /** For `0 <= a <= b`, `k * a` lies between `0` and `k * b`, whatever the sign of `k`. */
  lemma ScaledBetween(k: real, a: real, b: real)
    requires 0.0 <= a <= b
    ensures Between(k * a, 0.0, k * b)
    ensures a == 0.0 ==> k * a == 0.0
    ensures a == b ==> k * a == k * b
  {
    if 0.0 <= k {
      assert 0.0 <= k * a;
      assert k * (b - a) >= 0.0;
    } else {
      assert k * a <= 0.0;
      assert k * (b - a) <= 0.0;
    }
  }

  /** The linear interpolant at `t`; its value lies between the two knots around `t`. */
  function LinearAt(xs: seq<real>, ys: seq<real>, t: real): (v: real)
    requires ValidKnots(xs, ys) && InDomain(xs, t)
    ensures Between(v, ys[Segment(xs, t) - 1], ys[Segment(xs, t)])
  {
    var hi := Segment(xs, t);
    Lerp(xs[hi - 1], xs[hi], ys[hi - 1], ys[hi], t)
  }

  /** The interpolant passes through every knot. */
  lemma LinearAtKnot(xs: seq<real>, ys: seq<real>, k: nat)
    requires ValidKnots(xs, ys) && k < |xs|
    ensures InDomain(xs, xs[k])
    ensures LinearAt(xs, ys, xs[k]) == ys[k]
  {
    assert xs[0] <= xs[k] <= xs[|xs| - 1];
    var i := SearchLeft(xs, xs[k]);
    assert i <= k;
    assert i == k;
    var hi := Segment(xs, xs[k]);
    assert k == 0 ==> hi == 1;
    assert k != 0 ==> hi == k;
  }

  /** Every value of the interpolant is at most an upper bound of all the knot values. */
  lemma LinearAtMost(xs: seq<real>, ys: seq<real>, t: real, bound: real)
    requires ValidKnots(xs, ys) && InDomain(xs, t)
    requires forall k :: 0 <= k < |ys| ==> ys[k] <= bound
    ensures LinearAt(xs, ys, t) <= bound
  {
    var hi := Segment(xs, t);
    assert ys[hi - 1] <= bound && ys[hi] <= bound;
  }

  /** Every value of the interpolant is at least a lower bound of all the knot values. */
  lemma LinearAtLeast(xs: seq<real>, ys: seq<real>, t: real, bound: real)
    requires ValidKnots(xs, ys) && InDomain(xs, t)
    requires forall k :: 0 <= k < |ys| ==> bound <= ys[k]
    ensures bound <= LinearAt(xs, ys, t)
  {
    var hi := Segment(xs, t);
    assert bound <= ys[hi - 1] && bound <= ys[hi];
  }
}
