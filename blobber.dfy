/**
 * `create_blob`: a random closed blob rasterised onto a `height` x `height`
 * grid.
 *
 * The random radii, the constant pi and the angle of a grid offset
 * (`np.arctan2`) are parameters of the model: the radii as an input drawn
 * from the band that `np.random.randint` samples, pi as a positive real, and
 * the angle as a function whose values lie in `[-pi, pi]`. The Euclidean
 * distance is never formed: a cell is compared with the boundary through its
 * squared distance (see `InsideIffBelowBoundary`).
 */
module Blobber {
  import opened Interp1d

  /** The ways `create_blob` fails before it returns a mask. */
  datatype BlobError =
    | NegativeHeight   // np.ones((height, height)) rejects a negative dimension
    | NoSamples        // num_of_points == 0: random_radius[0] is out of range
    | EmptyBand        // randint's lower end is not below its upper end
    | NegativeCount    // randint rejects a negative number of samples
    | UnsupportedKind  // interp1d does not know the requested kind

  datatype Result<T> = Ok(value: T) | Err(error: BlobError)

  /**
   * The interpolation kind handed to interp1d. `Linear` is modelled
   * concretely. Every other kind interp1d accepts ('nearest', 'nearest-up',
   * 'previous', 'next', 'zero', 'slinear', 'quadratic', 'cubic', an integer
   * spline degree) is an opaque fitting function of the knots. Only a kind
   * interp1d rejects is `Unsupported`.
   */
  datatype InterpKind =
    | Linear
    | Fitted(fit: (seq<real>, seq<real>, real) -> real)
    | Unsupported

  /** The half-open band `[low, high)` the radii are drawn from. */
  datatype Band = Band(low: int, high: int)

  // ---------------------------------------------------------------------
  // Parameters and the sampling band
  // ---------------------------------------------------------------------

  /** Python's `int()` on a float: rounds toward zero. */
  function Trunc(x: real): (r: int)
    ensures 0.0 <= x ==> 0 <= r && r as real <= x < r as real + 1.0
    ensures x < 0.0 ==> r <= 0 && r as real - 1.0 < x <= r as real
  {
    if x >= 0.0 then x.Floor else -((-x).Floor)
  }

  /** The largest radius that fits the frame: the centre index `height // 2`. */
  function MaxRadius(height: int): (r: int)
    ensures 2 * r <= height < 2 * r + 2
  {
    height / 2
  }

  /** How far below the maximum radius the samples may reach. */
  function FlucRange(height: int, ratio: real): real
  {
    MaxRadius(height) as real * ratio
  }

  /** randint's lower end: its float argument truncated to an integer. */
  function LowEnd(height: int, ratio: real): (low: int)
    ensures var x := MaxRadius(height) as real - FlucRange(height, ratio);
      && (0.0 <= x ==> 0 <= low && low as real <= x < low as real + 1.0)
      && (x < 0.0 ==> low <= 0 && x <= low as real < x + 1.0)
  {
    Trunc(MaxRadius(height) as real - FlucRange(height, ratio))
  }

  /** The sign of the fluctuation range, and that it stays within the maximum radius for a ratio up to 1. */
  lemma FlucRangeBounds(height: int, ratio: real)
    requires 0 <= height
    ensures 2 <= height && 0.0 < ratio ==> 0.0 < FlucRange(height, ratio)
    ensures !(2 <= height && 0.0 < ratio) ==> FlucRange(height, ratio) <= 0.0
    ensures ratio <= 1.0 ==> FlucRange(height, ratio) <= MaxRadius(height) as real
  {
    MaxRadiusBounds(height);
    ScaledSign(MaxRadius(height) as real, ratio, FlucRange(height, ratio));
  }

  /** The sign of `f = c * ratio` for a whole `c >= 0`, and `f <= c` for a ratio up to 1. */
  lemma ScaledSign(c: real, ratio: real, f: real)
    requires f == c * ratio
    requires c == 0.0 || 1.0 <= c
    ensures 1.0 <= c && 0.0 < ratio ==> 0.0 < f
    ensures !(1.0 <= c && 0.0 < ratio) ==> f <= 0.0
    ensures ratio <= 1.0 ==> f <= c
  {
    if ratio <= 1.0 {
      assert f <= c by { ScaleAtMostOne(c, ratio); }
    }
    if 1.0 <= c && 0.0 < ratio {
      assert 0.0 < f by { PositiveProduct(c, ratio); }
    } else {
      assert f <= 0.0 by { NonPositiveProduct(c, ratio); }
    }
  }

  /** The maximum radius is non-negative, and at least 1 exactly when the height is at least 2. */
  lemma MaxRadiusBounds(height: int)
    requires 0 <= height
    ensures 0 <= MaxRadius(height)
    ensures 2 <= height <==> 1 <= MaxRadius(height)
    ensures height < 2 ==> MaxRadius(height) == 0
  {
  }

  /** The band is non-empty exactly when the fluctuation range is positive. */
  lemma LowEndBelowMax(height: int, ratio: real)
    requires 0 <= height
    ensures LowEnd(height, ratio) < MaxRadius(height) <==> 2 <= height && 0.0 < ratio
    ensures ratio <= 1.0 ==> FlucRange(height, ratio) <= MaxRadius(height) as real
  {
    FlucRangeBounds(height, ratio);
    hide FlucRange;
    var c := MaxRadius(height);
    var x := c as real - FlucRange(height, ratio);
    assert LowEnd(height, ratio) == Trunc(x);
  }

  /** A product of two positive reals is positive. */
  lemma PositiveProduct(a: real, b: real)
    requires 0.0 < a && 0.0 < b
    ensures 0.0 < a * b
  {
  }

  /** A non-negative real times a non-positive one, or zero times anything, is not positive. */
  lemma NonPositiveProduct(a: real, b: real)
    requires 0.0 <= a
    requires a == 0.0 || b <= 0.0
    ensures a * b <= 0.0
  {
  }

  /** Scaling a non-negative real by at most one does not enlarge it. */
  lemma ScaleAtMostOne(a: real, b: real)
    requires 0.0 <= a && b <= 1.0
    ensures a * b <= a
  {
    ScaleLe(b, 1.0, a);
  }

  /**
   * Everything `create_blob` does before fitting the boundary that can fail,
   * in the order it happens: allocating the frame, drawing the samples,
   * taking the first sample. On success, the band the radii come from.
   */
  function Plan(height: int, ratio: real, n: int): (r: Result<Band>)
    ensures r.Ok? <==> 2 <= height && 0.0 < ratio && 1 <= n
    ensures height < 0 ==> r == Err(NegativeHeight)
    ensures 0 <= height && n == 0 ==> r == Err(NoSamples)
    ensures 0 <= height && n != 0 && (height < 2 || ratio <= 0.0) ==> r == Err(EmptyBand)
    ensures 2 <= height && 0.0 < ratio && n < 0 ==> r == Err(NegativeCount)
    ensures r.Ok? ==> r.value == Band(LowEnd(height, ratio), MaxRadius(height))
    ensures r.Ok? ==> r.value.low < r.value.high
    ensures r.Ok? ==> MaxRadius(height) as real - FlucRange(height, ratio) - 1.0 < r.value.low as real
    ensures r.Ok? && ratio <= 1.0 ==>
      0 <= r.value.low && r.value.low as real <= MaxRadius(height) as real - FlucRange(height, ratio)
  {
    if height < 0 then Err(NegativeHeight)
    else if n == 0 then Err(NoSamples)
    else
      LowEndBelowMax(height, ratio);
      if LowEnd(height, ratio) >= MaxRadius(height) then Err(EmptyBand)
      else if n < 0 then Err(NegativeCount)
      else Ok(Band(LowEnd(height, ratio), MaxRadius(height)))
  }

  /** A drawn radius lies in the band. */
  predicate InBand(b: Band, r: int)
  {
    b.low <= r < b.high
  }

  /** What `randint(low, high, n)` hands back: `n` radii, each in the band. */
  predicate Drawn(b: Band, n: int, samples: seq<int>)
  {
    |samples| == n && forall k :: 0 <= k < |samples| ==> InBand(b, samples[k])
  }

  /**
   * Every drawn radius stays below the maximum radius, and less than one unit
   * below the documented lower end `max_radius - fluc_range`; it does not go
   * below that end when the fluctuation range is a whole number, or when the
   * end is negative (truncation toward zero then rounds up).
   */
  lemma SampleRadiusBounds(height: int, ratio: real, n: int, r: int)
    requires Plan(height, ratio, n).Ok?
    requires InBand(Plan(height, ratio, n).value, r)
    ensures r < MaxRadius(height)
    ensures MaxRadius(height) as real - FlucRange(height, ratio) - 1.0 < r as real
    ensures ratio <= 1.0 ==> 0 <= r
    ensures (|| FlucRange(height, ratio) == FlucRange(height, ratio).Floor as real
             || MaxRadius(height) as real - FlucRange(height, ratio) < 0.0) ==>
      MaxRadius(height) as real - FlucRange(height, ratio) <= r as real
  {
    hide FlucRange, Trunc, Plan;
    var f := FlucRange(height, ratio);
    if f == f.Floor as real {
      var k := MaxRadius(height) - f.Floor;
      assert MaxRadius(height) as real - f == k as real;
      TruncOfWhole(k);
      assert LowEnd(height, ratio) == k;
    } else if MaxRadius(height) as real - f < 0.0 {
      assert MaxRadius(height) as real - f <= LowEnd(height, ratio) as real;
    }
  }

  /** Truncating a whole number gives it back. */
  lemma TruncOfWhole(k: int)
    ensures Trunc(k as real) == k
  {
  }

  /** A larger fluctuation ratio never raises the lower end of the band; the upper end stays the centre. */
  lemma LowEndMonotone(height: int, ratio1: real, ratio2: real)
    requires 0 <= height && ratio1 <= ratio2
    ensures LowEnd(height, ratio2) <= LowEnd(height, ratio1)
  {
    var c := MaxRadius(height) as real;
    assert 0.0 <= c by { MaxRadiusBounds(height); }
    var f1, f2 := FlucRange(height, ratio1), FlucRange(height, ratio2);
    assert f1 <= f2 by {
      ScaleLe(ratio1, ratio2, c);
      assert ratio1 * c == c * ratio1 && ratio2 * c == c * ratio2;
    }
    assert LowEnd(height, ratio1) == Trunc(c - f1) && LowEnd(height, ratio2) == Trunc(c - f2);
    hide FlucRange, LowEnd;
    TruncMonotone(c - f2, c - f1);
  }

  /** Scaling by a non-negative factor keeps a non-strict order. */
  lemma ScaleLe(a: real, b: real, k: real)
    requires a <= b && 0.0 <= k
    ensures a * k <= b * k
  {
  }

  /** Scaling by a positive factor keeps a strict order. */
  lemma ScaleLt(a: real, b: real, k: real)
    requires a < b && 0.0 < k
    ensures a * k < b * k
  {
  }

  /** Truncation toward zero never reverses the order of two reals. */
  lemma TruncMonotone(a: real, b: real)
    requires a <= b
    ensures Trunc(a) <= Trunc(b)
  {
  }

  // ---------------------------------------------------------------------
  // Closed boundary samples
  // ---------------------------------------------------------------------

  /** The radii with the first one repeated at the end, so the boundary loop closes. */
  function CloseLoop(samples: seq<int>): (r: seq<int>)
    requires 1 <= |samples|
    ensures |r| == |samples| + 1
    ensures r[..|samples|] == samples
    ensures r[|samples|] == r[0] == samples[0]
  {
    samples + [samples[0]]
  }

  /** Integer values as the floats interp1d works with. */
  function AsReals(s: seq<int>): (r: seq<real>)
    ensures |r| == |s|
    ensures forall k :: 0 <= k < |s| ==> r[k] == s[k] as real
  {
    seq(|s|, k requires 0 <= k < |s| => s[k] as real)
  }

  /** numpy's `ceil`: the least integer not below `x`. */
  function Ceil(x: real): (r: int)
    ensures r as real - 1.0 < x <= r as real
  {
    -((-x).Floor)
  }

  /** The `k`-th value of an arithmetic progression. */
  function Tick(start: real, step: real, k: int): real
  {
    start + k as real * step
  }

  /** A progression with a positive step strictly increases. */
  lemma TicksIncrease(start: real, step: real, count: int)
    requires 0.0 < step
    ensures forall i, j :: 0 <= i < j < count ==> Tick(start, step, i) < Tick(start, step, j)
  {
    forall i, j | 0 <= i < j < count
      ensures Tick(start, step, i) < Tick(start, step, j)
    {
      ScaleLt(i as real, j as real, step);
    }
  }

  /** numpy's element count for arange, `ceil((stop - start) / step)`, spans exactly the values below `stop`. */
  lemma ArangeCount(start: real, stop: real, step: real)
    requires 0.0 < step
    ensures forall k :: 0 <= k < Ceil((stop - start) / step) ==> Tick(start, step, k) < stop
    ensures var count := Ceil((stop - start) / step);
      stop <= Tick(start, step, if count < 0 then 0 else count)
  {
    var q := (stop - start) / step;
    var count := Ceil(q);
    DivCancel(stop - start, step);
    forall k | 0 <= k < count
      ensures Tick(start, step, k) < stop
    {
      ScaleLt(k as real, q, step);
    }
    if count < 0 {
      ScaleLt(q, 0.0, step);
    } else {
      ScaleLe(q, count as real, step);
    }
  }

  /**
   * `np.arange(start, stop, step)` for a positive step, over exact reals: the
   * progression from `start` in steps of `step`, every value below `stop`
   * and the next one not.
   */
  function Arange(start: real, stop: real, step: real): (r: seq<real>)
    requires 0.0 < step
    ensures forall k :: 0 <= k < |r| ==> r[k] == Tick(start, step, k) && r[k] < stop
    ensures stop <= Tick(start, step, |r|)
    ensures Increasing(r)
  {
    var count := Ceil((stop - start) / step);
    ArangeCount(start, stop, step);
    TicksIncrease(start, step, count);
    seq(if count < 0 then 0 else count, k => Tick(start, step, k))
  }

  /**
   * The sample angles: `n` evenly spaced from `-pi` below `pi`, then `pi`
   * itself as the closing point. One angle per closed radius, strictly
   * increasing, as the linear interpolant needs.
   */
  function Thetas(n: int, pi: real): (r: seq<real>)
    requires 1 <= n && 0.0 < pi
    ensures |r| == n + 1
    ensures r[0] == -pi && r[n] == pi
    ensures forall k :: 0 <= k < n ==> r[k] == -pi + k as real * (2.0 * pi / n as real)
    ensures Increasing(r)
  {
    var step := 2.0 * pi / n as real;
    assert step * n as real == 2.0 * pi;
    assert (pi - -pi) / step == n as real;
    var head := Arange(-pi, pi, step);
    assert |head| == n;
    head + [pi]
  }

  /** The closed samples are knots the linear interpolant needs: equal lengths, at least two, angles increasing. */
  lemma KnotsAccepted(samples: seq<int>, pi: real)
    requires 1 <= |samples| && 0.0 < pi
    ensures ValidKnots(Thetas(|samples|, pi), AsReals(CloseLoop(samples)))
  {
  }

  /** The linear boundary takes the first radius at both ends of the angle domain, so the loop closes. */
  lemma WrapAroundConsistent(samples: seq<int>, pi: real)
    requires 1 <= |samples| && 0.0 < pi
    ensures var thetas, radii := Thetas(|samples|, pi), AsReals(CloseLoop(samples));
      && ValidKnots(thetas, radii)
      && InDomain(thetas, -pi) && InDomain(thetas, pi)
      && LinearAt(thetas, radii, -pi) == samples[0] as real
      && LinearAt(thetas, radii, pi) == samples[0] as real
  {
    var n := |samples|;
    var thetas, radii := Thetas(n, pi), AsReals(CloseLoop(samples));
    KnotsAccepted(samples, pi);
    LinearAtKnot(thetas, radii, 0);
    LinearAtKnot(thetas, radii, n);
  }

  // ---------------------------------------------------------------------
  // The grid and the mask
  // ---------------------------------------------------------------------

  /** The boundary function interp1d fits for `kind`, evaluated at angle `t`. */
  function Boundary(kind: InterpKind, thetas: seq<real>, radii: seq<real>, t: real): real
    requires !kind.Unsupported? && ValidKnots(thetas, radii) && InDomain(thetas, t)
  {
    if kind.Linear? then LinearAt(thetas, radii, t) else kind.fit(thetas, radii, t)
  }

  /** A cell at squared distance `d2` from the centre is strictly inside a boundary of radius `b`. */
  predicate Inside(b: real, d2: int)
  {
    0.0 < b && (d2 as real) < b * b
  }

  /**
   * Comparing squares decides the same as comparing the distance itself:
   * for the non-negative root `dist` of `d2`, `dist < b` exactly when
   * `Inside(b, d2)`. A cell exactly on the boundary is outside.
   */
  lemma InsideIffBelowBoundary(b: real, d2: int, dist: real)
    requires 0.0 <= dist && dist * dist == d2 as real
    ensures Inside(b, d2) <==> dist < b
  {
    if dist < b {
      SquareLt(dist, b);
    } else if 0.0 < b {
      SquareLe(b, dist);
    }
  }

  /** Squaring keeps a strict order between non-negative reals. */
  lemma SquareLt(a: real, b: real)
    requires 0.0 <= a < b
    ensures a * a < b * b
  {
    calc {
      a * a;
    <= { ScaleLe(a, b, a); }
      b * a;
    == a * b;
    < { ScaleLt(a, b, b); }
      b * b;
    }
  }

  /** Squaring keeps a non-strict order between non-negative reals. */
  lemma SquareLe(a: real, b: real)
    requires 0.0 <= a <= b
    ensures a * a <= b * b
  {
    ScaleLe(a, b, a);
    ScaleLe(a, b, b);
    assert b * a == a * b;
  }

  /** The mask value of the cell at offset `(x, y)` from the centre. */
  function CellValue(kind: InterpKind, thetas: seq<real>, radii: seq<real>, angle: (int, int) -> real, x: int, y: int): (v: int)
    requires !kind.Unsupported? && ValidKnots(thetas, radii) && InDomain(thetas, angle(y, x))
    ensures v == 0 || v == 1
  {
    if Inside(Boundary(kind, thetas, radii, angle(y, x)), x * x + y * y) then 1 else 0
  }

  /**
   * The cell's value is 1 exactly when the boundary at its angle is strictly
   * greater than its Euclidean distance `dist` from the centre.
   */
  lemma CellValueMeaning(kind: InterpKind, thetas: seq<real>, radii: seq<real>, angle: (int, int) -> real,
                         x: int, y: int, dist: real)
    requires !kind.Unsupported? && ValidKnots(thetas, radii) && InDomain(thetas, angle(y, x))
    requires 0.0 <= dist && dist * dist == (x * x + y * y) as real
    ensures CellValue(kind, thetas, radii, angle, x, y) == 1 <==> dist < Boundary(kind, thetas, radii, angle(y, x))
  {
    hide Inside;
    InsideIffBelowBoundary(Boundary(kind, thetas, radii, angle(y, x)), x * x + y * y, dist);
  }

  /**
   * Along one ray from the centre the mask is a solid segment: of two cells
   * at the same angle, the nearer one is inside whenever the farther one is.
   */
  lemma SameAngleNearerInside(kind: InterpKind, thetas: seq<real>, radii: seq<real>, angle: (int, int) -> real,
                              x1: int, y1: int, x2: int, y2: int)
    requires !kind.Unsupported? && ValidKnots(thetas, radii)
    requires InDomain(thetas, angle(y2, x2)) && angle(y1, x1) == angle(y2, x2)
    requires x1 * x1 + y1 * y1 <= x2 * x2 + y2 * y2
    requires CellValue(kind, thetas, radii, angle, x2, y2) == 1
    ensures CellValue(kind, thetas, radii, angle, x1, y1) == 1
  {
    var b := Boundary(kind, thetas, radii, angle(y2, x2));
    assert Inside(b, x2 * x2 + y2 * y2);
    InsideCloser(b, x1 * x1 + y1 * y1, x2 * x2 + y2 * y2);
  }

  /** A cell no farther from the centre than an inside cell is inside the same boundary. */
  lemma InsideCloser(b: real, d1: int, d2: int)
    requires d1 <= d2 && Inside(b, d2)
    ensures Inside(b, d1)
  {
  }

  /** A matrix whose every row holds the column offsets from the centre, `j - center`. */
  method ColumnOffsets(height: nat, center: int) returns (xm: array2<int>)
    ensures fresh(xm) && xm.Length0 == height && xm.Length1 == height
    ensures forall i, j :: 0 <= i < height && 0 <= j < height ==> xm[i, j] == j - center
  {
    xm := new int[height, height]((i, j) => 0);
    var i := 0;
    while i < height
      invariant 0 <= i <= height
      invariant forall r, c :: 0 <= r < i && 0 <= c < height ==> xm[r, c] == c - center
    {
      var j := 0;
      while j < height
        invariant 0 <= j <= height
        invariant forall r, c :: 0 <= r < i && 0 <= c < height ==> xm[r, c] == c - center
        invariant forall c :: 0 <= c < j ==> xm[i, c] == c - center
      {
        xm[i, j] := j - center;
        j := j + 1;
      }
      i := i + 1;
    }
  }

  /** A fresh transposed copy of `m`. */
  method Transposed(m: array2<int>) returns (t: array2<int>)
    ensures fresh(t) && t.Length0 == m.Length1 && t.Length1 == m.Length0
    ensures forall i, j :: 0 <= i < t.Length0 && 0 <= j < t.Length1 ==> t[i, j] == m[j, i]
  {
    t := new int[m.Length1, m.Length0]((i, j) => 0);
    var i := 0;
    while i < t.Length0
      invariant 0 <= i <= t.Length0
      invariant forall r, c :: 0 <= r < i && 0 <= c < t.Length1 ==> t[r, c] == m[c, r]
    {
      var j := 0;
      while j < t.Length1
        invariant 0 <= j <= t.Length1
        invariant forall r, c :: 0 <= r < i && 0 <= c < t.Length1 ==> t[r, c] == m[c, r]
        invariant forall c :: 0 <= c < j ==> t[i, c] == m[c, i]
      {
        t[i, j] := m[j, i];
        j := j + 1;
      }
      i := i + 1;
    }
  }

  /**
   * The mask: each cell is classified by the boundary at its angle
   * `angle(y, x)` against its squared distance `x * x + y * y`, where `x`
   * and `y` are read from the two offset matrices.
   */
  method ClassifyCells(xm: array2<int>, ym: array2<int>, kind: InterpKind, thetas: seq<real>, radii: seq<real>,
                       pi: real, angle: (int, int) -> real)
    returns (mask: array2<int>)
    requires xm.Length0 == ym.Length0 && xm.Length1 == ym.Length1
    requires !kind.Unsupported? && ValidKnots(thetas, radii)
    requires thetas[0] == -pi && thetas[|thetas| - 1] == pi
    requires forall y, x :: -pi <= angle(y, x) <= pi
    ensures fresh(mask) && mask.Length0 == xm.Length0 && mask.Length1 == xm.Length1
    ensures forall i, j :: 0 <= i < mask.Length0 && 0 <= j < mask.Length1 ==>
      mask[i, j] == CellValue(kind, thetas, radii, angle, xm[i, j], ym[i, j])
  {
    hide CellValue;
    mask := new int[xm.Length0, xm.Length1]((i, j) => 0);
    var i := 0;
    while i < mask.Length0
      invariant 0 <= i <= mask.Length0
      invariant forall r, c :: 0 <= r < i && 0 <= c < mask.Length1 ==>
        mask[r, c] == CellValue(kind, thetas, radii, angle, xm[r, c], ym[r, c])
    {
      var j := 0;
      while j < mask.Length1
        invariant 0 <= j <= mask.Length1
        invariant forall r, c :: 0 <= r < i && 0 <= c < mask.Length1 ==>
          mask[r, c] == CellValue(kind, thetas, radii, angle, xm[r, c], ym[r, c])
        invariant forall c :: 0 <= c < j ==>
          mask[i, c] == CellValue(kind, thetas, radii, angle, xm[i, c], ym[i, c])
      {
        mask[i, j] := CellValue(kind, thetas, radii, angle, xm[i, j], ym[i, j]);
        j := j + 1;
      }
      i := i + 1;
    }
  }

  /** The value `create_blob` gives cell `(i, j)`: row `i`, column `j`, centre `center`. */
  function BlobCell(kind: InterpKind, pi: real, angle: (int, int) -> real, samples: seq<int>,
                    center: int, i: int, j: int): (v: int)
    requires !kind.Unsupported? && 1 <= |samples| && 0.0 < pi
    requires forall y, x :: -pi <= angle(y, x) <= pi
    ensures v == 0 || v == 1
  {
    KnotsAccepted(samples, pi);
    CellValue(kind, Thetas(|samples|, pi), AsReals(CloseLoop(samples)), angle, j - center, i - center)
  }

  /**
   * `create_blob(height, ratio, n, kind)` with the random draw `draw`: either
   * the first error it raises, or a fresh `height` x `height` mask whose
   * cell `(i, j)` is `BlobCell(..., height / 2, i, j)`.
   */
  method CreateBlob(height: int, ratio: real, n: int, kind: InterpKind, pi: real,
                    angle: (int, int) -> real, draw: seq<int>)
    returns (result: Result<array2<int>>)
    requires 0.0 < pi
    requires forall y, x :: -pi <= angle(y, x) <= pi
    requires Plan(height, ratio, n).Ok? ==> Drawn(Plan(height, ratio, n).value, n, draw)
    ensures result.Ok? <==> Plan(height, ratio, n).Ok? && !kind.Unsupported?
    ensures Plan(height, ratio, n).Err? ==> result == Err(Plan(height, ratio, n).error)
    ensures Plan(height, ratio, n).Ok? && kind.Unsupported? ==> result == Err(UnsupportedKind)
    ensures result.Ok? ==> fresh(result.value)
    ensures result.Ok? ==> result.value.Length0 == height && result.value.Length1 == height
    ensures result.Ok? ==> forall i, j :: 0 <= i < height && 0 <= j < height ==>
      0 <= result.value[i, j] <= 1 &&
      result.value[i, j] == BlobCell(kind, pi, angle, draw, MaxRadius(height), i, j)
  {
    hide CellValue;
    var plan := Plan(height, ratio, n);
    if plan.Err? {
      return Err(plan.error);
    }
    var radii := CloseLoop(draw);
    var thetas := Thetas(n, pi);
    if kind.Unsupported? {
      return Err(UnsupportedKind);
    }
    KnotsAccepted(draw, pi);
    var center := MaxRadius(height);
    var xm := ColumnOffsets(height, center);
    var ym := Transposed(xm);
    var mask := ClassifyCells(xm, ym, kind, thetas, AsReals(radii), pi, angle);
    assert forall i, j :: 0 <= i < height && 0 <= j < height ==> ym[i, j] == i - center;
    return Ok(mask);
  }

  // ---------------------------------------------------------------------
  // What the linear blob looks like
  // ---------------------------------------------------------------------

  /**
   * With linear interpolation the boundary never exceeds the largest radius
   * that can be drawn, `center - 1`; so every cell at least that far from
   * the centre, and in particular every cell at or beyond the maximum
   * radius, is outside.
   */
  lemma FarCellsOutside(pi: real, angle: (int, int) -> real, samples: seq<int>, center: int, i: int, j: int)
    requires 1 <= |samples| && 0.0 < pi
    requires forall y, x :: -pi <= angle(y, x) <= pi
    requires forall k :: 0 <= k < |samples| ==> samples[k] < center
    requires (center - 1) * (center - 1) <= (j - center) * (j - center) + (i - center) * (i - center)
    ensures BlobCell(Linear, pi, angle, samples, center, i, j) == 0
  {
    hide LinearAt, Inside;
    var thetas, radii := Thetas(|samples|, pi), AsReals(CloseLoop(samples));
    KnotsAccepted(samples, pi);
    var x, y := j - center, i - center;
    var t := angle(y, x);
    LinearAtMost(thetas, radii, t, (center - 1) as real);
    OutsideBeyond(LinearAt(thetas, radii, t), center - 1, x * x + y * y);
  }

  /** A boundary of at most radius `r` leaves out every cell at squared distance at least `r * r`. */
  lemma OutsideBeyond(b: real, r: int, d2: int)
    requires b <= r as real && r * r <= d2
    ensures !Inside(b, d2)
  {
    if 0.0 < b {
      SquareLe(b, r as real);
      assert (r * r) as real == r as real * r as real;
    }
  }

  /** The four corners of the frame lie outside a linear blob. */
  lemma CornersOutside(height: int, pi: real, angle: (int, int) -> real, samples: seq<int>)
    requires 2 <= height && 1 <= |samples| && 0.0 < pi
    requires forall y, x :: -pi <= angle(y, x) <= pi
    requires forall k :: 0 <= k < |samples| ==> samples[k] < MaxRadius(height)
    ensures BlobCell(Linear, pi, angle, samples, MaxRadius(height), 0, 0) == 0
    ensures BlobCell(Linear, pi, angle, samples, MaxRadius(height), 0, height - 1) == 0
    ensures BlobCell(Linear, pi, angle, samples, MaxRadius(height), height - 1, 0) == 0
    ensures BlobCell(Linear, pi, angle, samples, MaxRadius(height), height - 1, height - 1) == 0
  {
    hide BlobCell;
    var c := MaxRadius(height);
    var far := height - 1 - c;
    assert c - 1 <= far <= c && 1 <= c;
    assert (c - 1) * (c - 1) <= c * c;
    assert (c - 1) * (c - 1) <= far * far;
    assert 0 <= far * far;
    FarCellsOutside(pi, angle, samples, c, 0, 0);
    FarCellsOutside(pi, angle, samples, c, 0, height - 1);
    FarCellsOutside(pi, angle, samples, c, height - 1, 0);
    FarCellsOutside(pi, angle, samples, c, height - 1, height - 1);
  }

  /** When every radius is at least 1, the centre cell, at offset `(0, 0)`, is inside a linear blob. */
  lemma CenterInside(height: int, pi: real, angle: (int, int) -> real, samples: seq<int>)
    requires 1 <= height && 1 <= |samples| && 0.0 < pi
    requires forall y, x :: -pi <= angle(y, x) <= pi
    requires forall k :: 0 <= k < |samples| ==> 1 <= samples[k]
    ensures MaxRadius(height) < height
    ensures BlobCell(Linear, pi, angle, samples, MaxRadius(height), MaxRadius(height), MaxRadius(height)) == 1
  {
    hide LinearAt, Inside;
    var thetas, radii := Thetas(|samples|, pi), AsReals(CloseLoop(samples));
    KnotsAccepted(samples, pi);
    var t := angle(0, 0);
    LinearAtLeast(thetas, radii, t, 1.0);
    CenterInsidePositive(LinearAt(thetas, radii, t));
    assert CellValue(Linear, thetas, radii, angle, 0, 0) == 1;
  }

  /** Any positive boundary holds the centre cell, at squared distance 0. */
  lemma CenterInsidePositive(b: real)
    requires 0.0 < b
    ensures Inside(b, 0)
  {
    ProductAbove(b, b, 0 as real);
  }

  /** A product of two positive reals exceeds every non-positive real. */
  lemma ProductAbove(a: real, b: real, x: real)
    requires 0.0 < a && 0.0 < b && x <= 0.0
    ensures x < a * b
  {
    assert 0.0 < a * b by { PositiveProduct(a, b); }
  }
}
