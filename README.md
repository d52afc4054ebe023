# Bilge Blob Creator: `create_blob` in Dafny

`create_blob(height, fluctuate_ratio, num_of_points, interp_kind)` draws a
random closed blob as a `height` x `height` mask of 0s and 1s:

1. it draws `num_of_points` random radii from a band just below the maximum
   radius `height // 2`;
2. it closes the loop of samples by repeating the first radius at the end;
3. it lays out evenly spaced angles from -pi up to pi, and appends pi as the
   closing angle;
4. it fits a boundary function (scipy `interp1d`) from angle to radius;
5. it builds matrices holding each cell's x and y offset from the centre;
6. it marks a cell 1 exactly when the boundary at the cell's angle is
   strictly greater than the cell's distance from the centre.

The project has two modules:

- `Interp1d` (`interp1d.dfy`) models the `'linear'` kind of `interp1d`.
  It follows scipy's `_call_linear` formulation: numpy's left
  `searchsorted`, clipped to the interior segments, then the straight line
  through the two knots around the query. For float64 data current scipy
  evaluates this kind with `np.interp` instead; over the reals the two give
  the same values. Its
  lemmas prove three things: the interpolant passes through every knot;
  each value lies between the two neighbouring knot values; and so it is
  bounded by any bound on all the knots.
- `Blobber` (`blobber.dfy`) models `create_blob` itself:
  - `Plan` covers every failure that can happen before the boundary is
    fitted, in the order the code meets them. `CreateBlob` adds the one
    raised when the boundary is fitted: an unknown interpolation kind.
  - The sample closure and the angle sequence are functions on sequences.
  - The offset matrices and the mask are filled in place by array methods
    with nested loops.
  - `CreateBlob` composes these steps. It returns either the first error or
    a fresh mask, and specifies each cell through `BlobCell`.
  - Lemmas about the linear blob cover: the far cells and the four corners
    are outside; the centre is inside once every radius is at least 1; and
    the closed loop takes the first radius at both -pi and pi.
  - For every accepted kind, along one ray the mask is a solid segment
    (`SameAngleNearerInside`).

Abstractions:

- The random radii are an input `draw` that must lie in the band
  `randint` samples.
- pi is a positive real parameter.
- `np.arctan2` is a parameter `angle(y, x)` whose values lie in
  `[-pi, pi]`.
- The boundary for every kind `interp1d` accepts other than `'linear'` is an
  opaque fitting function of the knots. That covers `'nearest'`,
  `'nearest-up'`, `'previous'`, `'next'`, `'zero'`, `'slinear'`,
  `'quadratic'`, `'cubic'` and an integer spline degree. Only a kind
  `interp1d` rejects is `Unsupported`.
- `np.sqrt` is never computed. A cell at squared distance `d2` is inside a
  boundary `b` when `0 < b` and `d2 < b * b`; `InsideIffBelowBoundary` proves
  that this is the same as `sqrt(d2) < b`.
- Floats are exact reals, and integers are unbounded.

Where the docstring of `create_blob` (blobber.py:54-72) and the code
disagree, the model follows the code:

- `randint` receives a float lower end `max_radius - fluc_range`, which numpy
  truncates toward zero. The band is therefore
  `[trunc(max_radius - fluc_range), max_radius)`. It is empty exactly when
  `fluc_range <= 0`, that is when `height < 2` or `fluctuate_ratio <= 0`,
  and then `randint` raises. So a ratio of 0 does not give a circle of
  radius `max_radius`: it raises (`EmptyBand`).
- Because of the truncation, a radius can fall below
  `max_radius - fluc_range` by less than 1 when `fluc_range` is not a whole
  number and `max_radius - fluc_range` is not negative
  (`SampleRadiusBounds`).
- With `num_of_points == 0`, `randint` returns an empty array and
  `random_radius[0]` raises. This is checked before the band, because numpy
  1.17 and later returns an empty draw for a zero size before it validates
  the bounds. Older numpy (`mtrand.randint`) raises `low >= high` first, so
  there `EmptyBand` would come before `NoSamples`.

## Model

| member | source | states |
|---|---|---|
| `Blobber.Trunc` | blobber.py:13-14 | the integer `randint` takes from its float lower end rounds toward zero: within 1 of the real value and never farther from zero |
| `Blobber.MaxRadius` | blobber.py:8-10 | the centre and maximum radius `height // 2`: the `r` with `2 * r <= height < 2 * r + 2` (Python's floor division) |
| `Blobber.FlucRange` | blobber.py:11 | defined as `(height // 2) * fluctuate_ratio`; its bounds are `FlucRangeBounds` |
| `Blobber.LowEnd` | blobber.py:13-14 | the integer lower end `randint` uses: `max_radius - fluc_range` truncated toward zero, so within 1 of it, rounded down when it is not negative and up when it is negative |
| `Blobber.FlucRangeBounds` | blobber.py:8-11 | `fluc_range = (height // 2) * ratio` is positive exactly when `height >= 2` and `ratio > 0`, and is at most the maximum radius for a ratio up to 1 |
| `Blobber.LowEndBelowMax` | blobber.py:8-14 | the truncated lower end is below `max_radius` exactly when `height >= 2` and `ratio > 0`, which is when the band is non-empty |
| `Blobber.Plan` | blobber.py:7-17 | succeeds exactly when `height >= 2`, `ratio > 0` and `num_of_points >= 1`; otherwise it names the error raised first (negative dimension, empty draw indexed, `low >= high`, negative size); on success the band is `[trunc(max_radius - fluc_range), max_radius)`, non-empty, and its low end is above `max_radius - fluc_range - 1`; for a ratio up to 1 it is also at most `max_radius - fluc_range` and not negative |
| `Blobber.SampleRadiusBounds` | blobber.py:13-14 | every drawn radius is below `max_radius`, above `max_radius - fluc_range - 1`, not negative for a ratio up to 1, and at least `max_radius - fluc_range` when `fluc_range` is whole or `max_radius - fluc_range` is negative |
| `Blobber.InBand` | blobber.py:13-14 | defined as `low <= r < high`: `randint`'s upper end is exclusive |
| `Blobber.Drawn` | blobber.py:13-14 | defined as: exactly `num_of_points` radii, each in the band; this is what `CreateBlob` requires of its draw |
| `Blobber.LowEndMonotone` | blobber.py:11-14 | a larger fluctuation ratio never raises the lower end of the band |
| `Blobber.CloseLoop` | blobber.py:17 | the closed radii have one more entry; the first `num_of_points` are the samples unchanged, and the last equals the first |
| `Blobber.Arange` | blobber.py:19 | `np.arange(start, stop, step)` for a positive step: entry `k` is `start + k * step`, every entry is below `stop`, the next one would not be, and the entries strictly increase |
| `Blobber.Thetas` | blobber.py:19-21 | the angles have `num_of_points + 1` entries, start at -pi, step by `2 * pi / num_of_points`, end with pi, and strictly increase |
| `Blobber.KnotsAccepted` | blobber.py:17-24 | the angles and the closed radii have equal length, at least two entries, and increasing angles, which is what the linear interpolant needs of its knots |
| `Blobber.WrapAroundConsistent` | blobber.py:17-24 | the linear boundary is defined at -pi and at pi and equals the first radius at both, so the loop closes |
| `Interp1d.SearchLeft` | blobber.py:24 | the left insertion index: every abscissa before it is below `t`, and the one at it, if any, is not |
| `Interp1d.Segment` | blobber.py:24 | for `t` inside the domain, the chosen segment `[xs[hi-1], xs[hi]]` is an interior segment that contains `t` |
| `Interp1d.Lerp` | blobber.py:24 | the value lies on the line through the two knots, between the two knot values on their segment, and passes through both knots |
| `Interp1d.LinearAt` | blobber.py:24-41 | the linear boundary value at `t` lies between the values of the two knots around `t` |
| `Interp1d.LinearAtKnot` | blobber.py:24-41 | the linear boundary passes through every knot |
| `Interp1d.LinearAtMost` | blobber.py:24-41 | a bound above every radius bounds the linear boundary everywhere |
| `Interp1d.LinearAtLeast` | blobber.py:24-41 | a bound below every radius bounds the linear boundary from below everywhere |
| `Blobber.Boundary` | blobber.py:24-41 | defined as the fitted `boundry_function` at angle `t`: `LinearAt` for the `'linear'` kind, the opaque fitting function for every other accepted kind |
| `Blobber.Inside` | blobber.py:36-46 | defined as `0 < b && d2 < b * b`, the squared form of `rad_val > sqrt(d2)`; `InsideIffBelowBoundary` proves the two agree |
| `Blobber.InsideIffBelowBoundary` | blobber.py:36-46 | comparing squared distance with the squared boundary decides the same as `sqrt(d2) < b`; a cell exactly on the boundary is outside |
| `Blobber.CellValue` | blobber.py:35-46 | the mask value of a cell is 0 or 1 |
| `Blobber.CellValueMeaning` | blobber.py:35-46 | a cell is 1 exactly when the boundary at its angle is strictly greater than its distance from the centre |
| `Blobber.SameAngleNearerInside` | blobber.py:41-46 | of two cells at the same angle, the nearer one is inside whenever the farther one is |
| `Blobber.ColumnOffsets` | blobber.py:27-30 | a fresh `height` x `height` matrix whose entry `(i, j)` is `j - center` in every row |
| `Blobber.Transposed` | blobber.py:32-33 | a fresh copy with the dimensions swapped and entry `(i, j)` equal to the original's `(j, i)` |
| `Blobber.ClassifyCells` | blobber.py:41-46 | a fresh mask of the offset matrices' shape whose every cell is the cell value at the offsets read from the two matrices |
| `Blobber.BlobCell` | blobber.py:8-46 | the value `create_blob` gives cell `(i, j)` is 0 or 1 |
| `Blobber.CreateBlob` | blobber.py:6-53 | returns a mask exactly when the band is non-empty, there is at least one sample and the kind is supported; otherwise it returns the first error raised; the mask is fresh, `height` x `height`, and its cell `(i, j)` is 0 or 1 and equals the cell value at offset `(j - height // 2, i - height // 2)` |
| `Blobber.FarCellsOutside` | blobber.py:13-46 | with linear interpolation, every cell at distance at least `max_radius - 1` from the centre is 0 |
| `Blobber.CornersOutside` | blobber.py:8-46 | with linear interpolation, the four corners of the frame are 0 |
| `Blobber.CenterInside` | blobber.py:8-46 | with linear interpolation and every radius at least 1, the centre cell `(height // 2, height // 2)` exists and is 1 |

## Left out

- Matplotlib display: the module-level `plt.imshow(create_blob(1453, 0.7, 100))` and `plt.show()`, and the commented-out plotting (blobber.py:50-51, 74-75). These are user-interface side effects.
- Random generation itself (blobber.py:13). The draw is an input that `CreateBlob` requires to lie in the band `Plan` computes.
- The kinds of `interp1d` other than `'linear'` (`'nearest'`, `'nearest-up'`, `'previous'`, `'next'`, `'zero'`, `'slinear'`, `'quadratic'`, `'cubic'`, an integer spline degree). Each is an opaque `Fitted` function of the knots. Their own checks (a cubic spline needs at least four knots, for example) are not modelled, so the model lets them succeed on any valid knots.
- Any `interp_kind` that scipy rejects becomes the single `Unsupported` kind. The scipy messages are not modelled.
- `np.arctan2` and `np.sqrt` as floating-point operations (blobber.py:35-36). The angle is a parameter with range `[-pi, pi]`, and `sqrt` is replaced by the squared-distance comparison.
- Floating-point rounding in `np.arange` with a non-integer step (blobber.py:19). It can give one angle more, never fewer. The angles then outnumber the closed radii, and `interp1d` raises at line 24. The model has no such error path: its angles are exact reals, so there are always exactly `num_of_points` of them before pi.
- The 64-bit bounds of numpy integers. Integers are unbounded.
- Offsets as floats: `x_matrix` is a float array in the code, and the model stores the same whole values as integers.
- `y_matrix.T` is a transposed view of a copy in numpy. The model builds a fresh transposed array with the same entries, and nothing writes to either matrix afterwards.
- The default arguments `fluctuate_ratio=0.5`, `num_of_points=10` and `interp_kind='cubic'` (blobber.py:6). `CreateBlob` takes every argument explicitly; the default `'cubic'` is one of the spline kinds the model treats as an opaque `Fitted` function.
- The unused `dif_radians` parameter and the initial white `frame` that line 46 overwrites (blobber.py:6-7, 67-68).
- Batch generation, a command-line interface and file writing are not part of this model.
- `Blobber.SampleRadiusBounds`: the lower bound `max_radius - fluc_range <= r` is proved only when `fluc_range` is a whole number or `max_radius - fluc_range` is negative. Otherwise `randint` truncates its non-negative float lower end downwards, so a radius may lie less than 1 below it.
- `Blobber.CornersOutside`, `Blobber.FarCellsOutside` and `Blobber.CenterInside` are proved for the `'linear'` kind only. A spline can overshoot its knots, and the other kinds are opaque, so nothing is claimed for them.
