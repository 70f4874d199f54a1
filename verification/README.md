# Polyline geometry

This project models the polyline geometry engine of JaamSim's `PolylineInfo`
class in Dafny and proves properties of the model. A polyline has:

- the points the user entered;
- a curve type: `LINEAR`, `BEZIER` or `SPLINE`;
- a colour and a line width;
- the *curve points*, which the constructor samples once from the points according to the curve type.

For every curve type, the model covers how the curve points are built:

- `LINEAR` keeps the points as they are.
- `BEZIER` treats all points as the controls of one Bezier curve. It takes 32 equal parameter steps with the recursive de Casteljau evaluator and then adds the last point.
- `SPLINE` fits a curve through every point. Each interior point gets a finite-difference tangent. The first and last spans are quadratic Bezier pieces, the spans in between are cubic, and each span is sampled 16 times.

The arc-length index is also modelled:

- cumulative lengths along the points;
- the position at a fraction of the total length;
- the sub-polyline between two such fractions.

Lengths are located with `Arrays.binarySearch`, which is modelled as a verified method.

Modules:

- `Vectors` (`vectors.dfy`): 3-D points over exact reals. `Norm` stands for the vector magnitude.
- `Bezier` (`bezier.dfy`): the de Casteljau evaluator, the closed-form quadratic and cubic curves, and `BEZIER` sampling.
- `Spline` (`spline.dfy`): the `SPLINE` fitter, plus a span-by-span reference description of its output.
- `ArcLength` (`arc_length.dfy`):
  - binary search and cumulative lengths;
  - the position query and the sub-polyline;
  - a linear-scan reference definition for the position query and another for the sub-polyline.
- `Polyline` (`polyline.dfy`): the polyline record, its constructor and `equals`.

The magnitude `mag3` is a square root. It is not modelled numerically. Every operation that measures length takes a parameter `mag: Norm`, which is any function from vectors to reals with two properties:

- it is never negative;
- it is zero exactly at the zero vector.

The proofs hold for every such magnitude, and so for the Euclidean one.

The position query's fallback to the origin (the `k == -1` branch of `getPositionOnPolyline`) is taken exactly when the distance is negative. That happens with a negative fraction and a positive total length. `PointAt` states this.

A single-point polyline does not fall back to the origin. Its total length is 0, so every fraction gives distance 0. The search finds an exact match, and the result is that point.

## Model

Every source path below is `src/main/java/com/jaamsim/Graphics/PolylineInfo.java`.

| member | source | states |
|---|---|---|
| `Vectors.Lerp` | src/main/java/com/jaamsim/Graphics/PolylineInfo.java:318-323 | interpolating at fraction 0 gives the start point and at fraction 1 the end point |
| `Vectors.ZeroDifference` | src/main/java/com/jaamsim/Graphics/PolylineInfo.java:134-138 | the magnitude of the difference of two points is non-negative, and it is zero exactly when the points coincide |
| `Bezier.SolveBezier` | src/main/java/com/jaamsim/Graphics/PolylineInfo.java:217-230 | the de Casteljau curve over a control range starts at the first control of the range (t = 0) and ends at the last (t = 1) |
| `Bezier.SolveBezierAsWritten` | src/main/java/com/jaamsim/Graphics/PolylineInfo.java:217-230 | the original recursion on any integer range, with a bounded call stack: it only yields a point when `start <= end` |
| `Bezier.EmptyRangeOverflows` | src/main/java/com/jaamsim/Graphics/PolylineInfo.java:219-223 | on a range with `start > end` the base case is never reached, and every call stack overflows |
| `Bezier.EmptyBezierOverflows` | src/main/java/com/jaamsim/Graphics/PolylineInfo.java:101-103 | the first sample of a `BEZIER` curve over an empty list evaluates the range `0 .. −1` and overflows |
| `Bezier.AsWrittenAgrees` | src/main/java/com/jaamsim/Graphics/PolylineInfo.java:217-230 | on a non-empty range inside the list, with more stack than the range is long, the original recursion returns `SolveBezier`'s point |
| `Bezier.SolveQuadraticBezier` | src/main/java/com/jaamsim/Graphics/PolylineInfo.java:263-286 | the closed-form quadratic curve starts at `p0` and ends at `p1` |
| `Bezier.SolveCubicBezier` | src/main/java/com/jaamsim/Graphics/PolylineInfo.java:233-260 | the closed-form cubic curve starts at `p0` and ends at `p1` |
| `Bezier.QuadraticMatchesDeCasteljau` | src/main/java/com/jaamsim/Graphics/PolylineInfo.java:263-286 | for every parameter, the quadratic Bernstein closed form equals de Casteljau evaluation of `[p0, c, p1]` |
| `Bezier.CubicMatchesDeCasteljau` | src/main/java/com/jaamsim/Graphics/PolylineInfo.java:233-260 | for every parameter, the cubic Bernstein closed form equals de Casteljau evaluation of `[p0, c0, c1, p1]` |
| `Bezier.ConstantBezier` | src/main/java/com/jaamsim/Graphics/PolylineInfo.java:217-230 | when all controls of a range are the same point, the curve is that point at every parameter |
| `Bezier.LinearBezier` | src/main/java/com/jaamsim/Graphics/PolylineInfo.java:217-230 | a two-control curve is the straight interpolation between its controls |
| `Bezier.BezierPoints` | src/main/java/com/jaamsim/Graphics/PolylineInfo.java:95-107 | a `BEZIER` curve has 33 points; the first is the first control and the last is the last control |
| `Bezier.BezierPointsOnCurve` | src/main/java/com/jaamsim/Graphics/PolylineInfo.java:101-105 | every sample `i` of a `BEZIER` curve, including the appended last point, lies on the curve at parameter `i/32` |
| `Bezier.SinglePointBezier` | src/main/java/com/jaamsim/Graphics/PolylineInfo.java:95-107 | a `BEZIER` curve built from one point is that point 33 times |
| `Spline.NeighbourSpan` | src/main/java/com/jaamsim/Graphics/PolylineInfo.java:134-138 | the divisor of a tangent, the summed distances to the two neighbours, is never negative |
| `Spline.Tangent` | src/main/java/com/jaamsim/Graphics/PolylineInfo.java:140-143 | scaling the tangent back by the summed neighbour distances recovers the chord from the predecessor to the successor |
| `Spline.Tangents` | src/main/java/com/jaamsim/Graphics/PolylineInfo.java:128-144 | there is one tangent per interior point, `n − 2` in all |
| `Spline.TangentAlongChord` | src/main/java/com/jaamsim/Graphics/PolylineInfo.java:140-143 | each tangent is a positive multiple of the chord from the point's predecessor to its successor |
| `Spline.TangentsDefinedIff` | src/main/java/com/jaamsim/Graphics/PolylineInfo.java:134-142 | no tangent divides by zero exactly when no interior point coincides with both of its neighbours |
| `Spline.FirstControl` | src/main/java/com/jaamsim/Graphics/PolylineInfo.java:158-163 | the first quadratic span arrives at `ps[1]` with velocity `2(p1 − c)` equal to the span length times the tangent at `ps[1]` |
| `Spline.StartControl` | src/main/java/com/jaamsim/Graphics/PolylineInfo.java:176-181 | a cubic span leaves `ps[i − 1]` with velocity `3(c0 − p0)` equal to the span length times the tangent at `ps[i − 1]` |
| `Spline.EndControl` | src/main/java/com/jaamsim/Graphics/PolylineInfo.java:176-185 | a cubic span arrives at `ps[i]` with velocity `3(p1 − c1)` equal to the span length times the tangent at `ps[i]` |
| `Spline.LastControl` | src/main/java/com/jaamsim/Graphics/PolylineInfo.java:198-203 | the last quadratic span leaves `ps[n − 2]` with velocity `2(c − p0)` equal to the span length times the tangent at `ps[n − 2]` |
| `Spline.QuadraticSamples` | src/main/java/com/jaamsim/Graphics/PolylineInfo.java:165-168 | a quadratic span contributes 16 samples, and the first is the span's start point |
| `Spline.CubicSamples` | src/main/java/com/jaamsim/Graphics/PolylineInfo.java:187-190 | a cubic span contributes 16 samples, and the first is the span's start point |
| `Spline.CubicRun` | src/main/java/com/jaamsim/Graphics/PolylineInfo.java:171-191 | the interior loop emits 16 samples per cubic span, in span order, and every 16th sample is a control point |
| `Spline.SplinePoints` | src/main/java/com/jaamsim/Graphics/PolylineInfo.java:109-214 | two or fewer points are returned unchanged; otherwise the curve has `16(n − 1) + 1` points and starts and ends at the first and last points |
| `Spline.SpanEndpoints` | src/main/java/com/jaamsim/Graphics/PolylineInfo.java:153-209 | every span, whether quadratic first, cubic interior or quadratic last, starts at its own point and ends at the next, so consecutive spans join |
| `Spline.SplineLayout` | src/main/java/com/jaamsim/Graphics/PolylineInfo.java:146-211 | sample `k` of the fitted curve is span `k / 16` evaluated at parameter `(k mod 16) / 16` |
| `Spline.SplineThroughControlPoints` | src/main/java/com/jaamsim/Graphics/PolylineInfo.java:109-214 | the fitted curve passes through every point: sample `16j` is point `j` |
| `ArcLength.BinarySearch` | src/main/java/com/jaamsim/Graphics/PolylineInfo.java:299-301 | on a sorted table: a non-negative answer indexes an entry equal to the key; a negative answer `−ip − 1` encodes the insertion point `ip`, with smaller entries before it and larger entries from it on; the answer is negative exactly when the key is absent |
| `ArcLength.PathLength` | src/main/java/com/jaamsim/Graphics/PolylineInfo.java:402-406 | the path length up to any point, the sum of the segment magnitudes before it, is never negative |
| `ArcLength.Lengths` | src/main/java/com/jaamsim/Graphics/PolylineInfo.java:399-408 | the length table has one entry per point, and entry `i` is the path length from the first point to point `i` |
| `ArcLength.PathLengthMonotone` | src/main/java/com/jaamsim/Graphics/PolylineInfo.java:402-406 | path lengths are non-negative and do not decrease along the polyline |
| `ArcLength.LengthsSorted` | src/main/java/com/jaamsim/Graphics/PolylineInfo.java:399-408 | the cumulative length table is sorted, as the binary search requires |
| `ArcLength.PathLengthStrict` | src/main/java/com/jaamsim/Graphics/PolylineInfo.java:402-406 | without zero-length segments, path lengths strictly increase |
| `ArcLength.EqualLengthsEqualPoints` | src/main/java/com/jaamsim/Graphics/PolylineInfo.java:303-305 | two points at the same path length are the same point, so an exact match does not depend on which equal entry the search finds |
| `ArcLength.CumulativeLengths` | src/main/java/com/jaamsim/Graphics/PolylineInfo.java:399-408 | the table has as many entries as points, entry 0 is 0, and each later entry adds the length of the segment arriving at that point |
| `ArcLength.SearchLengths` | src/main/java/com/jaamsim/Graphics/PolylineInfo.java:299-301 | searching the length table gives a valid binary-search answer |
| `ArcLength.FirstAtLeast` | src/main/java/com/jaamsim/Graphics/PolylineInfo.java:375-378 | the first index from `from` on whose length reaches `d`: every entry before it is below `d` |
| `ArcLength.FirstAbove` | src/main/java/com/jaamsim/Graphics/PolylineInfo.java:356-358 | the first index from `from` on whose length exceeds `d`, that is, the insertion point: every entry before it is at most `d` |
| `ArcLength.Fraction` | src/main/java/com/jaamsim/Graphics/PolylineInfo.java:318-319 | the interpolation fraction inverts linear interpolation of lengths: going that fraction of the way from `L[idx − 1]` to `L[idx]` gives back `d` |
| `ArcLength.FractionBounds` | src/main/java/com/jaamsim/Graphics/PolylineInfo.java:318-319 | the interpolation fraction lies strictly between 0 and 1 inside a segment and is 1 at the segment's end |
| `ArcLength.PointAt` | src/main/java/com/jaamsim/Graphics/PolylineInfo.java:294-325 | reference position at distance `d`: the origin when `d` is negative, and the last point when `d` exceeds the total length |
| `ArcLength.PointAtExact` | src/main/java/com/jaamsim/Graphics/PolylineInfo.java:303-305 | a distance equal to the path length of point `k` gives point `k` |
| `ArcLength.PointAtInterpolates` | src/main/java/com/jaamsim/Graphics/PolylineInfo.java:311-324 | a distance strictly inside segment `idx` gives the interpolation between points `idx − 1` and `idx`, at a fraction strictly between 0 and 1 |
| `ArcLength.PointAtEnds` | src/main/java/com/jaamsim/Graphics/PolylineInfo.java:294-325 | fraction 0 gives the first point and fraction 1 the last |
| `ArcLength.PositionOnPolyline` | src/main/java/com/jaamsim/Graphics/PolylineInfo.java:294-325 | the binary-search implementation returns the reference position at `frac` times the total length |
| `ArcLength.Tail` | src/main/java/com/jaamsim/Graphics/PolylineInfo.java:373-392 | once the points are exhausted at the start, nothing follows the first node |
| `ArcLength.EndNode` | src/main/java/com/jaamsim/Graphics/PolylineInfo.java:379-389 | the interpolated last node is present exactly when some point from the scan start on reaches the end distance |
| `ArcLength.SubPolyline` | src/main/java/com/jaamsim/Graphics/PolylineInfo.java:335-392 | the binary-search implementation fails exactly when the start distance is negative, and otherwise returns the reference sub-polyline between `frac0` and `frac1` times the total length |
| `ArcLength.SubPolylineBetween` | src/main/java/com/jaamsim/Graphics/PolylineInfo.java:343-392 | as `SubPolyline`, for distances already computed from the fractions |
| `ArcLength.LastLengthIsTotal` | src/main/java/com/jaamsim/Graphics/PolylineInfo.java:343 | the last entry of the length table is the total length |
| `ArcLength.StartNode` | src/main/java/com/jaamsim/Graphics/PolylineInfo.java:348-371 | the first node is the reference position at the start distance, and the scan continues from the first point strictly beyond that distance |
| `ArcLength.RemainingNodes` | src/main/java/com/jaamsim/Graphics/PolylineInfo.java:373-392 | after the first node come the points below the end distance, then the interpolated end node unless the points ran out |
| `ArcLength.InteriorNodes` | src/main/java/com/jaamsim/Graphics/PolylineInfo.java:374-378 | the loop collects exactly the consecutive points below the end distance and stops at the first point that reaches it |
| `ArcLength.SubPolylineWhole` | src/main/java/com/jaamsim/Graphics/PolylineInfo.java:335-392 | fractions 0 and 1 give the whole polyline back |
| `ArcLength.TailToEnd` | src/main/java/com/jaamsim/Graphics/PolylineInfo.java:373-389 | scanning from the second point up to the total length collects every remaining point; the end node is the last point itself |
| `ArcLength.SubPolylineEndsAtEndPoint` | src/main/java/com/jaamsim/Graphics/PolylineInfo.java:335-392 | for `0 ≤ d0 < d1 ≤` total length, the sub-polyline starts at the position at `d0` and ends at the position at `d1` |
| `ArcLength.XLineLengths` | src/main/java/com/jaamsim/Graphics/PolylineInfo.java:399-408 | worked example: points `0, a, 2a` on the x axis have cumulative lengths `0, a, 2a` |
| `ArcLength.HalfwayAlongSegment` | src/main/java/com/jaamsim/Graphics/PolylineInfo.java:294-325 | worked example: a quarter of the way along `0, a, 2a` is `a/2` |
| `ArcLength.MiddleHalfOfTwoSegments` | src/main/java/com/jaamsim/Graphics/PolylineInfo.java:335-392 | worked example: the sub-polyline of `0, a, 2a` from fraction 0.25 to 0.75 is `a/2, a, 3a/2` |
| `Polyline.CurvePoints` | src/main/java/com/jaamsim/Graphics/PolylineInfo.java:45-58 | `LINEAR` curve points are the points themselves; `BEZIER` gives 33 points from the first point to the last; `SPLINE` gives the points unchanged for two or fewer, and otherwise `16(n − 1) + 1` points from the first point to the last |
| `Polyline.NewPolyline` | src/main/java/com/jaamsim/Graphics/PolylineInfo.java:39-58 | the constructor keeps points, curve type, colour and width as given, and its curve points are those built for that type |
| `Polyline.Equals` | src/main/java/com/jaamsim/Graphics/PolylineInfo.java:61-72 | two polylines are `equals` exactly when they differ in their curve points at most |
| `Polyline.EqualsIsEquality` | src/main/java/com/jaamsim/Graphics/PolylineInfo.java:61-72 | between constructed polylines, `equals` holds exactly when the two are the same value: the curve points it skips follow from the fields it compares |
| `Polyline.EqualsIgnoresCurve` | src/main/java/com/jaamsim/Graphics/PolylineInfo.java:61-72 | replacing the curve points does not change `equals`, although the value changes |
| `Polyline.EqualsEquivalence` | src/main/java/com/jaamsim/Graphics/PolylineInfo.java:61-72 | `equals` is reflexive, symmetric and transitive |
| `Polyline.ConstructorEquals` | src/main/java/com/jaamsim/Graphics/PolylineInfo.java:39-72 | two polylines built from the same points, type, colour and width are `equals`, whatever magnitude was used for the spline |

## Left out

- Floating point: coordinates, lengths and fractions are exact reals.
  - The model has no rounding and no NaN or infinity.
  - `Arrays.binarySearch` orders doubles by bit pattern, so `-0.0` is below `0.0`. Because of this, a negative fraction of a zero total length makes the original fall back to the origin. Over reals this is an exact match at point 0.
- `mag3` (a square root) is abstracted as any `Norm`: a non-negative magnitude that is zero exactly at the zero vector. No Euclidean value is computed. The worked examples assume only that a step of `a` along the x axis measures `a`.
- `Spline.TangentsDefined` is a precondition of the `SPLINE` curve: no tangent divisor is zero. In the original a zero divisor produces NaN or infinity. `Spline.TangentsDefinedIff` characterises the condition.
- `ArcLength.NoZeroSegments` is a precondition of the sub-polyline: no two consecutive points coincide. It excludes two kinds of input.
  - Inputs where the original divides by zero. Example: `[A, A, A, B]` with both fractions 0. The search finds entry 1, and the end node divides `0` by `L[2] − L[1] = 0`.
  - Inputs where the result depends on which of several equal entries the binary search returns. Example: `[A, A, B]` with fractions 0 and 1. Entry 1 (the JDK's answer) gives `[A, B]`; entry 0 gives `[A, A, B]`. `BinarySearch` leaves that choice open, so no single result can be promised.
  - The position query needs no such condition: it never divides by zero, and `ArcLength.EqualLengthsEqualPoints` shows that its answer does not depend on the duplicate found.
- Empty input is excluded by preconditions; the original fails on it.
  - `getBezierPoints`: the first sample calls `solveBezier` on the range `0 .. −1`, which recurses until the stack overflows (see Findings). The last-element read at line 105 is never reached.
  - `getCumulativeLengths` writes entry 0 of an empty array and throws. The position query and the sub-polyline fail there, before they read the last length.
- The `ErrorException` of `getSubPolyline` becomes `Failure(PositionNotFound)`. The message text is not modelled.
- Mutation: the original reuses scratch `Vec3d` buffers and returns its input list for `LINEAR` and short `SPLINE` input. The model uses values, so aliasing does not arise.
  - `Vec3d` is not part of this model; its `sub3`, `add3`, `scale3` and `interpolate3` become `Sub`, `Add`, `Scale` and `Lerp`.
  - `Color4d` is not part of this model; it becomes a record of four reals compared by value.
- `equals`: the identity shortcut, the `instanceof` test and the null checks on points and colour are not modelled. `hashCode` is not defined in the source and is not modelled either.
- The getters and `toString` only return fields and are not modelled.
- The unreachable `default` branch of the constructor's switch has no counterpart, because the curve type has exactly three values.
- `Polyline.EqualsIsEquality`: it uses one magnitude for both polylines, because the spline's curve points depend on the magnitude.

## Findings

| source | as written | input that shows it | evidently intended | confidence | as-written member | corrected member |
|---|---|---|---|---|---|---|
| src/main/java/com/jaamsim/Graphics/PolylineInfo.java:217-230 | `solveBezier`'s only base case is `start == end`, and it recurses on `end − 1`, so a range with `start > end` never terminates | `getBezierPoints` of an empty list calls `solveBezier(0.0, 0, −1, ps)`, which ends in a stack overflow | the evaluator is only called on a non-empty range `start <= end`; the `BEZIER` curve needs at least one point | not executed; high that the recursion overflows, low that callers ever pass an empty list | `Bezier.SolveBezierAsWritten`, `Bezier.EmptyBezierOverflows` | `Bezier.SolveBezier` (requires `start <= end`, terminates by `end − start`; `Bezier.AsWrittenAgrees` shows it matches the original wherever that returns) |
