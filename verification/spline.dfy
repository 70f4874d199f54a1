/**
  The SPLINE curve type: a piecewise fit through every control point, with a
  finite-difference tangent at each interior point, a quadratic Bezier piece
  on the first and on the last span, and cubic Bezier pieces in between.
 */
module Spline {
  import opened Vectors
  import opened Bezier

  /** Number of samples taken along each span between two control points. */
  const SplineSegments: nat := 16

  /** The distance from interior point `i` to each of its two neighbours,
      added together; the tangent at `i` is divided by this sum. */
  function NeighbourSpan(mag: Norm, ps: seq<Vec3>, i: nat): (r: real)
    requires 1 <= i < |ps| - 1
    ensures r >= 0.0
  {
    NormFacts(mag, Sub(ps[i], ps[i - 1]));
    NormFacts(mag, Sub(ps[i], ps[i + 1]));
    mag(Sub(ps[i], ps[i - 1])) + mag(Sub(ps[i], ps[i + 1]))
  }

  /** Every tangent division has a non-zero divisor. */
  predicate TangentsDefined(mag: Norm, ps: seq<Vec3>) {
    forall i :: 1 <= i < |ps| - 1 ==> NeighbourSpan(mag, ps, i) != 0.0
  }

  /** The tangent at interior point `i`: the chord from its predecessor to its
      successor, divided by the summed distances to those neighbours; scaling
      it back by that sum recovers the chord. */
  function Tangent(mag: Norm, ps: seq<Vec3>, i: nat): (tan: Vec3)
    requires 1 <= i < |ps| - 1
    requires NeighbourSpan(mag, ps, i) != 0.0
    ensures Scale(tan, NeighbourSpan(mag, ps, i)) == Sub(ps[i + 1], ps[i - 1])
  {
    Scale(Sub(ps[i + 1], ps[i - 1]), 1.0 / NeighbourSpan(mag, ps, i))
  }

  /** The tangents of the interior points, in order: entry `j` belongs to
      point `j + 1`. */
  function Tangents(mag: Norm, ps: seq<Vec3>): (tans: seq<Vec3>)
    requires |ps| >= 3
    requires TangentsDefined(mag, ps)
    ensures |tans| == |ps| - 2
  {
    seq(|ps| - 2, j requires 0 <= j < |ps| - 2 => Tangent(mag, ps, j + 1))
  }

  /** `SplineSegments` samples of a quadratic piece, at `t / SplineSegments`
      for `t` in `0 .. SplineSegments − 1`. */
  function QuadraticSamples(p0: Vec3, p1: Vec3, c: Vec3): (r: seq<Vec3>)
    ensures |r| == SplineSegments
    ensures r[0] == p0
  {
    seq(SplineSegments, t requires 0 <= t < SplineSegments =>
          SolveQuadraticBezier(StepParameter(t, SplineSegments), p0, p1, c))
  }

  /** `SplineSegments` samples of a cubic piece. */
  function CubicSamples(p0: Vec3, p1: Vec3, c0: Vec3, c1: Vec3): (r: seq<Vec3>)
    ensures |r| == SplineSegments
    ensures r[0] == p0
  {
    seq(SplineSegments, t requires 0 <= t < SplineSegments =>
          SolveCubicBezier(StepParameter(t, SplineSegments), p0, p1, c0, c1))
  }

  // ---------------------------------------------------------------------
  // Control points of the three kinds of piece
  // ---------------------------------------------------------------------

  /** The single control of the first span: half a span length back from
      `ps[1]` along the tangent at `ps[1]`. A quadratic piece arrives at its
      end with velocity `2(p1 − c)`, so the first span reaches `ps[1]` moving
      along the tangent there, scaled by the span's length. */
  function FirstControl(mag: Norm, ps: seq<Vec3>, tans: seq<Vec3>): (c: Vec3)
    requires |ps| >= 3 && |tans| == |ps| - 2
    ensures Scale(Sub(ps[1], c), 2.0) == Scale(tans[0], mag(Sub(ps[0], ps[1])))
  {
    var segLength := mag(Sub(ps[0], ps[1]));
    Sub(ps[1], Scale(tans[0], segLength / 2.0))
  }

  /** The single control of the last span: half a span length on from
      `ps[n − 2]` along the tangent at `ps[n − 2]`. A quadratic piece leaves
      its start with velocity `2(c − p0)`, so the last span leaves `ps[n − 2]`
      along the tangent there, scaled by the span's length. */
  function LastControl(mag: Norm, ps: seq<Vec3>, tans: seq<Vec3>): (c: Vec3)
    requires |ps| >= 3 && |tans| == |ps| - 2
    ensures Scale(Sub(c, ps[|ps| - 2]), 2.0) == Scale(tans[|tans| - 1], mag(Sub(ps[|ps| - 2], ps[|ps| - 1])))
  {
    var segLength := mag(Sub(ps[|ps| - 2], ps[|ps| - 1]));
    Add(ps[|ps| - 2], Scale(tans[|tans| - 1], segLength / 2.0))
  }

  /** The control next to `ps[i − 1]` on the cubic span ending at `ps[i]`:
      a third of the span length on along the tangent at `ps[i − 1]`. A cubic
      piece leaves its start with velocity `3(c0 − p0)`: the span's length
      times the tangent. */
  function StartControl(mag: Norm, ps: seq<Vec3>, tans: seq<Vec3>, i: nat): (c0: Vec3)
    requires |tans| == |ps| - 2
    requires 2 <= i < |ps| - 1
    ensures Scale(Sub(c0, ps[i - 1]), 3.0) == Scale(tans[i - 2], mag(Sub(ps[i - 1], ps[i])))
  {
    var segLength := mag(Sub(ps[i - 1], ps[i]));
    Add(ps[i - 1], Scale(tans[i - 2], segLength / 3.0))
  }

  /** The control next to `ps[i]` on the cubic span ending at `ps[i]`: a
      third of the span length back along the tangent at `ps[i]`. A cubic
      piece arrives at its end with velocity `3(p1 − c1)`: the span's length
      times the tangent. */
  function EndControl(mag: Norm, ps: seq<Vec3>, tans: seq<Vec3>, i: nat): (c1: Vec3)
    requires |tans| == |ps| - 2
    requires 2 <= i < |ps| - 1
    ensures Scale(Sub(ps[i], c1), 3.0) == Scale(tans[i - 1], mag(Sub(ps[i - 1], ps[i])))
  {
    var segLength := mag(Sub(ps[i - 1], ps[i]));
    Sub(ps[i], Scale(tans[i - 1], segLength / 3.0))
  }

  // ---------------------------------------------------------------------
  // The fitter, built as the three loops of the original build it
  // ---------------------------------------------------------------------

  function FirstSegment(mag: Norm, ps: seq<Vec3>, tans: seq<Vec3>): seq<Vec3>
    requires |ps| >= 3 && |tans| == |ps| - 2
  {
    QuadraticSamples(ps[0], ps[1], FirstControl(mag, ps, tans))
  }

  /** Samples of the cubic span from `ps[i − 1]` to `ps[i]`. */
  function CubicSegment(mag: Norm, ps: seq<Vec3>, tans: seq<Vec3>, i: nat): seq<Vec3>
    requires |tans| == |ps| - 2
    requires 2 <= i < |ps| - 1
  {
    CubicSamples(ps[i - 1], ps[i], StartControl(mag, ps, tans, i), EndControl(mag, ps, tans, i))
  }

  function LastSegment(mag: Norm, ps: seq<Vec3>, tans: seq<Vec3>): seq<Vec3>
    requires |ps| >= 3 && |tans| == |ps| - 2
  {
    QuadraticSamples(ps[|ps| - 2], ps[|ps| - 1], LastControl(mag, ps, tans))
  }

  /** The cubic spans ending at `ps[i]`, `ps[i + 1]`, …, `ps[n − 2]`, one after
      the other; every `SplineSegments`-th sample is a control point. */
  function CubicRun(mag: Norm, ps: seq<Vec3>, tans: seq<Vec3>, i: nat): (r: seq<Vec3>)
    requires |tans| == |ps| - 2
    requires 2 <= i <= |ps| - 1
    ensures |r| == SplineSegments * (|ps| - 1 - i)
    ensures forall k :: 0 <= k < |r| ==>
              r[k] == CubicSegment(mag, ps, tans, i + k / SplineSegments)[k % SplineSegments]
    ensures forall k :: 0 <= k < |r| && k % SplineSegments == 0 ==> r[k] == ps[i - 1 + k / SplineSegments]
    decreases |ps| - i
  {
    if i == |ps| - 1 then []
    else CubicSegment(mag, ps, tans, i) + CubicRun(mag, ps, tans, i + 1)
  }

  /** The SPLINE curve type. Two or fewer points are returned as they are. */
  function SplinePoints(mag: Norm, ps: seq<Vec3>): (r: seq<Vec3>)
    requires TangentsDefined(mag, ps)
    ensures |ps| <= 2 ==> r == ps
    ensures |ps| >= 3 ==> |r| == SplineSegments * (|ps| - 1) + 1
    ensures |ps| >= 3 ==> r[0] == ps[0] && r[|r| - 1] == ps[|ps| - 1]
  {
    if |ps| <= 2 then ps
    else
      var tans := Tangents(mag, ps);
      FirstSegment(mag, ps, tans) + CubicRun(mag, ps, tans, 2) + LastSegment(mag, ps, tans)
      + [ps[|ps| - 1]]
  }

  // ---------------------------------------------------------------------
  // Span-by-span reference description and the properties of the fit
  // ---------------------------------------------------------------------

  /** The piece of curve on span `m` (from `ps[m]` to `ps[m + 1]`) at
      parameter `s`: quadratic on the first and the last span, cubic
      elsewhere. */
  function SpanCurve(mag: Norm, ps: seq<Vec3>, m: nat, s: real): Vec3
    requires |ps| >= 3 && TangentsDefined(mag, ps)
    requires m < |ps| - 1
  {
    var tans := Tangents(mag, ps);
    if m == 0 then SolveQuadraticBezier(s, ps[0], ps[1], FirstControl(mag, ps, tans))
    else if m == |ps| - 2 then SolveQuadraticBezier(s, ps[m], ps[m + 1], LastControl(mag, ps, tans))
    else SolveCubicBezier(s, ps[m], ps[m + 1], StartControl(mag, ps, tans, m + 1), EndControl(mag, ps, tans, m + 1))
  }

  /** Each span starts at its own control point and ends at the next one, so
      consecutive spans meet. */
  lemma SpanEndpoints(mag: Norm, ps: seq<Vec3>, m: nat)
    requires |ps| >= 3 && TangentsDefined(mag, ps)
    requires m < |ps| - 1
    ensures SpanCurve(mag, ps, m, 0.0) == ps[m]
    ensures SpanCurve(mag, ps, m, 1.0) == ps[m + 1]
  {
  }

  /** Layout of the fitted curve: sample `k` is sample `k mod 16` of span
      `k / 16`, and the final sample is the last control point. */
  lemma SplineLayout(mag: Norm, ps: seq<Vec3>, k: nat)
    requires |ps| >= 3 && TangentsDefined(mag, ps)
    requires k < SplineSegments * (|ps| - 1)
    ensures SplinePoints(mag, ps)[k]
         == SpanCurve(mag, ps, k / SplineSegments, StepParameter(k % SplineSegments, SplineSegments))
  {
    var n := |ps|;
    var tans := Tangents(mag, ps);
    var first := FirstSegment(mag, ps, tans);
    var run := CubicRun(mag, ps, tans, 2);
    var last := LastSegment(mag, ps, tans);
    var r := SplinePoints(mag, ps);
    assert r == first + run + last + [ps[n - 1]];
    var S := SplineSegments;
    if k < S {
      assert r[k] == first[k];
    } else if k < S + |run| {
      assert r[k] == run[k - S];
      assert (k - S) / S == k / S - 1;
      assert (k - S) % S == k % S;
    } else {
      assert r[k] == last[k - S - |run|];
      assert k / S == n - 2;
      assert k - S - |run| == k % S;
    }
  }

  /** The fitted curve passes through every control point: sample `16·j` is
      `ps[j]`. */
  lemma SplineThroughControlPoints(mag: Norm, ps: seq<Vec3>, j: nat)
    requires |ps| >= 3 && TangentsDefined(mag, ps)
    requires j < |ps|
    ensures SplinePoints(mag, ps)[SplineSegments * j] == ps[j]
  {
    var k := SplineSegments * j;
    if j < |ps| - 1 {
      SplineLayout(mag, ps, k);
      assert k / SplineSegments == j && k % SplineSegments == 0;
      assert StepParameter(0, SplineSegments) == 0.0;
      SpanEndpoints(mag, ps, j);
    }
  }

  /** `v` is `w` scaled by a positive factor. */
  ghost predicate PositiveMultiple(v: Vec3, w: Vec3) {
    exists k: real :: k > 0.0 && v == Scale(w, k)
  }

  /** The tangent at every interior point points along the chord from its
      predecessor to its successor. */
  lemma TangentAlongChord(mag: Norm, ps: seq<Vec3>, j: nat)
    requires |ps| >= 3 && TangentsDefined(mag, ps)
    requires j < |ps| - 2
    ensures PositiveMultiple(Tangents(mag, ps)[j], Sub(ps[j + 2], ps[j]))
  {
    var k := 1.0 / NeighbourSpan(mag, ps, j + 1);
    assert Tangents(mag, ps)[j] == Scale(Sub(ps[j + 2], ps[j]), k);
  }

  /** Tangent estimation is defined exactly when no interior point coincides
      with both of its neighbours. */
  lemma TangentsDefinedIff(mag: Norm, ps: seq<Vec3>)
    ensures TangentsDefined(mag, ps)
        <==> forall i :: 1 <= i < |ps| - 1 ==> !(ps[i - 1] == ps[i] == ps[i + 1])
  {
    forall i | 1 <= i < |ps| - 1
      ensures NeighbourSpan(mag, ps, i) != 0.0 <==> !(ps[i - 1] == ps[i] == ps[i + 1])
    {
      ZeroDifference(mag, ps[i], ps[i - 1]);
      ZeroDifference(mag, ps[i], ps[i + 1]);
    }
  }
}
