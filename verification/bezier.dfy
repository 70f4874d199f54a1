/**
  Bezier evaluation: the generic recursive de Casteljau evaluator, the
  closed-form quadratic and cubic Bernstein blends used by the spline fitter,
  and the fixed-step sampling used by the BEZIER curve type.
 */
module Bezier {
  import opened Vectors

  /** Number of equal parametric steps taken over a BEZIER curve. */
  const BezierSamples: nat := 32

  /** De Casteljau evaluation at `t` of the curve whose control points are
      `controls[start..end + 1]`: the curve of all but the last control point
      and the curve of all but the first are blended by `1 − t` and `t`. */
  function SolveBezier(t: real, start: nat, end: nat, controls: seq<Vec3>): (r: Vec3)
    requires start <= end < |controls|
    ensures t == 0.0 ==> r == controls[start]
    ensures t == 1.0 ==> r == controls[end]
    decreases end - start
  {
    if start == end then controls[start]
    else
      var a := SolveBezier(t, start, end - 1, controls);
      var b := SolveBezier(t, start + 1, end, controls);
      Add(Scale(a, 1.0 - t), Scale(b, t))
  }

  /** Closed-form quadratic Bezier through `p0` and `p1` with middle control
      `c`; note the end point comes before the control in the argument list. */
  function SolveQuadraticBezier(s: real, p0: Vec3, p1: Vec3, c: Vec3): (r: Vec3)
    ensures s == 0.0 ==> r == p0
    ensures s == 1.0 ==> r == p1
  {
    Vec3(QuadraticCoord(s, p0.x, p1.x, c.x), QuadraticCoord(s, p0.y, p1.y, c.y),
         QuadraticCoord(s, p0.z, p1.z, c.z))
  }

  /** One coordinate of the quadratic closed form: the Bernstein weights
      `(1 − s)²`, `s²` and `2s(1 − s)` applied to `a` (start), `b` (end) and
      `c` (control), summed onto zero in that order. */
  function QuadraticCoord(s: real, a: real, b: real, c: real): real {
    var oneMinS := 1.0 - s;
    var coeffP0 := oneMinS * oneMinS;
    var coeffC := 2.0 * s * oneMinS;
    var coeffP1 := s * s;
    0.0 + a * coeffP0 + b * coeffP1 + c * coeffC
  }

  /** Closed-form cubic Bezier through `p0` and `p1` with inner controls `c0`
      (next to `p0`) and `c1` (next to `p1`). */
  function SolveCubicBezier(s: real, p0: Vec3, p1: Vec3, c0: Vec3, c1: Vec3): (r: Vec3)
    ensures s == 0.0 ==> r == p0
    ensures s == 1.0 ==> r == p1
  {
    Vec3(CubicCoord(s, p0.x, p1.x, c0.x, c1.x), CubicCoord(s, p0.y, p1.y, c0.y, c1.y),
         CubicCoord(s, p0.z, p1.z, c0.z, c1.z))
  }

  /** One coordinate of the cubic closed form: the Bernstein weights
      `(1 − s)³`, `s³`, `3s(1 − s)²` and `3s²(1 − s)` applied to `a`, `b`,
      `c0` and `c1`, summed onto zero in that order. */
  function CubicCoord(s: real, a: real, b: real, c0: real, c1: real): real {
    var oneMinS := 1.0 - s;
    var coeffP0 := oneMinS * oneMinS * oneMinS;
    var coeffC0 := 3.0 * s * oneMinS * oneMinS;
    var coeffC1 := 3.0 * s * s * oneMinS;
    var coeffP1 := s * s * s;
    0.0 + a * coeffP0 + b * coeffP1 + c0 * coeffC0 + c1 * coeffC1
  }

  /** The parameter of the `i`-th of `steps` equal steps, `i · (1 / steps)`. */
  function StepParameter(i: nat, steps: nat): real
    requires steps > 0
  {
    i as real * (1.0 / steps as real)
  }

  /** The BEZIER curve type: the whole control list treated as one curve and
      sampled at `BezierSamples` equal steps over `[0, 1)`, followed by the
      last control point itself. */
  function BezierPoints(ps: seq<Vec3>): (r: seq<Vec3>)
    requires |ps| >= 1
    ensures |r| == BezierSamples + 1
    ensures r[0] == ps[0]
    ensures r[BezierSamples] == ps[|ps| - 1]
  {
    seq(BezierSamples, i requires 0 <= i < BezierSamples =>
          SolveBezier(StepParameter(i, BezierSamples), 0, |ps| - 1, ps))
    + [ps[|ps| - 1]]
  }

  // ---------------------------------------------------------------------
  // Closed forms agree with de Casteljau
  // ---------------------------------------------------------------------

  /** One coordinate of a de Casteljau step, `a·(1 − t) + b·t`. */
  function Blend(a: real, b: real, t: real): real {
    a * (1.0 - t) + b * t
  }

  lemma BlendCoords(a: Vec3, b: Vec3, t: real)
    ensures Add(Scale(a, 1.0 - t), Scale(b, t)) == Vec3(Blend(a.x, b.x, t), Blend(a.y, b.y, t), Blend(a.z, b.z, t))
  {
  }

  lemma QuadraticBlend(s: real, a: real, b: real, c: real)
    ensures QuadraticCoord(s, a, b, c) == Blend(Blend(a, c, s), Blend(c, b, s), s)
  {
  }

  lemma CubicBlend(s: real, a: real, b: real, c0: real, c1: real)
    ensures CubicCoord(s, a, b, c0, c1)
         == Blend(Blend(Blend(a, c0, s), Blend(c0, c1, s), s), Blend(Blend(c0, c1, s), Blend(c1, b, s), s), s)
  {
  }

  /** The quadratic closed form is the de Casteljau curve of `[p0, c, p1]`. */
  lemma QuadraticMatchesDeCasteljau(s: real, p0: Vec3, p1: Vec3, c: Vec3)
    ensures SolveQuadraticBezier(s, p0, p1, c) == SolveBezier(s, 0, 2, [p0, c, p1])
  {
    var cs := [p0, c, p1];
    var left := SolveBezier(s, 0, 1, cs);
    var right := SolveBezier(s, 1, 2, cs);
    BlendCoords(p0, c, s);
    BlendCoords(c, p1, s);
    BlendCoords(left, right, s);
    QuadraticBlend(s, p0.x, p1.x, c.x);
    QuadraticBlend(s, p0.y, p1.y, c.y);
    QuadraticBlend(s, p0.z, p1.z, c.z);
  }

  /** The cubic closed form is the de Casteljau curve of `[p0, c0, c1, p1]`. */
  lemma CubicMatchesDeCasteljau(s: real, p0: Vec3, p1: Vec3, c0: Vec3, c1: Vec3)
    ensures SolveCubicBezier(s, p0, p1, c0, c1) == SolveBezier(s, 0, 3, [p0, c0, c1, p1])
  {
    var cs := [p0, c0, c1, p1];
    var d01 := SolveBezier(s, 0, 1, cs);
    var d12 := SolveBezier(s, 1, 2, cs);
    var d23 := SolveBezier(s, 2, 3, cs);
    BlendCoords(p0, c0, s);
    BlendCoords(c0, c1, s);
    BlendCoords(c1, p1, s);
    var e0 := SolveBezier(s, 0, 2, cs);
    var e1 := SolveBezier(s, 1, 3, cs);
    BlendCoords(d01, d12, s);
    BlendCoords(d12, d23, s);
    BlendCoords(e0, e1, s);
    CubicBlend(s, p0.x, p1.x, c0.x, c1.x);
    CubicBlend(s, p0.y, p1.y, c0.y, c1.y);
    CubicBlend(s, p0.z, p1.z, c0.z, c1.z);
  }

  // ---------------------------------------------------------------------
  // Properties of the generic evaluator and of the BEZIER sampling
  // ---------------------------------------------------------------------

  /** A curve whose control points all coincide is that single point for
      every parameter. */
  lemma {:induction false} ConstantBezier(t: real, start: nat, end: nat, controls: seq<Vec3>, p: Vec3)
    requires start <= end < |controls|
    requires forall i :: start <= i <= end ==> controls[i] == p
    ensures SolveBezier(t, start, end, controls) == p
    decreases end - start
  {
    if start < end {
      ConstantBezier(t, start, end - 1, controls, p);
      ConstantBezier(t, start + 1, end, controls, p);
      assert SolveBezier(t, start, end, controls) == Add(Scale(p, 1.0 - t), Scale(p, t));
      assert p.x * (1.0 - t) + p.x * t == p.x;
      assert p.y * (1.0 - t) + p.y * t == p.y;
      assert p.z * (1.0 - t) + p.z * t == p.z;
    }
  }

  /** A two-point curve is the straight segment between its control points. */
  lemma LinearBezier(t: real, a: Vec3, b: Vec3)
    ensures SolveBezier(t, 0, 1, [a, b]) == Lerp(a, b, t)
  {
  }

  /** Every BEZIER sample, the appended last point included, is the curve
      at parameter `i / 32`: the last control point is where the curve
      arrives at `t = 1`. */
  lemma BezierPointsOnCurve(ps: seq<Vec3>, i: nat)
    requires |ps| >= 1
    requires i <= BezierSamples
    ensures BezierPoints(ps)[i] == SolveBezier(i as real / BezierSamples as real, 0, |ps| - 1, ps)
  {
    if i == BezierSamples {
      assert i as real / BezierSamples as real == 1.0;
    } else {
      assert StepParameter(i, BezierSamples) == i as real / BezierSamples as real;
    }
  }

  // ---------------------------------------------------------------------
  // The recursion as written, without a precondition on its range
  // ---------------------------------------------------------------------

  /** What a call of the original evaluator can end in: a point, running out
      of call stack, or reading a control outside the list. */
  datatype Evaluation = Value(point: Vec3) | StackOverflow | IndexOutOfBounds

  /** The original evaluator on any integer range, with at most `depth`
      nested calls standing for the size of the call stack. Its only base
      case is `start == end`: a range with `start > end` keeps shrinking
      `end` and never reaches it. The left recursive call is made first and
      its failure ends the evaluation. */
  function SolveBezierAsWritten(t: real, start: int, end: int, controls: seq<Vec3>, depth: nat): (r: Evaluation)
    ensures r.Value? ==> start <= end
    decreases depth
  {
    if depth == 0 then StackOverflow
    else if start == end then
      if 0 <= start < |controls| then Value(controls[start]) else IndexOutOfBounds
    else
      var a := SolveBezierAsWritten(t, start, end - 1, controls, depth - 1);
      if !a.Value? then a
      else
        var b := SolveBezierAsWritten(t, start + 1, end, controls, depth - 1);
        if !b.Value? then b
        else Value(Add(Scale(a.point, 1.0 - t), Scale(b.point, t)))
  }

  /** An empty range (`start > end`) exhausts any call stack. */
  lemma {:induction false} EmptyRangeOverflows(t: real, start: int, end: int, controls: seq<Vec3>, depth: nat)
    requires start > end
    ensures SolveBezierAsWritten(t, start, end, controls, depth) == StackOverflow
    decreases depth
  {
    if depth > 0 {
      EmptyRangeOverflows(t, start, end - 1, controls, depth - 1);
    }
  }

  /** The BEZIER sampling of an empty list evaluates the range `0 .. −1`
      for its first sample, and that call overflows whatever the stack size. */
  lemma EmptyBezierOverflows(ps: seq<Vec3>, depth: nat)
    requires |ps| == 0
    ensures SolveBezierAsWritten(StepParameter(0, BezierSamples), 0, |ps| - 1, ps, depth) == StackOverflow
  {
    EmptyRangeOverflows(StepParameter(0, BezierSamples), 0, |ps| - 1, ps, depth);
  }

  /** On a non-empty range inside the list and with more stack than the
      range is long, the original evaluator returns `SolveBezier`. */
  lemma {:induction false} AsWrittenAgrees(t: real, start: nat, end: nat, controls: seq<Vec3>, depth: nat)
    requires start <= end < |controls|
    requires depth > end - start
    ensures SolveBezierAsWritten(t, start, end, controls, depth) == Value(SolveBezier(t, start, end, controls))
    decreases end - start
  {
    if start < end {
      AsWrittenAgrees(t, start, end - 1, controls, depth - 1);
      AsWrittenAgrees(t, start + 1, end, controls, depth - 1);
    }
  }

  /** A BEZIER polyline built from a single point is that point repeated. */
  lemma SinglePointBezier(p: Vec3)
    ensures BezierPoints([p]) == seq(BezierSamples + 1, _ => p)
  {
    var r := BezierPoints([p]);
    forall i | 0 <= i < BezierSamples
      ensures r[i] == p
    {
      ConstantBezier(StepParameter(i, BezierSamples), 0, 0, [p], p);
    }
  }
}
