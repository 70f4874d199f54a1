/**
  A polyline as the renderer receives it: the points the user entered, the
  curve type that says how to draw between them, the sampled curve built
  from them once at construction, a colour and a line width.
 */
module Polyline {
  import opened Vectors
  import Bezier
  import Spline

  /** How the points are joined: straight segments, one Bezier curve with
      the points as its controls, or a spline through the points. */
  datatype CurveType = Linear | BezierCurve | SplineCurve

  /** An RGBA colour; it only takes part in equality. */
  datatype Color = Color(r: real, g: real, b: real, a: real)

  datatype PolylineInfo = PolylineInfo(
    points: seq<Vec3>,
    curveType: CurveType,
    curvePoints: seq<Vec3>,
    color: Color,
    width: int)

  /** What the curve builder needs of its input: a Bezier curve has at least
      one control point, and every spline tangent has a non-zero divisor. */
  predicate CurveDefined(mag: Norm, pts: seq<Vec3>, ct: CurveType) {
    && (ct.BezierCurve? ==> |pts| >= 1)
    && (ct.SplineCurve? ==> Spline.TangentsDefined(mag, pts))
  }

  /** The sampled curve for each curve type. */
  function CurvePoints(mag: Norm, pts: seq<Vec3>, ct: CurveType): (r: seq<Vec3>)
    requires CurveDefined(mag, pts, ct)
    ensures ct.Linear? ==> r == pts
    ensures ct.BezierCurve? ==>
              && |r| == Bezier.BezierSamples + 1
              && r[0] == pts[0]
              && r[|r| - 1] == pts[|pts| - 1]
    ensures ct.SplineCurve? && |pts| <= 2 ==> r == pts
    ensures ct.SplineCurve? && |pts| >= 3 ==>
              && |r| == Spline.SplineSegments * (|pts| - 1) + 1
              && r[0] == pts[0]
              && r[|r| - 1] == pts[|pts| - 1]
  {
    match ct
    case Linear => pts
    case BezierCurve => Bezier.BezierPoints(pts)
    case SplineCurve => Spline.SplinePoints(mag, pts)
  }

  /** A polyline whose curve was built from its own points and curve type. */
  predicate WellFormed(mag: Norm, p: PolylineInfo) {
    && CurveDefined(mag, p.points, p.curveType)
    && p.curvePoints == CurvePoints(mag, p.points, p.curveType)
  }

  /** The constructor: keeps the points, curve type, colour and width as
      given and builds the curve once. */
  function NewPolyline(mag: Norm, pts: seq<Vec3>, ct: CurveType, col: Color, w: int): (p: PolylineInfo)
    requires CurveDefined(mag, pts, ct)
    ensures WellFormed(mag, p)
    ensures p.points == pts && p.curveType == ct && p.color == col && p.width == w
  {
    PolylineInfo(pts, ct, CurvePoints(mag, pts, ct), col, w)
  }

  /** `equals`: points, curve type, colour and width agree; the sampled
      curve is not compared, so two polylines are equal exactly when they
      differ in their curve points at most. */
  function Equals(a: PolylineInfo, b: PolylineInfo): (r: bool)
    ensures r <==> a.(curvePoints := b.curvePoints) == b
  {
    && a.points == b.points
    && a.curveType == b.curveType
    && a.color == b.color
    && a.width == b.width
  }

  /** Between polylines built by the constructor, `equals` is exactly value
      equality: the one field it skips is determined by the others. */
  lemma EqualsIsEquality(mag: Norm, a: PolylineInfo, b: PolylineInfo)
    requires WellFormed(mag, a) && WellFormed(mag, b)
    ensures Equals(a, b) <==> a == b
  {
  }

  /** Replacing the sampled curve does not change what a polyline equals. */
  lemma EqualsIgnoresCurve(a: PolylineInfo, c: seq<Vec3>)
    ensures Equals(a, a.(curvePoints := c))
    ensures a.curvePoints != c ==> a != a.(curvePoints := c)
  {
  }

  /** `equals` is an equivalence. */
  lemma EqualsEquivalence(a: PolylineInfo, b: PolylineInfo, c: PolylineInfo)
    ensures Equals(a, a)
    ensures Equals(a, b) ==> Equals(b, a)
    ensures Equals(a, b) && Equals(b, c) ==> Equals(a, c)
  {
  }

  /** Two polylines built from the same input are equal whatever magnitude
      the spline used. */
  lemma ConstructorEquals(mag1: Norm, mag2: Norm, pts: seq<Vec3>, ct: CurveType, col: Color, w: int)
    requires CurveDefined(mag1, pts, ct) && CurveDefined(mag2, pts, ct)
    ensures Equals(NewPolyline(mag1, pts, ct, col, w), NewPolyline(mag2, pts, ct, col, w))
  {
  }
}
