/**
  The arc-length index: cumulative lengths along a point sequence, the
  position at a fraction of the total length, and the sub-polyline between
  two such fractions. Lengths are searched with the binary search of the
  Java collections library, modelled here as a verified method.
 */
module ArcLength {
  import opened Vectors

  /** Outcome of an operation that can fail. */
  datatype Result<T> = Success(value: T) | Failure(error: Error)

  /** The one error the arc-length operations raise: the start of a
      sub-polyline lies before the first point ("Unable to find position in
      polyline using binary search."). */
  datatype Error = PositionNotFound

  predicate Sorted(a: seq<real>) {
    forall i, j :: 0 <= i <= j < |a| ==> a[i] <= a[j]
  }

  // ---------------------------------------------------------------------
  // Binary search
  // ---------------------------------------------------------------------

  /** What a binary search for `key` in `a` may answer: a non-negative `k`
      names an entry equal to `key`; a negative `k` encodes the insertion
      point `−k − 1`, before which every entry is smaller than `key` and from
      which on every entry is larger. */
  predicate SearchResult(a: seq<real>, key: real, k: int) {
    && (0 <= k ==> k < |a| && a[k] == key)
    && (k < 0 ==> 0 <= -k - 1 <= |a|)
    && (k < 0 ==> forall j :: 0 <= j < -k - 1 ==> a[j] < key)
    && (k < 0 ==> forall j :: -k - 1 <= j < |a| ==> a[j] > key)
  }

  /** `Arrays.binarySearch` over a sorted sequence: an index holding `key`
      when there is one (which one, among equal entries, is left open), and
      otherwise `−(ip) − 1` for the insertion point `ip`, the first index
      whose entry exceeds `key`. */
  method BinarySearch(a: seq<real>, key: real) returns (k: int)
    requires Sorted(a)
    ensures SearchResult(a, key, k)
    ensures k < 0 <==> forall j :: 0 <= j < |a| ==> a[j] != key
  {
    var low := 0;
    var high := |a| - 1;
    while low <= high
      invariant 0 <= low <= high + 1 <= |a|
      invariant forall j :: 0 <= j < low ==> a[j] < key
      invariant forall j :: high < j < |a| ==> a[j] > key
      decreases high - low
    {
      var mid := (low + high) / 2;
      if a[mid] < key {
        low := mid + 1;
      } else if a[mid] > key {
        high := mid - 1;
      } else {
        return mid;
      }
    }
    return -(low + 1);
  }

  // ---------------------------------------------------------------------
  // Lengths along a polyline
  // ---------------------------------------------------------------------

  /** Length of the segment arriving at point `i`. */
  function SegmentLength(mag: Norm, pts: seq<Vec3>, i: nat): real
    requires 0 < i < |pts|
  {
    mag(Sub(pts[i], pts[i - 1]))
  }

  /** Distance travelled along the polyline from its first point to point
      `i`: the sum of the first `i` segment lengths. */
  function PathLength(mag: Norm, pts: seq<Vec3>, i: nat): (r: real)
    requires i < |pts|
    ensures 0.0 <= r
  {
    if i == 0 then 0.0
    else
      NormFacts(mag, Sub(pts[i], pts[i - 1]));
      PathLength(mag, pts, i - 1) + SegmentLength(mag, pts, i)
  }

  function TotalLength(mag: Norm, pts: seq<Vec3>): real
    requires |pts| >= 1
  {
    PathLength(mag, pts, |pts| - 1)
  }

  /** The table of path lengths, one per point. */
  function Lengths(mag: Norm, pts: seq<Vec3>): (L: seq<real>)
    ensures |L| == |pts|
    ensures forall i :: 0 <= i < |pts| ==> L[i] == PathLength(mag, pts, i)
  {
    LengthsUpTo(mag, pts, |pts|)
  }

  /** The path lengths of the first `n` points. */
  function LengthsUpTo(mag: Norm, pts: seq<Vec3>, n: nat): (L: seq<real>)
    requires n <= |pts|
    ensures |L| == n
    ensures forall i :: 0 <= i < n ==> L[i] == PathLength(mag, pts, i)
  {
    if n == 0 then [] else LengthsUpTo(mag, pts, n - 1) + [PathLength(mag, pts, n - 1)]
  }

  /** No two consecutive points coincide, so every segment has positive
      length and no interpolation divides by zero. */
  predicate NoZeroSegments(mag: Norm, pts: seq<Vec3>) {
    forall i :: 0 < i < |pts| ==> SegmentLength(mag, pts, i) != 0.0
  }

  lemma {:induction false} PathLengthMonotone(mag: Norm, pts: seq<Vec3>, i: nat, j: nat)
    requires i <= j < |pts|
    ensures 0.0 <= PathLength(mag, pts, i) <= PathLength(mag, pts, j)
    decreases j
  {
    if i < j {
      PathLengthMonotone(mag, pts, i, j - 1);
      NormFacts(mag, Sub(pts[j], pts[j - 1]));
    } else if i > 0 {
      PathLengthMonotone(mag, pts, i - 1, i - 1);
      NormFacts(mag, Sub(pts[i], pts[i - 1]));
    }
  }

  lemma LengthsSorted(mag: Norm, pts: seq<Vec3>)
    ensures Sorted(Lengths(mag, pts))
  {
    forall i, j | 0 <= i <= j < |pts|
      ensures PathLength(mag, pts, i) <= PathLength(mag, pts, j)
    {
      PathLengthMonotone(mag, pts, i, j);
    }
  }

  /** Without zero-length segments the path lengths strictly increase. */
  lemma {:induction false} PathLengthStrict(mag: Norm, pts: seq<Vec3>, i: nat, j: nat)
    requires NoZeroSegments(mag, pts)
    requires i < j < |pts|
    ensures PathLength(mag, pts, i) < PathLength(mag, pts, j)
    decreases j
  {
    assert SegmentLength(mag, pts, j) != 0.0;
    NormFacts(mag, Sub(pts[j], pts[j - 1]));
    if i < j - 1 {
      PathLengthStrict(mag, pts, i, j - 1);
    }
  }

  /** Points at equal path length are the same point: every segment between
      them has length zero. */
  lemma {:induction false} EqualLengthsEqualPoints(mag: Norm, pts: seq<Vec3>, i: nat, j: nat)
    requires i <= j < |pts|
    requires PathLength(mag, pts, i) == PathLength(mag, pts, j)
    ensures pts[i] == pts[j]
    decreases j
  {
    if i < j {
      PathLengthMonotone(mag, pts, i, j - 1);
      NormFacts(mag, Sub(pts[j], pts[j - 1]));
      assert SegmentLength(mag, pts, j) == 0.0;
      ZeroDifference(mag, pts[j], pts[j - 1]);
      EqualLengthsEqualPoints(mag, pts, i, j - 1);
    }
  }

  /** `getCumulativeLengths`: entry 0 is zero and every later entry adds the
      length of the segment arriving at that point. */
  method CumulativeLengths(mag: Norm, pts: seq<Vec3>) returns (lengths: seq<real>)
    requires |pts| >= 1
    ensures |lengths| == |pts|
    ensures lengths[0] == 0.0
    ensures lengths == Lengths(mag, pts)
  {
    lengths := [0.0];
    var i := 1;
    while i < |pts|
      invariant 1 <= i <= |pts|
      invariant |lengths| == i
      invariant forall j :: 0 <= j < i ==> lengths[j] == PathLength(mag, pts, j)
    {
      var next := lengths[i - 1] + mag(Sub(pts[i], pts[i - 1]));
      assert next == PathLength(mag, pts, i);
      lengths := lengths + [next];
      i := i + 1;
    }
  }

  /** The binary search for a distance in the table of path lengths; the
      table is sorted (`LengthsSorted`). */
  method SearchLengths(mag: Norm, pts: seq<Vec3>, lengths: seq<real>, d: real) returns (k: int)
    requires lengths == Lengths(mag, pts)
    ensures SearchResult(lengths, d, k)
  {
    LengthsSorted(mag, pts);
    k := BinarySearch(lengths, d);
  }

  // ---------------------------------------------------------------------
  // Linear scans used by the reference definitions
  // ---------------------------------------------------------------------

  /** The first index at or after `from` whose entry is at least `d`, or
      `|L|` when there is none. */
  function FirstAtLeast(L: seq<real>, d: real, from: nat): (j: nat)
    requires from <= |L|
    ensures from <= j <= |L|
    ensures forall i :: from <= i < j ==> L[i] < d
    ensures j < |L| ==> L[j] >= d
    decreases |L| - from
  {
    if from == |L| || L[from] >= d then from else FirstAtLeast(L, d, from + 1)
  }

  /** The first index at or after `from` whose entry exceeds `d`, or `|L|`
      when there is none. */
  function FirstAbove(L: seq<real>, d: real, from: nat): (j: nat)
    requires from <= |L|
    ensures from <= j <= |L|
    ensures forall i :: from <= i < j ==> L[i] <= d
    ensures j < |L| ==> L[j] > d
    decreases |L| - from
  {
    if from == |L| || L[from] > d then from else FirstAbove(L, d, from + 1)
  }

  lemma FirstAtLeastUnique(L: seq<real>, d: real, from: nat, j: nat)
    requires from <= j <= |L|
    requires forall i :: from <= i < j ==> L[i] < d
    requires j < |L| ==> L[j] >= d
    ensures FirstAtLeast(L, d, from) == j
  {
  }

  lemma FirstAboveUnique(L: seq<real>, d: real, from: nat, j: nat)
    requires from <= j <= |L|
    requires forall i :: from <= i < j ==> L[i] <= d
    requires j < |L| ==> L[j] > d
    ensures FirstAbove(L, d, from) == j
  {
  }

  // ---------------------------------------------------------------------
  // Position at a distance: reference definition
  // ---------------------------------------------------------------------

  /** Where `d` falls within the segment ending at `idx`, as a fraction of
      that segment's length. */
  function Fraction(L: seq<real>, idx: nat, d: real): (f: real)
    requires 0 < idx < |L|
    requires L[idx - 1] < L[idx]
    ensures L[idx - 1] + f * (L[idx] - L[idx - 1]) == d
  {
    (d - L[idx - 1]) / (L[idx] - L[idx - 1])
  }

  /** Strictly inside a segment the interpolation fraction is strictly
      between 0 and 1; at the segment's end it is exactly 1. */
  lemma FractionBounds(L: seq<real>, idx: nat, d: real)
    requires 0 < idx < |L|
    requires L[idx - 1] < L[idx]
    ensures L[idx - 1] < d < L[idx] ==> 0.0 < Fraction(L, idx, d) < 1.0
    ensures d == L[idx] ==> Fraction(L, idx, d) == 1.0
  {
    QuotientBounds(d - L[idx - 1], L[idx] - L[idx - 1]);
  }

  lemma QuotientBounds(num: real, den: real)
    requires den > 0.0
    ensures 0.0 < num < den ==> 0.0 < num / den < 1.0
    ensures num == den ==> num / den == 1.0
  {
    var q := num / den;
    assert q * den == num;
    if 0.0 < num < den {
      assert 0.0 < q by {
        assert q <= 0.0 ==> q * den <= 0.0;
      }
      assert q < 1.0 by {
        assert q >= 1.0 ==> q * den >= den;
      }
    }
  }

  /** The point at path length `d`, defined by a linear scan: the origin
      before the start, the last point past the end, a point of the polyline
      where a path length equals `d`, and otherwise the interpolation within
      the segment that contains `d`. */
  function PointAt(mag: Norm, pts: seq<Vec3>, d: real): (r: Vec3)
    requires |pts| >= 1
    ensures d < 0.0 ==> r == Zero
    ensures d > TotalLength(mag, pts) ==> r == pts[|pts| - 1]
  {
    PathLengthMonotone(mag, pts, 0, |pts| - 1);
    var L := Lengths(mag, pts);
    if d < 0.0 then Zero
    else if d > L[|L| - 1] then pts[|pts| - 1]
    else
      var j := FirstAtLeast(L, d, 0);
      if L[j] == d then pts[j]
      else Lerp(pts[j - 1], pts[j], Fraction(L, j, d))
  }

  /** A distance met exactly at point `k` yields that point, whichever of
      several points at that distance is named. */
  lemma PointAtExact(mag: Norm, pts: seq<Vec3>, d: real, k: nat)
    requires k < |pts|
    requires PathLength(mag, pts, k) == d
    ensures PointAt(mag, pts, d) == pts[k]
  {
    var L := Lengths(mag, pts);
    PathLengthMonotone(mag, pts, 0, k);
    PathLengthMonotone(mag, pts, k, |pts| - 1);
    var j := FirstAtLeast(L, d, 0);
    assert L[k] == d;
    assert j <= k;
    PathLengthMonotone(mag, pts, j, k);
    assert L[j] == d;
    EqualLengthsEqualPoints(mag, pts, j, k);
  }

  /** A distance strictly inside the segment ending at `idx` yields the
      interpolation within that segment, at a fraction strictly between 0
      and 1. */
  lemma PointAtInterpolates(mag: Norm, pts: seq<Vec3>, d: real, idx: nat)
    requires 0 < idx < |pts|
    requires PathLength(mag, pts, idx - 1) < d < PathLength(mag, pts, idx)
    ensures var L := Lengths(mag, pts);
            && PointAt(mag, pts, d) == Lerp(pts[idx - 1], pts[idx], Fraction(L, idx, d))
            && 0.0 < Fraction(L, idx, d) < 1.0
  {
    var L := Lengths(mag, pts);
    forall i | 0 <= i < idx
      ensures L[i] < d
    {
      PathLengthMonotone(mag, pts, i, idx - 1);
    }
    PathLengthMonotone(mag, pts, 0, idx - 1);
    PathLengthMonotone(mag, pts, idx, |pts| - 1);
    FirstAtLeastUnique(L, d, 0, idx);
    FractionBounds(L, idx, d);
  }

  /** Fraction 0 is the first point and fraction 1 the last. */
  lemma PointAtEnds(mag: Norm, pts: seq<Vec3>)
    requires |pts| >= 1
    ensures PointAt(mag, pts, 0.0 * TotalLength(mag, pts)) == pts[0]
    ensures PointAt(mag, pts, 1.0 * TotalLength(mag, pts)) == pts[|pts| - 1]
  {
    PointAtExact(mag, pts, 0.0, 0);
    PointAtExact(mag, pts, TotalLength(mag, pts), |pts| - 1);
  }

  // ---------------------------------------------------------------------
  // getPositionOnPolyline
  // ---------------------------------------------------------------------

  /** `getPositionOnPolyline`: the point at fraction `frac` of the total
      length, located by binary search over the cumulative lengths. */
  method PositionOnPolyline(mag: Norm, pts: seq<Vec3>, frac: real) returns (r: Vec3)
    requires |pts| >= 1
    ensures r == PointAt(mag, pts, frac * TotalLength(mag, pts))
  {
    var lengths := CumulativeLengths(mag, pts);
    var dist := frac * lengths[|lengths| - 1];
    assert dist == frac * TotalLength(mag, pts);
    var k := SearchLengths(mag, pts, lengths, dist);

    // Exact match
    if k >= 0 {
      PointAtExact(mag, pts, dist, k);
      return pts[k];
    }

    // The distance lies before the first point
    if k == -1 {
      assert lengths[0] > dist;
      return Zero;
    }

    var index := -k - 1;
    if index == |lengths| {
      assert lengths[index - 1] < dist;
      return pts[index - 1];
    }
    assert lengths[index - 1] < dist < lengths[index];
    var fracInSegment := (dist - lengths[index - 1]) / (lengths[index] - lengths[index - 1]);
    PointAtInterpolates(mag, pts, dist, index);
    r := Lerp(pts[index - 1], pts[index], fracInSegment);
  }

  // ---------------------------------------------------------------------
  // getSubPolyline
  // ---------------------------------------------------------------------

  /** What `getSubPolyline` yields for the distances `d0` and `d1` along the
      polyline: a failure when `d0` lies before the first point, and
      otherwise the sub-polyline between the two distances. */
  function SubPolylineAt(mag: Norm, pts: seq<Vec3>, d0: real, d1: real): Result<seq<Vec3>>
    requires |pts| >= 1
    requires NoZeroSegments(mag, pts)
  {
    if d0 < 0.0 then Failure(PositionNotFound) else Success(SubPolylineSpec(mag, pts, d0, d1))
  }

  /** The sub-polyline from path length `d0` to `d1`, defined by linear
      scans: the point at `d0`, then the rest starting from the first
      original point lying strictly beyond `d0`. */
  function SubPolylineSpec(mag: Norm, pts: seq<Vec3>, d0: real, d1: real): seq<Vec3>
    requires |pts| >= 1
    requires NoZeroSegments(mag, pts)
    requires d0 >= 0.0
  {
    var L := Lengths(mag, pts);
    var s := FirstAbove(L, d0, 0);
    assert s >= 1 by { assert L[0] == 0.0; }
    [PointAt(mag, pts, d0)] + Tail(mag, pts, s, d1)
  }

  /** The part of a sub-polyline after its first node, when the original
      points considered start at index `s`: every one whose path length is
      below `d1`, then the interpolated end point unless the original points
      ran out first. */
  function Tail(mag: Norm, pts: seq<Vec3>, s: nat, d1: real): (r: seq<Vec3>)
    requires 0 < s <= |pts|
    requires NoZeroSegments(mag, pts)
    ensures s == |pts| ==> r == []
  {
    var L := Lengths(mag, pts);
    pts[s..FirstAtLeast(L, d1, s)] + EndNode(mag, pts, s, d1)
  }

  /** The interpolated end point of a sub-polyline whose interior points
      start at index `s`, or nothing when the end distance `d1` is not met
      before the last point. */
  function EndNode(mag: Norm, pts: seq<Vec3>, s: nat, d1: real): (r: seq<Vec3>)
    requires 0 < s <= |pts|
    requires NoZeroSegments(mag, pts)
    ensures var e := FirstAtLeast(Lengths(mag, pts), d1, s);
            |r| == (if e == |pts| then 0 else 1)
  {
    var L := Lengths(mag, pts);
    var e := FirstAtLeast(L, d1, s);
    if e == |L| then []
    else
      PathLengthStrict(mag, pts, e - 1, e);
      [Lerp(pts[e - 1], pts[e], Fraction(L, e, d1))]
  }

  /** `getSubPolyline`: the sub-polyline between fractions `frac0` and
      `frac1` of the total length; fails when the start lies before the
      first point. */
  method SubPolyline(mag: Norm, pts: seq<Vec3>, frac0: real, frac1: real) returns (r: Result<seq<Vec3>>)
    requires |pts| >= 1
    requires NoZeroSegments(mag, pts)
    ensures r == SubPolylineAt(mag, pts, frac0 * TotalLength(mag, pts), frac1 * TotalLength(mag, pts))
  {
    var lengths := CumulativeLengths(mag, pts);
    var totalLength := lengths[|lengths| - 1];
    LastLengthIsTotal(mag, pts, lengths);
    var dist0 := frac0 * totalLength;
    var dist1 := frac1 * totalLength;
    assert dist0 == frac0 * TotalLength(mag, pts) && dist1 == frac1 * TotalLength(mag, pts);
    r := SubPolylineBetween(mag, pts, lengths, dist0, dist1);
  }

  /** The body of `getSubPolyline` once the fractions are turned into
      distances `dist0` and `dist1` along the polyline. */
  method SubPolylineBetween(mag: Norm, pts: seq<Vec3>, lengths: seq<real>, dist0: real, dist1: real)
    returns (r: Result<seq<Vec3>>)
    requires |pts| >= 1
    requires NoZeroSegments(mag, pts)
    requires lengths == Lengths(mag, pts)
    ensures r == SubPolylineAt(mag, pts, dist0, dist1)
  {
    var k := SearchLengths(mag, pts, lengths, dist0);
    if k == -1 {
      assert lengths[0] > dist0;
      return Failure(PositionNotFound);
    }
    assert dist0 >= 0.0 by {
      if k >= 0 {
        PathLengthMonotone(mag, pts, 0, k);
      } else {
        assert lengths[0] < dist0;
      }
    }

    // The first node
    var vec, index := StartNode(mag, pts, lengths, dist0, k);
    if k >= 0 && index == |lengths| {
      assert [vec] + Tail(mag, pts, index, dist1) == [vec];
      return Success([vec]);
    }

    // The original points before the end distance, and the last node
    var rest := RemainingNodes(mag, pts, lengths, dist1, index);
    return Success([vec] + rest);
  }

  /** The last entry of the length table is the total length. */
  lemma LastLengthIsTotal(mag: Norm, pts: seq<Vec3>, lengths: seq<real>)
    requires |pts| >= 1
    requires lengths == Lengths(mag, pts)
    ensures lengths[|lengths| - 1] == TotalLength(mag, pts)
  {
  }

  /** The first node of a sub-polyline from the answer `k` of the binary
      search for its start distance: the point met exactly, or the
      interpolation inside the segment holding the distance, or the last
      point when the distance lies beyond it; `index` is the first point
      lying strictly beyond the start distance. */
  method StartNode(mag: Norm, pts: seq<Vec3>, lengths: seq<real>, dist0: real, k: int)
    returns (vec: Vec3, index: nat)
    requires |pts| >= 1
    requires NoZeroSegments(mag, pts)
    requires lengths == Lengths(mag, pts)
    requires SearchResult(lengths, dist0, k) && k != -1
    ensures vec == PointAt(mag, pts, dist0)
    ensures index == FirstAbove(lengths, dist0, 0)
    ensures k >= 0 ==> index == k + 1
  {
    var n := |lengths|;
    LengthsSorted(mag, pts);
    if k >= 0 {
      PointAtExact(mag, pts, dist0, k);
      vec := pts[k];
      index := k + 1;
      forall i | k < i < n
        ensures lengths[i] > dist0
      {
        PathLengthStrict(mag, pts, k, i);
      }
      FirstAboveUnique(lengths, dist0, 0, index);
    } else {
      index := -k - 1;
      FirstAboveUnique(lengths, dist0, 0, index);
      if index == n {
        vec := pts[index - 1];
      } else {
        var fracInSegment := (dist0 - lengths[index - 1]) / (lengths[index] - lengths[index - 1]);
        PointAtInterpolates(mag, pts, dist0, index);
        vec := Lerp(pts[index - 1], pts[index], fracInSegment);
      }
    }
  }

  /** The rest of a sub-polyline after its first node: the original points
      from `index` on whose path length is below `dist1`, then the end node. */
  method RemainingNodes(mag: Norm, pts: seq<Vec3>, lengths: seq<real>, dist1: real, index: nat)
    returns (rest: seq<Vec3>)
    requires 0 < index <= |pts|
    requires NoZeroSegments(mag, pts)
    requires lengths == Lengths(mag, pts)
    ensures rest == Tail(mag, pts, index, dist1)
  {
    var i;
    rest, i := InteriorNodes(pts, lengths, dist1, index);
    if i == |lengths| {
      return rest;
    }

    // The last node
    PathLengthStrict(mag, pts, i - 1, i);
    var fracInSegment := (dist1 - lengths[i - 1]) / (lengths[i] - lengths[i - 1]);
    rest := rest + [Lerp(pts[i - 1], pts[i], fracInSegment)];
  }

  /** The original points from `index` on, up to but excluding the first
      whose path length reaches `dist1`; `i` is that first index, or the
      number of points when there is none. */
  method InteriorNodes(pts: seq<Vec3>, lengths: seq<real>, dist1: real, index: nat)
    returns (rest: seq<Vec3>, i: nat)
    requires index <= |pts| == |lengths|
    ensures i == FirstAtLeast(lengths, dist1, index)
    ensures rest == pts[index..i]
  {
    var n := |lengths|;
    i := index;
    rest := [];
    while i < n && lengths[i] < dist1
      invariant index <= i <= n
      invariant rest == pts[index..i]
      invariant forall j :: index <= j < i ==> lengths[j] < dist1
      decreases n - i
    {
      rest := rest + [pts[i]];
      i := i + 1;
    }
    FirstAtLeastUnique(lengths, dist1, index, i);
  }

  /** With fractions 0 and 1 the sub-polyline is the whole polyline. */
  lemma SubPolylineWhole(mag: Norm, pts: seq<Vec3>)
    requires |pts| >= 1
    requires NoZeroSegments(mag, pts)
    ensures SubPolylineSpec(mag, pts, 0.0 * TotalLength(mag, pts), 1.0 * TotalLength(mag, pts)) == pts
  {
    var n := |pts|;
    var L := Lengths(mag, pts);
    PointAtEnds(mag, pts);
    forall i | 0 < i < n
      ensures L[i] > 0.0
    {
      PathLengthStrict(mag, pts, 0, i);
    }
    FirstAboveUnique(L, 0.0, 0, 1);
    if n > 1 {
      TailToEnd(mag, pts);
      assert pts == [pts[0]] + pts[1..];
    }
  }

  /** Past the first point, the rest of a sub-polyline that runs to the
      total length is every remaining point. */
  lemma TailToEnd(mag: Norm, pts: seq<Vec3>)
    requires |pts| >= 2
    requires NoZeroSegments(mag, pts)
    ensures Tail(mag, pts, 1, 1.0 * TotalLength(mag, pts)) == pts[1..]
  {
    var n := |pts|;
    var L := Lengths(mag, pts);
    var total := TotalLength(mag, pts);
    forall i: nat | i < n - 1
      ensures L[i] < total
    {
      PathLengthStrict(mag, pts, i, n - 1);
    }
    FirstAtLeastUnique(L, total, 1, n - 1);
    PathLengthStrict(mag, pts, n - 2, n - 1);
    FractionBounds(L, n - 1, total);
    assert EndNode(mag, pts, 1, total) == [pts[n - 1]];
    assert pts[1..] == pts[1..n - 1] + [pts[n - 1]];
  }

  /** When the end distance lies beyond the start distance and within the
      polyline, the sub-polyline ends at the point at the end distance. */
  lemma SubPolylineEndsAtEndPoint(mag: Norm, pts: seq<Vec3>, d0: real, d1: real)
    requires |pts| >= 1
    requires NoZeroSegments(mag, pts)
    requires 0.0 <= d0 < d1 <= TotalLength(mag, pts)
    ensures var r := SubPolylineSpec(mag, pts, d0, d1);
            r[0] == PointAt(mag, pts, d0) && r[|r| - 1] == PointAt(mag, pts, d1)
  {
    var L := Lengths(mag, pts);
    var n := |pts|;
    var s := FirstAbove(L, d0, 0);
    var e := FirstAtLeast(L, d1, s);
    LengthsSorted(mag, pts);
    // Every index before `s` has length at most d0 < d1, so `e` is the first
    // index at all whose length reaches d1.
    FirstAtLeastUnique(L, d1, 0, e);
    assert e < n by {
      assert L[n - 1] == TotalLength(mag, pts);
    }
    assert s >= 1 by { assert L[0] == 0.0; }
    PathLengthStrict(mag, pts, e - 1, e);
    FractionBounds(L, e, d1);
    if L[e] == d1 {
      PointAtExact(mag, pts, d1, e);
    } else {
      PointAtInterpolates(mag, pts, d1, e);
    }
  }

  // ---------------------------------------------------------------------
  // Worked examples on a straight line along the x axis
  // ---------------------------------------------------------------------

  /** Points `0`, `a` and `2a` along the x axis. */
  function XLine(a: real): seq<Vec3> {
    [Vec3(0.0, 0.0, 0.0), Vec3(a, 0.0, 0.0), Vec3(2.0 * a, 0.0, 0.0)]
  }

  /** The norm measures a step of `a > 0` along the x axis as `a`, as the
      Euclidean magnitude does. */
  predicate MeasuresX(mag: Norm, a: real) {
    a > 0.0 && mag(Vec3(a, 0.0, 0.0)) == a
  }

  lemma XLineLengths(mag: Norm, a: real)
    requires MeasuresX(mag, a)
    ensures NoZeroSegments(mag, XLine(a))
    ensures Lengths(mag, XLine(a)) == [0.0, a, 2.0 * a]
  {
    var pts := XLine(a);
    assert Sub(pts[1], pts[0]) == Vec3(a, 0.0, 0.0);
    assert Sub(pts[2], pts[1]) == Vec3(a, 0.0, 0.0);
    assert PathLength(mag, pts, 1) == a;
    assert PathLength(mag, pts, 2) == 2.0 * a;
  }

  /** The fraction within a segment whose end lengths are known. */
  lemma FractionBetween(L: seq<real>, idx: nat, d: real, lo: real, hi: real)
    requires 0 < idx < |L|
    requires L[idx - 1] == lo < hi == L[idx]
    ensures Fraction(L, idx, d) == (d - lo) / (hi - lo)
  {
  }

  lemma HalfOf(a: real)
    requires a > 0.0
    ensures (0.5 * a) / a == 0.5
  {
  }

  /** Half way along the first of the two segments is its midpoint. */
  lemma HalfwayAlongSegment(mag: Norm, a: real)
    requires MeasuresX(mag, a)
    ensures PointAt(mag, XLine(a), 0.25 * TotalLength(mag, XLine(a))) == Vec3(0.5 * a, 0.0, 0.0)
  {
    XLineLengths(mag, a);
    var L := Lengths(mag, XLine(a));
    assert TotalLength(mag, XLine(a)) == L[2];
    FractionBetween(L, 1, 0.5 * a, 0.0, a);
    HalfOf(a);
    PointAtInterpolates(mag, XLine(a), 0.5 * a, 1);
  }

  /** The middle half of two equal segments in a row runs from the middle of
      the first segment, through the shared point, to the middle of the
      second. */
  lemma MiddleHalfOfTwoSegments(mag: Norm, a: real)
    requires MeasuresX(mag, a)
    ensures NoZeroSegments(mag, XLine(a))
    ensures SubPolylineAt(mag, XLine(a), 0.25 * TotalLength(mag, XLine(a)), 0.75 * TotalLength(mag, XLine(a)))
            == Success([Vec3(0.5 * a, 0.0, 0.0), Vec3(a, 0.0, 0.0), Vec3(1.5 * a, 0.0, 0.0)])
  {
    var pts := XLine(a);
    XLineLengths(mag, a);
    var L := Lengths(mag, pts);
    var d0 := 0.25 * TotalLength(mag, pts);
    var d1 := 0.75 * TotalLength(mag, pts);
    assert TotalLength(mag, pts) == L[2];
    assert d0 == 0.5 * a && d1 == 1.5 * a;
    FirstAboveUnique(L, d0, 0, 1);
    FirstAtLeastUnique(L, d1, 1, 2);
    HalfOf(a);
    FractionBetween(L, 2, d1, a, 2.0 * a);
    assert Fraction(L, 2, d1) == 0.5;
    HalfwayAlongSegment(mag, a);
    assert EndNode(mag, pts, 1, d1) == [Vec3(1.5 * a, 0.0, 0.0)];
    assert Tail(mag, pts, 1, d1) == [Vec3(a, 0.0, 0.0), Vec3(1.5 * a, 0.0, 0.0)];
    assert PointAt(mag, pts, d0) == Vec3(0.5 * a, 0.0, 0.0);
    assert SubPolylineSpec(mag, pts, d0, d1) == [Vec3(0.5 * a, 0.0, 0.0)] + Tail(mag, pts, 1, d1);
    assert SubPolylineSpec(mag, pts, d0, d1) == [Vec3(0.5 * a, 0.0, 0.0), Vec3(a, 0.0, 0.0), Vec3(1.5 * a, 0.0, 0.0)];
    assert d0 >= 0.0;
    assert SubPolylineAt(mag, pts, d0, d1) == Success(SubPolylineSpec(mag, pts, d0, d1));
  }
}
