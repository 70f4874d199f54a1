/**
  Three-dimensional points and vectors over exact reals, standing in for the
  mutable double-precision `Vec3d` of the original program. Every operation
  returns a fresh value, so the scratch-buffer aliasing of the original does
  not arise.
 */
module Vectors {

  datatype Vec3 = Vec3(x: real, y: real, z: real)

  /** The origin; also what `new Vec3d()` produces. */
  const Zero: Vec3 := Vec3(0.0, 0.0, 0.0)

  /** Component-wise sum (`add3`). */
  function Add(a: Vec3, b: Vec3): Vec3 {
    Vec3(a.x + b.x, a.y + b.y, a.z + b.z)
  }

  /** Component-wise difference (`sub3`). */
  function Sub(a: Vec3, b: Vec3): Vec3 {
    Vec3(a.x - b.x, a.y - b.y, a.z - b.z)
  }

  /** Multiplication of every component by `s` (`scale3`). */
  function Scale(v: Vec3, s: real): Vec3 {
    Vec3(v.x * s, v.y * s, v.z * s)
  }

  /** Linear interpolation `a·(1−f) + b·f` (`interpolate3`). */
  function Lerp(a: Vec3, b: Vec3, f: real): (r: Vec3)
    ensures f == 0.0 ==> r == a
    ensures f == 1.0 ==> r == b
  {
    Vec3((1.0 - f) * a.x + f * b.x, (1.0 - f) * a.y + f * b.y, (1.0 - f) * a.z + f * b.z)
  }

  /** A vector magnitude that could stand for `mag3`: the square root inside
      the Euclidean magnitude is not modelled, only the two facts the
      algorithms lean on — it is never negative, and it is zero exactly for the
      zero vector. */
  ghost predicate IsNorm(m: Vec3 -> real) {
    forall v {:trigger NormAt(m, v)} :: NormAt(m, v)
  }

  /** The two magnitude facts at one vector. */
  ghost predicate NormAt(m: Vec3 -> real, v: Vec3) {
    0.0 <= m(v) && (m(v) == 0.0 <==> v == Zero)
  }

  /** The magnitude facts at `v`, brought into a proof on demand. */
  lemma NormFacts(mag: Norm, v: Vec3)
    ensures 0.0 <= mag(v)
    ensures mag(v) == 0.0 <==> v == Zero
  {
    assert NormAt(mag, v);
  }

  /** The simplest magnitude with both properties; it only witnesses that
      `Norm` is inhabited. */
  function DiscreteNorm(v: Vec3): real {
    if v == Zero then 0.0 else 1.0
  }

  type Norm = m: Vec3 -> real | IsNorm(m) witness DiscreteNorm

  /** Two points are at distance zero under a norm exactly when they coincide. */
  lemma ZeroDifference(mag: Norm, a: Vec3, b: Vec3)
    ensures 0.0 <= mag(Sub(a, b))
    ensures mag(Sub(a, b)) == 0.0 <==> a == b
  {
    NormFacts(mag, Sub(a, b));
    if mag(Sub(a, b)) == 0.0 {
      assert Sub(a, b) == Zero;
      assert a.x == b.x && a.y == b.y && a.z == b.z;
    }
  }
}
