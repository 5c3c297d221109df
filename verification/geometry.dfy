/** Three-component vectors over the reals, rays, and the two numeric
    primitives (square root and normalisation) the tracer takes from the
    floating-point library.  Single-precision floats are modelled as `real`:
    rounding, NaN and infinities are outside this model. */
module Geometry {

  /** The conventional Some/None wrapper used for "no intersection". */
  datatype Option<+T> = None | Some(value: T)

  datatype Vec3 = Vec3(x: real, y: real, z: real)

  const Zero: Vec3 := Vec3(0.0, 0.0, 0.0)

  function Add(a: Vec3, b: Vec3): (r: Vec3)
    ensures Sub(r, b) == a
  {
    Vec3(a.x + b.x, a.y + b.y, a.z + b.z)
  }

  function Sub(a: Vec3, b: Vec3): Vec3 {
    Vec3(a.x - b.x, a.y - b.y, a.z - b.z)
  }

  /** Scalar multiplication, `v * k` in the source. */
  function Scale(v: Vec3, k: real): Vec3 {
    Vec3(v.x * k, v.y * k, v.z * k)
  }

  /** Dot product, `a * b` between two vectors in the source. */
  function Dot(a: Vec3, b: Vec3): real {
    a.x * b.x + a.y * b.y + a.z * b.z
  }

  /** The squared length of a vector. */
  function SqNorm(v: Vec3): (r: real)
    ensures r >= 0.0
  {
    Dot(v, v)
  }

  /** The i-th component, `v[i]` in the source. */
  function Component(v: Vec3, i: nat): real
    requires i < 3
  {
    if i == 0 then v.x else if i == 1 then v.y else v.z
  }

  /** A ray: an origin and a (conventionally unit) direction. */
  datatype Ray = Ray(orig: Vec3, dir: Vec3)

  /** The point `orig + dir*t` at parameter t along the ray. */
  function At(ray: Ray, t: real): (p: Vec3)
    ensures Sub(p, ray.orig) == Scale(ray.dir, t)
  {
    Add(ray.orig, Scale(ray.dir, t))
  }

  /** The floating-point library functions the tracer calls but this model
      cannot compute over the reals: `sqrtf` and `Vec3f::normalize`. */
  datatype Numerics = Numerics(sqrt: real -> real, normalize: Vec3 -> Vec3)

  /** `sqrt` is an exact square root at x, when x is non-negative. */
  ghost predicate SqrtAt(sqrt: real -> real, x: real) {
    x >= 0.0 ==> sqrt(x) >= 0.0 && sqrt(x) * sqrt(x) == x
  }

  /** `sqrt` is an exact square root on the non-negative reals. */
  ghost predicate IsSqrt(sqrt: real -> real) {
    forall x: real :: SqrtAt(sqrt, x)
  }

  /** One use of IsSqrt: r, the square root of x >= 0, is non-negative and squares to x. */
  lemma SqrtOf(sqrt: real -> real, x: real, r: real)
    requires IsSqrt(sqrt) && x >= 0.0 && r == sqrt(x)
    ensures r >= 0.0 && r * r == x
  {
    assert SqrtAt(sqrt, x);
  }

  /** Expanding |orig + dir*t - c|^2 in terms of L = c - orig. */
  lemma SqDistanceAlongRay(ray: Ray, c: Vec3, t: real)
    ensures SqNorm(Sub(At(ray, t), c))
         == t * t * Dot(ray.dir, ray.dir) - 2.0 * t * Dot(Sub(c, ray.orig), ray.dir)
            + Dot(Sub(c, ray.orig), Sub(c, ray.orig))
  {
    var d, l := ray.dir, Sub(c, ray.orig);
    var p := Sub(At(ray, t), c);
    assert p == Vec3(d.x * t - l.x, d.y * t - l.y, d.z * t - l.z);
    assert (d.x * t - l.x) * (d.x * t - l.x) == t * t * (d.x * d.x) - 2.0 * t * (l.x * d.x) + l.x * l.x;
    assert (d.y * t - l.y) * (d.y * t - l.y) == t * t * (d.y * d.y) - 2.0 * t * (l.y * d.y) + l.y * l.y;
    assert (d.z * t - l.z) * (d.z * t - l.z) == t * t * (d.z * d.z) - 2.0 * t * (l.z * d.z) + l.z * l.z;
  }
}
