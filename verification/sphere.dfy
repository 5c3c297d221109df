/** Materials, spheres and the geometric ray-sphere intersection test
    (`Sphere::ray_intersect`, raytracer.cpp). */
module Spheres {
  import opened Geometry

  /** A flat diffuse colour; the default material is black. */
  datatype Material = Material(diffuseColor: Vec3)

  const DefaultMaterial: Material := Material(Zero)

  /** The radius is expected to be positive but nothing checks it; only its
      square enters the intersection test. */
  datatype Sphere = Sphere(center: Vec3, radius: real, material: Material)

  /** L: from the ray origin to the sphere's centre. */
  function ToCenter(s: Sphere, ray: Ray): Vec3 {
    Sub(s.center, ray.orig)
  }

  /** tca: the ray parameter of the point closest to the centre (for a unit direction). */
  function Tca(s: Sphere, ray: Ray): real {
    Dot(ToCenter(s, ray), ray.dir)
  }

  /** d2: the squared distance from the centre to the line of the ray
      (for a unit direction). */
  function D2(s: Sphere, ray: Ray): real {
    Dot(ToCenter(s, ray), ToCenter(s, ray)) - Tca(s, ray) * Tca(s, ray)
  }

  /** The squared radius, `radius*radius` in the source. */
  function RadiusSq(s: Sphere): real {
    s.radius * s.radius
  }

  /** (t - tca)^2 == rhs: t solves the intersection quadratic in centred form. */
  ghost predicate SolvesQuadratic(t: real, tca: real, d2: real, rr: real) {
    (t - tca) * (t - tca) == rr - d2
  }

  /** The branch logic of `Sphere::ray_intersect` once tca, d2 and r^2 are
      known: reject when d2 > r^2; otherwise take the near root tca - thc, or
      the far root tca + thc when the near one is negative, and reject when
      that is negative too. */
  function ChooseRoot(tca: real, d2: real, rr: real, sqrt: real -> real): (r: Option<real>)
    ensures d2 > rr ==> r == None
    ensures r.Some? ==> r.value >= 0.0
    ensures r.Some? && tca - sqrt(rr - d2) >= 0.0 ==> r.value == tca - sqrt(rr - d2)
    ensures r.Some? && tca - sqrt(rr - d2) < 0.0 ==> r.value == tca + sqrt(rr - d2)
    ensures d2 <= rr ==> (r == None <==> tca - sqrt(rr - d2) < 0.0 && tca + sqrt(rr - d2) < 0.0)
  {
    if d2 > rr then None
    else
      var thc := sqrt(rr - d2);
      var t0 := tca - thc;
      var t1 := tca + thc;
      var t0' := if t0 < 0.0 then t1 else t0;
      if t0' < 0.0 then None else Some(t0')
  }

  /** Two reals with the same square are equal up to sign. */
  lemma SquareRoots(a: real, b: real)
    requires b >= 0.0 && a * a == b * b
    ensures a == b || a == -b
  {
    assert (a - b) * (a + b) == a * a - b * b;
  }

  lemma SquareNonNegative(a: real)
    ensures a * a >= 0.0
  {
    if a < 0.0 {
      assert a * a == (-a) * (-a);
    }
  }

  /** With an exact square root, ChooseRoot returns the least non-negative
      solution of (t - tca)^2 == r^2 - d2, and None exactly when there is none. */
  lemma ChooseRootIsLeastRoot(tca: real, d2: real, rr: real, sqrt: real -> real)
    requires IsSqrt(sqrt)
    ensures ChooseRoot(tca, d2, rr, sqrt).Some? ==>
              SolvesQuadratic(ChooseRoot(tca, d2, rr, sqrt).value, tca, d2, rr)
    ensures forall t :: t >= 0.0 && SolvesQuadratic(t, tca, d2, rr) ==>
              ChooseRoot(tca, d2, rr, sqrt).Some? && ChooseRoot(tca, d2, rr, sqrt).value <= t
  {
    var r := ChooseRoot(tca, d2, rr, sqrt);
    if d2 > rr {
      forall t | t >= 0.0
        ensures !SolvesQuadratic(t, tca, d2, rr)
      {
        SquareNonNegative(t - tca);
      }
    } else {
      var thc := sqrt(rr - d2);
      SqrtOf(sqrt, rr - d2, thc);
      if r.Some? {
        assert r.value == tca - thc || r.value == tca + thc;
        assert (r.value - tca) * (r.value - tca) == thc * thc;
      }
      forall t | t >= 0.0 && SolvesQuadratic(t, tca, d2, rr)
        ensures r.Some? && r.value <= t
      {
        SquareRoots(t - tca, thc);
      }
    }
  }

  /** `Sphere::ray_intersect`: Some(t0) when the ray is accepted, None when it is rejected. */
  function RayIntersect(s: Sphere, ray: Ray, sqrt: real -> real): (r: Option<real>)
    ensures D2(s, ray) > RadiusSq(s) ==> r == None
    ensures r.Some? ==> r.value >= 0.0
    ensures r.Some? && NearRoot(s, ray, sqrt) >= 0.0 ==> r.value == NearRoot(s, ray, sqrt)
    ensures r.Some? && NearRoot(s, ray, sqrt) < 0.0 ==> r.value == FarRoot(s, ray, sqrt)
    ensures D2(s, ray) <= RadiusSq(s) ==>
              (r == None <==> NearRoot(s, ray, sqrt) < 0.0 && FarRoot(s, ray, sqrt) < 0.0)
  {
    ChooseRoot(Tca(s, ray), D2(s, ray), RadiusSq(s), sqrt)
  }

  /** thc: half the chord length, sqrt(r^2 - d2); meaningful when d2 <= r^2. */
  function Thc(s: Sphere, ray: Ray, sqrt: real -> real): real {
    sqrt(RadiusSq(s) - D2(s, ray))
  }

  function NearRoot(s: Sphere, ray: Ray, sqrt: real -> real): real {
    Tca(s, ray) - Thc(s, ray, sqrt)
  }

  function FarRoot(s: Sphere, ray: Ray, sqrt: real -> real): real {
    Tca(s, ray) + Thc(s, ray, sqrt)
  }

  /** The point at parameter t along the ray lies on the sphere's surface. */
  ghost predicate OnSurface(s: Sphere, ray: Ray, t: real) {
    SqNorm(Sub(At(ray, t), s.center)) == RadiusSq(s)
  }

  /** With a unit direction, t is on the surface exactly when (t - tca)^2 == r^2 - d2. */
  lemma OnSurfaceIffQuadratic(s: Sphere, ray: Ray, t: real)
    requires Dot(ray.dir, ray.dir) == 1.0
    ensures OnSurface(s, ray, t) <==> SolvesQuadratic(t, Tca(s, ray), D2(s, ray), RadiusSq(s))
  {
    SqDistanceAlongRay(ray, s.center, t);
    ExpandedQuadratic(t, Tca(s, ray), Dot(ToCenter(s, ray), ToCenter(s, ray)),
                      RadiusSq(s), Dot(ray.dir, ray.dir));
  }

  /** The real-arithmetic step of OnSurfaceIffQuadratic, on plain variables. */
  lemma ExpandedQuadratic(t: real, tca: real, ll: real, rr: real, dd: real)
    requires dd == 1.0
    ensures (t * t * dd - 2.0 * t * tca + ll == rr) <==> SolvesQuadratic(t, tca, ll - tca * tca, rr)
  {
    assert t * t * dd == t * t;
    assert (t - tca) * (t - tca) == t * t - 2.0 * t * tca + tca * tca;
  }

  /** The intersection test reports the nearest point of the sphere's surface
      at a non-negative ray parameter, and rejects the ray exactly when there
      is no such point. */
  lemma RayIntersectIsNearestSurfacePoint(s: Sphere, ray: Ray, sqrt: real -> real)
    requires IsSqrt(sqrt) && Dot(ray.dir, ray.dir) == 1.0
    ensures RayIntersect(s, ray, sqrt).Some? ==> OnSurface(s, ray, RayIntersect(s, ray, sqrt).value)
    ensures forall t :: t >= 0.0 && OnSurface(s, ray, t) ==>
              RayIntersect(s, ray, sqrt).Some? && RayIntersect(s, ray, sqrt).value <= t
  {
    ChooseRootIsLeastRoot(Tca(s, ray), D2(s, ray), RadiusSq(s), sqrt);
    var r := RayIntersect(s, ray, sqrt);
    if r.Some? {
      OnSurfaceIffQuadratic(s, ray, r.value);
    }
    forall t | t >= 0.0 && OnSurface(s, ray, t)
      ensures r.Some? && r.value <= t
    {
      OnSurfaceIffQuadratic(s, ray, t);
    }
  }

  /** A ray from outside the sphere aimed straight at its centre, at distance
      k, first meets the surface at k - r. */
  lemma AimedAtCenter(s: Sphere, ray: Ray, sqrt: real -> real, k: real)
    requires IsSqrt(sqrt) && Dot(ray.dir, ray.dir) == 1.0
    requires s.radius >= 0.0 && k >= s.radius
    requires ToCenter(s, ray) == Scale(ray.dir, k)
    ensures RayIntersect(s, ray, sqrt) == Some(k - s.radius)
  {
    var d := ray.dir;
    assert Tca(s, ray) == k * Dot(d, d);
    assert Dot(ToCenter(s, ray), ToCenter(s, ray)) == k * k * Dot(d, d);
    assert D2(s, ray) == 0.0;
    var thc := sqrt(RadiusSq(s));
    SqrtOf(sqrt, RadiusSq(s), thc);
    SquareRoots(thc, s.radius);
  }

  /** A tangent ray (d2 == r^2) touches the sphere at the single root tca. */
  lemma Tangent(s: Sphere, ray: Ray, sqrt: real -> real)
    requires IsSqrt(sqrt)
    requires D2(s, ray) == RadiusSq(s)
    ensures RayIntersect(s, ray, sqrt) == if Tca(s, ray) >= 0.0 then Some(Tca(s, ray)) else None
  {
    SqrtOf(sqrt, 0.0, sqrt(0.0));
    SquareRoots(sqrt(0.0), 0.0);
  }
}
