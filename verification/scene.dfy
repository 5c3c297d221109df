/** The nearest-hit scan over the scene (`scene_intersect`) and the shader
    that turns its result into a colour (`cast_ray`), raytracer.cpp. */
module Scene {
  import opened Geometry
  import opened Spheres

  /** `std::numeric_limits<float>::max()`, the scan's initial distance:
      (2 - 2^-23) * 2^127. */
  const FloatMax: real := 340282346638528859811704183484516925440.0

  /** Only hits nearer than this count as hits. */
  const Horizon: real := 1000.0

  /** The colour of a ray that hits nothing. */
  const Background: Vec3 := Vec3(0.2, 0.7, 0.8)

  /** Sphere s accepts the ray at a distance below `bound`. */
  ghost predicate HitBelow(s: Sphere, ray: Ray, sqrt: real -> real, bound: real) {
    RayIntersect(s, ray, sqrt).Some? && RayIntersect(s, ray, sqrt).value < bound
  }

  /** Sphere k is the first, in sequence order, among the first n spheres to
      attain the least accepted distance, and that distance is below FloatMax. */
  ghost predicate IsFirstNearest(spheres: seq<Sphere>, n: nat, k: nat, ray: Ray, sqrt: real -> real)
    requires n <= |spheres|
  {
    && k < n
    && HitBelow(spheres[k], ray, sqrt, FloatMax)
    && (forall j :: 0 <= j < n && RayIntersect(spheres[j], ray, sqrt).Some? ==>
          RayIntersect(spheres[k], ray, sqrt).value <= RayIntersect(spheres[j], ray, sqrt).value)
    && (forall j :: 0 <= j < k && RayIntersect(spheres[j], ray, sqrt).Some? ==>
          RayIntersect(spheres[k], ray, sqrt).value < RayIntersect(spheres[j], ray, sqrt).value)
  }

  /** No sphere among the first n accepts the ray below `bound`. */
  ghost predicate NoHitBelow(spheres: seq<Sphere>, n: nat, ray: Ray, sqrt: real -> real, bound: real)
    requires n <= |spheres|
  {
    forall j :: 0 <= j < n ==> !HitBelow(spheres[j], ray, sqrt, bound)
  }

  /** The index the scan has settled on after the first n spheres: a sphere
      replaces the current one only when it is accepted at a strictly smaller
      distance (starting from FloatMax), so the earliest sphere wins a tie. */
  function Nearest(spheres: seq<Sphere>, n: nat, ray: Ray, sqrt: real -> real): (r: Option<nat>)
    requires n <= |spheres|
    ensures r.Some? ==> IsFirstNearest(spheres, n, r.value, ray, sqrt)
    ensures r.None? ==> NoHitBelow(spheres, n, ray, sqrt, FloatMax)
    decreases n
  {
    if n == 0 then None
    else
      var prev := Nearest(spheres, n - 1, ray, sqrt);
      var dist := if prev.Some? then RayIntersect(spheres[prev.value], ray, sqrt).value else FloatMax;
      var hit := RayIntersect(spheres[n - 1], ray, sqrt);
      if hit.Some? && hit.value < dist then Some(n - 1) else prev
  }

  /** At most one sphere is the first nearest. */
  lemma FirstNearestUnique(spheres: seq<Sphere>, n: nat, k: nat, k': nat, ray: Ray, sqrt: real -> real)
    requires n <= |spheres|
    requires IsFirstNearest(spheres, n, k, ray, sqrt) && IsFirstNearest(spheres, n, k', ray, sqrt)
    ensures k == k'
  {
  }

  /** The scan's choice is the first strict minimum, and it makes a choice
      exactly when some sphere is accepted below FloatMax. */
  lemma NearestIsFirstMinimum(spheres: seq<Sphere>, n: nat, k: nat, ray: Ray, sqrt: real -> real)
    requires n <= |spheres|
    ensures Nearest(spheres, n, ray, sqrt) == Some(k) <==> IsFirstNearest(spheres, n, k, ray, sqrt)
    ensures Nearest(spheres, n, ray, sqrt) == None <==> NoHitBelow(spheres, n, ray, sqrt, FloatMax)
  {
    var r := Nearest(spheres, n, ray, sqrt);
    if IsFirstNearest(spheres, n, k, ray, sqrt) {
      assert !NoHitBelow(spheres, n, ray, sqrt, FloatMax);
      FirstNearestUnique(spheres, n, k, r.value, ray, sqrt);
    }
    if r.Some? {
      assert !NoHitBelow(spheres, n, ray, sqrt, FloatMax);
    }
  }

  /** Two spheres at the same least distance: the earlier one is chosen. */
  lemma TieGoesToFirst(spheres: seq<Sphere>, j: nat, k: nat, ray: Ray, sqrt: real -> real)
    requires j < k < |spheres|
    requires RayIntersect(spheres[j], ray, sqrt) == RayIntersect(spheres[k], ray, sqrt)
    ensures Nearest(spheres, |spheres|, ray, sqrt) != Some(k)
  {
  }

  /** `scene_intersect`: scans the spheres for the nearest accepted hit. The
      in/out parameters hit, N and material of the source are passed in as
      hit0, normal0 and material0 and returned updated. */
  method SceneIntersect(ray: Ray, spheres: seq<Sphere>, num: Numerics,
                        hit0: Vec3, normal0: Vec3, material0: Material)
    returns (found: bool, hit: Vec3, normal: Vec3, material: Material)
    ensures |spheres| == 0 ==> !found && hit == hit0 && normal == normal0 && material == material0
    ensures found <==> exists k :: 0 <= k < |spheres| && HitBelow(spheres[k], ray, num.sqrt, Horizon)
    ensures NoHitBelow(spheres, |spheres|, ray, num.sqrt, FloatMax) ==>
              hit == hit0 && normal == normal0 && material == material0
    ensures forall k: nat :: IsFirstNearest(spheres, |spheres|, k, ray, num.sqrt) ==>
              && hit == At(ray, RayIntersect(spheres[k], ray, num.sqrt).value)
              && normal == num.normalize(Sub(hit, spheres[k].center))
              && material == spheres[k].material
  {
    var dist := FloatMax;
    ghost var best: Option<nat> := None;
    hit, normal, material := hit0, normal0, material0;
    for i := 0 to |spheres|
      invariant best == Nearest(spheres, i, ray, num.sqrt)
      invariant best.None? ==> dist == FloatMax
      invariant best.None? ==> hit == hit0 && normal == normal0 && material == material0
      invariant best.Some? ==>
                  && dist == RayIntersect(spheres[best.value], ray, num.sqrt).value
                  && hit == At(ray, dist)
                  && normal == num.normalize(Sub(hit, spheres[best.value].center))
                  && material == spheres[best.value].material
    {
      var t := RayIntersect(spheres[i], ray, num.sqrt);
      if t.Some? && t.value < dist {
        dist := t.value;
        hit := At(ray, dist);
        normal := num.normalize(Sub(hit, spheres[i].center));
        material := spheres[i].material;
        best := Some(i);
      }
    }
    found := dist < Horizon;
    NearestAccounts(spheres, ray, num.sqrt);
  }

  /** Any sphere accepted below the horizon forces a choice at least as near. */
  lemma NearestAccounts(spheres: seq<Sphere>, ray: Ray, sqrt: real -> real)
    ensures forall k :: 0 <= k < |spheres| && HitBelow(spheres[k], ray, sqrt, Horizon) ==>
              Nearest(spheres, |spheres|, ray, sqrt).Some? &&
              RayIntersect(spheres[Nearest(spheres, |spheres|, ray, sqrt).value], ray, sqrt).value
                <= RayIntersect(spheres[k], ray, sqrt).value
    ensures forall k: nat :: IsFirstNearest(spheres, |spheres|, k, ray, sqrt) ==>
              Nearest(spheres, |spheres|, ray, sqrt) == Some(k)
  {
    forall k: nat | IsFirstNearest(spheres, |spheres|, k, ray, sqrt)
      ensures Nearest(spheres, |spheres|, ray, sqrt) == Some(k)
    {
      NearestIsFirstMinimum(spheres, |spheres|, k, ray, sqrt);
    }
  }

  /** The colour a ray must get: the background when no sphere is accepted
      below the horizon, otherwise the diffuse colour of the first nearest
      sphere. */
  ghost predicate IsShade(color: Vec3, spheres: seq<Sphere>, ray: Ray, sqrt: real -> real) {
    && ((forall k :: 0 <= k < |spheres| ==> !HitBelow(spheres[k], ray, sqrt, Horizon)) ==>
          color == Background)
    && (forall k: nat ::
          (IsFirstNearest(spheres, |spheres|, k, ray, sqrt) &&
           RayIntersect(spheres[k], ray, sqrt).value < Horizon) ==>
          color == spheres[k].material.diffuseColor)
  }

  /** A reference colour for the ray, read off the scan's choice. */
  function Shade(spheres: seq<Sphere>, ray: Ray, sqrt: real -> real): Vec3 {
    var r := Nearest(spheres, |spheres|, ray, sqrt);
    if r.Some? && RayIntersect(spheres[r.value], ray, sqrt).value < Horizon
    then spheres[r.value].material.diffuseColor
    else Background
  }

  /** IsShade admits exactly one colour, the reference colour Shade. */
  lemma IsShadeIffShade(c: Vec3, spheres: seq<Sphere>, ray: Ray, sqrt: real -> real)
    ensures IsShade(c, spheres, ray, sqrt) <==> c == Shade(spheres, ray, sqrt)
  {
    NearestAccounts(spheres, ray, sqrt);
    var r := Nearest(spheres, |spheres|, ray, sqrt);
    if r.Some? && RayIntersect(spheres[r.value], ray, sqrt).value < Horizon {
      assert IsFirstNearest(spheres, |spheres|, r.value, ray, sqrt);
      assert HitBelow(spheres[r.value], ray, sqrt, Horizon);
    } else {
      forall k | 0 <= k < |spheres|
        ensures !HitBelow(spheres[k], ray, sqrt, Horizon)
      {
      }
    }
  }

  /** `cast_ray`: the shade of the ray, with the material starting from its default. */
  method CastRay(ray: Ray, spheres: seq<Sphere>, num: Numerics) returns (color: Vec3)
    ensures |spheres| == 0 ==> color == Background
    ensures IsShade(color, spheres, ray, num.sqrt)
  {
    var found, point, normal, material := SceneIntersect(ray, spheres, num, Zero, Zero, DefaultMaterial);
    if !found {
      assert forall k: nat :: IsFirstNearest(spheres, |spheres|, k, ray, num.sqrt) ==>
               !HitBelow(spheres[k], ray, num.sqrt, Horizon);
      return Background;
    }
    return material.diffuseColor;
  }
}
