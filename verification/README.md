# Sphere ray tracer — a Dafny model

This project models the core of a small single-file ray tracer
(`raytracer.cpp`). The tracer renders a scene of spheres: for every pixel it
casts a camera ray, finds the nearest sphere the ray hits, and colours the
pixel with that sphere's flat diffuse colour, or with a background colour on
a miss. The framebuffer is then written out as a binary P6 pixel map.

The model works over Dafny `real` instead of 32-bit floats. It covers:

- `Sphere::ray_intersect` (module `Spheres`). The geometric test computes
  `L`, `tca` and `d2`, rejects the ray when `d2 > r²`, and otherwise takes
  the near root, or the far root when the near one is negative. It is proved
  to return the nearest surface point at a non-negative ray parameter.
- `scene_intersect` and `cast_ray` (module `Scene`). The linear scan keeps
  the first strict minimum, starting from `FLT_MAX`. It updates `hit`, `N`
  and `material` on every strict improvement, and it reports a hit only below
  the horizon `1000`. The loop is proved against a recursive "first strict
  minimum" function, `Nearest`, and against a declarative characterisation,
  `IsFirstNearest`. `cast_ray` is specified by `IsShade`, which is proved to
  admit exactly one colour.
- The integer parts of `render` (modules `Render` and `Ppm`):
  - the row-major index `i + j*width`, proved to be a bijection from the
    pixel grid onto `[0, width*height)`;
  - the pixel loop, proved to fill every slot with the shade of its own pixel;
  - the per-channel clamp to `[0,1]` and the scaling to a byte in `[0,255]`;
  - the image body and the header.

Two floating-point library functions cannot be computed over the reals:
`sqrtf` and `Vec3f::normalize`. The model takes them as parameters, bundled
in `Geometry.Numerics`. Only the geometric lemmas assume anything about the
square root. They require `IsSqrt`: the root is non-negative and squares to
its argument.

Two details of the source fix the model's constants:

- The scan starts from `std::numeric_limits<float>::max()`
  (raytracer.cpp:61), kept as the exact real `FloatMax`. A sphere accepted
  at or beyond `FloatMax` is never recorded.
- The `(char)` cast at raytracer.cpp:121 truncates toward zero, so the model
  uses `Floor` of a non-negative real. For example, 0.7 gives 178.

## Model

| member | source | states |
|---|---|---|
| Spheres.ChooseRoot | raytracer.cpp:47-53 | rejects when d2 > r²; any accepted t is ≥ 0; t is the near root tca − thc when that is ≥ 0 and the far root tca + thc otherwise; when d2 ≤ r² it rejects exactly when both roots are negative |
| Spheres.RayIntersect | raytracer.cpp:41-54 | for a sphere and a ray, with L = center − orig, tca = L·dir and d2 = L·L − tca²: rejects when d2 > r²; any accepted t is ≥ 0; t is the near root when that is ≥ 0 and the far root otherwise; when d2 ≤ r² it rejects exactly when both roots are negative |
| Spheres.ChooseRootIsLeastRoot | raytracer.cpp:47-53 | with an exact square root, the accepted t solves (t − tca)² = r² − d2, and no non-negative solution is smaller; the ray is rejected only when no non-negative solution exists |
| Spheres.OnSurfaceIffQuadratic | raytracer.cpp:43-45 | for a unit direction, orig + dir·t lies on the sphere exactly when (t − tca)² = r² − d2, so L, tca and d2 are the right quantities |
| Spheres.RayIntersectIsNearestSurfacePoint | raytracer.cpp:41-54 | for a unit direction and an exact square root, an accepted t gives a point on the sphere's surface, and every surface point at a non-negative parameter is at least as far; so the ray is rejected exactly when the sphere has no such point |
| Spheres.AimedAtCenter | raytracer.cpp:41-54 | a ray from outside the sphere aimed at its centre, at distance k, hits at k − r |
| Spheres.Tangent | raytracer.cpp:45-53 | a tangent ray (d2 = r²) is accepted at tca when tca ≥ 0 and rejected otherwise |
| Scene.Nearest | raytracer.cpp:60-72 | the sphere the scan settles on after n spheres is the first one, in sequence order, to attain the least accepted distance below FLT_MAX; when there is none, no sphere is accepted below FLT_MAX |
| Scene.NearestIsFirstMinimum | raytracer.cpp:63-71 | the scan chooses sphere k exactly when k is the first strict minimum, and chooses nothing exactly when no sphere is accepted below FLT_MAX |
| Scene.FirstNearestUnique | raytracer.cpp:65-71 | at most one sphere is the first strict minimum |
| Scene.TieGoesToFirst | raytracer.cpp:65 | when two spheres are hit at the same distance, the later one is never chosen |
| Scene.NearestAccounts | raytracer.cpp:63-73 | any sphere hit below the horizon forces a choice at least as near, and the first strict minimum is always the scan's choice |
| Scene.SceneIntersect | raytracer.cpp:58-74 | returns true exactly when some sphere is hit below 1000; when no sphere is accepted below FLT_MAX, and in particular for an empty scene, hit, N and material are unchanged; otherwise hit = orig + dir·t, N = normalize(hit − center) and material come from the first nearest sphere |
| Scene.IsShadeIffShade | raytracer.cpp:76-85 | a colour satisfies the declarative shading rule exactly when it equals the colour read off the scan's choice, so the rule admits exactly one colour for every ray |
| Scene.CastRay | raytracer.cpp:76-85 | the colour is (0.2, 0.7, 0.8) when no sphere is hit below the horizon, including for an empty scene, and otherwise the diffuse colour of the first nearest sphere |
| Render.PixelIndex | raytracer.cpp:105 | the slot i + j·width of a pixel inside the grid is below width·height |
| Render.PixelOfPixelIndex | raytracer.cpp:94-105 | the pixel is recovered from its slot by (k mod width, k div width), so distinct pixels write distinct slots |
| Render.PixelIndexOfPixelOf | raytracer.cpp:94-105 | every slot below width·height is the slot of a pixel inside the grid, so the index map is a bijection and every slot is written exactly once |
| Render.Render | raytracer.cpp:94-107 | the framebuffer has exactly width·height slots, and the slot of each pixel, and so every slot, holds the shade of the camera ray through that pixel |
| Render.HeaderOfDefaultSize | raytracer.cpp:8-9 | for the compiled-in 1024 × 768 size the header is "P6\n1024 768\n255\n" |
| Render.RenderImage | raytracer.cpp:88-126 | the file starts with the header's characters, followed by 3·width·height body bytes; every byte is in [0,255], and the bytes of each pixel are the converted channels of its shade |
| Ppm.Clamp01 | raytracer.cpp:121 | the clamped channel lies in [0,1]; it equals the input inside [0,1], is 0 below it and 1 above it |
| Ppm.Clamp01Monotone | raytracer.cpp:121 | clamping preserves order and is idempotent |
| Ppm.ChannelByte | raytracer.cpp:121 | the byte lies in [0,255]; inputs ≥ 1 give 255 and inputs ≤ 0 give 0, so 1.5 gives 255 and −0.3 gives 0 |
| Ppm.ChannelByteMonotone | raytracer.cpp:121 | a larger channel value never gives a smaller byte |
| Ppm.BackgroundBytes | raytracer.cpp:81 | the background colour serialises to the bytes (51, 178, 204) |
| Ppm.ImageBody | raytracer.cpp:116-123 | the body has exactly three bytes per framebuffer slot, in slot order; byte 3k + c is channel c of slot k, converted; every byte is in [0,255] |
| Ppm.Decimal | raytracer.cpp:114 | an integer prints as a non-empty string of decimal digits |
| Ppm.DecimalRoundTrip | raytracer.cpp:114 | reading the printed digits back gives the integer |
| Ppm.HeaderDeterminesSize | raytracer.cpp:114 | two headers are equal only when the widths and the heights are equal, so the header records the image size |
| Ppm.HeaderIsAscii | raytracer.cpp:114 | every header character is 7-bit ASCII |
| Ppm.ImageFile | raytracer.cpp:110-125 | the file is the header's characters followed by the body; its length is the header length plus 3 bytes per slot, and every byte is in [0,255] |

## Left out

- `geometry.h` is not part of this model. `Geometry.Vec3` is a minimal triple of reals with `+`, `-`, scalar `*`, dot product and component access.
- Floating point is modelled as `real`: no rounding, NaN, infinities or single-precision range. `FLT_MAX` is kept as an exact real constant.
- `sqrtf` becomes the parameter `Numerics.sqrt`. The branch properties of `Spheres.RayIntersect` and the whole scan hold for any function. The geometric lemmas assume an exact square root.
- `Vec3f::normalize` becomes the parameter `Numerics.normalize`. No property depends on its value, and the NaN produced for a zero vector is not modelled.
- The unit-length direction is a caller convention in the source and is not enforced. Only the geometric lemmas require it.
- Camera-ray generation (raytracer.cpp:102-104) uses `tan`, mixed float and double arithmetic, and normalisation. `Render.Render` takes the per-pixel directions as the parameter `dirs` instead. Not modelled, but worth noting: `const int fov = M_PI/2.f` (raytracer.cpp:92) truncates the field of view to 1 radian, so the rays use tan(0.5) rather than tan(π/4).
- Spheres.RayIntersect: on the rejecting path at raytracer.cpp:51-52 the source has already written the out-parameter `t0`. The model returns `None` instead. The only caller never reads `t0` when the test fails.
- Scene.SceneIntersect: the running distance `spheres_dist` is local to the source function and is not returned. The distance of the recorded hit is stated through the first nearest sphere.
- Ppm.ChannelByte: the `(char)` cast is modelled as truncation to an integer in [0,255]. Where `char` is signed, converting a value of 128 or more (the background's 178 and 204, for instance) is undefined behaviour in C++; compilers in practice write the low byte, which is what the model's byte values describe. Bytes are `int` values.
- Opening, writing and closing `./out.ppm` through `std::ofstream` is I/O. The stream state is never checked in the source. `Ppm.ImageFile` returns the file contents as a sequence of byte values instead.
- Ppm.ImageFile: `./out.ppm` is opened in text mode (raytracer.cpp:112, no `std::ios::binary`). On a platform that translates newlines, every byte 10 of the header and body is written as two bytes, so the exact length stated by `Ppm.ImageFile` and `Render.RenderImage` holds only where no such translation happens.
- `main`'s hard-coded scene (raytracer.cpp:128-144) is configuration data. The model takes the sphere sequence as a parameter.
- The image size is a parameter of `Render.Render`. The compiled-in constants are kept as `Render.Width` and `Render.Height`.
