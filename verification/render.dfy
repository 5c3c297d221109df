/** The integer and clamping parts of `render` (raytracer.cpp): the
    row-major framebuffer over the width x height pixel grid, and the
    conversion of each colour channel to a byte of the P6 image body. */
module Render {
  import opened Geometry
  import opened Spheres
  import opened Scene
  import opened Ppm

  /** The image size the program is compiled with. */
  const Width: nat := 1024
  const Height: nat := 768

  /** The header of the image the program writes. */
  lemma HeaderOfDefaultSize()
    ensures Header(Width, Height) == "P6\n1024 768\n255\n"
  {
  }

  /** The framebuffer slot of pixel (i, j): column i of row j, row-major. */
  function PixelIndex(i: nat, j: nat, w: nat, h: nat): (k: nat)
    requires i < w && j < h
    ensures k < w * h
  {
    RowFits(i, j, w, h);
    i + j * w
  }

  /** The pixel (column, row) stored in framebuffer slot k. */
  function PixelOf(k: nat, w: nat): (p: (nat, nat))
    requires w > 0
    ensures p.0 < w
  {
    (k % w, k / w)
  }

  lemma RowFits(i: nat, j: nat, w: nat, h: nat)
    requires i < w && j < h
    ensures i + j * w < w * h
  {
    assert j * w + w == (j + 1) * w;
    assert (j + 1) * w <= h * w by {
      MulMonotone(j + 1, h, w);
    }
  }

  lemma MulMonotone(a: nat, b: nat, c: nat)
    requires a <= b
    ensures a * c <= b * c
  {
    assert b * c == a * c + (b - a) * c;
  }

  /** PixelIndex followed by PixelOf gives back the pixel: the index map is injective. */
  lemma PixelOfPixelIndex(i: nat, j: nat, w: nat, h: nat)
    requires i < w && j < h
    ensures PixelOf(PixelIndex(i, j, w, h), w) == (i, j)
  {
    var k := i + j * w;
    assert k == j * w + i;
    DivModUnique(k, w, j, i);
  }

  /** A decomposition k == q*w + r with 0 <= r < w is the one `/` and `%` compute. */
  lemma DivModUnique(k: nat, w: nat, q: nat, r: nat)
    requires r < w && k == q * w + r
    ensures k / w == q && k % w == r
  {
    var q', r' := k / w, k % w;
    assert k == q' * w + r';
    if q' < q {
      MulMonotone(q' + 1, q, w);
      assert false;
    } else if q < q' {
      MulMonotone(q + 1, q', w);
      assert false;
    }
  }

  /** Every slot below w*h is the index of a pixel inside the grid: the index
      map is onto [0, w*h), so with injectivity it is a bijection. */
  lemma PixelIndexOfPixelOf(k: nat, w: nat, h: nat)
    requires k < w * h
    ensures w > 0 && PixelOf(k, w).1 < h
    ensures PixelIndex(PixelOf(k, w).0, PixelOf(k, w).1, w, h) == k
  {
    var q := k / w;
    assert k == q * w + k % w;
    if h <= q {
      MulMonotone(h, q, w);
      assert false;
    }
  }

  /** `render`'s pixel loop: fills a width x height framebuffer, row by row,
      each slot with the shade of the camera ray through its pixel.  The
      camera sits at the origin; `dirs(i, j)` is the direction of the ray
      through pixel (i, j). */
  method Render(spheres: seq<Sphere>, num: Numerics, w: nat, h: nat, dirs: (nat, nat) -> Vec3)
    returns (fb: seq<Vec3>)
    ensures |fb| == w * h
    ensures forall i: nat, j: nat :: i < w && j < h ==>
              IsShade(fb[PixelIndex(i, j, w, h)], spheres, Ray(Zero, dirs(i, j)), num.sqrt)
    ensures forall k :: 0 <= k < |fb| ==>
              IsShade(fb[k], spheres, Ray(Zero, dirs(PixelOf(k, w).0, PixelOf(k, w).1)), num.sqrt)
  {
    fb := seq(w * h, _ => Zero);
    for j := 0 to h
      invariant |fb| == w * h
      invariant forall i': nat, j': nat :: i' < w && j' < j ==>
                  IsShade(fb[PixelIndex(i', j', w, h)], spheres, Ray(Zero, dirs(i', j')), num.sqrt)
    {
      for i := 0 to w
        invariant |fb| == w * h
        invariant forall i': nat, j': nat :: i' < w && j' < j ==>
                    IsShade(fb[PixelIndex(i', j', w, h)], spheres, Ray(Zero, dirs(i', j')), num.sqrt)
        invariant forall i': nat :: i' < i ==>
                    IsShade(fb[PixelIndex(i', j, w, h)], spheres, Ray(Zero, dirs(i', j)), num.sqrt)
      {
        var color := CastRay(Ray(Zero, dirs(i, j)), spheres, num);
        ghost var before := fb;
        fb := fb[PixelIndex(i, j, w, h) := color];
        forall i': nat, j': nat | i' < w && j' < h && (i', j') != (i, j)
          ensures fb[PixelIndex(i', j', w, h)] == before[PixelIndex(i', j', w, h)]
        {
          PixelOfPixelIndex(i, j, w, h);
          PixelOfPixelIndex(i', j', w, h);
        }
      }
    }
    forall k | 0 <= k < |fb|
      ensures IsShade(fb[k], spheres, Ray(Zero, dirs(PixelOf(k, w).0, PixelOf(k, w).1)), num.sqrt)
    {
      PixelIndexOfPixelOf(k, w, h);
    }
  }

  /** `render` as a whole: the pixel loop, then the image file it writes
      (returned here instead of written to ./out.ppm). */
  method RenderImage(spheres: seq<Sphere>, num: Numerics, w: nat, h: nat, dirs: (nat, nat) -> Vec3)
    returns (fb: seq<Vec3>, file: seq<int>)
    ensures |fb| == w * h
    ensures forall i: nat, j: nat :: i < w && j < h ==>
              IsShade(fb[PixelIndex(i, j, w, h)], spheres, Ray(Zero, dirs(i, j)), num.sqrt)
    ensures |file| == |Header(w, h)| + 3 * (w * h)
    ensures forall n :: 0 <= n < |file| ==> 0 <= file[n] <= 255
    ensures forall n :: 0 <= n < |Header(w, h)| ==> file[n] == Header(w, h)[n] as int
    ensures forall i: nat, j: nat, c: nat :: i < w && j < h && c < 3 ==>
              file[|Header(w, h)| + ByteOffset(PixelIndex(i, j, w, h), c)]
                == ChannelByte(Component(fb[PixelIndex(i, j, w, h)], c))
  {
    fb := Render(spheres, num, w, h, dirs);
    file := ImageFile(fb, w, h);
  }
}
