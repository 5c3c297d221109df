/** Serialisation of the framebuffer as a binary P6 pixel map, the output
    half of `render` (raytracer.cpp): an ASCII header followed by three bytes
    per pixel, each channel clamped to [0, 1] and scaled to [0, 255]. */
module Ppm {
  import opened Geometry
  import opened Scene

  /** `std::max(std::min(v, 1.f), 0.f)`: the channel clamped to [0, 1]. */
  function Clamp01(v: real): (r: real)
    ensures 0.0 <= r <= 1.0
    ensures 0.0 <= v <= 1.0 ==> r == v
    ensures v < 0.0 ==> r == 0.0
    ensures v > 1.0 ==> r == 1.0
  {
    var m := if v < 1.0 then v else 1.0;
    if m > 0.0 then m else 0.0
  }

  /** Clamping is monotone and idempotent. */
  lemma Clamp01Monotone(v: real, v': real)
    requires v <= v'
    ensures Clamp01(v) <= Clamp01(v')
    ensures Clamp01(Clamp01(v)) == Clamp01(v)
  {
  }

  /** The byte written for one channel: 255 times the clamped value,
      truncated toward zero by the conversion to `char`. */
  function ChannelByte(v: real): (b: int)
    ensures 0 <= b <= 255
    ensures v >= 1.0 ==> b == 255
    ensures v <= 0.0 ==> b == 0
  {
    (255.0 * Clamp01(v)).Floor
  }

  /** Larger channel values never give smaller bytes. */
  lemma ChannelByteMonotone(v: real, v': real)
    requires v <= v'
    ensures ChannelByte(v) <= ChannelByte(v')
  {
    Clamp01Monotone(v, v');
  }

  /** The background colour serialises to the bytes (51, 178, 204). */
  lemma BackgroundBytes()
    ensures ChannelByte(Background.x) == 51
    ensures ChannelByte(Background.y) == 178
    ensures ChannelByte(Background.z) == 204
  {
  }

  /** The position in the image body of channel c of framebuffer slot k. */
  function ByteOffset(k: nat, c: nat): nat {
    3 * k + c
  }

  /** The pixel-writing loop of `render`: three bytes per framebuffer slot,
      in slot order, each the clamped and scaled channel. */
  method ImageBody(fb: seq<Vec3>) returns (body: seq<int>)
    ensures |body| == 3 * |fb|
    ensures forall k: nat, c: nat :: k < |fb| && c < 3 ==>
              body[ByteOffset(k, c)] == ChannelByte(Component(fb[k], c))
    ensures forall n :: 0 <= n < |body| ==> 0 <= body[n] <= 255
  {
    body := [];
    for k := 0 to |fb|
      invariant |body| == 3 * k
      invariant forall k': nat, c: nat :: k' < k && c < 3 ==>
                  body[ByteOffset(k', c)] == ChannelByte(Component(fb[k'], c))
      invariant forall n :: 0 <= n < |body| ==> 0 <= body[n] <= 255
    {
      for c := 0 to 3
        invariant |body| == 3 * k + c
        invariant forall k': nat, c': nat :: k' < k && c' < 3 ==>
                    body[ByteOffset(k', c')] == ChannelByte(Component(fb[k'], c'))
        invariant forall c': nat :: c' < c ==>
                    body[ByteOffset(k, c')] == ChannelByte(Component(fb[k], c'))
        invariant forall n :: 0 <= n < |body| ==> 0 <= body[n] <= 255
      {
        body := body + [ChannelByte(Component(fb[k], c))];
      }
    }
  }

  /** The decimal digit for 0 <= d < 10. */
  function DigitChar(d: nat): char
    requires d < 10
  {
    "0123456789"[d]
  }

  /** How `std::ostream << int` prints a non-negative integer: decimal
      digits, most significant first, no leading zeros. */
  function Decimal(n: nat): (s: string)
    ensures |s| > 0
    ensures forall i :: 0 <= i < |s| ==> '0' <= s[i] <= '9'
    decreases n
  {
    if n < 10 then [DigitChar(n)] else Decimal(n / 10) + [DigitChar(n % 10)]
  }

  /** Reads a string of decimal digits back as a number. */
  function ParseDecimal(s: string): nat
    requires forall i :: 0 <= i < |s| ==> '0' <= s[i] <= '9'
  {
    if |s| == 0 then 0
    else ParseDecimal(s[..|s| - 1]) * 10 + (s[|s| - 1] as int - '0' as int)
  }

  /** Printing then reading a number gives it back, so distinct sizes give
      distinct headers. */
  lemma {:induction false} DecimalRoundTrip(n: nat)
    ensures ParseDecimal(Decimal(n)) == n
    decreases n
  {
    var s := Decimal(n);
    if n >= 10 {
      DecimalRoundTrip(n / 10);
      assert s[..|s| - 1] == Decimal(n / 10);
    }
  }

  /** The header `"P6\n" << width << " " << height << "\n255\n"`. */
  function Header(w: nat, h: nat): string {
    "P6\n" + (Decimal(w) + " " + (Decimal(h) + "\n255\n"))
  }

  /** Reading the header back recovers the image size: different sizes
      never share a header. */
  lemma HeaderDeterminesSize(w: nat, h: nat, w': nat, h': nat)
    requires Header(w, h) == Header(w', h')
    ensures w == w' && h == h'
  {
    var tail, tail' := Decimal(h) + "\n255\n", Decimal(h') + "\n255\n";
    CancelPrefix("P6\n", Decimal(w) + " " + tail, Decimal(w') + " " + tail');
    FirstSpace(Decimal(w), tail, Decimal(w'), tail');
    assert Decimal(w) + " " + tail == (Decimal(w) + " ") + tail;
    CancelPrefix(Decimal(w) + " ", tail, tail');
    CancelSuffix(Decimal(h), Decimal(h'), "\n255\n");
    DecimalRoundTrip(w);
    DecimalRoundTrip(w');
    DecimalRoundTrip(h);
    DecimalRoundTrip(h');
  }

  lemma CancelPrefix<T>(p: seq<T>, x: seq<T>, y: seq<T>)
    requires p + x == p + y
    ensures x == y
  {
    assert x == (p + x)[|p|..];
  }

  lemma CancelSuffix<T>(x: seq<T>, y: seq<T>, q: seq<T>)
    requires x + q == y + q
    ensures x == y
  {
    assert x == (x + q)[..|x|];
  }

  /** Where the shorter digit string has its space, the longer has a digit. */
  lemma ShorterDigitsDiffer(a: string, x: string, b: string, y: string)
    requires forall i :: 0 <= i < |b| ==> '0' <= b[i] <= '9'
    requires |a| < |b|
    ensures a + " " + x != b + " " + y
  {
    assert (a + " " + x)[|a|] == ' ';
    assert (b + " " + y)[|a|] == b[|a|];
  }

  /** Two digit strings each followed by a space split a string at the same place. */
  lemma FirstSpace(a: string, x: string, b: string, y: string)
    requires forall i :: 0 <= i < |a| ==> '0' <= a[i] <= '9'
    requires forall i :: 0 <= i < |b| ==> '0' <= b[i] <= '9'
    requires a + " " + x == b + " " + y
    ensures a == b
  {
    if |a| < |b| {
      ShorterDigitsDiffer(a, x, b, y);
      assert false;
    } else if |b| < |a| {
      ShorterDigitsDiffer(b, y, a, x);
      assert false;
    } else {
      assert a == (a + " " + x)[..|a|];
    }
  }

  /** Every header character is a 7-bit ASCII character. */
  lemma HeaderIsAscii(w: nat, h: nat)
    ensures forall i :: 0 <= i < |Header(w, h)| ==> 0 <= Header(w, h)[i] as int < 128
  {
    var a, b := Decimal(w), Decimal(h);
    assert forall i :: 0 <= i < |a| ==> a[i] as int < 128;
    assert forall i :: 0 <= i < |b| ==> b[i] as int < 128;
  }

  /** The whole file as byte values: the header's characters, then the body. */
  method ImageFile(fb: seq<Vec3>, w: nat, h: nat) returns (file: seq<int>)
    ensures |file| == |Header(w, h)| + 3 * |fb|
    ensures forall n :: 0 <= n < |file| ==> 0 <= file[n] <= 255
    ensures forall i :: 0 <= i < |Header(w, h)| ==> file[i] == Header(w, h)[i] as int
    ensures forall k: nat, c: nat :: k < |fb| && c < 3 ==>
              file[|Header(w, h)| + ByteOffset(k, c)] == ChannelByte(Component(fb[k], c))
  {
    var header := Header(w, h);
    HeaderIsAscii(w, h);
    var body := ImageBody(fb);
    file := seq(|header|, i requires 0 <= i < |header| => header[i] as int) + body;
  }
}
