/** Scaling and rotation of decoded photos: lib/jpeg_render/img_render.c, with exact reals for the
  * source's floats.
  */
module ImgRender {
  import opened Basics

  datatype Rotation = Rot0 | Rot90 | Rot180 | Rot270

  datatype Interpolation = Nearest | Bilinear

  datatype Rgb = Rgb(r: byte, g: byte, b: byte)

  /** Three bytes a pixel, row after row. */
  datatype Image = Image(w: nat, h: nat, pixels: seq<byte>) {
    ghost predicate Valid() { 0 < w && 0 < h && |pixels| == 3 * (h * w) }
  }

  predicate Sideways(rot: Rotation) { rot.Rot90? || rot.Rot270? }

  /** The size of the rotated canvas of a w x h image. */
  function SrcW(w: nat, h: nat, rot: Rotation): nat { if Sideways(rot) then h else w }

  function SrcH(w: nat, h: nat, rot: Rotation): nat { if Sideways(rot) then w else h }

  predicate OnCanvas(w: nat, h: nat, rot: Rotation, x: int, y: int) {
    0 <= x < SrcW(w, h, rot) && 0 <= y < SrcH(w, h, rot)
  }

  /** rotate_coords: from the rotated canvas to the image. */
  function RotateCoords(w: nat, h: nat, rot: Rotation, sx: nat, sy: nat): (p: (nat, nat))
    requires OnCanvas(w, h, rot, sx, sy)
    ensures p.0 < w && p.1 < h
  {
    match rot
    case Rot90 => (sy, h - 1 - sx)
    case Rot180 => (w - 1 - sx, h - 1 - sy)
    case Rot270 => (w - 1 - sy, sx)
    case Rot0 => (sx, sy)
  }

  function Inverse(rot: Rotation): Rotation {
    match rot
    case Rot90 => Rot270
    case Rot270 => Rot90
    case _ => rot
  }

  /** rotate_coords is a bijection from the canvas onto the image: the inverse rotation of the canvas
    * undoes it, on both sides. */
  lemma RotateCoordsBijective(w: nat, h: nat, rot: Rotation, x: nat, y: nat)
    ensures var cw, ch, inv := SrcW(w, h, rot), SrcH(w, h, rot), Inverse(rot);
      && (OnCanvas(w, h, rot, x, y) ==>
            var p := RotateCoords(w, h, rot, x, y);
            OnCanvas(cw, ch, inv, p.0, p.1) && RotateCoords(cw, ch, inv, p.0, p.1) == (x, y))
      && (x < w && y < h ==>
            OnCanvas(cw, ch, inv, x, y) &&
            var q := RotateCoords(cw, ch, inv, x, y);
            OnCanvas(w, h, rot, q.0, q.1) && RotateCoords(w, h, rot, q.0, q.1) == (x, y))
  {
  }

  /** Turning a picture of height h a quarter clockwise takes its pixel p here. */
  function QuarterTurn(h: nat, p: (int, int)): (int, int) { (h - 1 - p.1, p.0) }

  /** How many quarter turns a rotation stands for. */
  function Quarters(rot: Rotation): nat {
    match rot
    case Rot0 => 0
    case Rot90 => 1
    case Rot180 => 2
    case Rot270 => 3
  }

  /** n quarter turns of pixel p of a w x h picture. */
  function Turned(w: nat, h: nat, p: (int, int), n: nat): (int, int)
    decreases n
  {
    if n == 0 then p else Turned(h, w, QuarterTurn(h, p), n - 1)
  }

  /** The canvas is the image turned clockwise by the rotation's quarters: turning the image pixel that
    * rotate_coords names for a canvas position brings it to that position. */
  lemma CanvasIsTurned(w: nat, h: nat, rot: Rotation, x: nat, y: nat)
    requires OnCanvas(w, h, rot, x, y)
    ensures Turned(w, h, RotateCoords(w, h, rot, x, y), Quarters(rot)) == (x, y)
  {
    var p := RotateCoords(w, h, rot, x, y);
    var p1 := QuarterTurn(h, p);
    var p2 := QuarterTurn(w, p1);
    var p3 := QuarterTurn(h, p2);
    assert Turned(w, h, p3, 0) == p3 && Turned(h, w, p3, 0) == p3;
    assert Turned(w, h, p2, 1) == p3 && Turned(w, h, p2, 0) == p2;
    assert Turned(h, w, p1, 2) == p3 && Turned(h, w, p1, 1) == p2 && Turned(h, w, p1, 0) == p1;
  }

  // ---------------------------------------------------------------------------------------
  // Reading pixels
  // ---------------------------------------------------------------------------------------

  lemma PixelInBounds(w: nat, h: nat, x: nat, y: nat)
    requires x < w && y < h
    ensures 0 <= (y * w + x) * 3 && (y * w + x) * 3 + 2 < 3 * (h * w)
  {
    assert h * w == w * y + w * (h - y);
    MulBound(w, h - y);
  }

  function Pixel(img: Image, x: nat, y: nat): Rgb
    requires img.Valid() && x < img.w && y < img.h
  {
    PixelInBounds(img.w, img.h, x, y);
    var i := (y * img.w + x) * 3;
    Rgb(img.pixels[i], img.pixels[i + 1], img.pixels[i + 2])
  }

  function Colour(p: Rgb): nat { p.r * 65536 + p.g * 256 + p.b }

  function FromColour(c: nat): Rgb { Rgb(c / 65536 % 256, c / 256 % 256, c % 256) }

  lemma ColourRoundTrip(p: Rgb)
    ensures FromColour(Colour(p)) == p
  {
    var c := Colour(p);
    assert c % 256 == p.b && c / 256 == p.r * 256 + p.g && c / 65536 == p.r;
  }

  /** A pixel is its three bytes in memory order, and its colour has red in the high byte and blue in the
    * low one. */
  lemma PixelBytes(img: Image, x: nat, y: nat)
    requires img.Valid() && x < img.w && y < img.h
    ensures 0 <= 3 * (y * img.w + x) <= |img.pixels| - 3
    ensures var p, i := Pixel(img, x, y), 3 * (y * img.w + x);
      [p.r, p.g, p.b] == img.pixels[i..i + 3]
    ensures var p := Pixel(img, x, y);
      0 <= Colour(p) - 0x10000 * p.r < 0x10000 && Colour(p) % 0x100 == p.b
  {
    PixelInBounds(img.w, img.h, x, y);
    ColourRoundTrip(Pixel(img, x, y));
  }

  /** The image seen through the rotation. */
  function CanvasPixel(img: Image, rot: Rotation, x: nat, y: nat): Rgb
    requires img.Valid() && OnCanvas(img.w, img.h, rot, x, y)
  {
    var p := RotateCoords(img.w, img.h, rot, x, y);
    Pixel(img, p.0, p.1)
  }

  function PixelNearest(img: Image, fx: real, fy: real, rot: Rotation): nat
    requires img.Valid() && 0.0 <= fx && 0.0 <= fy
  {
    var sx := Min(fx.Floor, SrcW(img.w, img.h, rot) - 1);
    var sy := Min(fy.Floor, SrcH(img.w, img.h, rot) - 1);
    Colour(CanvasPixel(img, rot, sx, sy))
  }

  /** The nearest sampler shows the pixel whose cell the point is in. */
  lemma NearestShowsCell(img: Image, fx: real, fy: real, rot: Rotation, i: nat, j: nat)
    requires img.Valid() && 0.0 <= fx && 0.0 <= fy && OnCanvas(img.w, img.h, rot, i, j)
    requires i as real <= fx < i as real + 1.0 && j as real <= fy < j as real + 1.0
    ensures PixelNearest(img, fx, fy, rot) == Colour(CanvasPixel(img, rot, i, j))
  {
    assert fx.Floor == i && fy.Floor == j;
  }

  predicate Fraction(t: real) { 0.0 <= t <= 1.0 }

  lemma Interpolates(a: real, b: real, t: real, d: real)
    requires Fraction(t) && d == (b - a) * t
    ensures a <= b ==> 0.0 <= d <= b - a
    ensures b <= a ==> b - a <= d <= 0.0
    ensures t == 0.0 ==> d == 0.0
  {
    var u := 1.0 - t;
    RealProductSign(b - a, t);
    RealProductSign(b - a, u);
    RealProductSign(a - b, t);
    RealProductSign(a - b, u);
    assert (b - a) * t + (b - a) * u == b - a;
    assert (a - b) * t + (a - b) * u == a - b;
    assert (a - b) * t == -((b - a) * t);
  }

  function Mix(a: real, b: real, t: real): (v: real)
    requires Fraction(t)
    ensures a <= b ==> a <= v <= b
    ensures b <= a ==> b <= v <= a
    ensures t == 0.0 ==> v == a
  {
    var d := (b - a) * t;
    Interpolates(a, b, t, d);
    a + d
  }

  /** The point that weighs b by t and a by the rest. */
  function Weighted(a: real, b: real, t: real): real { (1.0 - t) * a + t * b }

  lemma MixIsWeighted(a: real, b: real, t: real)
    requires Fraction(t)
    ensures Mix(a, b, t) == Weighted(a, b, t)
  {
    assert (b - a) * t == t * b - t * a;
    assert (1.0 - t) * a == a - t * a;
  }

  /** lerp truncates the weighted point, and still stays between its arguments. */
  function Lerp(a: byte, b: byte, t: real): (c: byte)
    requires Fraction(t)
    ensures Min(a, b) <= c <= Max(a, b)
    ensures t == 0.0 ==> c == a
    ensures c as real <= Weighted(a as real, b as real, t) < c as real + 1.0
  {
    MixIsWeighted(a as real, b as real, t);
    var v := Mix(a as real, b as real, t);
    v.Floor
  }

  /** The exact bilinear value: each corner with its weight. */
  function Weighted2(a: real, b: real, c: real, d: real, tx: real, ty: real): real {
    (1.0 - tx) * (1.0 - ty) * a + tx * (1.0 - ty) * b + (1.0 - tx) * ty * c + tx * ty * d
  }

  lemma WeightsMultiply(a: real, b: real, c: real, d: real, tx: real, ty: real)
    ensures Weighted2(a, b, c, d, tx, ty) == Weighted(Weighted(a, b, tx), Weighted(c, d, tx), ty)
  {
    var p, q := (1.0 - tx) * a, tx * b;
    var r, s := (1.0 - tx) * c, tx * d;
    assert (1.0 - ty) * (p + q) == (1.0 - ty) * p + (1.0 - ty) * q;
    assert ty * (r + s) == ty * r + ty * s;
    assert (1.0 - tx) * (1.0 - ty) * a == (1.0 - ty) * p && tx * (1.0 - ty) * b == (1.0 - ty) * q;
    assert (1.0 - tx) * ty * c == ty * r && tx * ty * d == ty * s;
  }

  lemma ScaledClose(s: real, u: real, top: real, su: real, sTop: real)
    requires 0.0 <= s && u <= top < u + 1.0 && su == s * u && sTop == s * top
    ensures su <= sTop <= su + s
    ensures 0.0 < s ==> sTop < su + s
  {
    var d, r := top - u, u + 1.0 - top;
    RealProductSign(s, d);
    RealProductSign(s, r);
    assert s * d == sTop - su;
    assert s * r == su + s - sTop;
  }

  /** Lowering both ends by less than one lowers the point between them by less than one. */
  lemma WeightedClose(u: real, v: real, top: real, bottom: real, t: real)
    requires Fraction(t) && u <= top < u + 1.0 && v <= bottom < v + 1.0
    ensures Weighted(u, v, t) <= Weighted(top, bottom, t) < Weighted(u, v, t) + 1.0
  {
    var s := 1.0 - t;
    var su, sTop, tv, tBottom := s * u, s * top, t * v, t * bottom;
    ScaledClose(s, u, top, su, sTop);
    ScaledClose(t, v, bottom, tv, tBottom);
    assert 0.0 < s || 0.0 < t;
    assert sTop + tBottom < su + tv + 1.0;
  }

  function Lerp2(a: byte, b: byte, c: byte, d: byte, tx: real, ty: real): (e: byte)
    requires Fraction(tx) && Fraction(ty)
    ensures Min(Min(a, b), Min(c, d)) <= e <= Max(Max(a, b), Max(c, d))
    ensures tx == 0.0 && ty == 0.0 ==> e == a
    ensures e as real <= Weighted2(a as real, b as real, c as real, d as real, tx, ty) < e as real + 2.0
  {
    var u, v := Lerp(a, b, tx), Lerp(c, d, tx);
    WeightsMultiply(a as real, b as real, c as real, d as real, tx, ty);
    WeightedClose(u as real, v as real, Weighted(a as real, b as real, tx), Weighted(c as real, d as real, tx), ty);
    Lerp(u, v, ty)
  }

  /** The four pixels pixel_bilinear reads: (x0, y0) is not clamped. */
  function Corners(img: Image, x0: nat, y0: nat, rot: Rotation): (Rgb, Rgb, Rgb, Rgb)
    requires img.Valid() && OnCanvas(img.w, img.h, rot, x0, y0)
  {
    var x1 := if x0 + 1 < SrcW(img.w, img.h, rot) then x0 + 1 else x0;
    var y1 := if y0 + 1 < SrcH(img.w, img.h, rot) then y0 + 1 else y0;
    (CanvasPixel(img, rot, x0, y0), CanvasPixel(img, rot, x1, y0),
     CanvasPixel(img, rot, x0, y1), CanvasPixel(img, rot, x1, y1))
  }

  /** One channel of the interpolated pixel. */
  function Blend(a: byte, b: byte, c: byte, d: byte, fx: real, fy: real): (v: byte)
    requires 0.0 <= fx && 0.0 <= fy
    ensures Between(v, a, b, c, d)
    ensures Near(v, a, b, c, d, fx - fx.Floor as real, fy - fy.Floor as real)
  {
    Lerp2(a, b, c, d, fx - fx.Floor as real, fy - fy.Floor as real)
  }

  function BilinearRgb(img: Image, fx: real, fy: real, rot: Rotation): Rgb
    requires img.Valid() && 0.0 <= fx && 0.0 <= fy && OnCanvas(img.w, img.h, rot, fx.Floor, fy.Floor)
  {
    var (p00, p10, p01, p11) := Corners(img, fx.Floor, fy.Floor, rot);
    Rgb(Blend(p00.r, p10.r, p01.r, p11.r, fx, fy),
        Blend(p00.g, p10.g, p01.g, p11.g, fx, fy),
        Blend(p00.b, p10.b, p01.b, p11.b, fx, fy))
  }

  function PixelBilinear(img: Image, fx: real, fy: real, rot: Rotation): nat
    requires img.Valid() && 0.0 <= fx && 0.0 <= fy && OnCanvas(img.w, img.h, rot, fx.Floor, fy.Floor)
  {
    Colour(BilinearRgb(img, fx, fy, rot))
  }

  predicate Between(v: byte, a: byte, b: byte, c: byte, d: byte) {
    Min(Min(a, b), Min(c, d)) <= v <= Max(Max(a, b), Max(c, d))
  }

  /** v is the bilinear value of the corners, truncated at most twice. */
  predicate Near(v: byte, a: byte, b: byte, c: byte, d: byte, tx: real, ty: real) {
    v as real <= Weighted2(a as real, b as real, c as real, d as real, tx, ty) < v as real + 2.0
  }

  /** The same for the three channels. */
  predicate NearRgb(p: Rgb, a: Rgb, b: Rgb, c: Rgb, d: Rgb, tx: real, ty: real) {
    && Near(p.r, a.r, b.r, c.r, d.r, tx, ty)
    && Near(p.g, a.g, b.g, c.g, d.g, tx, ty)
    && Near(p.b, a.b, b.b, c.b, d.b, tx, ty)
  }

  lemma BlendsCorners(img: Image, fx: real, fy: real, rot: Rotation)
    requires img.Valid() && 0.0 <= fx && 0.0 <= fy && OnCanvas(img.w, img.h, rot, fx.Floor, fy.Floor)
    ensures var (a, b, c, d) := Corners(img, fx.Floor, fy.Floor, rot);
      NearRgb(BilinearRgb(img, fx, fy, rot), a, b, c, d, fx - fx.Floor as real, fy - fy.Floor as real)
  {
  }

  lemma CornersAre(img: Image, i: nat, j: nat, rot: Rotation)
    requires img.Valid() && OnCanvas(img.w, img.h, rot, i, j)
    ensures var right, below :=
        Min(i + 1, SrcW(img.w, img.h, rot) - 1), Min(j + 1, SrcH(img.w, img.h, rot) - 1);
      Corners(img, i, j, rot) ==
        (CanvasPixel(img, rot, i, j), CanvasPixel(img, rot, right, j),
         CanvasPixel(img, rot, i, below), CanvasPixel(img, rot, right, below))
  {
  }

  /** Every channel of the pixel at a point is, up to truncation, the weighted sum of the four canvas
    * pixels around it, of which the last column and row stand for those beyond them. */
  lemma BilinearWeighs(img: Image, rot: Rotation, fx: real, fy: real)
    requires img.Valid() && 0.0 <= fx && 0.0 <= fy && OnCanvas(img.w, img.h, rot, fx.Floor, fy.Floor)
    ensures FromColour(PixelBilinear(img, fx, fy, rot)) == BilinearRgb(img, fx, fy, rot)
    ensures var i, j := fx.Floor, fy.Floor;
      var right, below :=
        Min(i + 1, SrcW(img.w, img.h, rot) - 1), Min(j + 1, SrcH(img.w, img.h, rot) - 1);
      NearRgb(BilinearRgb(img, fx, fy, rot),
              CanvasPixel(img, rot, i, j), CanvasPixel(img, rot, right, j),
              CanvasPixel(img, rot, i, below), CanvasPixel(img, rot, right, below),
              fx - i as real, fy - j as real)
  {
    ColourRoundTrip(BilinearRgb(img, fx, fy, rot));
    BlendsCorners(img, fx, fy, rot);
    CornersAre(img, fx.Floor, fy.Floor, rot);
  }

  /** Every channel of an interpolated pixel lies between the least and the greatest of its four
    * samples. */
  lemma BilinearBetweenSamples(img: Image, fx: real, fy: real, rot: Rotation)
    requires img.Valid() && 0.0 <= fx && 0.0 <= fy && OnCanvas(img.w, img.h, rot, fx.Floor, fy.Floor)
    ensures var p, (a, b, c, d) := FromColour(PixelBilinear(img, fx, fy, rot)), Corners(img, fx.Floor, fy.Floor, rot);
      Between(p.r, a.r, b.r, c.r, d.r) && Between(p.g, a.g, b.g, c.g, d.g) && Between(p.b, a.b, b.b, c.b, d.b)
  {
    ColourRoundTrip(BilinearRgb(img, fx, fy, rot));
  }

  // ---------------------------------------------------------------------------------------
  // Scaling to fit
  // ---------------------------------------------------------------------------------------

  /** The framebuffer's visible size. */
  datatype Fb = Fb(w: nat, h: nat) {
    ghost predicate Valid() { 0 < w && 0 < h }
  }

  function Scale(fb: Fb, img: Image, rot: Rotation): (s: real)
    requires fb.Valid() && img.Valid()
    ensures 0.0 < s
    ensures s <= fb.w as real / SrcW(img.w, img.h, rot) as real
    ensures s <= fb.h as real / SrcH(img.w, img.h, rot) as real
    ensures s == fb.w as real / SrcW(img.w, img.h, rot) as real || s == fb.h as real / SrcH(img.w, img.h, rot) as real
  {
    var sx, sy := fb.w as real / SrcW(img.w, img.h, rot) as real, fb.h as real / SrcH(img.w, img.h, rot) as real;
    if sx < sy then sx else sy
  }

  function DstW(fb: Fb, img: Image, rot: Rotation): nat
    requires fb.Valid() && img.Valid()
  {
    RealProductSign(SrcW(img.w, img.h, rot) as real, Scale(fb, img, rot));
    Scaled(SrcW(img.w, img.h, rot), Scale(fb, img, rot))
  }

  function DstH(fb: Fb, img: Image, rot: Rotation): nat
    requires fb.Valid() && img.Valid()
  {
    RealProductSign(SrcH(img.w, img.h, rot) as real, Scale(fb, img, rot));
    Scaled(SrcH(img.w, img.h, rot), Scale(fb, img, rot))
  }

  /** The scaled length of a side. */
  function Scaled(src: nat, s: real): int { (src as real * s).Floor }

  lemma ScaledSide(src: nat, side: nat, s: real)
    requires 0 < src && 0.0 < s
    ensures s <= side as real / src as real ==> 0 <= Scaled(src, s) <= side
    ensures s == side as real / src as real ==> Scaled(src, s) == side
  {
    var n, q := src as real, side as real / src as real;
    assert q * n == side as real;
    RealMulOrder(n, q, s);
    assert n * s == s * n;
  }

  lemma FitsWhere(w: nat, h: nat, srcW: nat, srcH: nat, s: real)
    requires 0 < srcW && 0 < srcH && 0.0 < s
    requires s <= w as real / srcW as real && s <= h as real / srcH as real
    requires s == w as real / srcW as real || s == h as real / srcH as real
    ensures 0 <= Scaled(srcW, s) <= w && 0 <= Scaled(srcH, s) <= h
    ensures Scaled(srcW, s) == w || Scaled(srcH, s) == h
  {
    ScaledSide(srcW, w, s);
    ScaledSide(srcH, h, s);
  }

  /** The scaled image fits the framebuffer and fills it along at least one axis, so the centring
    * offsets do not underflow. */
  lemma FitsAndFills(fb: Fb, img: Image, rot: Rotation)
    requires fb.Valid() && img.Valid()
    ensures DstW(fb, img, rot) <= fb.w && DstH(fb, img, rot) <= fb.h
    ensures DstW(fb, img, rot) == fb.w || DstH(fb, img, rot) == fb.h
  {
    FitsWhere(fb.w, fb.h, SrcW(img.w, img.h, rot), SrcH(img.w, img.h, rot), Scale(fb, img, rot));
  }

  lemma UnscaledSide(src: nat, s: real, x: nat)
    requires 0.0 < s && x < Scaled(src, s)
    ensures 0.0 <= x as real / s < src as real
    ensures 0 <= (x as real / s).Floor < src
  {
    var q := x as real / s;
    assert q * s == x as real;
    RealMulOrder(s, q, 0.0);
    RealMulOrder(s, q, src as real);
  }

  /** Pixel (x, y) of the image scaled by s is on the scaled canvas. */
  predicate OnScaled(img: Image, rot: Rotation, s: real, x: nat, y: nat) {
    0.0 < s && x < Scaled(SrcW(img.w, img.h, rot), s) && y < Scaled(SrcH(img.w, img.h, rot), s)
  }

  /** Every pixel of the scaled image maps onto the canvas: neither sampler reads outside the image,
    * and the clamp of pixel_nearest never acts. */
  lemma SamplesOnCanvas(img: Image, rot: Rotation, s: real, x: nat, y: nat)
    requires OnScaled(img, rot, s, x, y)
    ensures 0.0 <= x as real / s && 0.0 <= y as real / s
    ensures OnCanvas(img.w, img.h, rot, (x as real / s).Floor, (y as real / s).Floor)
  {
    UnscaledSide(SrcW(img.w, img.h, rot), s, x);
    UnscaledSide(SrcH(img.w, img.h, rot), s, y);
  }

  /** Pixel (x, y) of the image scaled by s. */
  function SampleScaled(img: Image, rot: Rotation, interp: Interpolation, s: real, x: nat, y: nat): nat
    requires img.Valid() && OnScaled(img, rot, s, x, y)
  {
    SamplesOnCanvas(img, rot, s, x, y);
    if interp.Bilinear? then PixelBilinear(img, x as real / s, y as real / s, rot)
    else PixelNearest(img, x as real / s, y as real / s, rot)
  }

  lemma QuotientIs(x: nat, s: real, q: real)
    requires 0.0 < s && q * s == x as real
    ensures x as real / s == q
  {
    var r := x as real / s;
    assert r * s == x as real;
    RealMulOrder(s, r, q);
    RealMulOrder(s, q, r);
  }

  /** Which canvas point pixel (x, y) of the scaled image shows: the one, (fx, fy), that scaling takes to
    * (x, y). The nearest sampler shows the pixel whose cell it is in, the bilinear one its blend. */
  lemma SampleShows(img: Image, rot: Rotation, s: real, x: nat, y: nat, fx: real, fy: real)
    requires img.Valid() && OnScaled(img, rot, s, x, y) && fx * s == x as real && fy * s == y as real
    ensures 0.0 <= fx && 0.0 <= fy && OnCanvas(img.w, img.h, rot, fx.Floor, fy.Floor)
    ensures SampleScaled(img, rot, Nearest, s, x, y) == Colour(CanvasPixel(img, rot, fx.Floor, fy.Floor))
    ensures SampleScaled(img, rot, Bilinear, s, x, y) == PixelBilinear(img, fx, fy, rot)
  {
    QuotientIs(x, s, fx);
    QuotientIs(y, s, fy);
    SamplesOnCanvas(img, rot, s, x, y);
    NearestShowsCell(img, fx, fy, rot, fx.Floor, fy.Floor);
  }

  /** The scaled image as a function of its pixel coordinates. */
  function Sampler(img: Image, rot: Rotation, interp: Interpolation, s: real): (f: (nat, nat) --> nat)
    requires img.Valid()
    ensures forall x: nat, y: nat {:trigger f.requires(x, y)} :: OnScaled(img, rot, s, x, y) ==> f.requires(x, y)
  {
    (x: nat, y: nat) requires OnScaled(img, rot, s, x, y) => SampleScaled(img, rot, interp, s, x, y)
  }

  /** A rectangle of the framebuffer. */
  datatype Box = Box(offX: nat, offY: nat, w: nat, h: nat) {
    predicate Contains(x: int, y: int) { offX <= x < offX + w && offY <= y < offY + h }
  }

  /** Where the scaled image goes: centred. */
  function BoxOf(fb: Fb, img: Image, rot: Rotation): (b: Box)
    requires fb.Valid() && img.Valid()
    ensures b.w == DstW(fb, img, rot) && b.h == DstH(fb, img, rot)
    ensures b.offX + b.w <= fb.w && b.offY + b.h <= fb.h
    ensures 0 <= fb.w - b.w - 2 * b.offX <= 1 && 0 <= fb.h - b.h - 2 * b.offY <= 1
  {
    FitsAndFills(fb, img, rot);
    var w, h := DstW(fb, img, rot), DstH(fb, img, rot);
    Box((fb.w - w) / 2, (fb.h - h) / 2, w, h)
  }

  ghost predicate Covers(b: Box, f: (nat, nat) --> nat) {
    forall x: nat, y: nat {:trigger f.requires(x, y)} :: x < b.w && y < b.h ==> f.requires(x, y)
  }

  /** A picture placed in a box on black. */
  function Placed(b: Box, f: (nat, nat) --> nat, x: int, y: int): nat
    requires Covers(b, f)
  {
    if b.Contains(x, y) then f(x - b.offX, y - b.offY) else 0
  }

  /** What the visible pixel (x, y) must become. */
  function Target(fb: Fb, img: Image, rot: Rotation, interp: Interpolation, x: int, y: int): nat
    requires fb.Valid() && img.Valid()
  {
    Placed(BoxOf(fb, img, rot), Sampler(img, rot, interp, Scale(fb, img, rot)), x, y)
  }

  /** img_render. Row y of dst is the fb_stride bytes of framebuffer row y, as words; words from
    * fb.w on are padding. */
  method Render(dst: array2<nat>, fb: Fb, img: Image, rot: Rotation, interp: Interpolation)
    requires fb.Valid() && img.Valid()
    requires dst.Length0 == fb.h && fb.w <= dst.Length1
    modifies dst
    ensures forall y, x :: 0 <= y < fb.h && 0 <= x < dst.Length1 ==>
      dst[y, x] == if x < fb.w then Target(fb, img, rot, interp, x, y) else old(dst[y, x])
  {
    ClearRows(dst, fb);
    Draw(dst, fb, BoxOf(fb, img, rot), Sampler(img, rot, interp, Scale(fb, img, rot)));
  }

  /** The drawing loops, with the choice of sampler and its coordinates as `f`. */
  method Draw(dst: array2<nat>, fb: Fb, b: Box, f: (nat, nat) --> nat)
    requires dst.Length0 == fb.h && fb.w <= dst.Length1
    requires b.offX + b.w <= fb.w && b.offY + b.h <= fb.h && Covers(b, f)
    requires forall y, x :: 0 <= y < fb.h && 0 <= x < fb.w ==> dst[y, x] == 0
    modifies dst
    ensures forall y, x :: 0 <= y < fb.h && 0 <= x < dst.Length1 ==>
      dst[y, x] == if x < fb.w then Placed(b, f, x, y) else old(dst[y, x])
  {
    for y := 0 to b.h
      invariant forall j, i :: 0 <= j < fb.h && 0 <= i < dst.Length1 ==>
        dst[j, i] == if b.offY <= j < b.offY + y && i < fb.w then Placed(b, f, i, j) else old(dst[j, i])
    {
      for x := 0 to b.w
        invariant forall j, i :: 0 <= j < fb.h && 0 <= i < dst.Length1 ==>
          dst[j, i] == if (b.offY <= j < b.offY + y && i < fb.w) || (j == b.offY + y && b.offX <= i < b.offX + x)
                       then Placed(b, f, i, j) else old(dst[j, i])
      {
        dst[y + b.offY, x + b.offX] := f(x, y);
      }
    }
  }

  /** Outside the centred box the picture is black; inside, it is the scaled image. */
  lemma TargetByRegion(fb: Fb, img: Image, rot: Rotation, interp: Interpolation, x: int, y: int)
    requires fb.Valid() && img.Valid()
    ensures var b, s := BoxOf(fb, img, rot), Scale(fb, img, rot);
      Target(fb, img, rot, interp, x, y) ==
        if b.Contains(x, y) then SampleScaled(img, rot, interp, s, x - b.offX, y - b.offY) else 0
  {
  }

  /** The memset of every visible row. */
  method ClearRows(dst: array2<nat>, fb: Fb)
    requires dst.Length0 == fb.h && fb.w <= dst.Length1
    modifies dst
    ensures forall y, x :: 0 <= y < fb.h && 0 <= x < dst.Length1 ==>
      dst[y, x] == if x < fb.w then 0 else old(dst[y, x])
  {
    for y := 0 to fb.h
      invariant forall j, i :: 0 <= j < fb.h && 0 <= i < dst.Length1 ==>
        dst[j, i] == if j < y && i < fb.w then 0 else old(dst[j, i])
    {
      for x := 0 to fb.w
        invariant forall j, i :: 0 <= j < fb.h && 0 <= i < dst.Length1 ==>
          dst[j, i] == if (j < y || (j == y && i < x)) && i < fb.w then 0 else old(dst[j, i])
      {
        dst[y, x] := 0;
      }
    }
  }

  // ---------------------------------------------------------------------------------------
  // Scale one
  // ---------------------------------------------------------------------------------------

  lemma BilinearAtInteger(img: Image, rot: Rotation, x: nat, y: nat)
    requires img.Valid() && OnCanvas(img.w, img.h, rot, x, y)
    ensures PixelBilinear(img, x as real, y as real, rot) == Colour(CanvasPixel(img, rot, x, y))
  {
  }

  lemma NearestAtInteger(img: Image, rot: Rotation, x: nat, y: nat)
    requires img.Valid() && OnCanvas(img.w, img.h, rot, x, y)
    ensures PixelNearest(img, x as real, y as real, rot) == Colour(CanvasPixel(img, rot, x, y))
  {
  }

  lemma UnitScaled(n: nat)
    ensures Scaled(n, 1.0) == n && n as real / 1.0 == n as real
  {
  }

  lemma UnitSampleCopies(img: Image, rot: Rotation, interp: Interpolation, x: nat, y: nat)
    requires img.Valid() && OnScaled(img, rot, 1.0, x, y) && OnCanvas(img.w, img.h, rot, x, y)
    ensures SampleScaled(img, rot, interp, 1.0, x, y) == Colour(CanvasPixel(img, rot, x, y))
  {
    UnitScaled(x);
    UnitScaled(y);
    if interp.Bilinear? { BilinearAtInteger(img, rot, x, y); } else { NearestAtInteger(img, rot, x, y); }
  }

  /** At scale one both samplers copy: the picture is the rotated image, pixel for pixel. */
  lemma UnitScaleCopies(fb: Fb, img: Image, rot: Rotation, interp: Interpolation, x: nat, y: nat)
    requires fb.Valid() && img.Valid() && Scale(fb, img, rot) == 1.0 && OnCanvas(img.w, img.h, rot, x, y)
    ensures var b := BoxOf(fb, img, rot);
      && b.w == SrcW(img.w, img.h, rot) && b.h == SrcH(img.w, img.h, rot)
      && Target(fb, img, rot, interp, x + b.offX, y + b.offY) == Colour(CanvasPixel(img, rot, x, y))
  {
    var b := BoxOf(fb, img, rot);
    UnitScaled(SrcW(img.w, img.h, rot));
    UnitScaled(SrcH(img.w, img.h, rot));
    TargetByRegion(fb, img, rot, interp, x + b.offX, y + b.offY);
    UnitSampleCopies(img, rot, interp, x, y);
  }

  lemma SelfQuotient(n: nat)
    requires 0 < n
    ensures n as real / n as real == 1.0
  {
  }

  /** A framebuffer exactly as large as the rotated canvas is one case of scale one, without bars. */
  lemma ExactFit(img: Image, rot: Rotation)
    requires img.Valid()
    ensures var fb := Fb(SrcW(img.w, img.h, rot), SrcH(img.w, img.h, rot));
      && fb.Valid() && Scale(fb, img, rot) == 1.0
      && BoxOf(fb, img, rot).offX == 0 && BoxOf(fb, img, rot).offY == 0
  {
    var fb := Fb(SrcW(img.w, img.h, rot), SrcH(img.w, img.h, rot));
    SelfQuotient(fb.w);
    SelfQuotient(fb.h);
    UnitScaleCopies(fb, img, rot, Nearest, 0, 0);
  }

  /** `out` is the picture that Render leaves inside the bars of a framebuffer at scale one. */
  ghost predicate IsRendering(out: Image, fb: Fb, img: Image, rot: Rotation, interp: Interpolation)
    requires img.Valid() && fb.Valid()
  {
    var b := BoxOf(fb, img, rot);
    && out.Valid() && out.w == SrcW(img.w, img.h, rot) && out.h == SrcH(img.w, img.h, rot)
    && forall x, y {:trigger OnCanvas(img.w, img.h, rot, x, y)} :: OnCanvas(img.w, img.h, rot, x, y) ==>
         Colour(Pixel(out, x, y)) == Target(fb, img, rot, interp, x + b.offX, y + b.offY)
  }

  lemma RenderingPixel(out: Image, fb: Fb, img: Image, rot: Rotation, interp: Interpolation, x: nat, y: nat)
    requires img.Valid() && fb.Valid() && Scale(fb, img, rot) == 1.0
    requires IsRendering(out, fb, img, rot, interp) && OnCanvas(img.w, img.h, rot, x, y)
    ensures Pixel(out, x, y) == CanvasPixel(img, rot, x, y)
  {
    UnitScaleCopies(fb, img, rot, interp, x, y);
    ColourRoundTrip(Pixel(out, x, y));
    ColourRoundTrip(CanvasPixel(img, rot, x, y));
  }

  /** Rendering under a rotation and then rendering the result under the inverse rotation, into any two
    * framebuffers at scale one, restores every pixel, with either sampler each time. */
  lemma RotationRoundTrip(img: Image, out: Image, back: Image, fb: Fb, gb: Fb, rot: Rotation,
                          i: Interpolation, j: Interpolation)
    requires img.Valid() && out.Valid() && fb.Valid() && gb.Valid()
    requires Scale(fb, img, rot) == 1.0 && Scale(gb, out, Inverse(rot)) == 1.0
    requires IsRendering(out, fb, img, rot, i) && IsRendering(back, gb, out, Inverse(rot), j)
    ensures back == img
  {
    forall x: nat, y: nat {:trigger Pixel(back, x, y)} | x < img.w && y < img.h
      ensures Pixel(back, x, y) == Pixel(img, x, y)
    {
      RotateCoordsBijective(img.w, img.h, rot, x, y);
      RenderingPixel(back, gb, out, Inverse(rot), j, x, y);
      var q := RotateCoords(out.w, out.h, Inverse(rot), x, y);
      RenderingPixel(out, fb, img, rot, i, q.0, q.1);
    }
    SamePixelsSameImage(back, img);
  }

  lemma SamePixelsSameImage(a: Image, b: Image)
    requires a.Valid() && b.Valid() && a.w == b.w && a.h == b.h
    requires forall x: nat, y: nat {:trigger Pixel(a, x, y)} :: x < a.w && y < a.h ==> Pixel(a, x, y) == Pixel(b, x, y)
    ensures a == b
  {
    forall k | 0 <= k < |a.pixels|
      ensures a.pixels[k] == b.pixels[k]
    {
      var n := k / 3;
      var x, y := n % a.w, n / a.w;
      assert n == y * a.w + x;
      MulOrder(a.w, y, a.h);
      assert Pixel(a, x, y) == Pixel(b, x, y);
    }
    assert a.pixels == b.pixels;
  }
}
