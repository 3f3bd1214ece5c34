/** Palettization of `main.js`: the two error-diffusion matrices,
    `palettizeWithErrorDiffusion`, `thresholdMatrixToMap` and
    `palettizeWithThresholdMap`. Both palettizers work on a copy of the source
    image (`cloneImageData`) whose bytes live in a `Uint8ClampedArray`, so
    every store goes through the ECMAScript `ToUint8Clamp` conversion
    (section 7.1.12 of ECMA-262). The copy is a fresh sequence here. */
module Dither {

  import opened Wrappers
  import Arith
  import Vector
  import Color
  import StrictOps
  import Image
  import Palette
  import Operators

  /** A pixel or palette colour: four RGBA channels. */
  type Rgba = Color.Rgba

  /** The channels of a colour as JavaScript numbers. */
  function AsReals(c: seq<int>): (r: seq<real>)
    ensures |r| == |c|
    ensures forall k :: 0 <= k < |r| ==> r[k] == c[k] as real
  {
    seq(|c|, k requires 0 <= k < |c| => c[k] as real)
  }

  /** The bytes a clamped array holds after storing `values`. */
  function Stored(values: seq<real>): (r: seq<int>)
    ensures |r| == |values|
    ensures forall k :: 0 <= k < |r| ==> r[k] == Color.ToUint8Clamp(values[k])
  {
    seq(|values|, k requires 0 <= k < |values| => Color.ToUint8Clamp(values[k]))
  }

  /** Storing byte channels and reading them back is the identity. */
  lemma {:induction false} StoredOfBytes(c: seq<int>)
    requires Color.HasByteChannels(c)
    ensures Stored(AsReals(c)) == c
  {
    forall k | 0 <= k < |c| ensures Stored(AsReals(c))[k] == c[k] {
      Color.ClampOfByte(c[k]);
    }
  }

  /** `view.set(values)` on the 4-byte view of the pixel whose bytes start at
      `at`: those bytes become the clamped values, all others stay. */
  function Store(data: seq<int>, at: int, values: seq<real>): (r: seq<int>)
    requires 0 <= at && at + 4 <= |data| && |values| == 4
    ensures |r| == |data|
    ensures forall i :: 0 <= i < |r| ==> r[i] == if at <= i < at + 4 then Color.ToUint8Clamp(values[i - at]) else data[i]
  {
    data[..at] + Stored(values) + data[at + 4..]
  }

  /** After a store into pixel `o`, pixel `o` reads back the clamped values
      and every other pixel reads what it held before. */
  lemma {:induction false} StorePixel(img: Image.ImageData, o: int, values: seq<real>, q: int)
    requires 0 <= o && (o + 1) * 4 <= |img.data| && |values| == 4
    ensures Image.PixelAt(img.(data := Store(img.data, o * 4, values)), q) ==
      if q == o then Some(Stored(values)) else Image.PixelAt(img, q)
  {
    var stored := img.(data := Store(img.data, o * 4, values));
    var r := Image.PixelAt(stored, q);
    if r.Some? {
      if q == o {
        assert r.value == Stored(values);
      } else {
        assert q < o || q > o;
        assert r.value == img.data[q * 4..(q + 1) * 4];
      }
    }
  }

  /** A store keeps an image well formed: the clamp keeps every byte in
      0..255. */
  lemma {:induction false} StoreWellFormed(img: Image.ImageData, at: int, values: seq<real>)
    requires Image.WellFormed(img) && 0 <= at && at + 4 <= |img.data| && |values| == 4
    ensures Image.WellFormed(img.(data := Store(img.data, at, values)))
  {
  }

  // ---------------------------------------------------------------------
  // Error diffusion
  // ---------------------------------------------------------------------

  /** One entry `[dx, dy, s]` of a diffusion matrix: the pixel `dx` columns
      right and `dy` rows down receives the share `s` of the error. */
  datatype Tap = Tap(dx: int, dy: int, share: real)

  /** The diffusion matrices `main.js` exports. */
  datatype DiffusionMatrix = FloydSteinberg | JarvisJudiceNinke

  /** A tap that points at a pixel visited later in row-major order. */
  predicate Forward(tap: Tap)
  {
    tap.dy > 0 || (tap.dy == 0 && tap.dx > 0)
  }

  predicate AllForward(taps: seq<Tap>)
  {
    forall i :: 0 <= i < |taps| ==> Forward(taps[i])
  }

  /** The sum of the shares of the taps from index `i` on. */
  function SharesFrom(taps: seq<Tap>, i: nat): real
    decreases |taps| - i
  {
    if i >= |taps| then 0.0 else taps[i].share + SharesFrom(taps, i + 1)
  }

  /** The sum of all shares of a matrix. */
  function SharesSum(taps: seq<Tap>): real
  {
    SharesFrom(taps, 0)
  }

  /** The taps of each exported matrix: both pass the whole error on (the
      shares sum to 1) and only to pixels not yet visited. */
  function TapsOf(m: DiffusionMatrix): (r: seq<Tap>)
    ensures SharesSum(r) == 1.0
    ensures AllForward(r)
  {
    match m
    case FloydSteinberg =>
      [Tap(1, 0, 7.0 / 16.0),
       Tap(-1, 1, 3.0 / 16.0), Tap(0, 1, 5.0 / 16.0), Tap(1, 1, 1.0 / 16.0)]
    case JarvisJudiceNinke =>
      [Tap(1, 0, 7.0 / 48.0), Tap(2, 0, 5.0 / 48.0),
       Tap(-2, 1, 3.0 / 48.0), Tap(-1, 1, 5.0 / 48.0), Tap(0, 1, 7.0 / 48.0), Tap(1, 1, 5.0 / 48.0), Tap(2, 1, 3.0 / 48.0),
       Tap(-2, 2, 1.0 / 48.0), Tap(-1, 2, 3.0 / 48.0), Tap(0, 2, 5.0 / 48.0), Tap(1, 2, 3.0 / 48.0), Tap(2, 2, 1.0 / 48.0)]
  }

  /** The pixel offset a tap points at from `(x, y)`. */
  function TargetOf(img: Image.ImageData, x: int, y: int, tap: Tap): int
  {
    (y + tap.dy) * img.width + (x + tap.dx)
  }

  /** One tap of the `forEach`: when the target lies inside the image, its
      pixel becomes `sumOf(pix, uniformScale(error, s))`, clamped; taps
      outside the image are dropped by the `filter`. */
  function ApplyTap(img: Image.ImageData, x: int, y: int, error: seq<real>, tap: Tap): (r: Image.ImageData)
    requires |error| == 4
    ensures r.width == img.width && r.height == img.height && |r.data| == |img.data|
    ensures Image.WellFormed(img) ==> Image.WellFormed(r)
    ensures !Image.Inside(img, x + tap.dx, y + tap.dy) ==> r == img
  {
    match Image.PixelAtCoords(img, x + tap.dx, y + tap.dy)
    case None => img
    case Some(pix) =>
      var o := TargetOf(img, x, y, tap);
      img.(data := Store(img.data, o * 4, Vector.SumOf(AsReals(pix), Vector.UniformScale(error, tap.share))))
  }

  /** The taps in matrix order. Every tap reads its target when it is
      applied, so a target hit twice accumulates both shares. */
  function ApplyTaps(img: Image.ImageData, x: int, y: int, error: seq<real>, taps: seq<Tap>): (r: Image.ImageData)
    requires |error| == 4
    ensures r.width == img.width && r.height == img.height && |r.data| == |img.data|
    ensures Image.WellFormed(img) ==> Image.WellFormed(r)
  {
    if |taps| == 0 then img
    else ApplyTap(ApplyTaps(img, x, y, error, taps[..|taps| - 1]), x, y, error, taps[|taps| - 1])
  }

  /** A forward tap from a pixel inside the image changes no pixel up to and
      including that pixel. */
  lemma {:induction false} TapForward(img: Image.ImageData, x: int, y: int, error: seq<real>, tap: Tap, q: int)
    requires |error| == 4 && Forward(tap) && 0 <= x < img.width && 0 <= y
    requires q <= y * img.width + x
    ensures Image.PixelAt(ApplyTap(img, x, y, error, tap), q) == Image.PixelAt(img, q)
  {
    var pixel := Image.PixelAtCoords(img, x + tap.dx, y + tap.dy);
    if pixel.Some? {
      var o := TargetOf(img, x, y, tap);
      if tap.dy > 0 {
        Arith.MulMono(y + 1, y + tap.dy, img.width);
        assert o >= (y + 1) * img.width;
      }
      assert o > y * img.width + x;
      StorePixel(img, o, Vector.SumOf(AsReals(pixel.value), Vector.UniformScale(error, tap.share)), q);
    }
  }

  /** Forward taps from a pixel inside the image change no pixel up to and
      including that pixel. */
  lemma {:induction false} TapsForward(img: Image.ImageData, x: int, y: int, error: seq<real>, taps: seq<Tap>, q: int)
    requires |error| == 4 && AllForward(taps) && 0 <= x < img.width && 0 <= y
    requires q <= y * img.width + x
    ensures Image.PixelAt(ApplyTaps(img, x, y, error, taps), q) == Image.PixelAt(img, q)
  {
    if |taps| > 0 {
      var n := |taps| - 1;
      assert AllForward(taps[..n]);
      TapsForward(img, x, y, error, taps[..n], q);
      TapForward(ApplyTaps(img, x, y, error, taps[..n]), x, y, error, taps[n], q);
    }
  }

  /** The vector of four zeros. */
  predicate IsZero(error: seq<real>)
  {
    forall k :: 0 <= k < |error| ==> error[k] == 0.0
  }

  /** A zero error leaves a well-formed image as it is. */
  lemma {:induction false} TapZero(img: Image.ImageData, x: int, y: int, error: seq<real>, tap: Tap)
    requires |error| == 4 && IsZero(error) && Image.WellFormed(img)
    ensures ApplyTap(img, x, y, error, tap) == img
  {
    var pixel := Image.PixelAtCoords(img, x + tap.dx, y + tap.dy);
    if pixel.Some? {
      var o := TargetOf(img, x, y, tap);
      assert pixel == Image.PixelAt(img, o);
      var pix := pixel.value;
      ZeroErrorAddsNothing(AsReals(pix), error, tap.share);
      StoreSame(img, o, pix);
    }
  }

  /** Adding a share of a zero error changes no channel. */
  lemma ZeroErrorAddsNothing(v: seq<real>, error: seq<real>, share: real)
    requires |v| <= |error| && IsZero(error)
    ensures Vector.SumOf(v, Vector.UniformScale(error, share)) == v
  {
    var sum := Vector.SumOf(v, Vector.UniformScale(error, share));
    forall k | 0 <= k < |v| ensures sum[k] == v[k] {
      assert error[k] * share == 0.0;
    }
  }

  /** Storing the pixel an image already holds at offset `o` leaves its data
      as it is. */
  lemma StoreSame(img: Image.ImageData, o: int, pix: seq<int>)
    requires Image.WellFormed(img) && Image.PixelAt(img, o) == Some(pix)
    ensures Store(img.data, o * 4, AsReals(pix)) == img.data
  {
    assert Color.HasByteChannels(pix);
    StoredOfBytes(pix);
    var data := Store(img.data, o * 4, AsReals(pix));
    forall i | 0 <= i < |data| ensures data[i] == img.data[i] {
      if o * 4 <= i < o * 4 + 4 {
        assert pix[i - o * 4] == img.data[i];
      }
    }
  }

  /** A zero error leaves a well-formed image as it is, whatever the taps. */
  lemma {:induction false} TapsZero(img: Image.ImageData, x: int, y: int, error: seq<real>, taps: seq<Tap>)
    requires |error| == 4 && IsZero(error) && Image.WellFormed(img)
    ensures ApplyTaps(img, x, y, error, taps) == img
  {
    if |taps| > 0 {
      var n := |taps| - 1;
      TapsZero(img, x, y, error, taps[..n]);
      TapZero(img, x, y, error, taps[n]);
    }
  }

  /** The key `color => C.distanceOf(srcpix, color)`, squared. */
  function DistanceFrom(src: Rgba): Rgba -> real
  {
    (c: Rgba) => Color.NormalizedSquaredDistance(src, c)
  }

  /** `closest` by the source's distance and by its square pick the same
      palette colour, because squaring keeps the order of non-negative
      distances. */
  lemma {:induction false} ClosestBySquaredDistance(src: Rgba, palette: seq<Rgba>, distance: Rgba -> real)
    requires forall c: Rgba :: distance(c) >= 0.0 && distance(c) * distance(c) == DistanceFrom(src)(c)
    ensures Palette.Closest(distance, palette) == Palette.Closest(DistanceFrom(src), palette)
  {
    var squared := DistanceFrom(src);
    forall i, j | 0 <= i < |palette| && 0 <= j < |palette|
      ensures distance(palette[i]) < distance(palette[j]) <==> squared(palette[i]) < squared(palette[j])
    {
      Vector.RootCompare(distance(palette[i]), squared(palette[i]), distance(palette[j]), squared(palette[j]), 0.0);
    }
    Palette.ClosestOrderInvariant(distance, squared, palette);
  }

  /** A colour of the palette is its own closest palette colour. */
  lemma {:induction false} ClosestOfMember(src: Rgba, palette: seq<Rgba>, j: int)
    requires 0 <= j < |palette| && palette[j] == src
    ensures Palette.Closest(DistanceFrom(src), palette) == Some(src)
  {
    var dist := DistanceFrom(src);
    Palette.ClosestIsEarliestMinimum(dist, palette);
    var i :| Operators.IsEarliestMinimum(dist, palette, i) && Palette.Closest(dist, palette) == Some(palette[i]);
    Color.DistanceMetric(src, src);
    Color.DistanceMetric(src, palette[i]);
    assert dist(palette[i]) <= dist(palette[j]);
  }

  /** The colour the source pixel at `(x, y)` is replaced with. */
  function Replacement(img: Image.ImageData, palette: seq<Rgba>, x: int, y: int): (r: Rgba)
    requires Image.WellFormed(img) && Image.Inside(img, x, y) && |palette| > 0
    ensures r in palette
  {
    Image.PixelAtCoordsInside(img, x, y);
    var src: Rgba := Image.PixelAtCoords(img, x, y).value;
    Palette.Closest(DistanceFrom(src), palette).value
  }

  /** The body of the `forEach` for pixel `(x, y)`: replace the pixel by its
      closest palette colour and hand the difference on through the taps. */
  function DiffuseAt(img: Image.ImageData, palette: seq<Rgba>, taps: seq<Tap>, x: int, y: int): (r: Image.ImageData)
    requires Image.WellFormed(img) && Image.Inside(img, x, y) && |palette| > 0
    ensures Image.WellFormed(r) && r.width == img.width && r.height == img.height
  {
    Image.PixelAtCoordsInside(img, x, y);
    var src: Rgba := Image.PixelAtCoords(img, x, y).value;
    var res := Replacement(img, palette, x, y);
    var error := Vector.DifferenceOf(AsReals(src), AsReals(res));
    var o := y * img.width + x;
    StoreWellFormed(img, o * 4, AsReals(res));
    ApplyTaps(img.(data := Store(img.data, o * 4, AsReals(res))), x, y, error, taps)
  }

  /** With forward taps, the pixel at `(x, y)` ends up holding its palette
      colour and no earlier pixel changes. */
  lemma {:induction false} DiffuseAtForward(img: Image.ImageData, palette: seq<Rgba>, taps: seq<Tap>, x: int, y: int, q: int)
    requires Image.WellFormed(img) && Image.Inside(img, x, y) && |palette| > 0 && AllForward(taps)
    requires q <= y * img.width + x
    ensures Image.PixelAt(DiffuseAt(img, palette, taps, x, y), q) ==
      if q == y * img.width + x then Some(Stored(AsReals(Replacement(img, palette, x, y)))) else Image.PixelAt(img, q)
  {
    Image.PixelAtCoordsInside(img, x, y);
    var src: Rgba := Image.PixelAtCoords(img, x, y).value;
    var res := Replacement(img, palette, x, y);
    var error := Vector.DifferenceOf(AsReals(src), AsReals(res));
    var o := y * img.width + x;
    var written := img.(data := Store(img.data, o * 4, AsReals(res)));
    StorePixel(img, o, AsReals(res), q);
    TapsForward(written, x, y, error, taps, q);
  }

  /** A pixel that already is a palette colour stays as it is, and so does
      the rest of the image: its error is zero. */
  lemma {:induction false} DiffuseAtMember(img: Image.ImageData, palette: seq<Rgba>, taps: seq<Tap>, x: int, y: int, j: int)
    requires Image.WellFormed(img) && Image.Inside(img, x, y) && 0 <= j < |palette|
    requires Image.PixelAtCoords(img, x, y) == Some(palette[j])
    ensures DiffuseAt(img, palette, taps, x, y) == img
  {
    Image.PixelAtCoordsInside(img, x, y);
    var src: Rgba := Image.PixelAtCoords(img, x, y).value;
    ClosestOfMember(src, palette, j);
    var res := Replacement(img, palette, x, y);
    assert res == src;
    var error := Vector.DifferenceOf(AsReals(src), AsReals(res));
    assert IsZero(error);
    StoreSame(img, y * img.width + x, src);
    assert img.(data := img.data) == img;
    TapsZero(img, x, y, error, taps);
  }

  /** The pixel is a palette colour as a clamped array stores it. */
  predicate IsPaletteColor(palette: seq<Rgba>, pixel: seq<int>)
  {
    exists i :: 0 <= i < |palette| && pixel == Stored(AsReals(palette[i]))
  }

  /** The pixel at offset `q` of a well-formed image. */
  function PixelOf(img: Image.ImageData, q: int): (r: Rgba)
    requires Image.WellFormed(img) && 0 <= q < img.width * img.height
  {
    Image.PixelAt(img, q).value
  }

  /** Every pixel of the image equals a palette colour. */
  predicate AllInPalette(img: Image.ImageData, palette: seq<Rgba>)
    requires Image.WellFormed(img)
  {
    forall q :: 0 <= q < img.width * img.height ==> exists j :: 0 <= j < |palette| && PixelOf(img, q) == palette[j]
  }

  /** The coordinates of the pixel at offset `p` in row-major order. */
  lemma {:induction false} CoordinatesOf(img: Image.ImageData, p: int)
    requires Image.WellFormed(img) && 0 <= p < img.width * img.height
    ensures img.width > 0
    ensures Image.Inside(img, p % img.width, p / img.width)
    ensures p / img.width * img.width + p % img.width == p
  {
    if img.width == 0 {
      assert false;
    }
    Arith.DivBound(p, img.width, img.height);
  }

  /** The pixels before offset `p` are palette colours. */
  ghost predicate PaletteUpTo(img: Image.ImageData, palette: seq<Rgba>, p: int)
    requires Image.WellFormed(img) && p <= img.width * img.height
  {
    forall q :: 0 <= q < p ==> IsPaletteColor(palette, PixelOf(img, q))
  }

  /** With forward taps, one step of the error diffusion at offset `p`
      extends the palette prefix by the pixel at `p`. */
  lemma {:induction false} DiffuseStepPalette(img: Image.ImageData, palette: seq<Rgba>, taps: seq<Tap>, x: int, y: int)
    requires Image.WellFormed(img) && Image.Inside(img, x, y) && |palette| > 0 && AllForward(taps)
    requires y * img.width + x < img.width * img.height
    requires PaletteUpTo(img, palette, y * img.width + x)
    ensures PaletteUpTo(DiffuseAt(img, palette, taps, x, y), palette, y * img.width + x + 1)
  {
    var p := y * img.width + x;
    var next := DiffuseAt(img, palette, taps, x, y);
    forall q | 0 <= q < p + 1 ensures IsPaletteColor(palette, PixelOf(next, q)) {
      DiffusedPixel(img, palette, taps, x, y, q);
    }
  }

  /** With forward taps, after the step at `(x, y)` every pixel up to that
      one is a palette colour, provided the earlier ones were. */
  lemma {:induction false} DiffusedPixel(img: Image.ImageData, palette: seq<Rgba>, taps: seq<Tap>, x: int, y: int, q: int)
    requires Image.WellFormed(img) && Image.Inside(img, x, y) && |palette| > 0 && AllForward(taps)
    requires 0 <= q <= y * img.width + x < img.width * img.height
    requires q < y * img.width + x ==> IsPaletteColor(palette, PixelOf(img, q))
    ensures IsPaletteColor(palette, PixelOf(DiffuseAt(img, palette, taps, x, y), q))
  {
    var next := DiffuseAt(img, palette, taps, x, y);
    DiffuseAtForward(img, palette, taps, x, y, q);
    if q == y * img.width + x {
      var res := Replacement(img, palette, x, y);
      var i :| 0 <= i < |palette| && palette[i] == res;
      assert PixelOf(next, q) == Stored(AsReals(palette[i]));
    }
  }

  /** On an image whose pixels all are palette colours a step of the error
      diffusion changes nothing. */
  lemma {:induction false} DiffuseStepMember(img: Image.ImageData, palette: seq<Rgba>, taps: seq<Tap>, x: int, y: int)
    requires Image.WellFormed(img) && Image.Inside(img, x, y) && |palette| > 0
    requires y * img.width + x < img.width * img.height
    requires AllInPalette(img, palette)
    ensures DiffuseAt(img, palette, taps, x, y) == img
  {
    var p := y * img.width + x;
    var j :| 0 <= j < |palette| && PixelOf(img, p) == palette[j];
    DiffuseAtMember(img, palette, taps, x, y, j);
  }

  /** `palettizeWithErrorDiffusion(sourceImageData, palette, diffusionMatrix)`:
      visits the pixels of a copy of the source row by row, replacing each by
      its closest palette colour and diffusing the difference. With an empty
      palette `closest` returns `undefined` and `differenceOf` indexes it,
      which raises a `TypeError` at the first pixel; an image without pixels
      comes back as its copy. Otherwise the result has the source's
      dimensions; with forward taps (as both exported matrices have) every
      pixel ends up a palette colour; and an image whose pixels all are
      palette colours comes back unchanged. */
  method PalettizeWithErrorDiffusion(source: Image.ImageData, palette: seq<Rgba>, taps: seq<Tap>)
    returns (result: Result<Image.ImageData>)
    requires Image.WellFormed(source)
    ensures result.Failure? <==> |palette| == 0 && source.width * source.height > 0
    ensures result.Failure? ==> result.error == TypeError("respix")
    ensures result.Success? ==>
      Image.WellFormed(result.value) && result.value.width == source.width && result.value.height == source.height
    ensures result.Success? && AllForward(taps) ==>
      forall q :: 0 <= q < source.width * source.height ==> IsPaletteColor(palette, PixelOf(result.value, q))
    ensures AllInPalette(source, palette) ==> result == Success(source)
  {
    if |palette| == 0 && source.width * source.height > 0 {
      ghost var first := PixelOf(source, 0);
      return Failure(TypeError("respix"));
    }
    var img := source;
    var p := 0;
    while p < source.width * source.height
      invariant 0 <= p <= source.width * source.height
      invariant Image.WellFormed(img) && img.width == source.width && img.height == source.height
      invariant AllForward(taps) ==> PaletteUpTo(img, palette, p)
      invariant AllInPalette(source, palette) ==> img == source
    {
      CoordinatesOf(img, p);
      var y, x := p / img.width, p % img.width;
      if AllForward(taps) {
        DiffuseStepPalette(img, palette, taps, x, y);
      }
      if AllInPalette(source, palette) {
        DiffuseStepMember(img, palette, taps, x, y);
      }
      img := DiffuseAt(img, palette, taps, x, y);
      p := p + 1;
    }
    return Success(img);
  }

  // ---------------------------------------------------------------------
  // Ordered dithering
  // ---------------------------------------------------------------------

  /** The threshold matrices `main.js` exports. */
  datatype ThresholdMatrix = Ordered3x3 | Ordered8x8

  /** The levels of each exported threshold matrix: square, non-empty, and
      every threshold in [0, 1). */
  function LevelsOf(m: ThresholdMatrix): (r: seq<seq<real>>)
    ensures |r| > 0
    ensures forall i :: 0 <= i < |r| ==> |r[i]| == |r|
    ensures forall i, j :: 0 <= i < |r| && 0 <= j < |r[i]| ==> 0.0 <= r[i][j] < 1.0
  {
    match m
    case Ordered3x3 => Scaled(9.0, [[0, 7, 3], [6, 5, 2], [4, 1, 8]])
    case Ordered8x8 =>
      Scaled(64.0, [
        [0, 48, 12, 60, 3, 51, 15, 63],
        [32, 16, 44, 28, 35, 19, 47, 31],
        [8, 56, 4, 52, 11, 59, 7, 55],
        [40, 24, 36, 20, 43, 27, 39, 23],
        [2, 50, 14, 62, 1, 49, 13, 61],
        [34, 18, 46, 30, 33, 17, 45, 29],
        [10, 58, 6, 54, 9, 57, 5, 53],
        [42, 26, 38, 22, 41, 25, 37, 21]])
  }

  /** A matrix of numerators over `denominator`, as the source writes them
      (`k/9`, `k/64`). */
  function Scaled(denominator: real, numerators: seq<seq<int>>): (r: seq<seq<real>>)
    requires denominator > 0.0
    ensures |r| == |numerators|
    ensures forall i :: 0 <= i < |r| ==> |r[i]| == |numerators[i]|
    ensures forall i, j :: 0 <= i < |r| && 0 <= j < |r[i]| ==> r[i][j] == numerators[i][j] as real / denominator
  {
    seq(|numerators|, i requires 0 <= i < |numerators| =>
      seq(|numerators[i]|, j requires 0 <= j < |numerators[i]| => numerators[i][j] as real / denominator))
  }

  /** `thresholdMatrixToMap(thresholdMatrix)(colidx, rowidx)`: the matrix
      tiled over the image, row `rowidx % rows` and column
      `colidx % row.length`. An empty row yields `undefined` (here `None`);
      an empty matrix would make the lookup throw, so it is excluded. The
      coordinates are the non-negative indices the palettizer passes. */
  function ThresholdAt(matrix: seq<seq<real>>, x: nat, y: nat): (r: Option<real>)
    requires |matrix| > 0
    ensures r.None? <==> |matrix[y % |matrix|]| == 0
    ensures r.Some? ==> exists i, j :: 0 <= i < |matrix| && 0 <= j < |matrix[i]| && r.value == matrix[i][j]
  {
    var row := matrix[y % |matrix|];
    if |row| == 0 then None else Some(row[x % |row|])
  }

  /** The map repeats the matrix: one matrix height down, or one row length
      across, finds the same threshold, and inside the first tile the map is
      the matrix itself. */
  lemma {:induction false} ThresholdAtTiles(matrix: seq<seq<real>>, x: nat, y: nat)
    requires |matrix| > 0
    ensures ThresholdAt(matrix, x, y + |matrix|) == ThresholdAt(matrix, x, y)
    ensures ThresholdAt(matrix, x + |matrix[y % |matrix|]|, y) == ThresholdAt(matrix, x, y)
    ensures y < |matrix| && x < |matrix[y]| ==> ThresholdAt(matrix, x, y) == Some(matrix[y][x])
  {
    Arith.DivModUnique(y + |matrix|, |matrix|, y / |matrix| + 1, y % |matrix|);
    var row := matrix[y % |matrix|];
    if |row| > 0 {
      Arith.DivModUnique(x + |row|, |row|, x / |row| + 1, x % |row|);
    }
    if y < |matrix| {
      Arith.DivModUnique(y, |matrix|, 0, y);
      if x < |matrix[y]| {
        Arith.DivModUnique(x, |matrix[y]|, 0, x);
      }
    }
  }

  /** Which of the two nearest colours `closest2[...]` selects, from the
      squared distances `n0` (pixel to nearest) and `n01` (nearest to second
      nearest): the nearest exactly when the ratio of the distances lies
      below the threshold. */
  function SelectIndex(n0: real, n01: real, threshold: Option<real>): (r: nat)
    ensures r <= 1
  {
    if threshold.Some? && n01 > 0.0 && threshold.value > 0.0 && n0 < threshold.value * threshold.value * n01 then 0
    else 1
  }

  /** `d0 / d01 < threshold` on the distances themselves, where a zero `d01`
      makes the ratio `NaN` or `Infinity` and `undefined` compares false,
      decides exactly as `SelectIndex` on their squares. */
  lemma {:induction false} SelectIndexIsRatioTest(d0: real, n0: real, d01: real, n01: real, threshold: Option<real>)
    requires d0 >= 0.0 && d0 * d0 == n0 && d01 >= 0.0 && d01 * d01 == n01
    ensures SelectIndex(n0, n01, threshold) == 0 <==> threshold.Some? && d01 != 0.0 && d0 / d01 < threshold.value
  {
    if d01 == 0.0 {
      assert n01 == 0.0;
    } else if threshold.Some? {
      var t := threshold.value;
      assert d01 > 0.0;
      Vector.MulPositive(d01, d01);
      Vector.DivBelow(d0, d01, t);
      Vector.RootCompare(d0, n0, d01, n01, t * d01);
      assert (t * d01) * (t * d01) == t * t * n01;
      assert 0.0 < t * d01 <==> 0.0 < t by {
        if 0.0 < t {
          Vector.MulPositive(t, d01);
        } else if t < 0.0 {
          Vector.MulPositive(-t, d01);
        }
      }
    }
  }

  /** `closest2`: the palette partially sorted by distance to the pixel, cut
      to its two nearest colours. */
  function ClosestTwo(pixel: Rgba, palette: seq<Rgba>): (r: seq<Rgba>)
    requires |palette| >= 2
    ensures |r| == 2
  {
    StrictOps.PartialSort(DistanceFrom(pixel), 2, palette)
  }

  /** Partially sorting by non-negative keys or by their squares gives the
      same result. */
  lemma PartialSortBySquares(key: Rgba -> real, squared: Rgba -> real, k: int, s: seq<Rgba>)
    requires forall x :: key(x) >= 0.0 && key(x) * key(x) == squared(x)
    ensures StrictOps.PartialSort(key, k, s) == StrictOps.PartialSort(squared, k, s)
  {
    forall x, y
      ensures key(x) < key(y) <==> squared(x) < squared(y)
    {
      Vector.RootCompare(key(x), squared(x), key(y), squared(y), 0.0);
    }
    StrictOps.PartialSortOrderInvariant(key, squared, k, s);
  }

  /** `closest2` keyed by the source's distance and by its square are the
      same two colours in the same order, because squaring keeps the order
      of non-negative distances. */
  lemma ClosestTwoBySquaredDistance(pixel: Rgba, palette: seq<Rgba>, distance: Rgba -> real)
    requires |palette| >= 2
    requires forall c: Rgba :: distance(c) >= 0.0 && distance(c) * distance(c) == DistanceFrom(pixel)(c)
    ensures StrictOps.PartialSort(distance, 2, palette) == ClosestTwo(pixel, palette)
  {
    var squared := DistanceFrom(pixel);
    assert forall c: Rgba :: distance(c) >= 0.0 && distance(c) * distance(c) == squared(c);
    PartialSortBySquares(distance, squared, 2, palette);
    assert ClosestTwo(pixel, palette) == StrictOps.PartialSort(squared, 2, palette);
  }

  /** The two colours are a nearest colour and a nearest of the others: both
      come from the palette, the first is no farther than the second, and
      every other colour is at least as far as the second. */
  lemma {:induction false} ClosestTwoNearest(pixel: Rgba, palette: seq<Rgba>)
    requires |palette| >= 2
    ensures multiset(ClosestTwo(pixel, palette)) <= multiset(palette)
    ensures DistanceFrom(pixel)(ClosestTwo(pixel, palette)[0]) <= DistanceFrom(pixel)(ClosestTwo(pixel, palette)[1])
    ensures forall c :: c in multiset(palette) - multiset(ClosestTwo(pixel, palette)) ==>
      DistanceFrom(pixel)(ClosestTwo(pixel, palette)[1]) <= DistanceFrom(pixel)(c)
  {
    var key := DistanceFrom(pixel);
    var r := ClosestTwo(pixel, palette);
    StrictOps.PartialSortSorted(key, 2, palette);
    StrictOps.PartialSortContents(key, 2, palette);
    StrictOps.DroppedAboveKept(key, 2, palette);
    assert r[1] in r;
    assert multiset(palette) - multiset(r) == StrictOps.Dropped(key, 2, palette);
  }

  /** The colour the threshold map picks for one pixel: one of its two
      nearest palette colours. */
  function ThresholdPick(pixel: Rgba, palette: seq<Rgba>, threshold: Option<real>): (r: Rgba)
    requires |palette| >= 2
    ensures r == ClosestTwo(pixel, palette)[0] || r == ClosestTwo(pixel, palette)[1]
  {
    var closest2 := ClosestTwo(pixel, palette);
    var n0 := Color.NormalizedSquaredDistance(pixel, closest2[0]);
    var n01 := Color.NormalizedSquaredDistance(closest2[0], closest2[1]);
    closest2[SelectIndex(n0, n01, threshold)]
  }

  /** A threshold that is missing or not positive always selects the
      second-nearest colour. */
  lemma {:induction false} ThresholdPickWithoutThreshold(pixel: Rgba, palette: seq<Rgba>, threshold: Option<real>)
    requires |palette| >= 2
    requires threshold.None? || threshold.value <= 0.0
    ensures ThresholdPick(pixel, palette, threshold) == ClosestTwo(pixel, palette)[1]
  {
  }

  /** A pixel that is the nearest of two distinct nearest colours is kept
      for any positive threshold. */
  lemma {:induction false} ThresholdPickKeepsPixel(pixel: Rgba, palette: seq<Rgba>, threshold: real)
    requires |palette| >= 2 && threshold > 0.0
    requires ClosestTwo(pixel, palette)[0] == pixel && ClosestTwo(pixel, palette)[1] != pixel
    ensures ThresholdPick(pixel, palette, Some(threshold)) == pixel
  {
    var closest2 := ClosestTwo(pixel, palette);
    var second: Rgba := closest2[1];
    Color.DistanceMetric(pixel, pixel);
    Color.DistanceMetric(pixel, second);
    var n0 := Color.NormalizedSquaredDistance(pixel, pixel);
    var n01 := Color.NormalizedSquaredDistance(pixel, second);
    assert n0 == 0.0 && n01 > 0.0;
    SelectIndexOfExact(n01, threshold);
  }

  /** A pixel at distance zero from the nearest colour selects it whenever
      the two nearest colours differ and the threshold is positive. */
  lemma SelectIndexOfExact(n01: real, threshold: real)
    requires n01 > 0.0 && threshold > 0.0
    ensures SelectIndex(0.0, n01, Some(threshold)) == 0
  {
    Vector.MulPositive(threshold, n01);
    Vector.MulPositive(threshold, threshold * n01);
    assert threshold * threshold * n01 == threshold * (threshold * n01);
  }

  /** The colour picked for the pixel at offset `p`, with the threshold at
      its coordinates. */
  function PickColor(img: Image.ImageData, palette: seq<Rgba>, thresholdMap: (nat, nat) -> Option<real>, p: int): Rgba
    requires Image.WellFormed(img) && |palette| >= 2 && 0 <= p < img.width * img.height
  {
    CoordinatesOf(img, p);
    ThresholdPick(PixelOf(img, p), palette, thresholdMap(p % img.width, p / img.width))
  }

  /** The pick depends only on the pixel and the image's width. */
  lemma PickColorOfSame(a: Image.ImageData, b: Image.ImageData, palette: seq<Rgba>, thresholdMap: (nat, nat) -> Option<real>, p: int)
    requires Image.WellFormed(a) && Image.WellFormed(b) && |palette| >= 2
    requires a.width == b.width && a.height == b.height && 0 <= p < a.width * a.height
    requires PixelOf(a, p) == PixelOf(b, p)
    ensures PickColor(a, palette, thresholdMap, p) == PickColor(b, palette, thresholdMap, p)
  {
  }

  /** The image after the pick for the pixel at offset `p`. */
  function PickAt(img: Image.ImageData, palette: seq<Rgba>, thresholdMap: (nat, nat) -> Option<real>, p: int): (r: Image.ImageData)
    requires Image.WellFormed(img) && |palette| >= 2 && 0 <= p < img.width * img.height
    ensures Image.WellFormed(r) && r.width == img.width && r.height == img.height
  {
    var selected := PickColor(img, palette, thresholdMap, p);
    StoreWellFormed(img, p * 4, AsReals(selected));
    img.(data := Store(img.data, p * 4, AsReals(selected)))
  }

  /** The pixels before `p` of `result` are the picks for the pixels of
      `source`. */
  ghost predicate PickedUpTo(result: Image.ImageData, source: Image.ImageData, palette: seq<Rgba>,
                             thresholdMap: (nat, nat) -> Option<real>, p: int)
    requires Image.WellFormed(result) && Image.WellFormed(source) && |palette| >= 2
    requires result.width == source.width && result.height == source.height && p <= source.width * source.height
  {
    forall q :: 0 <= q < p ==> PixelOf(result, q) == Stored(AsReals(PickColor(source, palette, thresholdMap, q)))
  }

  /** The pixels from `p` on are still those of the source. */
  ghost predicate UntouchedFrom(result: Image.ImageData, source: Image.ImageData, p: int)
    requires Image.WellFormed(result) && Image.WellFormed(source)
    requires result.width == source.width && result.height == source.height
  {
    forall q :: 0 <= p <= q < source.width * source.height ==> PixelOf(result, q) == PixelOf(source, q)
  }

  /** One pick extends the picked prefix by one pixel and touches no later
      pixel. */
  lemma {:induction false} PickStep(result: Image.ImageData, source: Image.ImageData, palette: seq<Rgba>,
                                    thresholdMap: (nat, nat) -> Option<real>, p: int)
    requires Image.WellFormed(result) && Image.WellFormed(source) && |palette| >= 2
    requires result.width == source.width && result.height == source.height && 0 <= p < source.width * source.height
    requires PickedUpTo(result, source, palette, thresholdMap, p) && UntouchedFrom(result, source, p)
    ensures PickedUpTo(PickAt(result, palette, thresholdMap, p), source, palette, thresholdMap, p + 1)
    ensures UntouchedFrom(PickAt(result, palette, thresholdMap, p), source, p + 1)
  {
    var next := PickAt(result, palette, thresholdMap, p);
    PickColorOfSame(result, source, palette, thresholdMap, p);
    forall q | 0 <= q < source.width * source.height
      ensures q != p ==> PixelOf(next, q) == PixelOf(result, q)
      ensures q == p ==> PixelOf(next, q) == Stored(AsReals(PickColor(source, palette, thresholdMap, p)))
    {
      PickAtPixel(result, palette, thresholdMap, p, q);
    }
  }

  /** The pick for offset `p` stores the picked colour at `p` and leaves
      every other pixel as it was. */
  lemma PickAtPixel(img: Image.ImageData, palette: seq<Rgba>, thresholdMap: (nat, nat) -> Option<real>, p: int, q: int)
    requires Image.WellFormed(img) && |palette| >= 2 && 0 <= p < img.width * img.height && 0 <= q < img.width * img.height
    ensures q != p ==> PixelOf(PickAt(img, palette, thresholdMap, p), q) == PixelOf(img, q)
    ensures q == p ==> PixelOf(PickAt(img, palette, thresholdMap, p), q) == Stored(AsReals(PickColor(img, palette, thresholdMap, p)))
  {
    StorePixel(img, p, AsReals(PickColor(img, palette, thresholdMap, p)), q);
  }

  /** `palettizeWithThresholdMap(sourceImageData, palette, thresholdMap)`:
      every pixel of a copy of the source is replaced, independently of the
      others, by one of its two nearest palette colours, as the threshold at
      its coordinates selects. With fewer than two palette colours,
      `distanceOf` is handed the missing `closest2` entry and reads its
      `length`, which raises a `TypeError` at the first pixel; an image
      without pixels comes back as its copy. */
  method PalettizeWithThresholdMap(source: Image.ImageData, palette: seq<Rgba>, thresholdMap: (nat, nat) -> Option<real>)
    returns (result: Result<Image.ImageData>)
    requires Image.WellFormed(source)
    ensures result.Failure? <==> |palette| < 2 && source.width * source.height > 0
    ensures result.Failure? ==> result.error == TypeError(if |palette| == 0 then "closest2[0]" else "closest2[1]")
    ensures |palette| < 2 && source.width * source.height == 0 ==> result == Success(source)
    ensures result.Success? ==>
      Image.WellFormed(result.value) && result.value.width == source.width && result.value.height == source.height
    ensures result.Success? ==> forall q :: 0 < source.width && 0 <= q < source.width * source.height ==>
      PixelOf(result.value, q) == Stored(AsReals(ThresholdPick(PixelOf(source, q), palette, thresholdMap(q % source.width, q / source.width))))
  {
    if |palette| < 2 {
      if source.width * source.height > 0 {
        return Failure(TypeError(if |palette| == 0 then "closest2[0]" else "closest2[1]"));
      }
      return Success(source);
    }
    var img := source;
    var p := 0;
    while p < source.width * source.height
      invariant 0 <= p <= source.width * source.height
      invariant Image.WellFormed(img) && img.width == source.width && img.height == source.height
      invariant PickedUpTo(img, source, palette, thresholdMap, p)
      invariant UntouchedFrom(img, source, p)
    {
      PickStep(img, source, palette, thresholdMap, p);
      img := PickAt(img, palette, thresholdMap, p);
      p := p + 1;
    }
    PickedAll(img, source, palette, thresholdMap);
    return Success(img);
  }

  /** Once every pixel is picked, each holds the pick for its coordinates. */
  lemma PickedAll(result: Image.ImageData, source: Image.ImageData, palette: seq<Rgba>, thresholdMap: (nat, nat) -> Option<real>)
    requires Image.WellFormed(result) && Image.WellFormed(source) && |palette| >= 2
    requires result.width == source.width && result.height == source.height
    requires PickedUpTo(result, source, palette, thresholdMap, source.width * source.height)
    ensures forall q :: 0 < source.width && 0 <= q < source.width * source.height ==>
      PixelOf(result, q) == Stored(AsReals(ThresholdPick(PixelOf(source, q), palette, thresholdMap(q % source.width, q / source.width))))
  {
    forall q | 0 < source.width && 0 <= q < source.width * source.height
      ensures PixelOf(result, q) == Stored(AsReals(ThresholdPick(PixelOf(source, q), palette, thresholdMap(q % source.width, q / source.width))))
    {
      assert PixelOf(result, q) == Stored(AsReals(PickColor(source, palette, thresholdMap, q)));
    }
  }

  /** Every pixel the threshold map palettizes is a palette colour. */
  lemma {:induction false} ThresholdPickInPalette(pixel: Rgba, palette: seq<Rgba>, threshold: Option<real>)
    requires |palette| >= 2
    ensures IsPaletteColor(palette, Stored(AsReals(ThresholdPick(pixel, palette, threshold))))
  {
    ClosestTwoNearest(pixel, palette);
    var closest2 := ClosestTwo(pixel, palette);
    var pick := ThresholdPick(pixel, palette, threshold);
    assert pick in multiset(closest2);
    assert pick in palette;
    var i :| 0 <= i < |palette| && palette[i] == pick;
  }

  /** `thresholdMatrixToMap(thresholdMatrix)` as the map the palettizer
      takes. */
  function ThresholdMatrixToMap(matrix: seq<seq<real>>): (nat, nat) -> Option<real>
    requires |matrix| > 0
  {
    (x: nat, y: nat) => ThresholdAt(matrix, x, y)
  }
}
