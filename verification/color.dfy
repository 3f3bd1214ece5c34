/** Colour arithmetic of `lib/color.js`: equality, the conversions between
    byte channels and unit floats, premultiplied-alpha averaging, the
    normalised distance and transparency. A colour is an array of channel
    numbers; a pixel's colour is its four RGBA bytes. */
module Color {

  import opened Wrappers
  import Vector

  type Color = seq<int>

  /** A pixel's colour: exactly four RGBA channels. */
  type Rgba = c: Color | |c| == 4 witness [0, 0, 0, 0]

  /** Every channel lies in 0..255. */
  predicate HasByteChannels(c: Color)
  {
    forall i :: 0 <= i < |c| ==> 0 <= c[i] <= 255
  }

  /** `areEqual(lhs, rhs)`: `lhs.every((v, i) => v === rhs[i])`. The length
      check is a `console.assert`, which only logs: a shorter `rhs` reads
      `undefined` and differs, a longer one is compared on the channels of
      `lhs` only. So the colours are "equal" when `lhs` is a prefix of `rhs`. */
  function AreEqual(lhs: Color, rhs: Color): bool
  {
    forall i :: 0 <= i < |lhs| ==> i < |rhs| && lhs[i] == rhs[i]
  }

  /** `areEqual` holds exactly when `lhs` is a prefix of `rhs`; on colours of
      the same length (the case the assertion asks for) it is equality. */
  lemma AreEqualIsPrefix(lhs: Color, rhs: Color)
    ensures AreEqual(lhs, rhs) <==> lhs <= rhs
    ensures |lhs| == |rhs| ==> (AreEqual(lhs, rhs) <==> lhs == rhs)
  {
    if AreEqual(lhs, rhs) {
      if |lhs| > 0 {
        var i := |lhs| - 1;
        assert i < |rhs| && lhs[i] == rhs[i];
      }
      assert lhs == rhs[..|lhs|];
    }
  }

  /** `Math.round`: the nearest integer, halves rounded up. */
  function Round(x: real): int
  {
    (x + 0.5).Floor
  }

  /** `Math.round` leaves integers alone and keeps a value in 0..255 there. */
  lemma RoundFacts(x: real, k: int)
    ensures Round(k as real) == k
    ensures 0.0 <= x <= 255.0 ==> 0 <= Round(x) <= 255
  {
  }

  // ---------------------------------------------------------------------
  // Clamped byte stores
  // ---------------------------------------------------------------------

  /** `ToUint8Clamp`: the byte a `Uint8ClampedArray` stores for a number —
      0 below the range, 255 above it, otherwise the nearest integer with
      ties going to the even one. */
  function ToUint8Clamp(x: real): (r: int)
    ensures 0 <= r <= 255
    ensures x <= 0.0 ==> r == 0
    ensures x >= 255.0 ==> r == 255
    ensures 0.0 < x < 255.0 ==> -0.5 <= r as real - x <= 0.5
    ensures 0.0 < x < 255.0 && (r as real - x == 0.5 || x - r as real == 0.5) ==> r % 2 == 0
  {
    if x <= 0.0 then 0
    else if x >= 255.0 then 255
    else
      var f := x.Floor;
      var fraction := x - f as real;
      if fraction < 0.5 then f
      else if fraction > 0.5 then f + 1
      else if f % 2 == 0 then f
      else f + 1
  }

  /** A byte is stored as itself. */
  lemma ClampOfByte(v: int)
    requires 0 <= v <= 255
    ensures ToUint8Clamp(v as real) == v
  {
  }

  /** `fromUint8ToFloat(color)`: every channel divided by 255. */
  function FromUint8ToFloat(color: Color): (r: seq<real>)
    ensures |r| == |color|
    ensures forall i :: 0 <= i < |r| ==> r[i] == color[i] as real / 255.0
  {
    seq(|color|, i requires 0 <= i < |color| => color[i] as real / 255.0)
  }

  /** `fromFloatToUint8(color)`: every channel multiplied by 255 and rounded. */
  function FromFloatToUint8(color: seq<real>): (r: Color)
    ensures |r| == |color|
    ensures forall i :: 0 <= i < |r| ==> r[i] == Round(color[i] * 255.0)
  {
    seq(|color|, i requires 0 <= i < |color| => Round(color[i] * 255.0))
  }

  /** Converting to floats and back gives the colour back. */
  lemma FloatRoundTrip(color: Color)
    ensures FromFloatToUint8(FromUint8ToFloat(color)) == color
  {
    var back := FromFloatToUint8(FromUint8ToFloat(color));
    forall i | 0 <= i < |color| ensures back[i] == color[i] {
      RoundFacts(0.0, color[i]);
    }
  }

  /** `premultiplied([r, g, b, a])`: the colour channels scaled by alpha,
      alpha kept; channels past the fourth are dropped. */
  function Premultiplied(color: seq<real>): (r: seq<real>)
    requires |color| >= 4
    ensures |r| == 4 && r[3] == color[3]
  {
    [color[0] * color[3], color[1] * color[3], color[2] * color[3], color[3]]
  }

  /** Colour channel `k` of the premultiplied colour is the channel times
      the alpha. */
  lemma PremultipliedAt(color: seq<real>, k: nat)
    requires |color| >= 4 && k < 3
    ensures Premultiplied(color)[k] == color[k] * color[3]
  {
    if k == 0 {
    } else if k == 1 {
    } else {
    }
  }

  /** Every colour has the four RGBA channels. */
  predicate AllRgba(colors: seq<Color>)
  {
    forall i :: 0 <= i < |colors| ==> |colors[i]| >= 4
  }

  /** The `sum` that `averageOf` folds: the premultiplied float colours
      added component-wise, starting from `[0, 0, 0, 0]`. (The fold's `cnt`
      is the number of colours.) */
  function PremultipliedSum(colors: seq<Color>): (r: seq<real>)
    requires AllRgba(colors)
    ensures |r| == 4
  {
    if |colors| == 0 then [0.0, 0.0, 0.0, 0.0]
    else
      var n := |colors| - 1;
      Vector.SumOf(PremultipliedSum(colors[..n]), Premultiplied(FromUint8ToFloat(colors[n])))
  }

  /** `sum.slice(0, 3).map(v => sum[3] === 0 ? 0 : v / sum[3])`: the summed
      colour channels divided by the summed alpha. */
  function Unpremultiplied(sum: seq<real>): (r: seq<real>)
    requires |sum| == 4
    ensures |r| == 3
  {
    seq(3, k requires 0 <= k < 3 => if sum[3] == 0.0 then 0.0 else sum[k] / sum[3])
  }

  /** `averageOf(colors)`: nothing for no colours; otherwise the
      alpha-weighted mean colour and the mean alpha, back in bytes. */
  function AverageOf(colors: seq<Color>): (r: Option<Color>)
    requires AllRgba(colors)
    ensures r.None? <==> |colors| == 0
    ensures r.Some? ==> |r.value| == 4
  {
    if |colors| == 0 then None
    else
      var sum := PremultipliedSum(colors);
      Some(FromFloatToUint8(Unpremultiplied(sum) + [sum[3] / |colors| as real]))
  }

  lemma MulAtMost(x: real, y: real)
    requires 0.0 <= x <= 1.0 && 0.0 <= y
    ensures 0.0 <= x * y <= y
  {
    assert y - x * y == (1.0 - x) * y;
  }

  lemma DivAtMostOne(x: real, y: real)
    requires 0.0 <= x <= y && y > 0.0
    ensures 0.0 <= x / y <= 1.0
  {
    assert x / y * y == x;
  }

  lemma DivCancel(x: real, y: real)
    requires y != 0.0
    ensures x * y / y == x
  {
  }

  /** Premultiplying a colour of unit floats keeps its colour channels
      between 0 and its alpha. */
  lemma PremultipliedUnitBounds(c: seq<real>)
    requires |c| >= 4 && forall k :: 0 <= k < 4 ==> 0.0 <= c[k] <= 1.0
    ensures forall k :: 0 <= k < 3 ==> 0.0 <= Premultiplied(c)[k] <= Premultiplied(c)[3]
    ensures 0.0 <= Premultiplied(c)[3] <= 1.0
  {
    forall k | 0 <= k < 3 ensures 0.0 <= Premultiplied(c)[k] <= Premultiplied(c)[3] {
      PremultipliedChannel(c, k);
    }
  }

  lemma PremultipliedChannel(c: seq<real>, k: nat)
    requires |c| >= 4 && k < 3 && 0.0 <= c[k] <= 1.0 && 0.0 <= c[3]
    ensures 0.0 <= Premultiplied(c)[k] <= Premultiplied(c)[3]
  {
    var x, a := c[k], c[3];
    MulAtMost(x, a);
    assert Premultiplied(c)[k] == x * a;
  }

  /** A byte colour as floats has its channels within [0, 1]. */
  lemma UnitChannels(color: Color)
    requires |color| >= 4 && HasByteChannels(color)
    ensures forall k :: 0 <= k < 4 ==> 0.0 <= FromUint8ToFloat(color)[k] <= 1.0
  {
    forall k | 0 <= k < 4 ensures 0.0 <= FromUint8ToFloat(color)[k] <= 1.0 {
      assert 0 <= color[k] <= 255;
    }
  }

  /** Adding one premultiplied byte colour keeps the colour channels between
      0 and alpha, and adds at most 1 to alpha. */
  lemma PremultipliedStepBounds(sum: seq<real>, color: Color)
    requires |sum| == 4 && |color| >= 4 && HasByteChannels(color)
    requires forall k :: 0 <= k < 3 ==> 0.0 <= sum[k] <= sum[3]
    ensures forall k :: 0 <= k < 3 ==>
      0.0 <= Vector.SumOf(sum, Premultiplied(FromUint8ToFloat(color)))[k] <= Vector.SumOf(sum, Premultiplied(FromUint8ToFloat(color)))[3]
    ensures sum[3] <= Vector.SumOf(sum, Premultiplied(FromUint8ToFloat(color)))[3] <= sum[3] + 1.0
  {
    UnitChannels(color);
    PremultipliedUnitBounds(FromUint8ToFloat(color));
  }

  /** For byte colours the summed colour channels stay between 0 and the
      summed alpha, which stays between 0 and the number of colours. */
  lemma {:induction false} PremultipliedSumBounds(colors: seq<Color>)
    requires AllRgba(colors)
    requires forall i :: 0 <= i < |colors| ==> HasByteChannels(colors[i])
    ensures forall k :: 0 <= k < 3 ==> 0.0 <= PremultipliedSum(colors)[k] <= PremultipliedSum(colors)[3]
    ensures 0.0 <= PremultipliedSum(colors)[3] <= |colors| as real
  {
    if |colors| > 0 {
      var n := |colors| - 1;
      PremultipliedSumBounds(colors[..n]);
      PremultipliedStepBounds(PremultipliedSum(colors[..n]), colors[n]);
    }
  }

  /** For byte colours every channel of the average is a byte. */
  lemma AverageOfBounds(colors: seq<Color>)
    requires AllRgba(colors) && |colors| > 0
    requires forall i :: 0 <= i < |colors| ==> HasByteChannels(colors[i])
    ensures HasByteChannels(AverageOf(colors).value)
  {
    var sum := PremultipliedSum(colors);
    PremultipliedSumBounds(colors);
    var channels := Unpremultiplied(sum) + [sum[3] / |colors| as real];
    forall k | 0 <= k < 4 ensures 0.0 <= channels[k] <= 1.0 {
      if k < 3 && sum[3] != 0.0 {
        DivAtMostOne(sum[k], sum[3]);
      } else if k == 3 {
        DivAtMostOne(sum[3], |colors| as real);
      }
    }
    forall k | 0 <= k < 4 ensures 0 <= AverageOf(colors).value[k] <= 255 {
      RoundFacts(channels[k] * 255.0, 0);
    }
  }

  /** `isTransparent(color)`: alpha is zero (a missing alpha is not). */
  predicate IsTransparent(color: Color)
  {
    |color| > 3 && color[3] == 0
  }

  /** Fully transparent colours sum to zero alpha. */
  lemma {:induction false} TransparentSum(colors: seq<Color>)
    requires AllRgba(colors)
    requires forall i :: 0 <= i < |colors| ==> IsTransparent(colors[i])
    ensures PremultipliedSum(colors)[3] == 0.0
  {
    if |colors| > 0 {
      TransparentSum(colors[..|colors| - 1]);
    }
  }

  /** When every colour is transparent the summed alpha is zero, and the
      average is transparent black. */
  lemma AverageOfTransparent(colors: seq<Color>)
    requires AllRgba(colors) && |colors| > 0
    requires forall i :: 0 <= i < |colors| ==> IsTransparent(colors[i])
    ensures AverageOf(colors) == Some([0, 0, 0, 0])
  {
    TransparentSum(colors);
    RoundFacts(0.0, 0);
    var average := AverageOf(colors).value;
    assert forall k :: 0 <= k < 4 ==> average[k] == 0;
    assert average == [0, 0, 0, 0];
  }

  /** Rounding a real that equals an integer gives that integer. */
  lemma RoundOfInteger(z: real, v: int)
    requires z == v as real
    ensures Round(z) == v
  {
    RoundFacts(0.0, v);
  }

  /** The premultiplied sum of one colour is that colour premultiplied. */
  lemma PremultipliedSumSingle(color: Color)
    requires |color| >= 4
    ensures PremultipliedSum([color]) == Premultiplied(FromUint8ToFloat(color))
  {
    assert [color][..0] == [];
  }

  /** A single colour with some opacity averages to its own RGBA channels. */
  lemma AverageOfSingle(color: Color)
    requires |color| >= 4 && HasByteChannels(color) && color[3] > 0
    ensures AverageOf([color]) == Some(color[..4])
  {
    var c := FromUint8ToFloat(color);
    PremultipliedSumSingle(color);
    var sum := PremultipliedSum([color]);
    var average := AverageOf([color]).value;
    assert average == FromFloatToUint8(Unpremultiplied(sum) + [sum[3] / 1.0]);
    forall k | 0 <= k < 3 ensures average[k] == color[k] {
      SingleChannel(color, k);
    }
    RoundOfInteger(c[3] * 255.0, color[3]);
    assert average == color[..4];
  }

  /** One colour channel of the average of a single opaque-enough colour. */
  lemma SingleChannel(color: Color, k: nat)
    requires |color| >= 4 && HasByteChannels(color) && color[3] > 0 && k < 3
    ensures AverageOf([color]).value[k] == color[k]
  {
    var c := FromUint8ToFloat(color);
    SingleUnpremultiplied(color, k);
    SingleSumChannel(color, k);
    assert c[k] * 255.0 == color[k] as real;
    RoundOfInteger(c[k] * 255.0, color[k]);
  }

  /** Dividing the premultiplied channel of one colour by its alpha gives
      the channel back. */
  lemma SingleSumChannel(color: Color, k: nat)
    requires |color| >= 4 && color[3] > 0 && k < 3
    ensures var sum := PremultipliedSum([color]);
      sum[3] != 0.0 && sum[k] / sum[3] == FromUint8ToFloat(color)[k]
  {
    var c := FromUint8ToFloat(color);
    PremultipliedSumSingle(color);
    PremultipliedAt(c, k);
    DivCancel(c[k], c[3]);
  }

  /** The same channel read off the premultiplied sum: divided by the summed
      alpha, back in bytes. */
  lemma SingleUnpremultiplied(color: Color, k: nat)
    requires |color| >= 4 && color[3] > 0 && k < 3
    ensures var sum := PremultipliedSum([color]);
      sum[3] != 0.0 && AverageOf([color]).value[k] == Round(sum[k] / sum[3] * 255.0)
  {
    var sum := PremultipliedSum([color]);
    assert sum[3] != 0.0 by {
      PremultipliedSumSingle(color);
    }
    var channels := Unpremultiplied(sum) + [sum[3] / 1.0];
    assert channels[k] == sum[k] / sum[3];
    assert AverageOf([color]).value == FromFloatToUint8(channels);
  }

  /** The square of `distanceOf(lhs, rhs)`: the squared distance of the
      float colours divided by the number of channels. (`distanceOf`
      divides the root by the root of that number.) The colours must not
      be empty, and `rhs` must be at least as long as `lhs`: otherwise the
      source computes `NaN`. */
  function NormalizedSquaredDistance(lhs: Color, rhs: Color): real
    requires 0 < |lhs| <= |rhs|
  {
    Vector.SquaredDistanceOf(FromUint8ToFloat(lhs), FromUint8ToFloat(rhs)) / |lhs| as real
  }

  lemma UnitSquare(x: real)
    requires -1.0 <= x <= 1.0
    ensures x * x <= 1.0
  {
    var y := if x >= 0.0 then x else -x;
    MulAtMost(y, y);
    assert y * y == x * x by {
      if x < 0.0 {
        assert y * y == (0.0 - x) * (0.0 - x) == x * x;
      }
    }
  }

  /** The normalised distance is symmetric, and zero exactly between equal
      colours. */
  lemma DistanceMetric(lhs: Color, rhs: Color)
    requires 0 < |lhs| == |rhs|
    ensures NormalizedSquaredDistance(lhs, rhs) == NormalizedSquaredDistance(rhs, lhs)
    ensures NormalizedSquaredDistance(lhs, rhs) >= 0.0
    ensures NormalizedSquaredDistance(lhs, rhs) == 0.0 <==> lhs == rhs
  {
    var a, b := FromUint8ToFloat(lhs), FromUint8ToFloat(rhs);
    Vector.SquaredDistanceMetric(a, b);
    FromUint8ToFloatInjective(lhs, rhs);
    var n := |lhs| as real;
    ScaleDown(Vector.SquaredDistanceOf(a, b), n);
    ScaleDown(Vector.SquaredDistanceOf(b, a), n);
  }

  /** Dividing by a positive count keeps the sign and zero. */
  lemma ScaleDown(d: real, n: real)
    requires n > 0.0 && d >= 0.0
    ensures d / n >= 0.0 && (d / n == 0.0 <==> d == 0.0)
  {
    assert d / n * n == d;
  }

  /** Distinct byte colours stay distinct in the unit range. */
  lemma FromUint8ToFloatInjective(lhs: Color, rhs: Color)
    requires |lhs| == |rhs|
    ensures FromUint8ToFloat(lhs) == FromUint8ToFloat(rhs) <==> lhs == rhs
  {
    var a, b := FromUint8ToFloat(lhs), FromUint8ToFloat(rhs);
    if a == b {
      forall i | 0 <= i < |lhs| ensures lhs[i] == rhs[i] {
        assert a[i] == b[i];
      }
    }
  }

  /** For byte colours the normalised distance lies within [0, 1], the range
      the source asserts. */
  lemma DistanceBound(lhs: Color, rhs: Color)
    requires 0 < |lhs| <= |rhs|
    requires HasByteChannels(lhs) && HasByteChannels(rhs)
    ensures 0.0 <= NormalizedSquaredDistance(lhs, rhs) <= 1.0
  {
    var a, b := FromUint8ToFloat(lhs), FromUint8ToFloat(rhs);
    var d := Vector.DifferenceOf(a, b);
    forall i | 0 <= i < |d| ensures d[i] * d[i] <= 1.0 {
      assert 0 <= lhs[i] <= 255 && 0 <= rhs[i] <= 255;
      UnitSquare(d[i]);
    }
    Vector.SquaredLengthBound(d, 1.0);
    Vector.SquaredLengthNonNegative(d);
    DivAtMostOne(Vector.SquaredDistanceOf(a, b), |lhs| as real);
  }

  /** `areAlmostEqual(tolerance)(lhs, rhs)`: `distanceOf(lhs, rhs) <=
      tolerance`, compared on squares: the tolerance must be non-negative
      and the squared distance at most its square. */
  predicate AreAlmostEqual(tolerance: real, lhs: Color, rhs: Color)
    requires 0 < |lhs| <= |rhs|
  {
    0.0 <= tolerance && NormalizedSquaredDistance(lhs, rhs) <= tolerance * tolerance
  }

  /** For the distance `d` itself (the non-negative root of the squared
      distance), `AreAlmostEqual` is the inclusive test `d <= tolerance`. */
  lemma AreAlmostEqualIsInclusive(tolerance: real, lhs: Color, rhs: Color, d: real)
    requires 0 < |lhs| <= |rhs|
    requires d >= 0.0 && d * d == NormalizedSquaredDistance(lhs, rhs)
    ensures AreAlmostEqual(tolerance, lhs, rhs) <==> d <= tolerance
  {
    Vector.RootCompare(d, NormalizedSquaredDistance(lhs, rhs), d, NormalizedSquaredDistance(lhs, rhs), tolerance);
  }

  /** `areAlmostEqual` is reflexive and symmetric for any non-negative
      tolerance, and with tolerance zero it is equality. */
  lemma AreAlmostEqualProperties(tolerance: real, lhs: Color, rhs: Color)
    requires 0 < |lhs| == |rhs|
    ensures 0.0 <= tolerance ==> AreAlmostEqual(tolerance, lhs, lhs)
    ensures AreAlmostEqual(tolerance, lhs, rhs) <==> AreAlmostEqual(tolerance, rhs, lhs)
    ensures AreAlmostEqual(0.0, lhs, rhs) <==> lhs == rhs
  {
    DistanceMetric(lhs, rhs);
    DistanceMetric(lhs, lhs);
  }

  // ---------------------------------------------------------------------
  // The module's exports
  // ---------------------------------------------------------------------

  /** The names `lib/color.js` exports. */
  const Exports: set<string> := {"areEqual", "areAlmostEqual", "arrayColorToHexString", "averageOf",
                                 "distanceOf", "hexColorStringToArray", "isTransparent", "makeRgbaString",
                                 "toRgbaString"}

  /** Using `C.name` where a value is needed (calling it, or reading a
      property of it): fine for an exported name, a `TypeError` otherwise. */
  function Export(name: string): (r: Result<()>)
    ensures r.Success? <==> name in Exports
  {
    if name in Exports then Success(()) else Missing(name)
  }
}
