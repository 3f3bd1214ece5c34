/** The pixel layer of `main.js`: `LexicographicOrder` (row-major offsets
    and their inverse), bounds-checked pixel access on canvas `ImageData`,
    the enumeration of the pixels of an area, and key-based `frequencies`.
    A pixel is 4 bytes (red, green, blue, alpha). */
module Image {

  import opened Wrappers
  import Arith
  import Operators
  import LazyOps
  import Interactive
  import ArrayOps
  import Color

  // ---------------------------------------------------------------------
  // LexicographicOrder
  // ---------------------------------------------------------------------

  /** The fold selector `(offset, [index, stride]) => (offset + index) * stride`. */
  function OffsetStep(offset: int, pair: seq<int>, i: nat): int
  {
    if |pair| == 2 then (offset + pair[0]) * pair[1] else offset
  }

  /** `LexicographicOrder.offsetOf(...strides)(...indices)`: zip the indices
      with the strides followed by 1 (stopping at the shorter), then fold
      `(offset + index) * stride` from 0. */
  function OffsetOf(strides: seq<int>, indices: seq<int>): int
  {
    Operators.Fold(0, OffsetStep, LazyOps.Zip([indices, strides + [1]]))
  }

  /** The row-major offset in Horner form: `i0`, then for every further index
      multiply by the stride before it and add the index. */
  function Horner(strides: seq<int>, indices: seq<int>): int
    requires |indices| == |strides| + 1
    decreases |strides|
  {
    if |strides| == 0 then indices[0]
    else
      var n := |strides| - 1;
      Horner(strides[..n], indices[..n + 1]) * strides[n] + indices[n + 1]
  }

  /** Folding the first `k` zipped pairs gives the Horner value of the first
      `k` indices times the `k`-th stride (the appended 1 for the last one). */
  lemma {:induction false} OffsetOfPrefix(strides: seq<int>, indices: seq<int>, k: nat)
    requires |indices| == |strides| + 1
    requires 1 <= k <= |indices|
    ensures var zipped := LazyOps.Zip([indices, strides + [1]]);
      k <= |zipped| &&
      Operators.Fold(0, OffsetStep, zipped[..k]) == Horner(strides[..k - 1], indices[..k]) * (strides + [1])[k - 1]
  {
    var zipped := LazyOps.Zip([indices, strides + [1]]);
    var last := zipped[k - 1];
    assert last[0] == indices[k - 1] && last[1] == (strides + [1])[k - 1];
    assert zipped[..k][..k - 1] == zipped[..k - 1];
    if k == 1 {
      assert zipped[..0] == [];
    } else {
      OffsetOfPrefix(strides, indices, k - 1);
      assert strides[..k - 1][..k - 2] == strides[..k - 2];
      assert indices[..k][..k - 1] == indices[..k - 1];
      assert (strides + [1])[k - 2] == strides[k - 2];
    }
  }

  /** `offsetOf` computes the row-major (Horner) offset when it gets one
      index more than strides. */
  lemma {:induction false} OffsetOfIsHorner(strides: seq<int>, indices: seq<int>)
    requires |indices| == |strides| + 1
    ensures OffsetOf(strides, indices) == Horner(strides, indices)
  {
    var zipped := LazyOps.Zip([indices, strides + [1]]);
    var k := |indices|;
    OffsetOfPrefix(strides, indices, k);
    assert zipped[..k] == zipped;
    assert (strides + [1])[k - 1] == 1;
    assert strides[..k - 1] == strides && indices[..k] == indices;
    var h := Horner(strides, indices);
    assert Operators.Fold(0, OffsetStep, zipped) == h * 1;
  }

  /** For one stride (the image width) the offset of `(y, x)` is `y * width + x`. */
  lemma {:induction false} OffsetOfRowColumn(width: int, y: int, x: int)
    ensures OffsetOf([width], [y, x]) == y * width + x
  {
    OffsetOfIsHorner([width], [y, x]);
    assert [width][..0] == [] && [y, x][..1] == [y];
  }

  /** JavaScript's `%`: the remainder takes the sign of the dividend. */
  function JsRemainder(a: int, b: int): (r: int)
    requires b != 0
    ensures a >= 0 ==> r == a % (if b > 0 then b else -b)
  {
    var m := if b > 0 then b else -b;
    if a >= 0 then a % m else -((-a) % m)
  }

  /** The accumulator `{indices, offset}` of `indicesOf`. */
  datatype Decomposition = Decomposition(indices: seq<int>, offset: int)

  /** One `reduceRight` step of `indicesOf`: prepend `offset % stride` and
      continue with `Math.floor(offset / stride)` (Dafny's `/` is that floor
      for a positive stride). */
  function DecomposeStep(d: Decomposition, stride: int): Decomposition
    requires stride > 0
  {
    Decomposition([JsRemainder(d.offset, stride)] + d.indices, d.offset / stride)
  }

  /** The strides are all positive (a zero stride divides by zero). */
  predicate PositiveStrides(strides: seq<int>)
  {
    forall k :: 0 <= k < |strides| ==> strides[k] > 0
  }

  /** `strides.reduceRight(step, init)`: the last stride is applied first. */
  function Decompose(strides: seq<int>, init: Decomposition): (r: Decomposition)
    requires PositiveStrides(strides)
    ensures |r.indices| == |init.indices| + |strides|
  {
    if |strides| == 0 then init
    else
      var n := |strides| - 1;
      Decompose(strides[..n], DecomposeStep(init, strides[n]))
  }

  /** `LexicographicOrder.indicesOf(...strides)(offset)`: one index per
      stride; whatever is left over in front is dropped. */
  function IndicesOf(strides: seq<int>, offset: int): (r: seq<int>)
    requires PositiveStrides(strides)
    ensures |r| == |strides|
  {
    Decompose(strides, Decomposition([], offset)).indices
  }

  /** The leading index is non-negative and every further index lies below
      the stride in front of it. */
  predicate InBounds(strides: seq<int>, indices: seq<int>)
    requires |indices| == |strides| + 1
  {
    indices[0] >= 0 && forall k :: 1 <= k < |indices| ==> 0 <= indices[k] < strides[k - 1]
  }

  lemma {:induction false} HornerNonNegative(strides: seq<int>, indices: seq<int>)
    requires |indices| == |strides| + 1 && PositiveStrides(strides) && InBounds(strides, indices)
    ensures Horner(strides, indices) >= 0
  {
    if |strides| > 0 {
      var n := |strides| - 1;
      HornerNonNegative(strides[..n], indices[..n + 1]);
      Arith.MulMono(0, Horner(strides[..n], indices[..n + 1]), strides[n]);
    }
  }

  /** Decomposing a Horner offset recovers the indices after the first and
      leaves the first as the remaining offset. */
  lemma {:induction false} DecomposeHorner(strides: seq<int>, indices: seq<int>, tail: seq<int>)
    requires |indices| == |strides| + 1 && PositiveStrides(strides) && InBounds(strides, indices)
    ensures Decompose(strides, Decomposition(tail, Horner(strides, indices))) == Decomposition(indices[1..] + tail, indices[0])
  {
    if |strides| > 0 {
      var n := |strides| - 1;
      var front, stride, index := indices[..n + 1], strides[n], indices[n + 1];
      var h := Horner(strides[..n], front);
      HornerNonNegative(strides[..n], front);
      Arith.MulMono(0, h, stride);
      Arith.DivModUnique(h * stride + index, stride, h, index);
      assert DecomposeStep(Decomposition(tail, Horner(strides, indices)), stride) == Decomposition([index] + tail, h);
      DecomposeHorner(strides[..n], front, [index] + tail);
      assert front[1..] + ([index] + tail) == indices[1..] + tail;
    }
  }

  /** `indicesOf` inverts `offsetOf`: for positive strides and indices within
      them, `indicesOf(s)(offsetOf(s)(i0, ..., in)) == [i1, ..., in]`. */
  lemma {:induction false} IndicesOfOffsetOf(strides: seq<int>, indices: seq<int>)
    requires |indices| == |strides| + 1 && PositiveStrides(strides) && InBounds(strides, indices)
    ensures IndicesOf(strides, OffsetOf(strides, indices)) == indices[1..]
  {
    OffsetOfIsHorner(strides, indices);
    DecomposeHorner(strides, indices, []);
    assert indices[1..] + [] == indices[1..];
  }

  // ---------------------------------------------------------------------
  // Pixel access
  // ---------------------------------------------------------------------

  /** Canvas `ImageData`: dimensions and the flat RGBA bytes. */
  datatype ImageData = ImageData(width: int, height: int, data: seq<int>)

  /** What a canvas produces: non-negative dimensions, `4 * width * height`
      bytes, each in 0..255. */
  predicate WellFormed(img: ImageData)
  {
    0 <= img.width && 0 <= img.height &&
    |img.data| == 4 * (img.width * img.height) &&
    forall i :: 0 <= i < |img.data| ==> 0 <= img.data[i] <= 255
  }

  /** `pixelAt(imageData, offset)`: the 4 bytes of the pixel at `offset`, or
      nothing when the offset is negative or the pixel would run past the
      end of the data. */
  function PixelAt(img: ImageData, offset: int): (r: Option<seq<int>>)
    ensures r.Some? <==> 0 <= offset && (offset + 1) * 4 <= |img.data|
    ensures r.Some? ==> |r.value| == 4
    ensures r.Some? ==> forall c :: 0 <= c < 4 ==> r.value[c] == img.data[offset * 4 + c]
  {
    if offset < 0 || (offset + 1) * 4 > |img.data| then None
    else Some(img.data[offset * 4..(offset + 1) * 4])
  }

  /** `pixelAt(imageData, offset)` as written: it first reads
      `C.COMPONENTS.length`, and `lib/color.js` exports no `COMPONENTS`, so
      every call raises a `TypeError`. Were the name exported, it would be
      `PixelAt`. */
  function PixelAtAsWritten(img: ImageData, offset: int): (r: Result<Option<seq<int>>>)
    ensures r.Success? <==> "COMPONENTS" in Color.Exports
    ensures r.Success? ==> r.value == PixelAt(img, offset)
  {
    var _ :- Color.Export("COMPONENTS");
    Success(PixelAt(img, offset))
  }

  /** Inside the image predicate of `pixelAtCoords`. */
  predicate Inside(img: ImageData, x: int, y: int)
  {
    0 <= x < img.width && 0 <= y < img.height
  }

  /** `pixelAtCoords(imageData, x, y)`: nothing outside the image, otherwise
      the pixel at offset `y * width + x`. */
  function PixelAtCoords(img: ImageData, x: int, y: int): (r: Option<seq<int>>)
    ensures !Inside(img, x, y) ==> r.None?
    ensures Inside(img, x, y) ==> r == PixelAt(img, y * img.width + x)
  {
    if x < 0 || img.width <= x || y < 0 || img.height <= y then None
    else
      OffsetOfRowColumn(img.width, y, x);
      PixelAt(img, OffsetOf([img.width], [y, x]))
  }

  /** In a well-formed image every coordinate inside yields a pixel, and it
      is the 4 bytes at `4 * (y * width + x)`. */
  lemma {:induction false} PixelAtCoordsInside(img: ImageData, x: int, y: int)
    requires WellFormed(img) && Inside(img, x, y)
    ensures PixelAtCoords(img, x, y).Some?
    ensures PixelAtCoords(img, x, y).value == img.data[4 * (y * img.width + x)..4 * (y * img.width + x) + 4]
  {
    Arith.MulStrictBound(y, x, img.width, img.height);
    assert img.height * img.width == img.width * img.height;
  }

  /** `makeArea(left, top, width, height)`. */
  datatype Area = Area(left: int, top: int, width: int, height: int)

  function Min(a: int, b: int): int
  {
    if a < b then a else b
  }

  /** The selector `([rowIdx, colIdx]) => offsetOf(width)(rowIdx, colIdx)`. */
  function RowMajorOffset(width: int): (seq<int>, nat) -> int
  {
    (pair: seq<int>, _) => OffsetOf([width], pair)
  }

  /** The rows `pixelsIn` walks: from the area's top up to its bottom, cut
      at the image's bottom edge. */
  function AreaRows(img: ImageData, area: Area): seq<int>
  {
    LazyOps.Range(area.top, Min(img.height, area.top + area.height), 1)
  }

  /** The columns `pixelsIn` walks, cut at the image's right edge. */
  function AreaColumns(img: ImageData, area: Area): seq<int>
  {
    LazyOps.Range(area.left, Min(img.width, area.left + area.width), 1)
  }

  /** The offsets `pixelsIn` visits: every pixel for no area; otherwise the
      row-major product of the area's rows and columns. */
  function AreaOffsets(img: ImageData, area: Option<Area>): seq<int>
  {
    match area
    case None => LazyOps.Range(0, img.height * img.width, 1)
    case Some(a) => LazyOps.Map(RowMajorOffset(img.width), LazyOps.Product([AreaRows(img, a), AreaColumns(img, a)]))
  }

  /** The selector `offset => pixelAt(imageData, offset)`. */
  function PixelAtOffset(img: ImageData): (int, nat) -> Option<seq<int>>
  {
    (offset: int, _) => PixelAt(img, offset)
  }

  /** `pixelsIn(imageData, area)`: the pixel at every visited offset. */
  function PixelsIn(img: ImageData, area: Option<Area>): (r: seq<Option<seq<int>>>)
    ensures |r| == |AreaOffsets(img, area)|
  {
    LazyOps.Map(PixelAtOffset(img), AreaOffsets(img, area))
  }

  /** The bytes of a pixel that is present (nothing for a missing one). */
  function ValueOf(pixel: Option<seq<int>>, i: nat): seq<int>
  {
    if pixel.Some? then pixel.value else []
  }

  /** Without an area the offsets are `0, 1, ..., height * width - 1`. */
  lemma {:induction false} WholeOffsets(img: ImageData)
    requires 0 <= img.width && 0 <= img.height
    ensures |AreaOffsets(img, None)| == img.width * img.height
    ensures forall k :: 0 <= k < |AreaOffsets(img, None)| ==> AreaOffsets(img, None)[k] == k
  {
    LazyOps.UnitRange(0, img.height * img.width);
  }

  /** Without an area, `pixelsIn` yields every pixel of a well-formed image,
      in offset order. */
  lemma {:induction false} PixelsInWholeAt(img: ImageData)
    requires WellFormed(img)
    ensures |PixelsIn(img, None)| == img.width * img.height
    ensures forall k :: 0 <= k < |PixelsIn(img, None)| ==>
      PixelsIn(img, None)[k] == PixelAt(img, k) && PixelsIn(img, None)[k].Some?
  {
    WholeOffsets(img);
    var pixels := PixelsIn(img, None);
    forall k | 0 <= k < |pixels| ensures pixels[k] == PixelAt(img, k) && pixels[k].Some? {
      assert (k + 1) * 4 <= |img.data|;
    }
  }

  /** Blocks of 4 bytes taken in order from `data`, laid end to end, give
      `data` back. */
  lemma {:induction false} FlattenBlocks(blocks: seq<seq<int>>, data: seq<int>)
    requires |data| == 4 * |blocks|
    requires forall k :: 0 <= k < |blocks| ==> blocks[k] == data[4 * k..4 * k + 4]
    ensures LazyOps.Flatten(blocks) == data
  {
    var n := |blocks|;
    LazyOps.FlattenUniformLength(blocks, 4);
    var flat := LazyOps.Flatten(blocks);
    forall p | 0 <= p < |flat| ensures flat[p] == data[p] {
      Arith.DivBound(p, 4, n);
      LazyOps.FlattenUniformAt(blocks, 4, p / 4, p % 4);
    }
  }

  /** Without an area, the pixels `pixelsIn` yields, laid end to end, are the
      image data. */
  lemma {:induction false} PixelsInWhole(img: ImageData)
    requires WellFormed(img)
    ensures forall k :: 0 <= k < |PixelsIn(img, None)| ==> PixelsIn(img, None)[k].Some?
    ensures LazyOps.Flatten(LazyOps.Map(ValueOf, PixelsIn(img, None))) == img.data
  {
    var pixels := PixelsIn(img, None);
    PixelsInWholeAt(img);
    var values := LazyOps.Map(ValueOf, pixels);
    forall k | 0 <= k < |values| ensures values[k] == img.data[4 * k..4 * k + 4] {
      WholeValueAt(img, k);
    }
    FlattenBlocks(values, img.data);
  }

  /** The bytes of pixel `k` of a well-formed image, as `pixelsIn` without
      an area yields them. */
  lemma WholeValueAt(img: ImageData, k: nat)
    requires WellFormed(img) && k < img.width * img.height
    ensures k < |PixelsIn(img, None)|
    ensures LazyOps.Map(ValueOf, PixelsIn(img, None))[k] == img.data[4 * k..4 * k + 4]
  {
    PixelsInWholeAt(img);
    assert PixelsIn(img, None)[k] == PixelAt(img, k);
  }

  /** Pair `k` of the product of two unit-step ranges is the `k / columns`-th
      row value and the `k % columns`-th column value. */
  lemma {:induction false} RangeProductAt(top: int, bottom: int, left: int, right: int, k: nat)
    requires k < |LazyOps.Product([LazyOps.Range(top, bottom, 1), LazyOps.Range(left, right, 1)])|
    ensures var rows, columns := LazyOps.Range(top, bottom, 1), LazyOps.Range(left, right, 1);
      |columns| > 0 &&
      |LazyOps.Product([rows, columns])| == |rows| * |columns| &&
      LazyOps.Product([rows, columns])[k] == [top + k / |columns|, left + k % |columns|]
  {
    var rows, columns := LazyOps.Range(top, bottom, 1), LazyOps.Range(left, right, 1);
    LazyOps.Product2(rows, columns);
    LazyOps.UnitRange(top, bottom);
    LazyOps.UnitRange(left, right);
  }

  /** Offset `k` of an area is row `top + k / columns`, column
      `left + k % columns`, in row-major order. */
  lemma {:induction false} AreaOffsetAt(img: ImageData, area: Area, k: nat)
    requires k < |AreaOffsets(img, Some(area))|
    ensures var rows, columns := |AreaRows(img, area)|, |AreaColumns(img, area)|;
      columns > 0 &&
      |AreaOffsets(img, Some(area))| == rows * columns &&
      AreaOffsets(img, Some(area))[k] == OffsetOf([img.width], [area.top + k / columns, area.left + k % columns])
  {
    var rows, columns := AreaRows(img, area), AreaColumns(img, area);
    var pairs := LazyOps.Product([rows, columns]);
    RangeProductAt(area.top, Min(img.height, area.top + area.height), area.left, Min(img.width, area.left + area.width), k);
    var y, x := area.top + k / |columns|, area.left + k % |columns|;
    assert pairs[k] == [y, x];
    assert AreaOffsets(img, Some(area))[k] == OffsetOf([img.width], [y, x]);
  }

  /** Cell `k` of an area with columns is in row `top + k / columns` and
      column `left + k % columns`. */
  lemma CellAt(img: ImageData, area: Area, k: nat)
    requires |AreaColumns(img, area)| > 0
    ensures CellRow(img, area, k) == area.top + k / |AreaColumns(img, area)|
    ensures CellColumn(img, area, k) == area.left + k % |AreaColumns(img, area)|
  {
  }

  /** With an area, `pixelsIn` walks it in row-major order: the `k`-th pixel
      is the one at the offset of cell `k`, where the rows and columns are
      those of the area that lie above the image's bottom edge and left of
      its right edge. */
  lemma {:induction false} PixelsInArea(img: ImageData, area: Area, k: nat)
    requires k < |PixelsIn(img, Some(area))|
    ensures var rows, columns := |AreaRows(img, area)|, |AreaColumns(img, area)|;
      columns > 0 &&
      |PixelsIn(img, Some(area))| == rows * columns &&
      CellColumn(img, area, k) == area.left + k % columns &&
      CellRow(img, area, k) == area.top + k / columns
    ensures PixelsIn(img, Some(area))[k] == PixelAt(img, OffsetOf([img.width], [CellRow(img, area, k), CellColumn(img, area, k)]))
  {
    var offsets := AreaOffsets(img, Some(area));
    assert PixelsIn(img, Some(area))[k] == PixelAt(img, offsets[k]);
    AreaOffsetAt(img, area, k);
    CellAt(img, area, k);
  }

  /** Cell `k` of an area whose top-left corner is not negative, counted
      row by row, lies inside the image. */
  lemma AreaCellInside(img: ImageData, area: Area, k: nat)
    requires area.top >= 0 && area.left >= 0
    requires k < |AreaRows(img, area)| * |AreaColumns(img, area)|
    ensures Inside(img, CellColumn(img, area, k), CellRow(img, area, k))
  {
    var rows, columns := |AreaRows(img, area)|, |AreaColumns(img, area)|;
    var bottom, right := Min(img.height, area.top + area.height), Min(img.width, area.left + area.width);
    LazyOps.UnitRange(area.top, bottom);
    LazyOps.UnitRange(area.left, right);
    if columns == 0 {
      assert false;
    }
    Arith.DivBound(k, columns, rows);
  }

  /** The column of the `k`-th cell of an area, counted row by row. */
  function CellColumn(img: ImageData, area: Area, k: nat): int
  {
    var columns := |AreaColumns(img, area)|;
    if columns == 0 then area.left else area.left + k % columns
  }

  /** The row of the `k`-th cell of an area, counted row by row. */
  function CellRow(img: ImageData, area: Area, k: nat): int
  {
    var columns := |AreaColumns(img, area)|;
    if columns == 0 then area.top else area.top + k / columns
  }

  /** An area whose top-left corner lies in the image yields only pixels of
      the image: pixel `k` is present, and it is the one at the coordinates
      of cell `k`, which lie inside the image. */
  lemma {:induction false} PixelsInAreaClipped(img: ImageData, area: Area, k: nat)
    requires WellFormed(img) && area.top >= 0 && area.left >= 0
    requires k < |PixelsIn(img, Some(area))|
    ensures Inside(img, CellColumn(img, area, k), CellRow(img, area, k))
    ensures PixelsIn(img, Some(area))[k] == PixelAtCoords(img, CellColumn(img, area, k), CellRow(img, area, k))
    ensures PixelsIn(img, Some(area))[k].Some?
  {
    PixelsInArea(img, area, k);
    AreaCellInside(img, area, k);
    CoordsPixel(img, CellColumn(img, area, k), CellRow(img, area, k));
  }

  /** The pixel at coordinates inside a well-formed image is the pixel at
      their offset, and it is present. */
  lemma CoordsPixel(img: ImageData, x: int, y: int)
    requires WellFormed(img) && Inside(img, x, y)
    ensures PixelAtCoords(img, x, y) == PixelAt(img, OffsetOf([img.width], [y, x]))
    ensures PixelAt(img, OffsetOf([img.width], [y, x])).Some?
  {
    PixelAtCoordsInside(img, x, y);
    OffsetOfRowColumn(img.width, y, x);
  }

  // ---------------------------------------------------------------------
  // frequencies(values, keySelector)
  // ---------------------------------------------------------------------

  /** Two values with the same key land in the same `Map` slot. */
  function SameKey<T, K(==)>(key: T -> K): (T, T) -> bool
  {
    (a: T, b: T) => key(a) == key(b)
  }

  /** `frequencies(values, keySelector)`: a `Map` from key to
      `{value, count}` that stores the first value seen for each key and
      counts every value; `Array.from(map.values())` lists the entries in
      insertion order, which is the order keys are first seen. This is the
      `lib/interactive.js` frequency count with key equality as the test. */
  function KeyedFrequencies<T, K(==)>(key: T -> K, s: seq<T>): (r: seq<Interactive.Entry<T>>)
    ensures |r| <= |s|
    ensures forall k :: 0 <= k < |r| ==> r[k].1 >= 1
  {
    Interactive.Frequencies(SameKey(key), s)
  }

  /** Key equality is an equivalence. */
  lemma {:induction false} SameKeyPreorder<T(!new), K(!new)>(key: T -> K)
    ensures Interactive.IsPreorder(Some(SameKey(key)))
  {
    var f := SameKey(key);
    forall a, b, c | Interactive.Chain(f, a, b, c) ensures f(a, c) {
      assert key(a) == key(b) == key(c);
    }
  }

  /** The entries of `frequencies` have distinct keys, appear in first-seen
      order with the first value of each key as their value (exactly the
      values no earlier value shares a key with), and their counts add up
      to the number of values. */
  lemma {:induction false} KeyedFrequenciesFacts<T(!new), K(!new)>(key: T -> K, s: seq<T>)
    ensures forall i, j :: 0 <= i < j < |KeyedFrequencies(key, s)| ==>
      key(KeyedFrequencies(key, s)[i].0) != key(KeyedFrequencies(key, s)[j].0)
    ensures Interactive.Representatives(KeyedFrequencies(key, s)) ==
      LazyOps.Filter(Interactive.FirstOfClass(Some(SameKey(key)), s), s)
    ensures Interactive.TotalCount(KeyedFrequencies(key, s)) == |s|
  {
    var entries := KeyedFrequencies(key, s);
    SameKeyPreorder(key);
    Interactive.FrequenciesTotal(SameKey(key), s);
    Interactive.FrequenciesRepresentatives(SameKey(key), s);
    Interactive.UniqueKeepsFirstOfClass(s, Some(SameKey(key)));
    Interactive.UniqueDistinct(s, Some(SameKey(key)));
    var reps := Interactive.Representatives(entries);
    forall i, j | 0 <= i < j < |entries| ensures key(entries[i].0) != key(entries[j].0) {
      assert !ArrayOps.Matches(Some(SameKey(key)), reps[i], reps[j]);
    }
  }
}
