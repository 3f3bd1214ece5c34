/** The tile-sampling downscalers of `index.js`. The square canvas is cut
    into `resolution` by `resolution` tiles, and each tile is reduced to one
    colour: its first colour, its most or least frequent colour (compared
    exactly or within a tolerance), or its average. `index.js` bundles its
    own copy of the lazy combinators. They behave like those of
    `lib/ix/operators`, so the model uses `LazyOps` and `Operators`. */
module TileSampler {

  import opened Wrappers
  import Arith
  import Vector
  import Color
  import Image
  import LazyOps
  import Operators
  import ArrayOps
  import Interactive

  /** A pixel's colour: four RGBA channels. */
  type Rgba = Color.Rgba

  // ---------------------------------------------------------------------
  // colorsIn(imageData, area)
  // ---------------------------------------------------------------------

  /** Where `TypedArray.prototype.slice` starts or ends for a position. A
      negative position counts from the end. The result is clamped to the
      array. */
  function SlicePosition(pos: int, len: nat): (r: nat)
    ensures r <= len
    ensures 0 <= pos <= len ==> r == pos
  {
    if pos < 0 then (if len + pos < 0 then 0 else len + pos)
    else if pos > len then len
    else pos
  }

  /** `data.slice(start, end)`: the elements between the two positions.
      The result is empty when the end does not lie after the start. */
  function Slice<T>(data: seq<T>, start: int, end: int): (r: seq<T>)
    ensures |r| <= |data|
    ensures 0 <= start <= end <= |data| ==> r == data[start..end]
  {
    var from, to := SlicePosition(start, |data|), SlicePosition(end, |data|);
    if from < to then data[from..to] else []
  }

  /** The selector `colIdx => rowIdx * imageData.width + colIdx`. */
  function ColumnOffset(width: int, row: int): (int, nat) -> int
  {
    (col: int, _) => row * width + col
  }

  /** The selector `rowIdx => cols.map(...)`: the offsets of one row. */
  function RowOffsets(width: int, cols: seq<int>): (int, nat) -> seq<int>
  {
    (row: int, _) => LazyOps.Map(ColumnOffset(width, row), cols)
  }

  /** The offsets `colorsIn` visits, as `rows.flatMap(...)` builds them.
      The rows start at the area's top and the columns at its left. Both
      stop at the image's edge. */
  function AreaOffsets(img: Image.ImageData, area: Image.Area): seq<int>
  {
    LazyOps.FlatMap(RowOffsets(img.width, Image.AreaColumns(img, area)), Image.AreaRows(img, area))
  }

  /** The selector `offset => imageData.data.slice(offset * 4, (offset + 1) * 4)`. */
  function ColorAtOffset(img: Image.ImageData): (int, nat) -> Color.Color
  {
    (offset: int, _) => Slice(img.data, (offset + 0) * 4, (offset + 1) * 4)
  }

  /** `colorsIn(imageData, area)`: the colour sliced at every visited offset. */
  function ColorsIn(img: Image.ImageData, area: Image.Area): (r: seq<Color.Color>)
    ensures |r| == |AreaOffsets(img, area)|
  {
    LazyOps.Map(ColorAtOffset(img), AreaOffsets(img, area))
  }

  /** Every row of an area has one offset per column. So `colorsIn` visits
      rows times columns offsets, and the `k`-th offset is in row
      `top + k / columns` and column `left + k % columns`. */
  lemma {:induction false} AreaOffsetAt(img: Image.ImageData, area: Image.Area, k: nat)
    requires k < |AreaOffsets(img, area)|
    ensures var rows, columns := |Image.AreaRows(img, area)|, |Image.AreaColumns(img, area)|;
      columns > 0 &&
      |AreaOffsets(img, area)| == rows * columns &&
      AreaOffsets(img, area)[k] == Image.OffsetOf([img.width], [area.top + k / columns, area.left + k % columns])
  {
    var rows, columns := Image.AreaRows(img, area), Image.AreaColumns(img, area);
    var m := |columns|;
    AreaOffsetsLength(img, area);
    if m == 0 {
      assert false;
    }
    Arith.DivBound(k, m, |rows|);
    AreaOffsetCell(img, area, k / m, k % m);
  }

  /** `colorsIn` visits one offset per cell of the area. */
  lemma AreaOffsetsLength(img: Image.ImageData, area: Image.Area)
    ensures |AreaOffsets(img, area)| == |Image.AreaRows(img, area)| * |Image.AreaColumns(img, area)|
  {
    var rows, columns := Image.AreaRows(img, area), Image.AreaColumns(img, area);
    var f := RowOffsets(img.width, columns);
    assert forall i :: 0 <= i < |rows| ==> |f(rows[i], i)| == |columns|;
    LazyOps.FlatMapUniformLength(f, rows, |columns|);
  }

  /** The offset visited for the cell in row `i` and column `j` of the area. */
  lemma AreaOffsetCell(img: Image.ImageData, area: Image.Area, i: nat, j: nat)
    requires i < |Image.AreaRows(img, area)| && j < |Image.AreaColumns(img, area)|
    ensures i * |Image.AreaColumns(img, area)| + j < |AreaOffsets(img, area)|
    ensures AreaOffsets(img, area)[i * |Image.AreaColumns(img, area)| + j] ==
      Image.OffsetOf([img.width], [area.top + i, area.left + j])
  {
    var rows, columns := Image.AreaRows(img, area), Image.AreaColumns(img, area);
    var f := RowOffsets(img.width, columns);
    assert forall k :: 0 <= k < |rows| ==> |f(rows[k], k)| == |columns|;
    LazyOps.FlatMapUniformAt(f, rows, |columns|, i, j);
    var y, x := rows[i], columns[j];
    assert f(y, i)[j] == y * img.width + x;
    Image.OffsetOfRowColumn(img.width, y, x);
    assert [y, x] == [area.top + i, area.left + j] by {
      LazyOps.UnitRange(area.top, Image.Min(img.height, area.top + area.height));
      LazyOps.UnitRange(area.left, Image.Min(img.width, area.left + area.width));
    }
  }

  /** `colorsIn` visits the same offsets, in the same order, as `pixelsIn`
      of `main.js`, which walks the product of the rows and columns. */
  lemma {:induction false} SameOffsetsAsPixelsIn(img: Image.ImageData, area: Image.Area)
    ensures AreaOffsets(img, area) == Image.AreaOffsets(img, Some(area))
  {
    var mine, theirs := AreaOffsets(img, area), Image.AreaOffsets(img, Some(area));
    var rows, columns := Image.AreaRows(img, area), Image.AreaColumns(img, area);
    var f := RowOffsets(img.width, columns);
    assert forall i :: 0 <= i < |rows| ==> |f(rows[i], i)| == |columns|;
    LazyOps.FlatMapUniformLength(f, rows, |columns|);
    LazyOps.Product2Length(rows, columns);
    assert |mine| == |theirs|;
    forall k | 0 <= k < |mine| ensures mine[k] == theirs[k] {
      AreaOffsetAt(img, area, k);
      Image.AreaOffsetAt(img, area, k);
    }
  }

  /** For an area whose top-left corner is not negative, `colorsIn` lists
      pixels of the image in row-major order: the `k`-th colour is the pixel
      at the coordinates of cell `k` of the area, and they lie inside the
      image. */
  lemma {:induction false} ColorsInArea(img: Image.ImageData, area: Image.Area, k: nat)
    requires Image.WellFormed(img) && area.top >= 0 && area.left >= 0
    requires k < |ColorsIn(img, area)|
    ensures Image.Inside(img, Image.CellColumn(img, area, k), Image.CellRow(img, area, k))
    ensures Image.PixelAtCoords(img, Image.CellColumn(img, area, k), Image.CellRow(img, area, k)) == Some(ColorsIn(img, area)[k])
  {
    SameOffsetsAsPixelsIn(img, area);
    var offsets := Image.AreaOffsets(img, Some(area));
    assert k < |Image.PixelsIn(img, Some(area))|;
    Image.PixelsInAreaClipped(img, area, k);
    var o := offsets[k];
    var pixel := Image.PixelAt(img, o);
    assert Image.PixelsIn(img, Some(area))[k] == pixel;
    assert ColorsIn(img, area)[k] == Slice(img.data, (o + 0) * 4, (o + 1) * 4);
    assert pixel.value == img.data[o * 4..(o + 1) * 4];
  }

  /** In a well-formed image, `colorsIn` of an area whose top-left corner is
      not negative yields four-channel byte colours only. */
  lemma ColorsInRgba(img: Image.ImageData, area: Image.Area)
    requires Image.WellFormed(img) && area.top >= 0 && area.left >= 0
    ensures forall k :: 0 <= k < |ColorsIn(img, area)| ==>
      |ColorsIn(img, area)[k]| == 4 && Color.HasByteChannels(ColorsIn(img, area)[k])
  {
    forall k | 0 <= k < |ColorsIn(img, area)|
      ensures |ColorsIn(img, area)[k]| == 4 && Color.HasByteChannels(ColorsIn(img, area)[k])
    {
      ColorInRgba(img, area, k);
    }
  }

  /** One colour of `ColorsInRgba`. */
  lemma ColorInRgba(img: Image.ImageData, area: Image.Area, k: nat)
    requires Image.WellFormed(img) && area.top >= 0 && area.left >= 0
    requires k < |ColorsIn(img, area)|
    ensures |ColorsIn(img, area)[k]| == 4 && Color.HasByteChannels(ColorsIn(img, area)[k])
  {
    ColorsInArea(img, area, k);
    PixelBytes(img, Image.CellColumn(img, area, k), Image.CellRow(img, area, k));
  }

  /** A pixel inside a well-formed image has four byte channels. */
  lemma PixelBytes(img: Image.ImageData, x: int, y: int)
    requires Image.WellFormed(img) && Image.Inside(img, x, y)
    ensures Image.PixelAtCoords(img, x, y).Some?
    ensures |Image.PixelAtCoords(img, x, y).value| == 4 && Color.HasByteChannels(Image.PixelAtCoords(img, x, y).value)
  {
    Image.PixelAtCoordsInside(img, x, y);
    var start := 4 * (y * img.width + x);
    assert forall c :: 0 <= c < 4 ==> Image.PixelAtCoords(img, x, y).value[c] == img.data[start + c];
  }

  /** An area whose top-left corner is not negative has colours exactly when
      it has a positive width and height and its corner lies inside the
      image. */
  lemma ColorsInEmpty(img: Image.ImageData, area: Image.Area)
    requires Image.WellFormed(img) && area.top >= 0 && area.left >= 0
    ensures |ColorsIn(img, area)| > 0 <==>
      area.width > 0 && area.height > 0 && area.left < img.width && area.top < img.height
  {
    ColorsInCount(img, area);
    var rows, columns := |Image.AreaRows(img, area)|, |Image.AreaColumns(img, area)|;
    assert rows > 0 <==> area.height > 0 && area.top < img.height by {
      LazyOps.UnitRange(area.top, Image.Min(img.height, area.top + area.height));
    }
    assert columns > 0 <==> area.width > 0 && area.left < img.width by {
      LazyOps.UnitRange(area.left, Image.Min(img.width, area.left + area.width));
    }
    Arith.MulPositive(rows, columns);
  }

  // ---------------------------------------------------------------------
  // sampleRectangleSize and makeTileSampledAlgo
  // ---------------------------------------------------------------------

  /** `Math.ceil(a / b)` for a positive divisor, on integers. */
  function CeilDiv(a: int, b: int): (r: int)
    requires b > 0
    ensures (r - 1) * b < a <= r * b
  {
    var q := (-a) / b;
    assert -a == q * b + (-a) % b;
    -q
  }

  /** A multiple of a positive number stays below `a` exactly for the
      factors below `Math.ceil(a / b)`. */
  lemma CeilDivBelow(c: int, a: int, b: int)
    requires b > 0
    ensures c * b < a <==> c < CeilDiv(a, b)
  {
    var r := CeilDiv(a, b);
    if c < r {
      Arith.MulMono(c, r - 1, b);
    } else {
      Arith.MulMono(r, c, b);
    }
  }

  /** `Math.ceil(k * b / b)` is `k`. */
  lemma CeilDivExact(k: int, b: int)
    requires b > 0
    ensures CeilDiv(k * b, b) == k
  {
    CeilDivBelow(k - 1, k * b, b);
    CeilDivBelow(k, k * b, b);
    assert (k - 1) * b < k * b;
  }

  /** The width and height of one tile. */
  datatype SampleSize = SampleSize(width: int, height: int)

  /** `sampleRectangleSize(imageData, resolution)`: the tile size, with
      each side rounded up. That is the smallest size whose `resolution`
      copies cover the image. The check that the canvas is square is a
      `console.assert`, which only logs. A resolution of zero would divide
      by zero, and no tile is sampled then. */
  function SampleRectangleSize(img: Image.ImageData, resolution: int): (r: SampleSize)
    requires resolution > 0
    ensures r.width * resolution >= img.width && (r.width - 1) * resolution < img.width
    ensures r.height * resolution >= img.height && (r.height - 1) * resolution < img.height
  {
    SampleSize(CeilDiv(img.width, resolution), CeilDiv(img.height, resolution))
  }

  /** `makeArea(colIdx * width, rowIdx * height, width, height)`: the tile
      in row `row` and column `col`. */
  function TileArea(size: SampleSize, row: int, col: int): Image.Area
  {
    Image.Area(col * size.width, row * size.height, size.width, size.height)
  }

  /** `colorsIn` of a tile of a well-formed image, as four-channel byte
      colours. */
  function TileColors(img: Image.ImageData, size: SampleSize, row: nat, col: nat): (r: seq<Rgba>)
    requires Image.WellFormed(img) && size.width >= 0 && size.height >= 0
    ensures forall i :: 0 <= i < |r| ==> Color.HasByteChannels(r[i])
  {
    var area := TileArea(size, row, col);
    Arith.MulMono(0, col, size.width);
    Arith.MulMono(0, row, size.height);
    ColorsInRgba(img, area);
    ColorsIn(img, area)
  }

  /** A tile has colours exactly when its sides are positive and its
      corner lies inside the image. */
  lemma TileColorsEmpty(img: Image.ImageData, size: SampleSize, row: nat, col: nat)
    requires Image.WellFormed(img) && size.width >= 0 && size.height >= 0
    ensures |TileColors(img, size, row, col)| > 0 <==>
      size.width > 0 && size.height > 0 && col * size.width < img.width && row * size.height < img.height
  {
    Arith.MulMono(0, col, size.width);
    Arith.MulMono(0, row, size.height);
    ColorsInEmpty(img, TileArea(size, row, col));
  }

  /** The colours of every tile of the grid, by row and column. */
  function TilesOf(img: Image.ImageData, size: SampleSize): (nat, nat) -> seq<Rgba>
    requires Image.WellFormed(img) && size.width >= 0 && size.height >= 0
  {
    (row: nat, col: nat) => TileColors(img, size, row, col)
  }

  /** The `coreFn` of a tile-sampled algorithm: it reduces the colours of
      a tile to one colour. */
  type CoreFn = seq<Rgba> --> Rgba

  /** `coreFn` accepts the colours of every tile that has colours. Empty
      tiles never reach it. */
  ghost predicate ReducesTiles(coreFn: CoreFn)
  {
    forall colors: seq<Rgba> :: |colors| > 0 ==> coreFn.requires(colors)
  }

  /** The selector of `cols.flatMap(...)` for the tile in row `row` and
      column `col`: nothing when the tile has no colours, otherwise its
      reduced colour. */
  function ReducedTile(tiles: (nat, nat) -> seq<Rgba>, coreFn: CoreFn, row: nat, col: nat): (r: seq<Rgba>)
    requires ReducesTiles(coreFn)
    ensures |r| <= 1
  {
    var colors := tiles(row, col);
    if |colors| == 0 then [] else [coreFn(colors)]
  }

  /** `cols.flatMap(...)` over the first `n` columns of row `row`: the
      reduced colour of every tile that has colours. Empty tiles are
      skipped. */
  function TileRow(tiles: (nat, nat) -> seq<Rgba>, coreFn: CoreFn, row: nat, n: nat): (r: seq<Rgba>)
    requires ReducesTiles(coreFn)
    ensures |r| <= n
  {
    if n == 0 then []
    else TileRow(tiles, coreFn, row, n - 1) + ReducedTile(tiles, coreFn, row, n - 1)
  }

  /** `makeTileSampledAlgo(coreFn)(imageData, resolution)`: one row of
      colours per tile row. There is one row per unit of resolution, and
      each row has at most that many colours. A resolution that is not
      positive gives no rows. Canvas image data is always well formed. */
  function TileSampled(img: Image.ImageData, resolution: int, coreFn: CoreFn): (r: seq<seq<Rgba>>)
    requires Image.WellFormed(img) && ReducesTiles(coreFn)
    ensures |r| == if resolution > 0 then resolution else 0
    ensures forall row :: 0 <= row < |r| ==> |r[row]| <= resolution
  {
    if resolution <= 0 then []
    else
      var tiles := TilesOf(img, SampleRectangleSize(img, resolution));
      seq(resolution, row requires 0 <= row < resolution => TileRow(tiles, coreFn, row, resolution))
  }

  /** When exactly the first `m` tiles of a row have colours, the row holds
      one colour for each of them among its first `n` columns. */
  lemma {:induction false} TileRowCount(tiles: (nat, nat) -> seq<Rgba>, coreFn: CoreFn, row: nat, n: nat, m: nat)
    requires ReducesTiles(coreFn)
    requires forall col: nat :: col < n ==> (|tiles(row, col)| > 0 <==> col < m)
    ensures |TileRow(tiles, coreFn, row, n)| == Image.Min(n, m)
  {
    if n > 0 {
      TileRowCount(tiles, coreFn, row, n - 1, m);
    }
  }

  /** When every one of the first `n` tiles of a row has colours, the row
      holds one colour per tile, and the one in column `col` is the reduced
      colour of that tile. */
  lemma {:induction false} TileRowAt(tiles: (nat, nat) -> seq<Rgba>, coreFn: CoreFn, row: nat, n: nat, col: nat)
    requires ReducesTiles(coreFn)
    requires forall c: nat :: c < n ==> |tiles(row, c)| > 0
    requires col < n
    ensures |TileRow(tiles, coreFn, row, n)| == n
    ensures TileRow(tiles, coreFn, row, n)[col] == coreFn(tiles(row, col))
  {
    TileRowCount(tiles, coreFn, row, n, n);
    TileRowCount(tiles, coreFn, row, n - 1, n - 1);
    var prev := TileRow(tiles, coreFn, row, n - 1);
    assert ReducedTile(tiles, coreFn, row, n - 1) == [coreFn(tiles(row, n - 1))];
    if col < n - 1 {
      TileRowAt(tiles, coreFn, row, n - 1, col);
      assert (prev + [coreFn(tiles(row, n - 1))])[col] == prev[col];
    }
  }

  /** When every one of the first `n` tiles of a row has colours, the row
      holds their reduced colours, one per tile, in column order. */
  lemma TileRowFull(tiles: (nat, nat) -> seq<Rgba>, coreFn: CoreFn, row: nat, n: nat)
    requires ReducesTiles(coreFn)
    requires forall col: nat :: col < n ==> |tiles(row, col)| > 0
    ensures |TileRow(tiles, coreFn, row, n)| == n
    ensures forall col: nat :: col < n ==> TileRow(tiles, coreFn, row, n)[col] == coreFn(tiles(row, col))
  {
    if n == 0 {
      assert TileRow(tiles, coreFn, row, n) == [];
    }
    forall col: nat | col < n
      ensures |TileRow(tiles, coreFn, row, n)| == n
      ensures TileRow(tiles, coreFn, row, n)[col] == coreFn(tiles(row, col))
    {
      TileRowAt(tiles, coreFn, row, n, col);
    }
  }

  /** Which tiles of a row have colours: the first `Math.ceil(width /
      tileWidth)` of them, when the row starts above the image's bottom
      edge and the tiles are not empty, and none otherwise. */
  lemma TilesOfEmpty(img: Image.ImageData, size: SampleSize, row: nat, col: nat)
    requires Image.WellFormed(img) && size.width >= 0 && size.height >= 0
    ensures |TilesOf(img, size)(row, col)| > 0 <==>
      size.width > 0 && size.height > 0 && row * size.height < img.height && col < CeilDiv(img.width, size.width)
  {
    TileColorsEmpty(img, size, row, col);
    if size.width > 0 {
      CeilDivBelow(col, img.width, size.width);
    }
  }

  /** A row of the grid holds one colour per tile whose corner lies inside
      the image, among its first `n` columns. */
  lemma TilesOfRowCount(img: Image.ImageData, size: SampleSize, coreFn: CoreFn, row: nat, n: nat)
    requires Image.WellFormed(img) && size.width >= 0 && size.height >= 0 && ReducesTiles(coreFn)
    ensures |TileRow(TilesOf(img, size), coreFn, row, n)| ==
      if size.width > 0 && size.height > 0 && row * size.height < img.height
      then Image.Min(n, CeilDiv(img.width, size.width)) else 0
  {
    var tiles := TilesOf(img, size);
    var live := size.width > 0 && size.height > 0 && row * size.height < img.height;
    var m: nat := if live then CeilDiv(img.width, size.width) else 0;
    forall col: nat | col < n ensures |tiles(row, col)| > 0 <==> col < m {
      TilesOfEmpty(img, size, row, col);
    }
    TileRowCount(tiles, coreFn, row, n, m);
  }

  /** Each side of a tile is positive exactly when that side of the image
      is. */
  lemma SampleSizePositive(img: Image.ImageData, resolution: int)
    requires Image.WellFormed(img) && resolution > 0
    ensures var size := SampleRectangleSize(img, resolution);
      size.width >= 0 && size.height >= 0 &&
      (size.width > 0 <==> img.width > 0) && (size.height > 0 <==> img.height > 0)
  {
    CeilDivSign(img.width, resolution);
    CeilDivSign(img.height, resolution);
  }

  /** `Math.ceil(a / b)` of a non-negative `a` is non-negative, and positive
      exactly when `a` is. */
  lemma CeilDivSign(a: int, b: int)
    requires a >= 0 && b > 0
    ensures CeilDiv(a, b) >= 0 && (CeilDiv(a, b) > 0 <==> a > 0)
  {
    CeilDivBelow(-1, a, b);
    CeilDivBelow(0, a, b);
  }

  /** The number of colours in each row of the result: one per tile whose
      corner lies inside the image. For instance, a 5 by 5 image at
      resolution 4 has tiles of side 2, and its rows hold 3 colours. */
  lemma TileSampledRowLength(img: Image.ImageData, resolution: int, coreFn: CoreFn, row: nat)
    requires Image.WellFormed(img) && ReducesTiles(coreFn) && row < resolution
    ensures var size := SampleRectangleSize(img, resolution);
      (size.width > 0 <==> img.width > 0) &&
      |TileSampled(img, resolution, coreFn)[row]| ==
        if size.width > 0 && row * size.height < img.height
        then Image.Min(resolution, CeilDiv(img.width, size.width)) else 0
  {
    var size := SampleRectangleSize(img, resolution);
    SampleSizePositive(img, resolution);
    var live := size.width > 0 && row * size.height < img.height;
    assert live ==> size.height > 0 by {
      if size.height == 0 {
        assert row * size.height == 0;
      }
    }
    assert |TileRow(TilesOf(img, size), coreFn, row, resolution)| ==
        if live then Image.Min(resolution, CeilDiv(img.width, size.width)) else 0 by {
      TilesOfRowCount(img, size, coreFn, row, resolution);
    }
    assert TileSampled(img, resolution, coreFn)[row] == TileRow(TilesOf(img, size), coreFn, row, resolution);
  }

  /** When the image's sides are `resolution * k`, the tiles are `k` by
      `k`. */
  lemma ExactTileSize(img: Image.ImageData, resolution: int, k: int)
    requires resolution > 0
    requires img.width == resolution * k && img.height == resolution * k
    ensures SampleRectangleSize(img, resolution) == SampleSize(k, k)
  {
    CeilDivExact(k, resolution);
    assert resolution * k == k * resolution;
  }

  /** When the image's sides are `resolution * k`, every tile of the grid
      has colours. */
  lemma ExactTileNonEmpty(img: Image.ImageData, resolution: int, k: int, row: nat, col: nat)
    requires Image.WellFormed(img) && k > 0
    requires img.width == resolution * k && img.height == resolution * k
    requires row < resolution && col < resolution
    ensures |TilesOf(img, SampleSize(k, k))(row, col)| > 0
  {
    assert CeilDiv(img.width, k) == resolution by {
      CeilDivExact(resolution, k);
    }
    Arith.MulStrictBound(row, 0, k, resolution);
    TilesOfEmpty(img, SampleSize(k, k), row, col);
  }

  /** When the image's sides are `resolution * k`, every tile of a row has
      colours, so the row holds one reduced colour per tile. */
  lemma ExactRowFull(img: Image.ImageData, resolution: int, k: int, coreFn: CoreFn, row: nat)
    requires Image.WellFormed(img) && ReducesTiles(coreFn) && k > 0
    requires img.width == resolution * k && img.height == resolution * k
    requires row < resolution
    ensures var tiles := TilesOf(img, SampleSize(k, k));
      |TileRow(tiles, coreFn, row, resolution)| == resolution &&
      forall col: nat :: col < resolution ==>
        |tiles(row, col)| > 0 && TileRow(tiles, coreFn, row, resolution)[col] == coreFn(tiles(row, col))
  {
    var tiles := TilesOf(img, SampleSize(k, k));
    forall c: nat | c < resolution ensures |tiles(row, c)| > 0 {
      ExactTileNonEmpty(img, resolution, k, row, c);
    }
    TileRowFull(tiles, coreFn, row, resolution);
  }

  /** When the image's sides are `resolution * k`, every tile has colours.
      The result has `resolution` colours in every row, and the colour in
      row `row` and column `col` is `coreFn` of that tile's colours. */
  lemma ExactTiling(img: Image.ImageData, resolution: int, k: int, coreFn: CoreFn, row: nat, col: nat)
    requires Image.WellFormed(img) && ReducesTiles(coreFn) && k > 0
    requires img.width == resolution * k && img.height == resolution * k
    requires row < resolution && col < resolution
    ensures |TileSampled(img, resolution, coreFn)[row]| == resolution
    ensures |TileColors(img, SampleSize(k, k), row, col)| > 0
    ensures TileSampled(img, resolution, coreFn)[row][col] == coreFn(TileColors(img, SampleSize(k, k), row, col))
  {
    ExactTileSize(img, resolution, k);
    ExactRowFull(img, resolution, k, coreFn, row);
    assert TilesOf(img, SampleSize(k, k))(row, col) == TileColors(img, SampleSize(k, k), row, col);
    assert TileSampled(img, resolution, coreFn)[row] == TileRow(TilesOf(img, SampleSize(k, k)), coreFn, row, resolution);
  }

  /** A tile of side `k` whose far corner lies inside the image spans `k`
      rows and `k` columns. */
  lemma ExactTileArea(img: Image.ImageData, resolution: int, k: int, row: nat, col: nat)
    requires k > 0
    requires img.width == resolution * k && img.height == resolution * k
    requires row < resolution && col < resolution
    ensures var area := TileArea(SampleSize(k, k), row, col);
      |Image.AreaRows(img, area)| == k && |Image.AreaColumns(img, area)| == k
  {
    var area := TileArea(SampleSize(k, k), row, col);
    assert |Image.AreaRows(img, area)| == k by {
      Arith.MulMono(row + 1, resolution, k);
      assert (row + 1) * k == row * k + k;
      assert Image.Min(img.height, area.top + area.height) == area.top + k;
      LazyOps.UnitRange(area.top, area.top + k);
    }
    assert |Image.AreaColumns(img, area)| == k by {
      Arith.MulMono(col + 1, resolution, k);
      assert (col + 1) * k == col * k + k;
      assert Image.Min(img.width, area.left + area.width) == area.left + k;
      LazyOps.UnitRange(area.left, area.left + k);
    }
  }

  /** `colorsIn` yields one colour per row and column of the area. */
  lemma ColorsInCount(img: Image.ImageData, area: Image.Area)
    ensures |ColorsIn(img, area)| == |Image.AreaRows(img, area)| * |Image.AreaColumns(img, area)|
  {
    var rows, columns := Image.AreaRows(img, area), Image.AreaColumns(img, area);
    var f := RowOffsets(img.width, columns);
    assert forall i :: 0 <= i < |rows| ==> |f(rows[i], i)| == |columns|;
    LazyOps.FlatMapUniformLength(f, rows, |columns|);
  }

  /** An area that spans `k` rows and `k` columns of the image from its
      corner `(left, top)` yields its `k * k` pixels row by row. */
  lemma SquareAreaPixels(img: Image.ImageData, area: Image.Area, k: nat, left: int, top: int)
    requires Image.WellFormed(img) && area.top >= 0 && area.left >= 0
    requires area.left == left && area.top == top
    requires |Image.AreaRows(img, area)| == k && |Image.AreaColumns(img, area)| == k
    ensures var colors := ColorsIn(img, area);
      |colors| == k * k &&
      forall i :: 0 <= i < k * k ==>
        Image.PixelAtCoords(img, left + i % k, top + i / k) == Some(colors[i])
  {
    ColorsInCount(img, area);
    forall i | 0 <= i < k * k
      ensures Image.PixelAtCoords(img, left + i % k, top + i / k) == Some(ColorsIn(img, area)[i])
    {
      SquareAreaPixel(img, area, k, left, top, i);
    }
  }

  /** The pixel at index `i` of such an area, on its own. */
  lemma SquareAreaPixel(img: Image.ImageData, area: Image.Area, k: nat, left: int, top: int, i: nat)
    requires Image.WellFormed(img) && area.top >= 0 && area.left >= 0
    requires area.left == left && area.top == top
    requires |Image.AreaRows(img, area)| == k && |Image.AreaColumns(img, area)| == k
    requires i < |ColorsIn(img, area)|
    ensures Image.PixelAtCoords(img, left + i % k, top + i / k) == Some(ColorsIn(img, area)[i])
  {
    ColorsInArea(img, area, i);
    Image.CellAt(img, area, i);
    assert Image.CellColumn(img, area, i) == left + i % k && Image.CellRow(img, area, i) == top + i / k;
  }

  /** When the image's sides are `resolution * k`, the tile in row `row`
      and column `col` is the `k` by `k` block of pixels at its corner,
      listed row by row. */
  lemma ExactTilePixels(img: Image.ImageData, resolution: int, k: int, row: nat, col: nat)
    requires Image.WellFormed(img) && k > 0
    requires img.width == resolution * k && img.height == resolution * k
    requires row < resolution && col < resolution
    ensures var colors := TileColors(img, SampleSize(k, k), row, col);
      |colors| == k * k &&
      forall i :: 0 <= i < k * k ==>
        Image.PixelAtCoords(img, col * k + i % k, row * k + i / k) == Some(colors[i])
  {
    var area := TileArea(SampleSize(k, k), row, col);
    var colors := ColorsIn(img, area);
    assert |colors| == k * k && forall i :: 0 <= i < k * k ==>
        Image.PixelAtCoords(img, col * k + i % k, row * k + i / k) == Some(colors[i]) by {
      Arith.MulMono(0, col, k);
      Arith.MulMono(0, row, k);
      ExactTileArea(img, resolution, k, row, col);
      SquareAreaPixels(img, area, k, col * k, row * k);
    }
    assert TileColors(img, SampleSize(k, k), row, col) == colors;
  }

  // ---------------------------------------------------------------------
  // frequencies(values, equality)
  // ---------------------------------------------------------------------

  /** One iteration of `frequencies` in `index.js`. The value is counted in
      the first entry whose value `equality` matches. If none matches, a new
      entry with count 0 is pushed. */
  function CountFrom<T>(eq: (T, T) -> bool, entries: seq<Interactive.Entry<T>>, value: T): seq<Interactive.Entry<T>>
  {
    var idx := ArrayOps.FindIndex(ArrayOps.EqualTo(Interactive.EntryEquality(eq), value), entries);
    if idx < 0 then entries + [(value, 0)]
    else entries[idx := (entries[idx].0, entries[idx].1 + 1)]
  }

  /** `frequencies(values, equality)` of `index.js`. Unlike its namesake in
      `lib/interactive.js`, it starts every count at 0. There is one entry
      per group, and its value is an element of the input. Every caller
      passes an equality, so the `===` default is not modelled. */
  function Frequencies<T>(eq: (T, T) -> bool, s: seq<T>): (r: seq<Interactive.Entry<T>>)
    ensures |r| == 0 <==> |s| == 0
    ensures |r| <= |s|
    ensures forall k :: 0 <= k < |r| ==> r[k].0 in s
  {
    if |s| == 0 then []
    else
      var prev := Frequencies(eq, s[..|s| - 1]);
      assert forall x :: x in s[..|s| - 1] ==> x in s;
      CountFrom(eq, prev, s[|s| - 1])
  }

  /** Searching entries for a value depends only on the entries' values. */
  lemma SameSearch<T>(eq: (T, T) -> bool, a: seq<Interactive.Entry<T>>, b: seq<Interactive.Entry<T>>, v: T)
    requires |a| == |b|
    requires forall k :: 0 <= k < |a| ==> a[k].0 == b[k].0
    ensures ArrayOps.FindIndex(ArrayOps.EqualTo(Interactive.EntryEquality(eq), v), a) ==
            ArrayOps.FindIndex(ArrayOps.EqualTo(Interactive.EntryEquality(eq), v), b)
  {
    var p := ArrayOps.EqualTo(Interactive.EntryEquality(eq), v);
    assert forall k :: 0 <= k < |a| ==> p(a[k]) == p(b[k]);
  }

  /** The sum of the counts when every count is one higher. */
  lemma {:induction false} TotalCountShift<T>(a: seq<Interactive.Entry<T>>, b: seq<Interactive.Entry<T>>)
    requires |a| == |b|
    requires forall k :: 0 <= k < |a| ==> a[k].1 + 1 == b[k].1
    ensures Interactive.TotalCount(b) == Interactive.TotalCount(a) + |a|
  {
    if |a| > 0 {
      TotalCountShift(a[1..], b[1..]);
    }
  }

  /** Entries that agree on their values and whose counts differ by one. */
  ghost predicate CountsOneLess<T>(r: seq<Interactive.Entry<T>>, groups: seq<Interactive.Entry<T>>)
  {
    |r| == |groups| && forall k :: 0 <= k < |r| ==> r[k].0 == groups[k].0 && r[k].1 + 1 == groups[k].1
  }

  /** One iteration of each `frequencies` keeps the entries in step. */
  lemma CountStep<T>(eq: (T, T) -> bool, r: seq<Interactive.Entry<T>>, groups: seq<Interactive.Entry<T>>, v: T)
    requires CountsOneLess(r, groups)
    ensures CountsOneLess(CountFrom(eq, r, v), Interactive.CountIn(eq, groups, v))
  {
    SameSearch(eq, r, groups, v);
  }

  /** `frequencies` of `index.js` builds the same groups, in the same order
      and with the same values, as `frequencies` of `lib/interactive.js`,
      each with a count one less. */
  lemma {:induction false} FrequenciesCountFromZero<T>(eq: (T, T) -> bool, s: seq<T>)
    ensures var r, groups := Frequencies(eq, s), Interactive.Frequencies(eq, s);
      |r| == |groups| &&
      forall k :: 0 <= k < |r| ==> r[k].0 == groups[k].0 && r[k].1 + 1 == groups[k].1
  {
    if |s| > 0 {
      var n := |s| - 1;
      FrequenciesCountFromZero(eq, s[..n]);
      CountStep(eq, Frequencies(eq, s[..n]), Interactive.Frequencies(eq, s[..n]), s[n]);
    }
  }

  /** The counts of `frequencies` of `index.js` add up to the number of
      elements minus the number of groups. */
  lemma FrequenciesTotalFromZero<T>(eq: (T, T) -> bool, s: seq<T>)
    ensures Interactive.TotalCount(Frequencies(eq, s)) + |Frequencies(eq, s)| == |s|
  {
    FrequenciesCountFromZero(eq, s);
    Interactive.FrequenciesTotal(eq, s);
    TotalCountShift(Frequencies(eq, s), Interactive.Frequencies(eq, s));
  }

  /** Under an equivalence such as `areSameColor`, each count of
      `frequencies` is the number of elements equal to its value, less the
      first. */
  lemma FrequenciesCountsLaterOccurrences<T(!new)>(eq: (T, T) -> bool, s: seq<T>)
    requires Interactive.IsEquivalence(eq)
    ensures forall k :: 0 <= k < |Frequencies(eq, s)| ==>
      Frequencies(eq, s)[k].1 + 1 == Interactive.Occurrences(eq, Frequencies(eq, s)[k].0, s)
  {
    FrequenciesCountFromZero(eq, s);
    Interactive.FrequenciesCountOccurrences(eq, s);
  }

  /** Under an equivalence, every element of `s` is equal to the value of
      some entry of `frequencies`. */
  lemma FrequenciesCover<T(!new)>(eq: (T, T) -> bool, s: seq<T>)
    requires Interactive.IsEquivalence(eq)
    ensures forall i :: 0 <= i < |s| ==> exists k :: 0 <= k < |Frequencies(eq, s)| && eq(Frequencies(eq, s)[k].0, s[i])
  {
    FrequenciesCountFromZero(eq, s);
    Interactive.FrequenciesClasses(eq, s);
  }

  // ---------------------------------------------------------------------
  // areSameColor, colorDistance, areAlmostSameColor
  // ---------------------------------------------------------------------

  /** A number stored into a `Uint8ClampedArray` when it is an integer: 0
      below the byte range, 255 above it, itself inside it. */
  function StoredByte(v: int): (r: int)
    ensures r == Color.ToUint8Clamp(v as real)
  {
    if v < 0 then 0
    else if v > 255 then 255
    else
      Color.ClampOfByte(v);
      v
  }

  /** One channel of `length(colorA.map((v, i) => v - colorB[i]))` before
      the sum: the difference stored into a clamped array, then its square
      stored into another. */
  function StoredSquare(d: int): (r: int)
  {
    var c := StoredByte(d);
    StoredByte(c * c)
  }

  /** The square of `length(diff)` in `colorDistance` as written. A tile's
      colours are `slice`s of the pixel buffer, so both `map` calls build a
      new `Uint8ClampedArray`: a negative channel difference is stored as 0
      and a square above 255 as 255. `reduce` adds the four stored squares
      as plain numbers. */
  function ClampedSquaredDifference(a: Rgba, b: Rgba): (r: int)
  {
    StoredSquare(a[0] - b[0]) + StoredSquare(a[1] - b[1]) + StoredSquare(a[2] - b[2]) + StoredSquare(a[3] - b[3])
  }

  /** The stored square of one channel is zero exactly when the channel of
      the first colour is not above the second's, and is at most 255. */
  lemma StoredSquareFacts(d: int)
    ensures 0 <= StoredSquare(d) <= 255
    ensures StoredSquare(d) == 0 <==> d <= 0
    ensures 0 <= d <= 15 ==> StoredSquare(d) == d * d
  {
    if 0 < d <= 15 {
      assert d * d <= 15 * 15 by { Arith.MulMono(d, 15, d); Arith.MulMono(d, 15, 15); }
    }
  }

  /** The clamped distance is bounded by `4 * 255`, it vanishes exactly when
      no channel of `a` exceeds the one of `b` (so black is at distance 0
      from every colour), and it is the Euclidean squared difference when
      each channel of `a` exceeds the one of `b` by at most 15. */
  lemma ClampedSquaredDifferenceFacts(a: Rgba, b: Rgba)
    ensures 0 <= ClampedSquaredDifference(a, b) <= 4 * 255
    ensures ClampedSquaredDifference(a, b) == 0 <==> forall k :: 0 <= k < 4 ==> a[k] <= b[k]
    ensures (forall k :: 0 <= k < 4 ==> 0 <= a[k] - b[k] <= 15) ==> ClampedSquaredDifference(a, b) == SquaredDifference(a, b)
  {
    StoredSquareFacts(a[0] - b[0]);
    StoredSquareFacts(a[1] - b[1]);
    StoredSquareFacts(a[2] - b[2]);
    StoredSquareFacts(a[3] - b[3]);
  }

  /** The square of `length(diff)` for the Euclidean difference: the sum of
      the squared channel differences. This is the distance `colorDistance`
      is meant to compute; `ClampedSquaredDifference` is the one it
      computes. */
  function SquaredDifference(a: Rgba, b: Rgba): (r: int)
    ensures r >= 0
    ensures r == 0 <==> a == b
  {
    var d0, d1, d2, d3 := a[0] - b[0], a[1] - b[1], a[2] - b[2], a[3] - b[3];
    var r := d0 * d0 + d1 * d1 + d2 * d2 + d3 * d3;
    assert d0 * d0 >= 0 && d1 * d1 >= 0 && d2 * d2 >= 0 && d3 * d3 >= 0;
    assert r == 0 ==> a == b by {
      if r == 0 {
        assert d0 == 0 && d1 == 0 && d2 == 0 && d3 == 0;
        assert a == b;
      }
    }
    r
  }

  /** `colorDistance(colorA, colorB) < tolerance` for a colour distance
      whose square times `510 * 510` is `squared`, compared on squares. A
      distance is never negative, so a tolerance that is not positive
      matches nothing. */
  predicate DistanceBelow(tolerance: real, squared: int)
  {
    0.0 < tolerance && (squared as real) < (510.0 * tolerance) * (510.0 * tolerance)
  }

  /** For the distance itself, `length / 510` with `length` the
      non-negative root of `squared`, `DistanceBelow` is the strict test
      `length / 510 < tolerance` of `areAlmostSameColor`. */
  lemma DistanceBelowIsStrict(tolerance: real, squared: int, length: real)
    requires length >= 0.0 && length * length == squared as real
    ensures DistanceBelow(tolerance, squared) <==> length / 510.0 < tolerance
  {
    var s := squared as real;
    Vector.DivBelow(length, 510.0, tolerance);
    Vector.RootCompare(length, s, length, s, 510.0 * tolerance);
    assert tolerance * 510.0 == 510.0 * tolerance;
  }

  /** How a reducer decides that two colours belong to one group:
      `areSameColor`, `areAlmostSameColor(tolerance)` as written (on the
      clamped difference), or as intended (on the Euclidean one). */
  datatype Similarity = Exact | Within(tolerance: real) | WithinEuclidean(tolerance: real)

  /** The equality a `Similarity` passes to `frequencies`. `Exact` is the
      same test as `areEqual` of `lib/color.js`. */
  function Similar(similarity: Similarity): (Rgba, Rgba) -> bool
  {
    match similarity
    case Exact => (a: Rgba, b: Rgba) => Color.AreEqual(a, b)
    case Within(t) => (a: Rgba, b: Rgba) => DistanceBelow(t, ClampedSquaredDifference(a, b))
    case WithinEuclidean(t) => (a: Rgba, b: Rgba) => DistanceBelow(t, SquaredDifference(a, b))
  }

  /** `areSameColor` is equality on colours. */
  lemma ExactIsEquality(a: Rgba, b: Rgba)
    ensures Similar(Exact)(a, b) <==> a == b
  {
    Color.AreEqualIsPrefix(a, b);
  }

  /** The squared difference does not depend on the order of the colours. */
  lemma SquaredDifferenceSymmetric(a: Rgba, b: Rgba)
    ensures SquaredDifference(a, b) == SquaredDifference(b, a)
  {
    assert (b[0] - a[0]) * (b[0] - a[0]) == (a[0] - b[0]) * (a[0] - b[0]);
    assert (b[1] - a[1]) * (b[1] - a[1]) == (a[1] - b[1]) * (a[1] - b[1]);
    assert (b[2] - a[2]) * (b[2] - a[2]) == (a[2] - b[2]) * (a[2] - b[2]);
    assert (b[3] - a[3]) * (b[3] - a[3]) == (a[3] - b[3]) * (a[3] - b[3]);
  }

  /** Equality and the Euclidean test are symmetric. Both tolerance tests
      are reflexive exactly for a positive tolerance. */
  lemma SimilarSymmetric(similarity: Similarity, a: Rgba, b: Rgba)
    ensures !similarity.Within? ==> Similar(similarity)(a, b) == Similar(similarity)(b, a)
    ensures !similarity.Exact? ==> (Similar(similarity)(a, a) <==> similarity.tolerance > 0.0)
  {
    match similarity
    case Exact =>
      ExactIsEquality(a, b);
      ExactIsEquality(b, a);
    case Within(t) =>
      ClampedSquaredDifferenceFacts(a, a);
      WithinReflexive(t, a);
    case WithinEuclidean(t) =>
      SquaredDifferenceSymmetric(a, b);
      WithinReflexive(t, a);
  }

  /** A colour is within a tolerance of itself exactly when the tolerance
      is positive. */
  lemma WithinReflexive(t: real, a: Rgba)
    ensures DistanceBelow(t, SquaredDifference(a, a)) <==> t > 0.0
    ensures DistanceBelow(t, ClampedSquaredDifference(a, a)) <==> t > 0.0
  {
    assert SquaredDifference(a, a) == 0;
    ClampedSquaredDifferenceFacts(a, a);
    DistanceBelowIsStrict(t, 0, 0.0);
  }

  /** As written, `areAlmostSameColor` is not symmetric: black is at
      distance 0 from white, white at `sqrt(765) / 510` (about 0.054) from
      black, so at tolerance 0.05 only the first pair matches. */
  lemma WithinAsymmetric()
    ensures Similar(Within(0.05))([0, 0, 0, 255], [255, 255, 255, 255])
    ensures !Similar(Within(0.05))([255, 255, 255, 255], [0, 0, 0, 255])
  {
    assert ClampedSquaredDifference([0, 0, 0, 255], [255, 255, 255, 255]) == 0;
    assert ClampedSquaredDifference([255, 255, 255, 255], [0, 0, 0, 255]) == 765;
  }

  /** As written, the clamped distance is at most `sqrt(1020) / 510`, below
      0.063, so at tolerance 0.5 every colour matches every other. */
  lemma HalfToleranceAlwaysMatches(a: Rgba, b: Rgba)
    ensures Similar(Within(0.5))(a, b)
  {
    ClampedSquaredDifferenceFacts(a, b);
    assert (510.0 * 0.5) * (510.0 * 0.5) == 65025.0;
  }

  /** As intended, at tolerance 0.5 two colours match when their Euclidean
      distance is below 255. */
  lemma HalfTolerance(a: Rgba, b: Rgba)
    ensures Similar(WithinEuclidean(0.5))(a, b) <==> SquaredDifference(a, b) < 255 * 255
  {
    assert (510.0 * 0.5) * (510.0 * 0.5) == 65025.0;
  }

  // ---------------------------------------------------------------------
  // max / min by count
  // ---------------------------------------------------------------------

  /** The comparer `(a, b) => a[1] - b[1]`. */
  function ByCount<T>(): (Interactive.Entry<T>, Interactive.Entry<T>) -> real
  {
    (a: Interactive.Entry<T>, b: Interactive.Entry<T>) => (a.1 - b.1) as real
  }

  /** An entry's count, the key `ByCount` orders by. */
  function CountKey<T>(): Interactive.Entry<T> -> real
  {
    (e: Interactive.Entry<T>) => e.1 as real
  }

  lemma ByCountComparesByCount<T(!new)>()
    ensures Operators.ComparesBy(ByCount<T>(), CountKey<T>())
  {
  }

  /** Counts one higher throughout keep the positions of the earliest
      largest and earliest smallest counts. */
  lemma ShiftedExtremes<T>(a: seq<Interactive.Entry<T>>, b: seq<Interactive.Entry<T>>, i: int)
    requires |a| == |b|
    requires forall k :: 0 <= k < |a| ==> a[k].1 + 1 == b[k].1
    ensures Operators.IsEarliestMaximum(CountKey(), a, i) <==> Operators.IsEarliestMaximum(CountKey(), b, i)
    ensures Operators.IsEarliestMinimum(CountKey(), a, i) <==> Operators.IsEarliestMinimum(CountKey(), b, i)
  {
    assert forall k :: 0 <= k < |a| ==> CountKey()(b[k]) == CountKey()(a[k]) + 1.0;
  }

  /** `max(frequencies(colors, equality), (a, b) => a[1] - b[1])[0]`: the
      value of a largest group. It is one of the tile's colours. */
  function MostFrequent(eq: (Rgba, Rgba) -> bool, colors: seq<Rgba>): (r: Rgba)
    requires |colors| > 0
    ensures r in colors
  {
    var entries := Frequencies(eq, colors);
    ByCountComparesByCount<Rgba>();
    Operators.MaxIsEarliestMaximum(ByCount(), CountKey(), entries);
    Operators.Max(ByCount(), entries).value.0
  }

  /** `min(frequencies(colors, equality), (a, b) => a[1] - b[1])[0]`: the
      value of a smallest group. It is one of the tile's colours. */
  function LeastFrequent(eq: (Rgba, Rgba) -> bool, colors: seq<Rgba>): (r: Rgba)
    requires |colors| > 0
    ensures r in colors
  {
    var entries := Frequencies(eq, colors);
    ByCountComparesByCount<Rgba>();
    Operators.MinIsEarliestMinimum(ByCount(), CountKey(), entries);
    Operators.Min(ByCount(), entries).value.0
  }

  /** The most significant colour is the value of the group with the most
      members, counted by `frequencies` of `lib/interactive.js`. On a tie it
      is the group that appears first. */
  lemma MostFrequentIsLargestGroup(eq: (Rgba, Rgba) -> bool, colors: seq<Rgba>)
    requires |colors| > 0
    ensures var groups := Interactive.Frequencies(eq, colors);
      exists i :: Operators.IsEarliestMaximum(CountKey(), groups, i) && MostFrequent(eq, colors) == groups[i].0
  {
    var entries, groups := Frequencies(eq, colors), Interactive.Frequencies(eq, colors);
    ByCountComparesByCount<Rgba>();
    Operators.MaxIsEarliestMaximum(ByCount(), CountKey(), entries);
    var i :| Operators.IsEarliestMaximum(CountKey(), entries, i) && Operators.Max(ByCount(), entries) == Some(entries[i]);
    FrequenciesCountFromZero(eq, colors);
    ShiftedExtremes(entries, groups, i);
  }

  /** The least significant colour is the value of the group with the
      fewest members. On a tie it is the group that appears first. */
  lemma LeastFrequentIsSmallestGroup(eq: (Rgba, Rgba) -> bool, colors: seq<Rgba>)
    requires |colors| > 0
    ensures var groups := Interactive.Frequencies(eq, colors);
      exists i :: Operators.IsEarliestMinimum(CountKey(), groups, i) && LeastFrequent(eq, colors) == groups[i].0
  {
    var entries, groups := Frequencies(eq, colors), Interactive.Frequencies(eq, colors);
    ByCountComparesByCount<Rgba>();
    Operators.MinIsEarliestMinimum(ByCount(), CountKey(), entries);
    var i :| Operators.IsEarliestMinimum(CountKey(), entries, i) && Operators.Min(ByCount(), entries) == Some(entries[i]);
    FrequenciesCountFromZero(eq, colors);
    ShiftedExtremes(entries, groups, i);
  }

  /** Entries whose counts are the occurrences of their values in `s`,
      less the first, and whose values between them match every element. */
  ghost predicate CountsLaterOf<T>(eq: (T, T) -> bool, entries: seq<Interactive.Entry<T>>, s: seq<T>)
  {
    (forall k :: 0 <= k < |entries| ==> entries[k].1 + 1 == Interactive.Occurrences(eq, entries[k].0, s)) &&
    (forall j :: 0 <= j < |s| ==> exists k :: 0 <= k < |entries| && eq(entries[k].0, s[j]))
  }

  lemma FrequenciesCountsLaterOf<T(!new)>(eq: (T, T) -> bool, s: seq<T>)
    requires Interactive.IsEquivalence(eq)
    ensures CountsLaterOf(eq, Frequencies(eq, s), s)
  {
    FrequenciesCountsLaterOccurrences(eq, s);
    FrequenciesCover(eq, s);
  }

  /** An element occurs as often as the value of the entry matching it. */
  lemma OccurrencesOfEntry<T(!new)>(eq: (T, T) -> bool, entries: seq<Interactive.Entry<T>>, s: seq<T>, j: nat)
    returns (k: nat)
    requires Interactive.IsEquivalence(eq) && CountsLaterOf(eq, entries, s) && j < |s|
    ensures k < |entries| && Interactive.Occurrences(eq, s[j], s) == entries[k].1 + 1
  {
    assert CountsLaterOf(eq, entries, s);
    assert forall i :: 0 <= i < |s| ==> exists k :: 0 <= k < |entries| && eq(entries[k].0, s[i]);
    assert exists k :: 0 <= k < |entries| && eq(entries[k].0, s[j]);
    k :| 0 <= k < |entries| && eq(entries[k].0, s[j]);
    Interactive.OccurrencesCongruent(eq, entries[k].0, s[j], s);
  }

  /** The entry of largest count has the value that occurs most often. */
  lemma LargestEntryOccursMost<T(!new)>(eq: (T, T) -> bool, entries: seq<Interactive.Entry<T>>, s: seq<T>, i: nat)
    requires Interactive.IsEquivalence(eq) && CountsLaterOf(eq, entries, s)
    requires i < |entries| && forall k :: 0 <= k < |entries| ==> entries[k].1 <= entries[i].1
    ensures forall j :: 0 <= j < |s| ==> Interactive.Occurrences(eq, s[j], s) <= Interactive.Occurrences(eq, entries[i].0, s)
  {
    forall j | 0 <= j < |s| ensures Interactive.Occurrences(eq, s[j], s) <= entries[i].1 + 1 {
      var k := OccurrencesOfEntry(eq, entries, s, j);
    }
  }

  /** The entry of smallest count has the value that occurs least often. */
  lemma SmallestEntryOccursLeast<T(!new)>(eq: (T, T) -> bool, entries: seq<Interactive.Entry<T>>, s: seq<T>, i: nat)
    requires Interactive.IsEquivalence(eq) && CountsLaterOf(eq, entries, s)
    requires i < |entries| && forall k :: 0 <= k < |entries| ==> entries[i].1 <= entries[k].1
    ensures forall j :: 0 <= j < |s| ==> Interactive.Occurrences(eq, entries[i].0, s) <= Interactive.Occurrences(eq, s[j], s)
  {
    forall j | 0 <= j < |s| ensures entries[i].1 + 1 <= Interactive.Occurrences(eq, s[j], s) {
      var k := OccurrencesOfEntry(eq, entries, s, j);
    }
  }

  /** Under an equivalence such as `areSameColor`, no colour of the tile
      occurs more often than the most significant one. */
  lemma MostFrequentOccursMost(eq: (Rgba, Rgba) -> bool, colors: seq<Rgba>)
    requires Interactive.IsEquivalence(eq) && |colors| > 0
    ensures forall j :: 0 <= j < |colors| ==>
      Interactive.Occurrences(eq, colors[j], colors) <= Interactive.Occurrences(eq, MostFrequent(eq, colors), colors)
  {
    var entries := Frequencies(eq, colors);
    ByCountComparesByCount<Rgba>();
    Operators.MaxIsEarliestMaximum(ByCount(), CountKey(), entries);
    var i :| Operators.IsEarliestMaximum(CountKey(), entries, i) && Operators.Max(ByCount(), entries) == Some(entries[i]);
    forall k | 0 <= k < |entries| ensures entries[k].1 <= entries[i].1 {
      assert CountKey()(entries[k]) <= CountKey()(entries[i]);
    }
    assert MostFrequent(eq, colors) == entries[i].0;
    FrequenciesCountsLaterOf(eq, colors);
    LargestEntryOccursMost(eq, entries, colors, i);
  }

  /** Under an equivalence, no colour of the tile occurs less often than
      the least significant one. */
  lemma LeastFrequentOccursLeast(eq: (Rgba, Rgba) -> bool, colors: seq<Rgba>)
    requires Interactive.IsEquivalence(eq) && |colors| > 0
    ensures forall j :: 0 <= j < |colors| ==>
      Interactive.Occurrences(eq, LeastFrequent(eq, colors), colors) <= Interactive.Occurrences(eq, colors[j], colors)
  {
    var entries := Frequencies(eq, colors);
    ByCountComparesByCount<Rgba>();
    Operators.MinIsEarliestMinimum(ByCount(), CountKey(), entries);
    var i :| Operators.IsEarliestMinimum(CountKey(), entries, i) && Operators.Min(ByCount(), entries) == Some(entries[i]);
    forall k | 0 <= k < |entries| ensures entries[i].1 <= entries[k].1 {
      assert CountKey()(entries[i]) <= CountKey()(entries[k]);
    }
    assert LeastFrequent(eq, colors) == entries[i].0;
    FrequenciesCountsLaterOf(eq, colors);
    SmallestEntryOccursLeast(eq, entries, colors, i);
  }

  // ---------------------------------------------------------------------
  // averageOf(colors)
  // ---------------------------------------------------------------------

  /** The channel-wise sum of two colours. */
  function AddChannels(a: Rgba, b: Rgba): Rgba
  {
    [a[0] + b[0], a[1] + b[1], a[2] + b[2], a[3] + b[3]]
  }

  /** `sum` after the loop of `averageOf`: every channel of every colour. */
  function ChannelSums(colors: seq<Rgba>): Rgba
  {
    if |colors| == 0 then [0, 0, 0, 0]
    else AddChannels(ChannelSums(colors[..|colors| - 1]), colors[|colors| - 1])
  }

  /** `cntC` after the loop: the colours that are not transparent. */
  function OpaqueCount(colors: seq<Rgba>): (r: nat)
    ensures r <= |colors|
  {
    if |colors| == 0 then 0
    else OpaqueCount(colors[..|colors| - 1]) + (if Color.IsTransparent(colors[|colors| - 1]) then 0 else 1)
  }

  /** The channel-wise sum of the colours that are not transparent. */
  function OpaqueSums(colors: seq<Rgba>): Rgba
  {
    if |colors| == 0 then [0, 0, 0, 0]
    else
      var prev := OpaqueSums(colors[..|colors| - 1]);
      var c := colors[|colors| - 1];
      if Color.IsTransparent(c) then prev else AddChannels(prev, c)
  }

  /** `Math.round(count === 0 ? 0 : total / count)`. */
  function Mean(total: int, count: nat): int
  {
    if count == 0 then 0 else Color.Round(total as real / count as real)
  }

  /** `averageOf(colors)` as written: red, green and blue are summed over
      all colours but divided by the number of colours that are not
      transparent. Alpha is averaged over all colours. A tile is never
      empty. */
  function AverageAsWritten(colors: seq<Rgba>): (r: Rgba)
    requires |colors| > 0
  {
    var sum, cntC := ChannelSums(colors), OpaqueCount(colors);
    [Mean(sum[0], cntC), Mean(sum[1], cntC), Mean(sum[2], cntC), Mean(sum[3], |colors|)]
  }

  /** `averageOf` as intended: red, green and blue are averaged over the
      colours that are not transparent, and are 0 when every colour is
      transparent. Alpha is averaged over all colours. */
  function Average(colors: seq<Rgba>): (r: Rgba)
    requires |colors| > 0
  {
    var lit, cntC := OpaqueSums(colors), OpaqueCount(colors);
    [Mean(lit[0], cntC), Mean(lit[1], cntC), Mean(lit[2], cntC), Mean(ChannelSums(colors)[3], |colors|)]
  }

  /** Sums of byte colours stay within 255 times the number of colours
      summed. */
  lemma {:induction false} SumBounds(colors: seq<Rgba>)
    requires forall i :: 0 <= i < |colors| ==> Color.HasByteChannels(colors[i])
    ensures forall c :: 0 <= c < 4 ==> 0 <= OpaqueSums(colors)[c] <= 255 * OpaqueCount(colors)
    ensures 0 <= ChannelSums(colors)[3] <= 255 * |colors|
  {
    if |colors| > 0 {
      var n := |colors| - 1;
      SumBounds(colors[..n]);
      assert Color.HasByteChannels(colors[n]);
    }
  }

  /** The rounded mean of at most 255 per item is a byte. */
  lemma MeanBound(total: int, count: nat)
    requires 0 <= total <= 255 * count
    ensures 0 <= Mean(total, count) <= 255
  {
    if count > 0 {
      var x := total as real / count as real;
      assert x * count as real == total as real;
      if x > 255.0 {
        Vector.MulPositive(x - 255.0, count as real);
        assert (x - 255.0) * count as real == x * count as real - 255.0 * count as real;
      }
      Color.RoundFacts(x, 0);
    }
  }

  /** The average of byte colours has byte channels. */
  lemma AverageBounds(colors: seq<Rgba>)
    requires |colors| > 0
    requires forall i :: 0 <= i < |colors| ==> Color.HasByteChannels(colors[i])
    ensures Color.HasByteChannels(Average(colors))
  {
    SumBounds(colors);
    var lit, cntC := OpaqueSums(colors), OpaqueCount(colors);
    MeanBound(lit[0], cntC);
    MeanBound(lit[1], cntC);
    MeanBound(lit[2], cntC);
    MeanBound(ChannelSums(colors)[3], |colors|);
  }

  /** Where transparent colours carry no red, green or blue, the sums over
      all colours and over the opaque ones agree on those channels and on
      alpha. */
  lemma {:induction false} SumsAgree(colors: seq<Rgba>)
    requires BlankWhereTransparent(colors)
    ensures ChannelSums(colors) == OpaqueSums(colors)
  {
    if |colors| > 0 {
      var n := |colors| - 1;
      SumsAgree(colors[..n]);
      var c := colors[n];
      if Color.IsTransparent(c) {
        assert c[..3] == [0, 0, 0];
        assert c[0] == 0 && c[1] == 0 && c[2] == 0 && c[3] == 0;
      }
    }
  }

  /** On tiles whose transparent pixels carry no red, green or blue, the
      average as written is the intended one. Canvases that store
      premultiplied colour read fully transparent pixels back that way. */
  lemma AverageAsWrittenAgrees(colors: seq<Rgba>)
    requires |colors| > 0
    requires BlankWhereTransparent(colors)
    ensures AverageAsWritten(colors) == Average(colors)
  {
    SumsAgree(colors);
  }

  /** An opaque red pixel next to a transparent red one: as written, the
      red sum 510 is divided by the single opaque pixel, so the average's
      red channel is 510 and not a byte. The intended average is red at
      half opacity. */
  lemma AverageAsWrittenOverflows()
    ensures AverageAsWritten([[255, 0, 0, 255], [255, 0, 0, 0]])[0] == 510
    ensures !Color.HasByteChannels(AverageAsWritten([[255, 0, 0, 255], [255, 0, 0, 0]]))
    ensures Average([[255, 0, 0, 255], [255, 0, 0, 0]]) == [255, 0, 0, 128]
  {
    var colors: seq<Rgba> := [[255, 0, 0, 255], [255, 0, 0, 0]];
    assert colors[..1] == [[255, 0, 0, 255]];
    assert colors[..1][..0] == [];
    assert ChannelSums(colors) == [510, 0, 0, 255];
    assert OpaqueSums(colors) == [255, 0, 0, 255];
    assert OpaqueCount(colors) == 1;
    Color.RoundOfInteger(510.0, 510);
    Color.RoundOfInteger(255.0, 255);
    assert Color.Round(255.0 / 2.0) == 128;
  }

  /** `n` copies of one colour. */
  function Copies(c: Rgba, n: nat): (r: seq<Rgba>)
    ensures |r| == n && forall i :: 0 <= i < n ==> r[i] == c
  {
    seq(n, _ => c)
  }

  /** Summing one more colour adds its channels. */
  lemma SumsSnoc(colors: seq<Rgba>, c: Rgba)
    ensures ChannelSums(colors + [c]) == AddChannels(ChannelSums(colors), c)
    ensures OpaqueSums(colors + [c]) == if Color.IsTransparent(c) then OpaqueSums(colors) else AddChannels(OpaqueSums(colors), c)
    ensures OpaqueCount(colors + [c]) == OpaqueCount(colors) + if Color.IsTransparent(c) then 0 else 1
  {
    assert (colors + [c])[..|colors|] == colors;
  }

  /** Summing `n` copies of a colour multiplies each channel by `n`; the
      opaque sums and count are empty for a transparent colour. */
  lemma {:induction false} CopiesSums(c: Rgba, n: nat)
    ensures forall k :: 0 <= k < 4 ==> ChannelSums(Copies(c, n))[k] == n * c[k]
    ensures forall k :: 0 <= k < 4 ==>
      OpaqueSums(Copies(c, n))[k] == if Color.IsTransparent(c) then 0 else n * c[k]
    ensures OpaqueCount(Copies(c, n)) == if Color.IsTransparent(c) then 0 else n
  {
    if n > 0 {
      var prev := Copies(c, n - 1);
      assert Copies(c, n) == prev + [c];
      CopiesSums(c, n - 1);
      SumsSnoc(prev, c);
      forall k | 0 <= k < 4
        ensures ChannelSums(prev + [c])[k] == n * c[k]
        ensures OpaqueSums(prev + [c])[k] == if Color.IsTransparent(c) then 0 else n * c[k]
      {
        Arith.MulSucc(n - 1, c[k]);
      }
    }
  }

  /** The mean of `n` copies of `v` is `v`. */
  lemma MeanOfCopies(v: int, n: nat)
    requires n > 0
    ensures Mean(n * v, n) == v
  {
    Color.DivCancel(v as real, n as real);
    assert (n * v) as real == v as real * n as real;
    Color.RoundOfInteger(v as real, v);
  }

  /** A tile of one colour averages to that colour when it is not
      transparent, and to transparent black when it is. */
  lemma AverageOfUniform(c: Rgba, n: nat)
    requires n > 0
    ensures Average(Copies(c, n)) == if Color.IsTransparent(c) then [0, 0, 0, 0] else c
  {
    CopiesSums(c, n);
    MeanOfCopies(c[3], n);
    if !Color.IsTransparent(c) {
      MeanOfCopies(c[0], n);
      MeanOfCopies(c[1], n);
      MeanOfCopies(c[2], n);
    } else {
      MeanOfCopies(0, n);
    }
  }

  // ---------------------------------------------------------------------
  // The algorithms
  // ---------------------------------------------------------------------

  /** The `coreFn` a tile-sampled algorithm reduces each tile with.
      `AverageColor` is `averageOf` as written and `OpaqueAverage` the
      average it is meant to compute. */
  datatype Reducer =
    | FirstColor
    | MostSignificant(similarity: Similarity)
    | LeastSignificant(similarity: Similarity)
    | AverageColor
    | OpaqueAverage

  /** The reducers that return one of the tile's colours. */
  predicate Picks(reducer: Reducer)
  {
    !reducer.AverageColor? && !reducer.OpaqueAverage?
  }

  /** `coreFn(colors)` on a tile that has colours: `L.first(colors)`, the
      most or least significant colour, or the average. Every reducer but
      the averages returns one of the tile's colours. */
  function Apply(reducer: Reducer, colors: seq<Rgba>): (r: Rgba)
    requires |colors| > 0
    ensures Picks(reducer) ==> r in colors
  {
    match reducer
    case FirstColor => Operators.First(colors).value
    case MostSignificant(s) => MostFrequent(Similar(s), colors)
    case LeastSignificant(s) => LeastFrequent(Similar(s), colors)
    case AverageColor => AverageAsWritten(colors)
    case OpaqueAverage => Average(colors)
  }

  /** Tiles whose transparent pixels carry no red, green or blue, as a
      canvas that stores premultiplied colour reads them back. */
  ghost predicate BlankWhereTransparent(colors: seq<Rgba>)
  {
    forall i :: 0 <= i < |colors| && Color.IsTransparent(colors[i]) ==> colors[i][..3] == [0, 0, 0]
  }

  /** The reduced colour of a tile of byte colours has byte channels, for
      the average as written only on tiles blank where transparent. */
  lemma ApplyBounds(reducer: Reducer, colors: seq<Rgba>)
    requires |colors| > 0
    requires forall i :: 0 <= i < |colors| ==> Color.HasByteChannels(colors[i])
    ensures !reducer.AverageColor? || BlankWhereTransparent(colors) ==> Color.HasByteChannels(Apply(reducer, colors))
  {
    match reducer
    case AverageColor =>
      if BlankWhereTransparent(colors) {
        AverageAsWrittenAgrees(colors);
        AverageBounds(colors);
      }
    case OpaqueAverage =>
      AverageBounds(colors);
    case _ =>
      var i :| 0 <= i < |colors| && colors[i] == Apply(reducer, colors);
  }

  /** The `coreFn` a reducer stands for. It accepts every tile that has
      colours. */
  function CoreFnOf(reducer: Reducer): (r: CoreFn)
    ensures ReducesTiles(r)
    ensures forall colors: seq<Rgba> :: |colors| > 0 ==> r(colors) == Apply(reducer, colors)
  {
    colors requires |colors| > 0 => Apply(reducer, colors)
  }

  /** The `algorithms` table: a name and a reducer for each. */
  const Algorithms: seq<(string, Reducer)> := [
    ("first color in tile", FirstColor),
    ("most significant color in tile", MostSignificant(Exact)),
    ("least significant color in tile", LeastSignificant(Exact)),
    ("most significant color in tile (tolerance: 0.5)", MostSignificant(Within(0.5))),
    ("least significant color in tile (tolerance: 0.5)", LeastSignificant(Within(0.5))),
    ("average color in tile", AverageColor)
  ]

  /** The table as intended: the tolerance reducers compare Euclidean
      distances and the average leaves transparent pixels out. */
  const IntendedAlgorithms: seq<(string, Reducer)> := [
    ("first color in tile", FirstColor),
    ("most significant color in tile", MostSignificant(Exact)),
    ("least significant color in tile", LeastSignificant(Exact)),
    ("most significant color in tile (tolerance: 0.5)", MostSignificant(WithinEuclidean(0.5))),
    ("least significant color in tile (tolerance: 0.5)", LeastSignificant(WithinEuclidean(0.5))),
    ("average color in tile", OpaqueAverage)
  ]

  /** `frequencies` with an equality that matches everything puts the
      whole input in the group of its first element. */
  lemma {:induction false} FrequenciesOfMatchAll(eq: (Rgba, Rgba) -> bool, s: seq<Rgba>)
    requires |s| > 0
    requires forall a, b :: eq(a, b)
    ensures Frequencies(eq, s) == [(s[0], |s| - 1)]
  {
    var n := |s| - 1;
    if n > 0 {
      FrequenciesOfMatchAll(eq, s[..n]);
      var prev := Frequencies(eq, s[..n]);
      assert ArrayOps.EqualTo(Interactive.EntryEquality(eq), s[n])(prev[0]);
    }
  }

  /** As written, both tolerance-0.5 algorithms return the first colour of
      every tile, since every colour matches every other. */
  lemma ToleranceReducersPickFirst(colors: seq<Rgba>)
    requires |colors| > 0
    ensures Apply(MostSignificant(Within(0.5)), colors) == colors[0]
    ensures Apply(LeastSignificant(Within(0.5)), colors) == colors[0]
  {
    var eq := Similar(Within(0.5));
    forall a, b ensures eq(a, b) {
      HalfToleranceAlwaysMatches(a, b);
    }
    FrequenciesOfMatchAll(eq, colors);
    var entries := Frequencies(eq, colors);
    ByCountComparesByCount<Rgba>();
    Operators.MaxIsEarliestMaximum(ByCount(), CountKey(), entries);
    Operators.MinIsEarliestMinimum(ByCount(), CountKey(), entries);
  }

  /** At tolerance 0.5 as intended, black and white are apart and white
      matches white. */
  lemma BlackWhiteApart()
    ensures !Similar(WithinEuclidean(0.5))([0, 0, 0, 255], [255, 255, 255, 255])
    ensures Similar(WithinEuclidean(0.5))([255, 255, 255, 255], [255, 255, 255, 255])
  {
    HalfTolerance([0, 0, 0, 255], [255, 255, 255, 255]);
    HalfTolerance([255, 255, 255, 255], [255, 255, 255, 255]);
    assert SquaredDifference([0, 0, 0, 255], [255, 255, 255, 255]) == 3 * 255 * 255;
  }

  /** A black pixel followed by two white ones. */
  const BlackWhiteWhite: seq<Rgba> := [[0, 0, 0, 255], [255, 255, 255, 255], [255, 255, 255, 255]]

  /** The groups `frequencies` builds, as intended, for `BlackWhiteWhite`:
      black once, white twice. */
  lemma BlackWhiteGroups()
    ensures Frequencies(Similar(WithinEuclidean(0.5)), BlackWhiteWhite)
         == [([0, 0, 0, 255], 0), ([255, 255, 255, 255], 1)]
  {
    var black: Rgba, white: Rgba := [0, 0, 0, 255], [255, 255, 255, 255];
    var eq := Similar(WithinEuclidean(0.5));
    BlackWhiteApart();
    assert BlackWhiteWhite[..2] == [black, white];
    assert [black, white][..1] == [black];
    assert [black][..0] == [];
    var one := Frequencies(eq, [black]);
    assert one == [(black, 0)];
    var isWhite := ArrayOps.EqualTo(Interactive.EntryEquality(eq), white);
    assert !isWhite(one[0]);
    var two := Frequencies(eq, [black, white]);
    assert two == [(black, 0), (white, 0)];
    assert !isWhite(two[0]) && isWhite(two[1]);
    assert ArrayOps.FindIndex(isWhite, two) == 1;
  }

  /** As intended, the most significant colour of `BlackWhiteWhite` at
      tolerance 0.5 is white. */
  lemma IntendedMostSignificantIsWhite()
    ensures MostFrequent(Similar(WithinEuclidean(0.5)), BlackWhiteWhite) == [255, 255, 255, 255]
  {
    BlackWhiteGroups();
    var entries: seq<Interactive.Entry<Rgba>> := [([0, 0, 0, 255], 0), ([255, 255, 255, 255], 1)];
    ByCountComparesByCount<Rgba>();
    Operators.MaxIsEarliestMaximum(ByCount(), CountKey(), entries);
    var i :| Operators.IsEarliestMaximum(CountKey(), entries, i) && Operators.Max(ByCount(), entries) == Some(entries[i]);
    assert CountKey()(entries[0]) < CountKey()(entries[1]);
    assert i == 1;
  }

  /** On a black pixel and two white ones, the most significant colour at
      tolerance 0.5 is black, the first, as written; as intended it is
      white, the colour of two of the three pixels. */
  lemma ClampedToleranceMissesMajority()
    ensures Apply(MostSignificant(Within(0.5)), BlackWhiteWhite) == [0, 0, 0, 255]
    ensures Apply(MostSignificant(WithinEuclidean(0.5)), BlackWhiteWhite) == [255, 255, 255, 255]
  {
    ToleranceReducersPickFirst(BlackWhiteWhite);
    IntendedMostSignificantIsWhite();
  }

  /** Colours whose channels are all bytes. */
  ghost predicate AllBytes(colors: seq<Rgba>)
  {
    forall j :: 0 <= j < |colors| ==> Color.HasByteChannels(colors[j])
  }

  /** `coreFn` reduces every tile of byte colours to a byte colour. */
  ghost predicate KeepsBytes(coreFn: CoreFn)
    requires ReducesTiles(coreFn)
  {
    forall colors: seq<Rgba> :: |colors| > 0 && AllBytes(colors) ==> Color.HasByteChannels(coreFn(colors))
  }

  /** Every algorithm's `coreFn` keeps byte colours except the average as
      written, which overflows on an opaque pixel next to a transparent
      one of the same colour. */
  lemma ReducerKeepsBytes(reducer: Reducer)
    ensures KeepsBytes(CoreFnOf(reducer)) <==> !reducer.AverageColor?
  {
    if reducer.AverageColor? {
      var colors: seq<Rgba> := [[255, 0, 0, 255], [255, 0, 0, 0]];
      AverageAsWrittenOverflows();
      assert AllBytes(colors);
      assert !Color.HasByteChannels(CoreFnOf(reducer)(colors));
    } else {
      forall colors: seq<Rgba> | |colors| > 0 && AllBytes(colors)
        ensures Color.HasByteChannels(CoreFnOf(reducer)(colors))
      {
        ApplyBounds(reducer, colors);
      }
    }
  }

  /** Every colour a byte-keeping `coreFn` produces is a byte colour. */
  lemma TileSampledBytes(img: Image.ImageData, resolution: int, coreFn: CoreFn, row: nat, i: nat)
    requires Image.WellFormed(img) && ReducesTiles(coreFn) && KeepsBytes(coreFn)
    requires row < |TileSampled(img, resolution, coreFn)| && i < |TileSampled(img, resolution, coreFn)[row]|
    ensures Color.HasByteChannels(TileSampled(img, resolution, coreFn)[row][i])
  {
    var size := SampleRectangleSize(img, resolution);
    SampleSizePositive(img, resolution);
    var tiles := TilesOf(img, size);
    assert TileSampled(img, resolution, coreFn)[row] == TileRow(tiles, coreFn, row, resolution);
    forall col: nat | col < resolution && |tiles(row, col)| > 0
      ensures Color.HasByteChannels(coreFn(tiles(row, col)))
    {
      assert tiles(row, col) == TileColors(img, size, row, col);
      assert AllBytes(tiles(row, col));
    }
    TileRowBytes(tiles, coreFn, row, resolution, i);
  }

  /** A row whose tiles reduce to byte colours holds byte colours. */
  lemma {:induction false} TileRowBytes(tiles: (nat, nat) -> seq<Rgba>, coreFn: CoreFn, row: nat, n: nat, i: nat)
    requires ReducesTiles(coreFn)
    requires forall col: nat :: col < n && |tiles(row, col)| > 0 ==> Color.HasByteChannels(coreFn(tiles(row, col)))
    requires i < |TileRow(tiles, coreFn, row, n)|
    ensures Color.HasByteChannels(TileRow(tiles, coreFn, row, n)[i])
  {
    var prev, last := TileRow(tiles, coreFn, row, n - 1), ReducedTile(tiles, coreFn, row, n - 1);
    assert TileRow(tiles, coreFn, row, n) == prev + last;
    var c := (prev + last)[i];
    if i < |prev| {
      assert c == prev[i];
      TileRowBytes(tiles, coreFn, row, n - 1, i);
    } else {
      assert c == coreFn(tiles(row, n - 1));
    }
  }
}
