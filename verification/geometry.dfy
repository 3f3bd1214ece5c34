/** `lib/geometry.js`: points, non-negative sizes and axis-aligned bounding
    boxes stored as a centre and a half-size. Coordinates are JavaScript
    numbers, modelled as reals; the `isNumber` checks always pass on them. */
module Geometry {

  import opened Wrappers

  /** `Point(x, y)`. The `[0]`/`[1]` getters and the iterator are aliases of
      `x` and `y`. */
  datatype Point = Point(x: real, y: real)

  /** `point.offset(dx, dy)`: the point moved by `(dx, dy)`. */
  function Offset(p: Point, dx: real, dy: real): (r: Point)
  {
    Point(p.x + dx, p.y + dy)
  }

  /** `Point.subtract(lhs, rhs)`: the component-wise difference. */
  function Subtract(lhs: Point, rhs: Point): (r: Point)
  {
    Point(lhs.x - rhs.x, lhs.y - rhs.y)
  }

  /** `Point.subtract` undoes `offset` and `offset` undoes `Point.subtract`:
      the difference is the displacement between the two points. */
  lemma SubtractInvertsOffset(p: Point, q: Point, dx: real, dy: real)
    ensures Subtract(Offset(p, dx, dy), p) == Point(dx, dy)
    ensures Offset(q, Subtract(p, q).x, Subtract(p, q).y) == p
  {
  }

  /** `Point.equality`: both coordinates strictly equal. */
  function PointEquality(lhs: Point, rhs: Point): (r: bool)
    ensures r <==> lhs == rhs
  {
    lhs.x == rhs.x && lhs.y == rhs.y
  }

  /** The fields of `Size(width, height)`. */
  datatype Extent = Extent(width: real, height: real)

  /** A `Size` as the constructor admits it: neither side negative. */
  type Size = e: Extent | 0.0 <= e.width && 0.0 <= e.height witness Extent(0.0, 0.0)

  /** `Size(width, height)`: raises an invariant violation for a negative
      side (first checking the width). */
  function MakeSize(width: real, height: real): (r: Result<Size>)
    ensures r.Success? <==> 0.0 <= width && 0.0 <= height
    ensures r.Success? ==> r.value.width == width && r.value.height == height
    ensures width < 0.0 ==> r == Failure(InvariantViolation("'width' must be non-negative."))
    ensures 0.0 <= width && height < 0.0 ==> r == Failure(InvariantViolation("'height' most be non-negative."))
  {
    if width < 0.0 then Failure(InvariantViolation("'width' must be non-negative."))
    else if height < 0.0 then Failure(InvariantViolation("'height' most be non-negative."))
    else Success(Extent(width, height))
  }

  /** `Size.equality`: both sides strictly equal. */
  function SizeEquality(lhs: Size, rhs: Size): (r: bool)
    ensures r <==> lhs == rhs
  {
    lhs.width == rhs.width && lhs.height == rhs.height
  }

  /** `BoundingBox({center, halfSize})`: a box of twice the half-size around
      the centre. The half-size is always a `Size`, so it is non-negative. */
  datatype BoundingBox = BoundingBox(center: Point, halfSize: Size)

  function Width(box: BoundingBox): real
  {
    box.halfSize.width * 2.0
  }

  function Height(box: BoundingBox): real
  {
    box.halfSize.height * 2.0
  }

  function Top(box: BoundingBox): real
  {
    box.center.y - box.halfSize.height
  }

  function Right(box: BoundingBox): real
  {
    box.center.x + box.halfSize.width
  }

  function Bottom(box: BoundingBox): real
  {
    box.center.y + box.halfSize.height
  }

  function Left(box: BoundingBox): real
  {
    box.center.x - box.halfSize.width
  }

  /** The `size` getter: a `Size` of the full width and height. It never
      raises, because doubling keeps the half-size non-negative. */
  function SizeOf(box: BoundingBox): (r: Size)
    ensures r.width == Right(box) - Left(box) && r.height == Bottom(box) - Top(box)
  {
    Extent(Width(box), Height(box))
  }

  /** Every box spans from its left to its right edge and from its top to its
      bottom edge: the edges are ordered and their distances are the width
      and height. */
  lemma BoxExtent(box: BoundingBox)
    ensures Left(box) <= Right(box) && Top(box) <= Bottom(box)
    ensures Width(box) == Right(box) - Left(box) && Height(box) == Bottom(box) - Top(box)
    ensures Width(box) >= 0.0 && Height(box) >= 0.0
  {
  }

  /** `box.offset(dx, dy)`: the same half-size around the moved centre. */
  function OffsetBox(box: BoundingBox, dx: real, dy: real): (r: BoundingBox)
  {
    BoundingBox(Offset(box.center, dx, dy), box.halfSize)
  }

  /** `offset` translates every edge by the displacement and leaves the size
      unchanged. */
  lemma OffsetTranslates(box: BoundingBox, dx: real, dy: real)
    ensures SizeOf(OffsetBox(box, dx, dy)) == SizeOf(box)
    ensures Left(OffsetBox(box, dx, dy)) == Left(box) + dx
    ensures Right(OffsetBox(box, dx, dy)) == Right(box) + dx
    ensures Top(OffsetBox(box, dx, dy)) == Top(box) + dy
    ensures Bottom(OffsetBox(box, dx, dy)) == Bottom(box) + dy
    ensures Subtract(OffsetBox(box, dx, dy).center, box.center) == Point(dx, dy)
  {
  }

  /** `BoundingBox.fromLimits({bottom, left, right, top})`: raises unless
      `left <= right` (checked first) and `top <= bottom`; otherwise the box
      centred between the limits. */
  function FromLimits(bottom: real, left: real, right: real, top: real): (r: Result<BoundingBox>)
    ensures r.Success? <==> left <= right && top <= bottom
    ensures !(left <= right) ==> r == Failure(InvariantViolation("'left' must be less than or equal to 'right'."))
    ensures left <= right && !(top <= bottom) ==> r == Failure(InvariantViolation("'top' must be less than or equal to 'bottom'."))
    ensures r.Success? ==>
      Left(r.value) == left && Right(r.value) == right && Top(r.value) == top && Bottom(r.value) == bottom
  {
    if !(left <= right) then Failure(InvariantViolation("'left' must be less than or equal to 'right'."))
    else if !(top <= bottom) then Failure(InvariantViolation("'top' must be less than or equal to 'bottom'."))
    else
      var halfSize: Size := Extent((right - left) / 2.0, (bottom - top) / 2.0);
      Success(BoundingBox(Point((right + left) / 2.0, (bottom + top) / 2.0), halfSize))
  }

  /** `BoundingBox.fromRect({x, y, width, height})`: raises for a negative
      width (checked first) or height; otherwise the box whose top-left corner
      is `(x, y)` with the given width and height. */
  function FromRect(x: real, y: real, width: real, height: real): (r: Result<BoundingBox>)
    ensures r.Success? <==> 0.0 <= width && 0.0 <= height
    ensures width < 0.0 ==> r == Failure(InvariantViolation("'width' must be non-negative."))
    ensures 0.0 <= width && height < 0.0 ==> r == Failure(InvariantViolation("'height' most be non-negative."))
    ensures r.Success? ==>
      Left(r.value) == x && Top(r.value) == y && Width(r.value) == width && Height(r.value) == height
  {
    if width < 0.0 then Failure(InvariantViolation("'width' must be non-negative."))
    else if height < 0.0 then Failure(InvariantViolation("'height' most be non-negative."))
    else
      var halfSize: Size := Extent(width / 2.0, height / 2.0);
      Success(BoundingBox(Point(x + halfSize.width, y + halfSize.height), halfSize))
  }

  /** A valid rectangle and the limits of its edges describe the same box. */
  lemma FromRectIsFromLimits(x: real, y: real, width: real, height: real)
    requires 0.0 <= width && 0.0 <= height
    ensures FromRect(x, y, width, height) == FromLimits(y + height, x, x + width, y)
  {
  }

  /** Building a box from the limits of a box gives the box back. */
  lemma FromLimitsOfBox(box: BoundingBox)
    ensures FromLimits(Bottom(box), Left(box), Right(box), Top(box)) == Success(box)
  {
  }

  /** `BoundingBox.equality`: equal centres and equal sizes. */
  function BoxEquality(lhs: BoundingBox, rhs: BoundingBox): (r: bool)
  {
    PointEquality(lhs.center, rhs.center) && SizeEquality(SizeOf(lhs), SizeOf(rhs))
  }

  /** Box equality is exactly equality of centre and half-size, so it is
      reflexive, symmetric and transitive. */
  lemma BoxEqualityIsEquality(lhs: BoundingBox, rhs: BoundingBox)
    ensures BoxEquality(lhs, rhs) <==> lhs == rhs
    ensures BoxEquality(lhs, lhs)
    ensures BoxEquality(lhs, rhs) == BoxEquality(rhs, lhs)
  {
    if BoxEquality(lhs, rhs) {
      assert lhs.halfSize.width == rhs.halfSize.width;
      assert lhs.halfSize.height == rhs.halfSize.height;
    }
  }
}
