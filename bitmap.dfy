/** The clamping arithmetic of `BitmapTransform.Crop`
    (Imaging/BitmapTransform.cs): `Range` and the fixing of a requested
    section against the image's width and height. */
module BitmapCrop {
  import opened Common
  import opened ImagingPoints

  /** `Range(x, min, max)`: `min` below the range, `max` above it, `x`
      otherwise. When `min > max` the first test wins. */
  function Range(x: Int32, min: Int32, max: Int32): (r: Int32)
    ensures r == x || r == min || r == max
    ensures x < min ==> r == min
    ensures min <= max ==> min <= r <= max
    ensures min <= max ==> (r == x <==> min <= x <= max)
  {
    if x < min then min
    else if x > max then max
    else x
  }

  /** For an ordered range, `Range` is the usual clamp `max(min, min(x, max))`. */
  lemma RangeIsClamp(x: Int32, min: Int32, max: Int32)
    requires min <= max
    ensures Range(x, min, max) == if x <= min then min else Min(x, max)
  {
  }

  /** Clamping twice is clamping once. */
  lemma RangeIdempotent(x: Int32, min: Int32, max: Int32)
    requires min <= max
    ensures Range(Range(x, min, max), min, max) == Range(x, min, max)
  {
  }

  /** `Range(x, 0, bound)` leaves `bound - Range(x, 0, bound)` inside 32 bits,
      whatever the sign of `bound`. */
  lemma RemainderFits(x: Int32, bound: Int32)
    ensures IntMin <= bound - Range(x, 0, bound) <= IntMax
  {
  }

  /** The section `Crop` draws from: the corner clamped into the image,
      then the extent clamped to what is left to the right and below. */
  function FixRectangle(width: Int32, height: Int32, rectangle: Rectangle): (f: Rectangle)
    ensures width >= 0 ==> 0 <= f.x <= width && 0 <= f.width && f.x + f.width <= width
    ensures height >= 0 ==> 0 <= f.y <= height && 0 <= f.height && f.y + f.height <= height
  {
    RemainderFits(rectangle.x, width);
    RemainderFits(rectangle.y, height);
    var x := Range(rectangle.x, 0, width);
    var y := Range(rectangle.y, 0, height);
    var w := Range(rectangle.width, 0, width - x);
    var h := Range(rectangle.height, 0, height - y);
    Rectangle(x, y, w, h)
  }

  /** A section already inside the image is kept as it is. */
  predicate Inside(width: int, height: int, r: Rectangle) {
    0 <= r.x && 0 <= r.width && r.x + r.width <= width &&
    0 <= r.y && 0 <= r.height && r.y + r.height <= height
  }

  /** A section inside the image passes through unchanged, and only such
      a section does: the fixed section is always inside. */
  lemma FixKeepsInside(width: Int32, height: Int32, rectangle: Rectangle)
    requires width >= 0 && height >= 0
    ensures Inside(width, height, FixRectangle(width, height, rectangle))
    ensures FixRectangle(width, height, rectangle) == rectangle <==> Inside(width, height, rectangle)
  {
    var f := FixRectangle(width, height, rectangle);
    if Inside(width, height, rectangle) {
      assert Range(rectangle.x, 0, width) == rectangle.x;
      assert Range(rectangle.y, 0, height) == rectangle.y;
    }
  }

  /** Fixing a fixed section changes nothing. */
  lemma FixIdempotent(width: Int32, height: Int32, rectangle: Rectangle)
    requires width >= 0 && height >= 0
    ensures var f := FixRectangle(width, height, rectangle);
      FixRectangle(width, height, f) == f
  {
    FixKeepsInside(width, height, rectangle);
    FixKeepsInside(width, height, FixRectangle(width, height, rectangle));
  }

  /** A corner left of or above the image is moved onto its edge without
      shortening the section: the part that lay outside is not cut off,
      so the section is not the intersection with the image. */
  lemma NegativeCornerKeepsExtent(width: Int32, height: Int32, rectangle: Rectangle)
    requires width >= 0 && rectangle.x < 0
    ensures FixRectangle(width, height, rectangle).x == 0
    ensures FixRectangle(width, height, rectangle).width == Range(rectangle.width, 0, width)
  {
  }
}
