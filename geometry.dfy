/** getCanvasCoordinates: from a pointer position in the viewport to the
    canvas pixel under it, clamped to the canvas. */
module Geometry {
  import opened Numeric

  /** The canvas's bounding client rectangle; its extents are never negative. */
  datatype Rect = Rect(left: real, top: real, width: real, height: real)

  /** One coordinate of the result as a JavaScript Number: an integer, or NaN
      (which the script can produce only when the rectangle has no extent). */
  datatype Coordinate = Index(i: int) | NaN

  datatype Point = Point(x: Coordinate, y: Coordinate)

  /** One axis: the offset into the rectangle, scaled by the canvas size over
      the rendered size, floored, then clamped with max(0, min(v, dim - 1)).
      A rendered extent of 0 makes the scale dim / 0, which is +Infinity
      (NaN when dim is 0 too); an offset times +Infinity is +Infinity, or
      -Infinity, or NaN when the offset is 0; Math.floor keeps each of these;
      min and max clamp the infinities and pass NaN on. */
  function MapAxis(client: real, start: real, extent: real, dim: nat): (c: Coordinate)
    requires extent >= 0.0
    ensures c.NaN? <==> extent == 0.0 && (dim == 0 || client == start)
    ensures c.Index? ==> 0 <= c.i
    ensures c.Index? && dim >= 1 ==> c.i <= dim - 1
    ensures c.Index? && dim == 0 ==> c.i == 0
  {
    var offset := client - start;
    if extent > 0.0 then
      Index(Max(0, Min((offset * (dim as real / extent)).Floor, dim - 1)))
    else if dim == 0 || offset == 0.0 then
      NaN
    else if offset > 0.0 then
      Index(Max(0, dim - 1))
    else
      Index(Max(0, -1))
  }

  /** getCanvasCoordinates for a pointer at (clientX, clientY), the canvas
      rectangle rect and the canvas's pixel size width by height.  For a
      rendered rectangle and a canvas of at least one pixel each way, every
      pointer position, however far outside the rectangle, gives a pixel of
      the canvas: 0 <= x <= width - 1 and 0 <= y <= height - 1. */
  function CanvasCoordinates(clientX: real, clientY: real, rect: Rect, width: nat, height: nat): (p: Point)
    requires rect.width >= 0.0 && rect.height >= 0.0
    ensures rect.width > 0.0 && width >= 1 ==> p.x.Index? && 0 <= p.x.i <= width - 1
    ensures rect.height > 0.0 && height >= 1 ==> p.y.Index? && 0 <= p.y.i <= height - 1
    ensures p.x.Index? ==> 0 <= p.x.i
    ensures p.y.Index? ==> 0 <= p.y.i
    ensures p.x.NaN? <==> rect.width == 0.0 && (width == 0 || clientX == rect.left)
    ensures p.y.NaN? <==> rect.height == 0.0 && (height == 0 || clientY == rect.top)
  {
    Point(MapAxis(clientX, rect.left, rect.width, width), MapAxis(clientY, rect.top, rect.height, height))
  }

  /** Clamp v into [lo, hi]. */
  function Clamp(v: int, lo: int, hi: int): int
    requires lo <= hi
  {
    if v < lo then lo else if v > hi then hi else v
  }

  /** MapAxis on a rendered rectangle, in terms of the floored scaled offset. */
  lemma Scaled(client: real, start: real, extent: real, dim: nat, v: int)
    requires extent > 0.0 && v == ((client - start) * (dim as real / extent)).Floor
    ensures MapAxis(client, start, extent, dim) == Index(Max(0, Min(v, dim - 1)))
  {
  }

  /** With the rectangle the size of the canvas the scale is 1: the pixel is
      the floored offset, clamped, and nothing is stretched. */
  lemma IdentityScale(client: real, start: real, dim: nat)
    requires dim >= 1
    ensures MapAxis(client, start, dim as real, dim) == Index(Clamp((client - start).Floor, 0, dim - 1))
  {
    var offset, scale := client - start, dim as real / dim as real;
    assert scale == 1.0;
    assert offset * scale == offset;
    var v := offset.Floor;
    Scaled(client, start, dim as real, dim, v);
    assert Max(0, Min(v, dim - 1)) == Clamp(v, 0, dim - 1);
  }

  /** Inside the rectangle nothing is clamped: the pixel is the floor of the
      scaled offset itself. */
  lemma InsideUnclamped(client: real, start: real, extent: real, dim: nat)
    requires extent > 0.0 && dim >= 1 && start <= client < start + extent
    ensures MapAxis(client, start, extent, dim) == Index(((client - start) * (dim as real / extent)).Floor)
  {
    var offset, scale := client - start, dim as real / extent;
    assert scale * extent == dim as real;
    assert scale > 0.0;
    assert offset * scale < extent * scale;
    assert 0.0 <= offset * scale;
    Scaled(client, start, extent, dim, (offset * scale).Floor);
  }

  /** Moving the pointer right (or down) never moves the picked pixel left (or up). */
  lemma Monotone(client: real, client': real, start: real, extent: real, dim: nat)
    requires extent > 0.0 && client <= client'
    ensures MapAxis(client, start, extent, dim).i <= MapAxis(client', start, extent, dim).i
  {
    var scale := dim as real / extent;
    assert scale >= 0.0 by {
      assert scale * extent == dim as real;
    }
    var x, x' := (client - start) * scale, (client' - start) * scale;
    ScaleMonotone(client - start, client' - start, scale);
    FloorMonotone(x, x');
    Scaled(client, start, extent, dim, x.Floor);
    Scaled(client', start, extent, dim, x'.Floor);
  }

  lemma ScaleMonotone(a: real, b: real, k: real)
    requires a <= b && k >= 0.0
    ensures a * k <= b * k
  {
    assert (b - a) * k >= 0.0;
  }

  /** With no rendered extent (the image not laid out yet) the result is
      pixel dim - 1 for a pointer past the rectangle's edge, 0 for one before
      it, and NaN for one exactly on it. */
  lemma ZeroExtent(client: real, start: real, dim: nat)
    requires dim >= 1
    ensures client > start ==> MapAxis(client, start, 0.0, dim) == Index(dim - 1)
    ensures client < start ==> MapAxis(client, start, 0.0, dim) == Index(0)
    ensures client == start ==> MapAxis(client, start, 0.0, dim) == NaN
  {
  }
}
