/** Core Graphics geometry over exact reals: points, sizes and rectangles,
    with the standardising semantics of `CGRectGetMinX` and friends. */
module Geometry {
  import opened Options

  datatype Point = Point(x: real, y: real)
  datatype Size = Size(width: real, height: real)
  datatype Rect = Rect(origin: Point, size: Size)

  function Min(a: real, b: real): real { if a <= b then a else b }
  function Max(a: real, b: real): real { if a <= b then b else a }

  /* Edges of the standardised rectangle: a negative width or height flips
     the rectangle round its origin, as Core Graphics does. */
  function MinX(r: Rect): real { Min(r.origin.x, r.origin.x + r.size.width) }
  function MaxX(r: Rect): real { Max(r.origin.x, r.origin.x + r.size.width) }
  function MinY(r: Rect): real { Min(r.origin.y, r.origin.y + r.size.height) }
  function MaxY(r: Rect): real { Max(r.origin.y, r.origin.y + r.size.height) }

  /** `CGRectContainsPoint`: the rectangle is half-open, so its maximum
      edges are excluded. */
  predicate Contains(r: Rect, p: Point) {
    MinX(r) <= p.x < MaxX(r) && MinY(r) <= p.y < MaxY(r)
  }

  /** `CGRect.insetBy(dx:dy:)`: the standardised rectangle moves each edge
      inward by `dx` (left and right) and `dy` (top and bottom); negative
      insets grow it. A result with negative width or height is the null
      rectangle, `None` here. */
  function InsetBy(r: Rect, dx: real, dy: real): (q: Option<Rect>)
    ensures q.Some? <==> MaxX(r) - MinX(r) >= 2.0 * dx && MaxY(r) - MinY(r) >= 2.0 * dy
    ensures q.Some? ==>
              && MinX(q.value) == MinX(r) + dx && MaxX(q.value) == MaxX(r) - dx
              && MinY(q.value) == MinY(r) + dy && MaxY(q.value) == MaxY(r) - dy
  {
    var w := MaxX(r) - MinX(r) - 2.0 * dx;
    var h := MaxY(r) - MinY(r) - 2.0 * dy;
    if w < 0.0 || h < 0.0 then None
    else Some(Rect(Point(MinX(r) + dx, MinY(r) + dy), Size(w, h)))
  }

  /** The null rectangle contains no point. */
  predicate ContainsOpt(r: Option<Rect>, p: Point) {
    r.Some? && Contains(r.value, p)
  }
}
