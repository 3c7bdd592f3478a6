/** Planar primitives shared by the broad and narrow phases: a real-valued
    vector and the axis-aligned rectangle of the rendering library
    (`sf::Vector2f`, `sf::FloatRect`). Floats are modelled as `real`. */
module Geometry {

  datatype Vec2 = Vec2(x: real, y: real)

  function Max(a: real, b: real): real { if a < b then b else a }
  function Min(a: real, b: real): real { if a < b then a else b }

  /** `sf::FloatRect(left, top, width, height)`. */
  datatype Rect = Rect(left: real, top: real, width: real, height: real) {
    function Right(): real { left + width }
    function Bottom(): real { top + height }
    predicate NonNegative() { width >= 0.0 && height >= 0.0 }
  }

  /** Assumed behaviour of `sf::FloatRect::intersects` for rectangles of
      non-negative size: the overlap of the two rectangles must have a
      positive extent on both axes, so rectangles that merely touch along an
      edge do not intersect. This is the same strict test that
      `boundingBoxCollision` writes out by hand. */
  predicate Intersects(a: Rect, b: Rect) {
    Max(a.left, b.left) < Min(a.Right(), b.Right()) &&
    Max(a.top, b.top) < Min(a.Bottom(), b.Bottom())
  }

  /** Assumed behaviour of `sf::FloatRect::contains(x, y)` for rectangles of
      non-negative size: a half-open test, the left and top edges belong to
      the rectangle and the right and bottom edges do not. */
  predicate ContainsPoint(r: Rect, x: real, y: real) {
    r.left <= x < r.Right() && r.top <= y < r.Bottom()
  }

  /** Closed containment: `inner` lies inside `outer`, edges included. */
  predicate Within(outer: Rect, inner: Rect) {
    outer.left <= inner.left && inner.Right() <= outer.Right() &&
    outer.top <= inner.top && inner.Bottom() <= outer.Bottom()
  }

  /** Strict overlap, written without `Max`/`Min`: both rectangles have a
      positive extent and each starts before the other one ends, on both
      axes. */
  lemma IntersectsIff(a: Rect, b: Rect)
    ensures Intersects(a, b) <==>
      a.width > 0.0 && b.width > 0.0 && a.height > 0.0 && b.height > 0.0 &&
      a.left < b.Right() && b.left < a.Right() &&
      a.top < b.Bottom() && b.top < a.Bottom()
  {
  }

  lemma IntersectsSymmetric(a: Rect, b: Rect)
    ensures Intersects(a, b) == Intersects(b, a)
  {
  }

  /** Whatever meets a rectangle lying inside `outer` also meets `outer`. */
  lemma WithinIntersects(outer: Rect, inner: Rect, area: Rect)
    requires Within(outer, inner)
    requires Intersects(inner, area)
    ensures Intersects(outer, area)
  {
  }

  lemma WithinTransitive(a: Rect, b: Rect, c: Rect)
    requires Within(a, b) && Within(b, c)
    ensures Within(a, c)
  {
  }
}
