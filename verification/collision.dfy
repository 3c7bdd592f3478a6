/** Narrow-phase collision tests: circles, axis-aligned boxes, and the
    unrotated pixel-perfect test over RGBA bitmasks. */
module Collision {
  import opened Geometry

  // ---------------------------------------------------------------------
  // Circles

  /** physics::circleCollision: the squared centre distance is at most the
      squared sum of the radii. */
  predicate CircleCollision(p1: Vec2, r1: real, p2: Vec2, r2: real)
    ensures CircleCollision(p1, r1, p2, r2) && r1 >= 0.0 && r2 >= 0.0 ==>
      Abs(p1.x - p2.x) <= r1 + r2 && Abs(p1.y - p2.y) <= r1 + r2
  {
    var dx := p1.x - p2.x;
    var dy := p1.y - p2.y;
    SumOfSquaresBound(dx, dy, r1 + r2);
    dx * dx + dy * dy <= (r1 + r2) * (r1 + r2)
  }

  /** A sum of two squares bounded by s^2 bounds each base by s. */
  lemma SumOfSquaresBound(dx: real, dy: real, s: real)
    ensures s >= 0.0 && dx * dx + dy * dy <= s * s ==> Abs(dx) <= s && Abs(dy) <= s
  {
    if s >= 0.0 && dx * dx + dy * dy <= s * s {
      assert Abs(dx) * Abs(dx) == dx * dx && Abs(dy) * Abs(dy) == dy * dy;
      SquareNonNegative(dx);
      SquareNonNegative(dy);
      SquareMonotone(Abs(dx), s);
      SquareMonotone(Abs(dy), s);
    }
  }

  lemma CircleCollisionSymmetric(p1: Vec2, r1: real, p2: Vec2, r2: real)
    ensures CircleCollision(p1, r1, p2, r2) == CircleCollision(p2, r2, p1, r1)
  {
    var dx := p1.x - p2.x;
    var dy := p1.y - p2.y;
    assert (-dx) * (-dx) == dx * dx && (-dy) * (-dy) == dy * dy;
    assert (r2 + r1) * (r2 + r1) == (r1 + r2) * (r1 + r2);
  }

  /** Circles with the same centre always collide. */
  lemma CircleCollisionSameCentre(p: Vec2, r1: real, r2: real)
    ensures CircleCollision(p, r1, p, r2)
  {
    SquareNonNegative(r1 + r2);
  }

  lemma SquareNonNegative(s: real)
    ensures s * s >= 0.0
  {
    if s < 0.0 {
      assert s * s == (-s) * (-s);
    }
  }

  /** Along one axis, circles of non-negative radii collide exactly when
      their centres are at most the sum of the radii apart. */
  lemma CircleCollisionOnAxis(p1: Vec2, r1: real, p2: Vec2, r2: real)
    requires r1 >= 0.0 && r2 >= 0.0 && p1.y == p2.y
    ensures CircleCollision(p1, r1, p2, r2) <==> Abs(p1.x - p2.x) <= r1 + r2
  {
    var d := Abs(p1.x - p2.x);
    var s := r1 + r2;
    assert (p1.x - p2.x) * (p1.x - p2.x) == d * d;
    SquareMonotone(d, s);
  }

  /** Circles of non-negative radii whose centres are further apart than
      the sum of the radii on either axis do not collide. */
  lemma CircleCollisionSeparated(p1: Vec2, r1: real, p2: Vec2, r2: real)
    requires r1 >= 0.0 && r2 >= 0.0
    requires Abs(p1.x - p2.x) > r1 + r2 || Abs(p1.y - p2.y) > r1 + r2
    ensures !CircleCollision(p1, r1, p2, r2)
  {
    var dx := Abs(p1.x - p2.x);
    var dy := Abs(p1.y - p2.y);
    var s := r1 + r2;
    assert (p1.x - p2.x) * (p1.x - p2.x) == dx * dx;
    assert (p1.y - p2.y) * (p1.y - p2.y) == dy * dy;
    SquareMonotone(dx, s);
    SquareMonotone(dy, s);
    assert dx * dx >= 0.0 && dy * dy >= 0.0;
  }

  function Abs(a: real): real { if a < 0.0 then -a else a }

  lemma SquareMonotone(a: real, b: real)
    requires a >= 0.0 && b >= 0.0
    ensures a <= b <==> a * a <= b * b
  {
    if a < b {
      SquareGrows(a, b - a);
      assert a + (b - a) == b;
    } else if b < a {
      SquareGrows(b, a - b);
      assert b + (a - b) == a;
    }
  }

  lemma SquareGrows(b: real, d: real)
    requires b >= 0.0 && d > 0.0
    ensures b * b < (b + d) * (b + d)
  {
    assert (b + d) * (b + d) == b * b + 2.0 * (b * d) + d * d;
    assert b * d >= 0.0;
    assert d * d > 0.0;
  }

  // ---------------------------------------------------------------------
  // Axis-aligned boxes

  /** physics::boundingBoxCollision on corner positions and sizes. */
  predicate BoundingBoxCollision(pos1: Vec2, size1: Vec2, pos2: Vec2, size2: Vec2)
    ensures BoundingBoxCollision(pos1, size1, pos2, size2) ==>
      size1.x > 0.0 && size1.y > 0.0 && size2.x > 0.0 && size2.y > 0.0
  {
    var xStart := Max(pos1.x, pos2.x);
    var yStart := Max(pos1.y, pos2.y);
    var xEnd := Min(pos1.x + size1.x, pos2.x + size2.x);
    var yEnd := Min(pos1.y + size1.y, pos2.y + size2.y);
    !(xStart >= xEnd || yStart >= yEnd)
  }

  function Box(pos: Vec2, size: Vec2): Rect {
    Rect(pos.x, pos.y, size.x, size.y)
  }

  /** The hand-written box test is the same strict overlap as the
      rectangle intersection the quadtree relies on; hence (by
      Geometry.IntersectsIff) both extents are positive and each box starts
      before the other ends, on both axes. */
  lemma BoundingBoxIsIntersects(pos1: Vec2, size1: Vec2, pos2: Vec2, size2: Vec2)
    ensures BoundingBoxCollision(pos1, size1, pos2, size2) == Intersects(Box(pos1, size1), Box(pos2, size2))
    ensures BoundingBoxCollision(pos1, size1, pos2, size2) <==>
      size1.x > 0.0 && size2.x > 0.0 && size1.y > 0.0 && size2.y > 0.0 &&
      pos1.x < pos2.x + size2.x && pos2.x < pos1.x + size1.x &&
      pos1.y < pos2.y + size2.y && pos2.y < pos1.y + size1.y
  {
    IntersectsIff(Box(pos1, size1), Box(pos2, size2));
  }

  lemma BoundingBoxSymmetric(pos1: Vec2, size1: Vec2, pos2: Vec2, size2: Vec2)
    ensures BoundingBoxCollision(pos1, size1, pos2, size2) == BoundingBoxCollision(pos2, size2, pos1, size1)
  {
  }

  /** Boxes that only share an edge (the first ends where the second
      starts, on either axis) do not collide. */
  lemma BoundingBoxTouching(pos1: Vec2, size1: Vec2, pos2: Vec2, size2: Vec2)
    requires size1.x >= 0.0 && size1.y >= 0.0 && size2.x >= 0.0 && size2.y >= 0.0
    requires pos1.x + size1.x == pos2.x || pos1.y + size1.y == pos2.y
    ensures !BoundingBoxCollision(pos1, size1, pos2, size2)
  {
  }

  /** A box collides with itself exactly when it has positive area. */
  lemma BoundingBoxSelf(pos: Vec2, size: Vec2)
    ensures BoundingBoxCollision(pos, size, pos, size) <==> size.x > 0.0 && size.y > 0.0
  {
  }

  // ---------------------------------------------------------------------
  // Pixel-perfect test (unrotated)

  /** A sprite for the pixel test: its RGBA bitmask, row-major with four
      bytes per pixel, and its position and size in whole pixels. */
  datatype PixelSprite = PixelSprite(mask: seq<int>, x: int, y: int, w: nat, h: nat)

  /** The mask holds the four bytes of every pixel of the sprite. */
  predicate WellFormed(s: PixelSprite) {
    |s.mask| >= 4 * s.w * s.h
  }

  function IMax(a: int, b: int): int { if a < b then b else a }
  function IMin(a: int, b: int): int { if a < b then a else b }

  /** The overlap rectangle of the two sprites, as half-open pixel ranges. */
  predicate InOverlap(a: PixelSprite, b: PixelSprite, px: int, py: int) {
    IMax(a.x, b.x) <= px < IMin(a.x + a.w, b.x + b.w) &&
    IMax(a.y, b.y) <= py < IMin(a.y + a.h, b.y + b.h)
  }

  /** Index of the first (red) byte of a pixel of the map in the sprite's
      mask. */
  function PixelIndex(s: PixelSprite, px: int, py: int): int {
    ((py - s.y) * s.w + (px - s.x)) * 4
  }

  /** Every pixel of the overlap lies inside both sprites, so the bytes
      read from both masks are within [0, 4*w*h). */
  lemma PixelIndexInRange(a: PixelSprite, b: PixelSprite, px: int, py: int)
    requires InOverlap(a, b, px, py)
    ensures 0 <= PixelIndex(a, px, py) < 4 * a.w * a.h
    ensures 0 <= PixelIndex(b, px, py) < 4 * b.w * b.h
  {
    RowMajorInRange(px - a.x, py - a.y, a.w, a.h);
    RowMajorInRange(px - b.x, py - b.y, b.w, b.h);
  }

  lemma RowMajorInRange(cx: int, cy: int, w: int, h: int)
    requires 0 <= cx < w && 0 <= cy < h
    ensures 0 <= (cy * w + cx) * 4 < 4 * w * h
  {
    MulMonotone(cy, h - 1, w);
    MulMonotone(0, cy, w);
    assert (h - 1) * w + w == h * w;
    assert 4 * w * h == 4 * (h * w);
  }

  lemma {:induction false} MulMonotone(a: nat, b: nat, c: nat)
    requires a <= b
    ensures a * c <= b * c
    decreases b - a
  {
    if a < b {
      MulMonotone(a + 1, b, c);
      assert (a + 1) * c == a * c + c;
    }
  }

  /** Both masks have a 1 in the first byte of the overlap pixel. */
  predicate PixelHit(a: PixelSprite, b: PixelSprite, px: int, py: int)
    requires WellFormed(a) && WellFormed(b)
  {
    InOverlap(a, b, px, py) &&
    (PixelIndexInRange(a, b, px, py);
     a.mask[PixelIndex(a, px, py)] == 1 && b.mask[PixelIndex(b, px, py)] == 1)
  }

  /** The sprites collide when some overlap pixel is set in both masks. */
  ghost predicate PixelsCollide(a: PixelSprite, b: PixelSprite)
    requires WellFormed(a) && WellFormed(b)
  {
    exists px, py :: PixelHit(a, b, px, py)
  }

  lemma PixelHitSymmetric(a: PixelSprite, b: PixelSprite, px: int, py: int)
    requires WellFormed(a) && WellFormed(b)
    ensures PixelHit(a, b, px, py) == PixelHit(b, a, px, py)
  {
  }

  lemma PixelsCollideSymmetric(a: PixelSprite, b: PixelSprite)
    requires WellFormed(a) && WellFormed(b)
    ensures PixelsCollide(a, b) == PixelsCollide(b, a)
  {
    if PixelsCollide(a, b) {
      var px, py :| PixelHit(a, b, px, py);
      PixelHitSymmetric(a, b, px, py);
    }
    if PixelsCollide(b, a) {
      var px, py :| PixelHit(b, a, px, py);
      PixelHitSymmetric(a, b, px, py);
    }
  }

  function Corner(s: PixelSprite): Vec2 { Vec2(s.x as real, s.y as real) }
  function Size(s: PixelSprite): Vec2 { Vec2(s.w as real, s.h as real) }

  /** Pixel collision implies box collision: sprites whose boxes do not
      overlap under boundingBoxCollision's test have no common pixel. */
  lemma PixelsCollideNeedsBoxes(a: PixelSprite, b: PixelSprite)
    requires WellFormed(a) && WellFormed(b)
    requires !BoundingBoxCollision(Corner(a), Size(a), Corner(b), Size(b))
    ensures !PixelsCollide(a, b)
  {
    forall px, py
      ensures !PixelHit(a, b, px, py)
    {
    }
  }

  /** physics::pixelPerfectCollision for unrotated sprites at whole-pixel
      positions: after the box test, the overlap is scanned row by row and
      the scan stops at the first pixel set in both masks. */
  method PixelPerfectCollision(a: PixelSprite, b: PixelSprite) returns (hit: bool)
    requires WellFormed(a) && WellFormed(b)
    ensures hit <==> PixelsCollide(a, b)
  {
    var left := IMax(a.x, b.x);
    var top := IMax(a.y, b.y);
    var right := IMin(a.x + a.w, b.x + b.w);
    var bottom := IMin(a.y + a.h, b.y + b.h);
    if left >= right || top >= bottom {
      return false;
    }
    var py := top;
    while py < bottom
      invariant top <= py <= bottom
      invariant forall qx, qy :: top <= qy < py ==> !PixelHit(a, b, qx, qy)
    {
      var px := left;
      while px < right
        invariant left <= px <= right
        invariant forall qx :: left <= qx < px ==> !PixelHit(a, b, qx, py)
      {
        PixelIndexInRange(a, b, px, py);
        if a.mask[PixelIndex(a, px, py)] == 1 && b.mask[PixelIndex(b, px, py)] == 1 {
          assert PixelHit(a, b, px, py);
          return true;
        }
        px := px + 1;
      }
      py := py + 1;
    }
    return false;
  }
}
