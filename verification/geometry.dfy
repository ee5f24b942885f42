/** Integer rectangles from geometry.py: a rectangle is its top-left corner
    and its width and height. */
module Geometry {

  datatype Point = Point(x: int, y: int)

  datatype Rect = Rect(x: int, y: int, w: int, h: int)

  function Min(a: int, b: int): int {
    if a <= b then a else b
  }

  function Max(a: int, b: int): int {
    if a <= b then b else a
  }

  function Abs(a: int): int {
    if a < 0 then -a else a
  }

  /** `Rect.from_corners`: the rectangle spanned by two opposite corners. */
  function FromCorners(p1: Point, p2: Point): (r: Rect)
    ensures r.w >= 0 && r.h >= 0
    ensures r.x <= p1.x && r.x <= p2.x && (r.x == p1.x || r.x == p2.x)
    ensures r.y <= p1.y && r.y <= p2.y && (r.y == p1.y || r.y == p2.y)
  {
    Rect(Min(p1.x, p2.x), Min(p1.y, p2.y), Abs(p1.x - p2.x), Abs(p1.y - p2.y))
  }

  /** The order of the two corners does not matter. */
  lemma FromCornersSymmetric(p1: Point, p2: Point)
    ensures FromCorners(p1, p2) == FromCorners(p2, p1)
  {
  }

  /** `Rect.corners`: the top-left and bottom-right corners. */
  function Corners(r: Rect): (c: (Point, Point))
    ensures c.1.x - c.0.x == r.w && c.1.y - c.0.y == r.h
    ensures c.0 == Point(r.x, r.y)
  {
    (Point(r.x, r.y), Point(r.x + r.w, r.y + r.h))
  }

  /** The corners of a rectangle built from two points are the
      componentwise minimum and maximum of those points. */
  lemma CornersOfFromCorners(p1: Point, p2: Point)
    ensures Corners(FromCorners(p1, p2))
      == (Point(Min(p1.x, p2.x), Min(p1.y, p2.y)), Point(Max(p1.x, p2.x), Max(p1.y, p2.y)))
  {
  }

  /** A rectangle is rebuilt from its own corners when its sizes are not negative. */
  lemma FromOwnCorners(r: Rect)
    requires r.w >= 0 && r.h >= 0
    ensures FromCorners(Corners(r).0, Corners(r).1) == r
  {
  }

  /** `Rect.intersects`, branch for branch: along each axis the rectangle
      that starts first must reach the start of the other. */
  function Intersects(r1: Rect, r2: Rect): (b: bool)
    ensures r1.w >= 0 && r1.h >= 0 && r2.w >= 0 && r2.h >= 0 ==>
      (b <==> Overlap(r1.x, r1.w, r2.x, r2.w) && Overlap(r1.y, r1.h, r2.y, r2.h))
  {
    var (r1p1, r1p2) := Corners(r1);
    var (r2p1, r2p2) := Corners(r2);
    var xinter := if r1p1.x < r2p1.x then r1p2.x >= r2p1.x else r2p2.x >= r1p1.x;
    if !xinter then false
    else
      var yinter := if r1p1.y < r2p1.y then r1p2.y >= r2p1.y else r2p2.y >= r1p1.y;
      yinter
  }

  /** The closed intervals `[a, a + la]` and `[b, b + lb]` share a point. */
  predicate Overlap(a: int, la: int, b: int, lb: int) {
    Max(a, b) <= Min(a + la, b + lb)
  }

  /** For non-negative sizes `intersects` is symmetric and reflexive. */
  lemma IntersectsSymmetricReflexive(r1: Rect, r2: Rect)
    requires r1.w >= 0 && r1.h >= 0 && r2.w >= 0 && r2.h >= 0
    ensures Intersects(r1, r2) == Intersects(r2, r1)
    ensures Intersects(r1, r1)
  {
  }

  /** With a negative width the two argument orders can disagree: the
      symmetry above needs its precondition. A point-sized rectangle meets
      one of negative width at the same corner, but not the other way round. */
  lemma IntersectsAsymmetricForNegativeWidth(x: int, y: int, w: int)
    requires w < 0
    ensures Intersects(Rect(x, y, w, 0), Rect(x, y, 0, 0))
    ensures !Intersects(Rect(x, y, 0, 0), Rect(x, y, w, 0))
  {
  }
}
