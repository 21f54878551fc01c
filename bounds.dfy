/** `BoundingRect`: an axis-aligned rectangle whose corners are normalised on construction,
    with inclusive point containment and overlap tests. */
module Bounds {
  import opened Vectors

  /** A rectangle from `topLeft` (smallest coordinates) to `bottomRight` (largest). `Plane` is
      the rectangle whose corners are (-Infinity, -Infinity) and (+Infinity, +Infinity): the
      bounds of a polygon without vertices. */
  datatype Rect = Rect(topLeft: Vec, bottomRight: Vec) | Plane

  /** Every rectangle the constructor builds has its corners in order. */
  predicate Normalised(r: Rect) {
    r.Rect? ==> r.topLeft.x <= r.bottomRight.x && r.topLeft.y <= r.bottomRight.y
  }

  /** `new BoundingRect(x1, x2, y1, y2)`: the two x values and the two y values may come in
      either order. */
  function MakeRect(x1: real, x2: real, y1: real, y2: real): (r: Rect)
    ensures r.Rect? && Normalised(r)
    ensures {r.topLeft.x, r.bottomRight.x} == {x1, x2}
    ensures {r.topLeft.y, r.bottomRight.y} == {y1, y2}
  {
    Rect(Vec(Min(x1, x2), Min(y1, y2)), Vec(Max(x1, x2), Max(y1, y2)))
  }

  /** `contains`: inclusive on all four sides. */
  predicate Contains(r: Rect, p: Vec) {
    match r
    case Plane => true
    case Rect(tl, br) => p.x >= tl.x && p.y >= tl.y && p.x <= br.x && p.y <= br.y
  }

  /** `intersects`: the vertical overlap is tested before the horizontal one; a side at
      +-Infinity never limits the overlap. */
  predicate Intersects(a: Rect, b: Rect) {
    if a.Plane? && b.Plane? then true
    else if a.Plane? then b.topLeft.y <= b.bottomRight.y && b.topLeft.x <= b.bottomRight.x
    else if b.Plane? then a.topLeft.y <= a.bottomRight.y && a.topLeft.x <= a.bottomRight.x
    else
      var topBound := Max(b.topLeft.y, a.topLeft.y);
      var botBound := Min(b.bottomRight.y, a.bottomRight.y);
      if topBound > botBound then false
      else
        var leftBound := Max(b.topLeft.x, a.topLeft.x);
        var rightBound := Min(b.bottomRight.x, a.bottomRight.x);
        !(leftBound > rightBound)
  }

  /** A constructed rectangle contains exactly the points between the given coordinates,
      whichever order they were given in. */
  lemma ContainsBetween(x1: real, x2: real, y1: real, y2: real, p: Vec)
    ensures Contains(MakeRect(x1, x2, y1, y2), p) <==>
      (x1 <= p.x <= x2 || x2 <= p.x <= x1) && (y1 <= p.y <= y2 || y2 <= p.y <= y1)
  {
  }

  /** The corners themselves are inside: containment is inclusive. */
  lemma CornersContained(r: Rect)
    requires r.Rect? && Normalised(r)
    ensures Contains(r, r.topLeft) && Contains(r, r.bottomRight)
    ensures Contains(r, Vec(r.topLeft.x, r.bottomRight.y)) && Contains(r, Vec(r.bottomRight.x, r.topLeft.y))
  {
  }

  lemma IntersectsSymmetric(a: Rect, b: Rect)
    ensures Intersects(a, b) == Intersects(b, a)
  {
  }

  /** The point of `a` and `b` with the largest lower coordinates. */
  function Meet(a: Rect, b: Rect): Vec
    requires a.Rect? || b.Rect?
  {
    if a.Plane? then b.topLeft
    else if b.Plane? then a.topLeft
    else Vec(Max(a.topLeft.x, b.topLeft.x), Max(a.topLeft.y, b.topLeft.y))
  }

  /** Two well-formed rectangles intersect exactly when some point lies in both, so rectangles
      that only touch along a side or at a corner intersect. */
  lemma IntersectsIffCommonPoint(a: Rect, b: Rect)
    requires Normalised(a) && Normalised(b)
    ensures Intersects(a, b) <==> exists p :: Contains(a, p) && Contains(b, p)
  {
    if Intersects(a, b) {
      var p := if a.Plane? && b.Plane? then Zero else Meet(a, b);
      assert Contains(a, p) && Contains(b, p);
    }
  }

  /** Rectangles sharing only the side x == 1 intersect. */
  lemma TouchingIntersect()
    ensures Intersects(MakeRect(0.0, 1.0, 0.0, 1.0), MakeRect(1.0, 2.0, 0.0, 1.0))
    ensures !Intersects(MakeRect(0.0, 1.0, 0.0, 1.0), MakeRect(1.5, 2.0, 0.0, 1.0))
  {
  }

  /** Every point of `inner` lies in `outer`. */
  ghost predicate Inside(inner: Rect, outer: Rect) {
    forall p :: Contains(inner, p) ==> Contains(outer, p)
  }
}
