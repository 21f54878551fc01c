/** The collision forms (polygon, circle, point), their bounding rectangles, the polygon's edge
    walk and `fintersect`, the narrow-phase test between two forms. */
module Forms {
  import opened Vectors
  import opened Results
  import opened Bounds
  import opened RaySegment

  /** The slack `fintersect` adds to every distance and angle test. */
  const Tolerance: real := 0.05

  /** The geometry of a form: a polygon by its vertex list, a circle, or a point. */
  datatype Shape = Polygon(vertices: seq<Vec>) | Circle(center: Vec, radius: real) | Point(center: Vec)

  function Dist2(a: Vec, b: Vec): real {
    Dot(Sub(a, b), Sub(a, b))
  }

  /** The index after `i` in a closed vertex loop of length `n`. */
  function NextI(i: nat, n: nat): nat
    requires i < n
  {
    if i == n - 1 then 0 else i + 1
  }

  /** The edge `forEachEdge` hands out for vertex `i`: it starts at vertex `i`, but its end takes
      the next vertex's x with vertex `i`'s own y. */
  function EdgeAt(vs: seq<Vec>, i: nat): Segment
    requires i < |vs|
  {
    Segment(vs[i], Vec(vs[NextI(i, |vs|)].x, vs[i].y))
  }

  /** Every edge in the order `forEachEdge` visits them. */
  function Edges(vs: seq<Vec>): seq<Segment> {
    seq(|vs|, i requires 0 <= i < |vs| => EdgeAt(vs, i))
  }

  /** As written, every edge is horizontal and runs from vertex `i` to below or above the next
      vertex; only a polygon with equal consecutive y values gets its true edges. */
  lemma EdgesAreHorizontal(vs: seq<Vec>, i: nat)
    requires i < |vs|
    ensures Edges(vs)[i].v1 == vs[i]
    ensures Edges(vs)[i].v2.y == vs[i].y && Edges(vs)[i].v2.x == vs[NextI(i, |vs|)].x
    ensures Edges(vs)[i].v2 == vs[NextI(i, |vs|)] <==> vs[NextI(i, |vs|)].y == vs[i].y
  {
  }

  // ---------------------------------------------------------------------------------------
  // Bounding rectangles

  /** The running minima and maxima of the bounds loop; `Unbounded` is its starting state,
      with the minima at +Infinity and the maxima at -Infinity. */
  datatype Extent = Unbounded | Extent(xmin: real, xmax: real, ymin: real, ymax: real)

  /** One step of the loop: each bound moves to the vertex when the vertex lies beyond it. */
  function Grow(e: Extent, v: Vec): Extent {
    match e
    case Unbounded => Extent(v.x, v.x, v.y, v.y)
    case Extent(x0, x1, y0, y1) =>
      Extent(if x0 > v.x then v.x else x0, if x1 < v.x then v.x else x1,
             if y0 > v.y then v.y else y0, if y1 < v.y then v.y else y1)
  }

  function ExtentOf(vs: seq<Vec>): Extent
    decreases |vs|
  {
    if vs == [] then Unbounded else Grow(ExtentOf(vs[..|vs| - 1]), vs[|vs| - 1])
  }

  /** `new BoundingRect(xmin, xmax, ymin, ymax)` from the loop's result; with no vertex the
      infinities survive and the rectangle is the whole plane. */
  function ExtentRect(e: Extent): Rect {
    match e
    case Unbounded => Plane
    case Extent(x0, x1, y0, y1) => MakeRect(x0, x1, y0, y1)
  }

  function PolygonBounds(vs: seq<Vec>): Rect {
    ExtentRect(ExtentOf(vs))
  }

  /** The loop finds the true minima and maxima: every vertex lies within them and each of the
      four is attained by some vertex. */
  lemma {:induction false} ExtentIsMinMax(vs: seq<Vec>)
    ensures ExtentOf(vs).Unbounded? <==> vs == []
    ensures ExtentOf(vs).Extent? ==>
      var e := ExtentOf(vs);
      (forall v <- vs :: e.xmin <= v.x <= e.xmax && e.ymin <= v.y <= e.ymax) &&
      (exists v <- vs :: v.x == e.xmin) && (exists v <- vs :: v.x == e.xmax) &&
      (exists v <- vs :: v.y == e.ymin) && (exists v <- vs :: v.y == e.ymax)
    decreases |vs|
  {
    if vs != [] {
      var init := vs[..|vs| - 1];
      ExtentIsMinMax(init);
      assert vs == init + [vs[|vs| - 1]];
    }
  }

  /** A polygon's bounds contain every vertex, and lie inside every rectangle that does. */
  lemma PolygonBoundsTight(vs: seq<Vec>, r: Rect)
    requires Normalised(r)
    ensures forall v <- vs :: Contains(PolygonBounds(vs), v)
    ensures vs != [] && (forall v <- vs :: Contains(r, v)) ==> Inside(PolygonBounds(vs), r)
  {
    ExtentIsMinMax(vs);
    if vs != [] && (forall v <- vs :: Contains(r, v)) && r.Rect? {
      var e := ExtentOf(vs);
      var a :| a in vs && a.x == e.xmin;
      var b :| b in vs && b.x == e.xmax;
      var c :| c in vs && c.y == e.ymin;
      var d :| d in vs && d.y == e.ymax;
      assert Contains(r, a) && Contains(r, b) && Contains(r, c) && Contains(r, d);
    }
  }

  /** The rectangle of a circle: the center plus or minus the radius on both axes. */
  function CircleRect(c: Vec, radius: real): Rect {
    MakeRect(c.x - radius, c.x + radius, c.y - radius, c.y + radius)
  }

  /** The rectangle of a point: the center plus or minus one on both axes. */
  function PointRect(c: Vec): Rect {
    MakeRect(c.x - 1.0, c.x + 1.0, c.y - 1.0, c.y + 1.0)
  }

  /** The `boundingRect` getter of each form (for a polygon, the value its cache holds). */
  function ShapeRect(s: Shape): (r: Rect)
    ensures Normalised(r)
  {
    match s
    case Polygon(vs) => PolygonBounds(vs)
    case Circle(c, radius) => CircleRect(c, radius)
    case Point(c) => PointRect(c)
  }

  lemma SquareMonotone(a: real, b: real)
    requires 0.0 <= a && a < b
    ensures a * a < b * b
  {
    MulPos(b - a, b + a);
    assert (b - a) * (b + a) == b * b - a * a;
  }

  lemma MulPos(x: real, y: real)
    requires x > 0.0 && y > 0.0
    ensures x * y > 0.0
  {
  }


  lemma AbsFromSquare(a: real, b: real)
    requires a * a <= b * b
    ensures Abs(a) <= Abs(b)
  {
    assert Abs(a) * Abs(a) == a * a && Abs(b) * Abs(b) == b * b;
    if Abs(b) < Abs(a) {
      SquareMonotone(Abs(b), Abs(a));
    }
  }

  /** A circle's rectangle holds the whole disc (whatever the radius's sign). */
  lemma CircleRectHoldsDisc(c: Vec, radius: real, p: Vec)
    requires Dist2(p, c) <= radius * radius
    ensures Contains(CircleRect(c, radius), p)
  {
    var dx, dy := p.x - c.x, p.y - c.y;
    assert Dist2(p, c) == dx * dx + dy * dy;
    assert dx * dx <= radius * radius && dy * dy <= radius * radius;
    AbsFromSquare(dx, radius);
    AbsFromSquare(dy, radius);
    ContainsBetween(c.x - radius, c.x + radius, c.y - radius, c.y + radius, p);
  }

  // ---------------------------------------------------------------------------------------
  // Polygon forms: the vertex list and the cached bounds

  /** `PolygonForm`: a public vertex list and the private `_bounds` cache. */
  class PolygonForm {
    var vertices: seq<Vec>
    var bounds: Option<Rect>

    constructor ()
      ensures vertices == [] && bounds == None
    {
      vertices := [];
      bounds := None;
    }

    /** `forEachEdge(func)`: hands the edges to `func` in order and stops after the first one
        for which it answers false. Returns the edges handed out. */
    method ForEachEdge(func: Segment -> bool) returns (visited: seq<Segment>)
      ensures |visited| <= |vertices| && visited == Edges(vertices)[..|visited|]
      ensures forall j :: 0 <= j < |visited| - 1 ==> func(visited[j])
      ensures |visited| < |vertices| ==> visited != [] && !func(visited[|visited| - 1])
    {
      visited := [];
      var i := 0;
      while i < |vertices|
        invariant 0 <= i <= |vertices| && visited == Edges(vertices)[..i]
        invariant forall j :: 0 <= j < i ==> func(visited[j])
      {
        var segment := EdgeAt(vertices, i);
        visited := visited + [segment];
        if !func(segment) {
          return;
        }
        i := i + 1;
      }
    }

    /** The `boundingRect` getter: computed by a min/max loop on first use, then served from
        the cache, even when the vertices have changed since. */
    method BoundingRect() returns (r: Rect)
      modifies this
      ensures vertices == old(vertices)
      ensures old(bounds).Some? ==> bounds == old(bounds) && r == old(bounds).value
      ensures old(bounds).None? ==> bounds == Some(r) && r == PolygonBounds(vertices)
    {
      if bounds.Some? {
        return bounds.value;
      }
      // `seen` is false while the four bounds still hold their starting infinities.
      var seen := false;
      var xmin, xmax, ymin, ymax := 0.0, 0.0, 0.0, 0.0;
      for k := 0 to |vertices|
        invariant ExtentOf(vertices[..k]) == if seen then Extent(xmin, xmax, ymin, ymax) else Unbounded
      {
        var v := vertices[k];
        if !seen || xmin > v.x { xmin := v.x; }
        if !seen || xmax < v.x { xmax := v.x; }
        if !seen || ymin > v.y { ymin := v.y; }
        if !seen || ymax < v.y { ymax := v.y; }
        seen := true;
        assert vertices[..k + 1][..k] == vertices[..k];
      }
      assert vertices[..|vertices|] == vertices;
      r := if seen then MakeRect(xmin, xmax, ymin, ymax) else Plane;
      bounds := Some(r);
    }
  }

  // ---------------------------------------------------------------------------------------
  // Point in polygon: the parity of ray crossings

  /** The ray `checkPoint` casts: from `p` towards +x. */
  function RightRay(p: Vec): Ray {
    Ray(p, Vec(1.0, 0.0))
  }

  predicate RayHits(p: Vec, e: Segment) {
    FRaySegment(RightRay(p), e, DefaultMargin).result
  }

  /** How many of `es` the rightward ray from `p` hits. */
  function CrossingCount(p: Vec, es: seq<Segment>): nat
    decreases |es|
  {
    if es == [] then 0
    else CrossingCount(p, es[..|es| - 1]) + (if RayHits(p, es[|es| - 1]) then 1 else 0)
  }

  /** `checkPoint(p, poly)`: inside when the crossing count is odd. */
  predicate PointInPolygon(p: Vec, vs: seq<Vec>) {
    CrossingCount(p, Edges(vs)) % 2 == 1
  }

  /** The counting loop of `checkPoint`, run over the edges `forEachEdge` yields. */
  method CheckPoint(p: Vec, poly: seq<Vec>) returns (inside: bool)
    ensures inside <==> CrossingCount(p, Edges(poly)) % 2 == 1
  {
    var countInters := 0;
    var es := Edges(poly);
    for i := 0 to |es|
      invariant countInters == CrossingCount(p, es[..i])
    {
      var intResult := FRaySegment(RightRay(p), es[i], DefaultMargin);
      if intResult.result {
        countInters := countInters + 1;
      }
      assert es[..i + 1][..i] == es[..i];
    }
    assert es[..|es|] == es;
    if countInters % 2 == 0 {
      inside := false;
    } else {
      inside := true;
    }
  }

  lemma LevelDeterminant(p: Vec, e: Segment)
    requires e.v2.y == e.v1.y
    ensures Determinant(RightRay(p), e) == 0.0
  {
  }

  lemma LevelDFactor(p: Vec, e: Segment)
    requires e.v2.y == e.v1.y
    ensures DFactor(RightRay(p), e) == (p.y - e.v1.y) * (e.v2.x - e.v1.x)
  {
    var n := Perp(SegDir(e));
    assert n == Vec(0.0, e.v2.x - e.v1.x);
    assert Dot(p, n) == p.y * (e.v2.x - e.v1.x);
    assert Dot(e.v1, n) == e.v1.y * (e.v2.x - e.v1.x);
  }

  lemma RightBehind(p: Vec, q: Vec)
    ensures Behind(RightRay(p), q) <==> q.x < p.x
  {
  }

  /** A horizontal edge never crosses the rightward ray properly: only the colinear test
      applies. */
  lemma LevelEdgeTest(p: Vec, e: Segment)
    requires e.v2.y == e.v1.y
    ensures RayHits(p, e) <==>
      Abs(DFactor(RightRay(p), e)) <= DefaultMargin && (e.v1.x >= p.x || e.v2.x >= p.x)
  {
    LevelDeterminant(p, e);
    RightBehind(p, e.v1);
    RightBehind(p, e.v2);
    NearZeroDeterminant(RightRay(p), e, DefaultMargin);
  }

  /** A horizontal edge, the only kind `forEachEdge` yields, counts exactly when it lies within
      the margin of the ray's line (scaled by its length) and not wholly left of `p`. */
  lemma LevelEdgeHit(p: Vec, e: Segment)
    requires e.v2.y == e.v1.y
    ensures RayHits(p, e) <==>
      Abs((p.y - e.v1.y) * (e.v2.x - e.v1.x)) <= DefaultMargin && (e.v1.x >= p.x || e.v2.x >= p.x)
  {
    LevelEdgeTest(p, e);
    LevelDFactor(p, e);
  }

  /** The edge from a vertex to itself, or to a vertex straight above or below it, always counts
      when it is not left of `p`. */
  lemma DegenerateEdgeHits(p: Vec, e: Segment)
    requires e.v2 == e.v1 && e.v1.x >= p.x
    ensures RayHits(p, e)
  {
    PointSegmentDFactor(RightRay(p), e);
    LevelEdgeTest(p, e);
  }

  /** A point far above the 10 x 10 square is reported inside it: of the four edges only the
      collapsed right side (10, 0)-(10, 0) counts. */
  lemma FarPointInsideSquare(vs: seq<Vec>, p: Vec)
    requires vs == [Vec(0.0, 0.0), Vec(10.0, 0.0), Vec(10.0, 10.0), Vec(0.0, 10.0)] && p == Vec(5.0, 100.0)
    ensures PointInPolygon(p, vs)
  {
    SquareBottomMissed(vs, p);
    SquareRightHit(vs, p);
    SquareTopMissed(vs, p);
    SquareLeftMissed(vs, p);
    OneOfFourInside(p, vs);
  }

  /** Four edges of which only the second counts make an odd count. */
  lemma OneOfFourInside(p: Vec, vs: seq<Vec>)
    requires |vs| == 4
    requires !RayHits(p, Edges(vs)[0]) && RayHits(p, Edges(vs)[1])
    requires !RayHits(p, Edges(vs)[2]) && !RayHits(p, Edges(vs)[3])
    ensures PointInPolygon(p, vs)
  {
    var es := Edges(vs);
    assert es[..4] == es;
    assert es[..4][..3] == es[..3];
    assert es[..3][..2] == es[..2];
    assert es[..2][..1] == es[..1];
    assert CrossingCount(p, es[..1]) == 0;
    assert CrossingCount(p, es[..2]) == 1;
    assert CrossingCount(p, es[..3]) == 1;
  }

  lemma SquareBottomMissed(vs: seq<Vec>, p: Vec)
    requires vs == [Vec(0.0, 0.0), Vec(10.0, 0.0), Vec(10.0, 10.0), Vec(0.0, 10.0)] && p == Vec(5.0, 100.0)
    ensures !RayHits(p, Edges(vs)[0])
  {
    LevelEdgeMiss(p, Edges(vs)[0], 100.0, 10.0);
  }

  lemma SquareRightHit(vs: seq<Vec>, p: Vec)
    requires vs == [Vec(0.0, 0.0), Vec(10.0, 0.0), Vec(10.0, 10.0), Vec(0.0, 10.0)] && p == Vec(5.0, 100.0)
    ensures RayHits(p, Edges(vs)[1])
  {
    DegenerateEdgeHits(p, Edges(vs)[1]);
  }

  lemma SquareTopMissed(vs: seq<Vec>, p: Vec)
    requires vs == [Vec(0.0, 0.0), Vec(10.0, 0.0), Vec(10.0, 10.0), Vec(0.0, 10.0)] && p == Vec(5.0, 100.0)
    ensures !RayHits(p, Edges(vs)[2])
  {
    LevelEdgeMiss(p, Edges(vs)[2], 90.0, -10.0);
  }

  lemma SquareLeftMissed(vs: seq<Vec>, p: Vec)
    requires vs == [Vec(0.0, 0.0), Vec(10.0, 0.0), Vec(10.0, 10.0), Vec(0.0, 10.0)] && p == Vec(5.0, 100.0)
    ensures !RayHits(p, Edges(vs)[3])
  {
    BehindEdgeMisses(p, Edges(vs)[3]);
  }

  /** An edge wholly left of the point is never counted. */
  lemma BehindEdgeMisses(p: Vec, e: Segment)
    requires e.v2.y == e.v1.y && e.v1.x < p.x && e.v2.x < p.x
    ensures !RayHits(p, e)
  {
    LevelEdgeTest(p, e);
  }

  /** A horizontal edge `dy` below the point and `dx` long is missed when `dy * dx` exceeds the
      margin. */
  lemma LevelEdgeMiss(p: Vec, e: Segment, dy: real, dx: real)
    requires e.v2.y == e.v1.y && p.y - e.v1.y == dy && e.v2.x - e.v1.x == dx
    requires Abs(dy * dx) > DefaultMargin
    ensures !RayHits(p, e)
  {
    LevelEdgeTest(p, e);
    LevelDFactor(p, e);
    assert (p.y - e.v1.y) * (e.v2.x - e.v1.x) == dy * dx;
  }

  // ---------------------------------------------------------------------------------------
  // Circle against polygon edges

  /** Either end of the edge makes an angle above 90 degrees (beyond the tolerance) with the
      circle's center. */
  predicate Obtuse(e: Segment, c: Vec) {
    Dot(Sub(e.v2, e.v1), Sub(c, e.v1)) < -Tolerance || Dot(Sub(e.v1, e.v2), Sub(c, e.v2)) < -Tolerance
  }

  /** The unnormalised edge normal (v1.y - v2.y, v2.x - v1.x). */
  function EdgeNormal(e: Segment): Vec {
    Vec(e.v1.y - e.v2.y, e.v2.x - e.v1.x)
  }

  /** The center lies closer than the radius to the edge's line: `|n.v1 - n.c| / |n| < radius`
      with both sides squared. A zero normal (a point edge) makes the source's distance NaN, and
      here gives false as well. */
  predicate NearLine(e: Segment, c: Vec, radius: real) {
    var n := EdgeNormal(e);
    radius > 0.0 && Square(Dot(n, e.v1) - Dot(n, c)) < radius * radius * Dot(n, n)
  }

  /** The edge callback's verdict: the first edge that is obtuse or near the center decides, and
      an obtuse edge decides by the distance to its nearer end. */
  predicate CircleScan(es: seq<Segment>, c: Vec, radius: real)
    decreases |es|
  {
    if es == [] then false
    else if Obtuse(es[0], c) then Min(Dist2(c, es[0].v1), Dist2(c, es[0].v2)) < radius * radius
    else NearLine(es[0], c, radius) || CircleScan(es[1..], c, radius)
  }

  /** Whether edge `k` ends the scan, and whether it then reports a hit. */
  predicate Decisive(e: Segment, c: Vec, radius: real) {
    Obtuse(e, c) || NearLine(e, c, radius)
  }

  predicate DecidesHit(e: Segment, c: Vec, radius: real) {
    if Obtuse(e, c) then Min(Dist2(c, e.v1), Dist2(c, e.v2)) < radius * radius else NearLine(e, c, radius)
  }

  /** The scan reports a hit exactly when its first decisive edge does; edges after the first
      obtuse one are never examined. */
  lemma {:induction false} CircleScanFirstDecisive(es: seq<Segment>, c: Vec, radius: real)
    ensures CircleScan(es, c, radius) <==>
      exists k :: 0 <= k < |es| && DecidesHit(es[k], c, radius) &&
        forall j :: 0 <= j < k ==> !Decisive(es[j], c, radius)
    decreases |es|
  {
    if es != [] && !Decisive(es[0], c, radius) {
      CircleScanFirstDecisive(es[1..], c, radius);
      if CircleScan(es, c, radius) {
        var k :| 0 <= k < |es| - 1 && DecidesHit(es[1..][k], c, radius) &&
          forall j :: 0 <= j < k ==> !Decisive(es[1..][j], c, radius);
        assert forall j :: 0 <= j < k + 1 ==> !Decisive(es[j], c, radius) by {
          forall j | 0 <= j < k + 1 ensures !Decisive(es[j], c, radius) {
            if j > 0 { assert es[j] == es[1..][j - 1]; }
          }
        }
        assert DecidesHit(es[k + 1], c, radius);
      } else {
        forall k | 0 <= k < |es| && DecidesHit(es[k], c, radius)
          ensures exists j :: 0 <= j < k && Decisive(es[j], c, radius)
        {
          assert k > 0;
          assert es[k] == es[1..][k - 1];
          var j :| 0 <= j < k - 1 && Decisive(es[1..][j], c, radius);
          assert es[j + 1] == es[1..][j];
        }
      }
    }
  }

  /** The edge loop of the circle branch of `fintersect`. */
  method CircleEdges(vs: seq<Vec>, c: Vec, radius: real) returns (haveIntersect: bool)
    ensures haveIntersect == CircleScan(Edges(vs), c, radius)
  {
    haveIntersect := false;
    var es := Edges(vs);
    var i := 0;
    while i < |es|
      invariant 0 <= i <= |es|
      invariant CircleScan(es, c, radius) == CircleScan(es[i..], c, radius)
    {
      var seg := es[i];
      assert es[i..][1..] == es[i + 1..];
      if Dot(Sub(seg.v2, seg.v1), Sub(c, seg.v1)) < -Tolerance || Dot(Sub(seg.v1, seg.v2), Sub(c, seg.v2)) < -Tolerance {
        if Min(Dist2(c, seg.v1), Dist2(c, seg.v2)) < radius * radius {
          haveIntersect := true;
        }
        return;
      }
      if NearLine(seg, c, radius) {
        haveIntersect := true;
        return;
      }
      i := i + 1;
    }
  }

  // ---------------------------------------------------------------------------------------
  // Polygon against polygon edges

  /** The edge-pair test of the polygon branch: the ray along `s1` meets `s2`, nearer to
      `s1.v1` than `s1`'s own length (a colinear hit compares `s2`'s ends instead). */
  predicate PairHit(s1: Segment, s2: Segment) {
    var stVec := Sub(s1.v2, s1.v1);
    var hit := FRaySegment(Ray(s1.v1, stVec), s2, DefaultMargin);
    var distStandard := Dot(stVec, stVec);
    HitMeaning(Ray(s1.v1, stVec), s2, DefaultMargin);
    hit.result &&
    if hit.inttype == Colinear then Dist2(s2.v1, s1.v1) < distStandard || Dist2(s2.v2, s1.v1) < distStandard
    else Dist2(hit.intpoint.value, s1.v1) < distStandard
  }

  /** The nested edge loops of the polygon branch; the flag they compute is never returned. */
  method PolygonEdgesCross(a: seq<Vec>, b: seq<Vec>) returns (haveIntersect: bool)
    ensures haveIntersect <==>
      exists i, j :: 0 <= i < |Edges(a)| && 0 <= j < |Edges(b)| && PairHit(Edges(a)[i], Edges(b)[j])
  {
    haveIntersect := false;
    var es1, es2 := Edges(a), Edges(b);
    var i := 0;
    while i < |es1|
      invariant 0 <= i <= |es1|
      invariant !haveIntersect
      invariant forall i', j :: 0 <= i' < i && 0 <= j < |es2| ==> !PairHit(es1[i'], es2[j])
    {
      var j := 0;
      while j < |es2|
        invariant 0 <= j <= |es2|
        invariant forall j' :: 0 <= j' < j ==> !PairHit(es1[i], es2[j'])
      {
        if PairHit(es1[i], es2[j]) {
          haveIntersect := true;
          return;
        }
        j := j + 1;
      }
      i := i + 1;
    }
  }

  // ---------------------------------------------------------------------------------------
  // fintersect

  /** The pairs `fintersect` evaluates without throwing: a circle or point against a polygon
      reads the polygon's missing center, and two polygons of which exactly one has no vertex
      read an absent first vertex. */
  predicate Defined(a: Shape, b: Shape) {
    (a.Polygon? || !b.Polygon?) &&
    (a.Polygon? && b.Polygon? ==> (|a.vertices| == 0 <==> |b.vertices| == 0))
  }

  /** `fintersect(a, b)`. */
  predicate FIntersect(a: Shape, b: Shape)
    requires Defined(a, b)
  {
    if !a.Polygon? then
      var margin := Tolerance + (if a.Circle? then a.radius else 0.0) + (if b.Circle? then b.radius else 0.0);
      Dist2(a.center, b.center) < margin * margin
    else
      match b
      case Point(c) => PointInPolygon(c, a.vertices)
      case Circle(c, radius) => PointInPolygon(c, a.vertices) || CircleScan(Edges(a.vertices), c, radius)
      case Polygon(vs) =>
        |vs| > 0 && (PointInPolygon(a.vertices[0], vs) || PointInPolygon(vs[0], a.vertices))
  }

  /** `fintersect` step by step, with its early returns. */
  method Intersect(a: Shape, b: Shape) returns (r: bool)
    requires Defined(a, b)
    ensures r == FIntersect(a, b)
  {
    if !a.Polygon? {
      var margin := Tolerance;
      if a.Circle? {
        margin := margin + a.radius;
      }
      if b.Circle? {
        margin := margin + b.radius;
      }
      var dsquared := Dot(Sub(a.center, b.center), Sub(a.center, b.center));
      return dsquared < margin * margin;
    }
    match b
    case Point(c) =>
      r := CheckPoint(c, a.vertices);
    case Circle(c, radius) =>
      var inside := CheckPoint(c, a.vertices);
      if inside {
        return true;
      }
      r := CircleEdges(a.vertices, c, radius);
    case Polygon(vs) =>
      if |vs| == 0 {
        return false;
      }
      var first := CheckPoint(a.vertices[0], vs);
      var second := CheckPoint(vs[0], a.vertices);
      if first || second {
        return true;
      }
      var discarded := PolygonEdgesCross(a.vertices, vs);
      r := false;
  }

  /** Two points or circles intersect exactly when their centers are closer than the tolerance
      plus their radii. */
  lemma RoundPair(a: Shape, b: Shape)
    requires !a.Polygon? && !b.Polygon?
    ensures FIntersect(a, b) <==>
      Dist2(a.center, b.center) < Square(Tolerance + (if a.Circle? then a.radius else 0.0) + (if b.Circle? then b.radius else 0.0))
  {
  }

  /** Two polygons intersect only when the first vertex of one is reported inside the other,
      however their edges cross. */
  lemma PolygonPairShortcut(a: Shape, b: Shape)
    requires a.Polygon? && b.Polygon? && |a.vertices| > 0 && |b.vertices| > 0
    ensures FIntersect(a, b) <==>
      PointInPolygon(a.vertices[0], b.vertices) || PointInPolygon(b.vertices[0], a.vertices)
  {
  }

  /** The pairs the forms' `intersects` methods can evaluate. */
  predicate FormsDefined(self: Shape, other: Shape) {
    self.Polygon? && other.Polygon? ==> (|self.vertices| == 0 <==> |other.vertices| == 0)
  }

  /** `self.intersects(other)`: a polygon tests itself first; a circle defers to a polygon
      operand and otherwise tests itself first; a point always goes second. */
  predicate FormIntersects(self: Shape, other: Shape)
    requires FormsDefined(self, other)
  {
    match self
    case Polygon(_) => FIntersect(self, other)
    case Circle(_, _) => if other.Polygon? then FIntersect(other, self) else FIntersect(self, other)
    case Point(_) => FIntersect(other, self)
  }

  /** The `intersects` methods, calling `fintersect` in the order `FormIntersects` gives. */
  method FormIntersect(self: Shape, other: Shape) returns (r: bool)
    requires FormsDefined(self, other)
    ensures r == FormIntersects(self, other)
  {
    match self
    case Polygon(_) =>
      r := Intersect(self, other);
    case Circle(_, _) =>
      if other.Polygon? {
        r := Intersect(other, self);
      } else {
        r := Intersect(self, other);
      }
    case Point(_) =>
      r := Intersect(other, self);
  }

  lemma Dist2Symmetric(a: Vec, b: Vec)
    ensures Dist2(a, b) == Dist2(b, a)
  {
    assert Sub(a, b) == Vec(a.x - b.x, a.y - b.y);
    assert Sub(b, a) == Vec(b.x - a.x, b.y - a.y);
    assert (a.x - b.x) * (a.x - b.x) == (b.x - a.x) * (b.x - a.x);
    assert (a.y - b.y) * (a.y - b.y) == (b.y - a.y) * (b.y - a.y);
  }

  /** Whichever form is asked, the answer is the same: the dispatch always puts a polygon
      first, and the remaining tests are symmetric. */
  lemma FormIntersectsSymmetric(self: Shape, other: Shape)
    requires FormsDefined(self, other)
    ensures FormIntersects(self, other) == FormIntersects(other, self)
  {
    if !self.Polygon? && !other.Polygon? {
      Dist2Symmetric(self.center, other.center);
    }
  }
}
