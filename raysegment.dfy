/** The ray/segment intersector `fraysegment` of the collision manager, which sorts every
    ray/segment pair into one of five cases. */
module RaySegment {
  import opened Vectors
  import opened Results

  /** The margin used when the caller passes none. */
  const DefaultMargin: real := 0.01

  datatype Ray = Ray(start: Vec, direction: Vec)
  datatype Segment = Segment(v1: Vec, v2: Vec)

  /** The `inttype` strings "parallel", "colinear", "wrongorientation", "outsidesegment", "normal". */
  datatype IntType = Parallel | Colinear | WrongOrientation | OutsideSegment | Normal

  /** `{result, inttype, intpoint?}`; `intpoint` is absent in the parallel and colinear cases. */
  datatype RayHit = RayHit(result: bool, inttype: IntType, intpoint: Option<Vec>)

  function SegDir(s: Segment): Vec {
    Vec(s.v2.x - s.v1.x, s.v2.y - s.v1.y)
  }

  /** `rayNorm.x*segmentNorm.y - rayNorm.y*segmentNorm.x`, both normals being left perpendiculars. */
  function Determinant(ray: Ray, seg: Segment): real {
    Cross(Perp(ray.direction), Perp(SegDir(seg)))
  }

  /** The difference of the projections of the ray's start and of `v1` on the segment's normal. */
  function DFactor(ray: Ray, seg: Segment): real {
    Dot(ray.start, Perp(SegDir(seg))) - Dot(seg.v1, Perp(SegDir(seg)))
  }

  /** The x component is used whenever its magnitude is at least that of y. */
  predicate XDominant(d: Vec) {
    Abs(d.x) >= Abs(d.y)
  }

  /** Whether `n / d < 0` as 64-bit floats evaluate it: a zero denominator (only reachable with a
      zero ray direction, whose components are then +0) gives +-Infinity or NaN, and only
      -Infinity compares below zero. */
  function QuotientNegative(n: real, d: real): (r: bool)
    ensures r <==> (n < 0.0 && d >= 0.0) || (n > 0.0 && d < 0.0)
  {
    if d == 0.0 then n < 0.0
    else
      assert n / d * d == n;
      n / d < 0.0
  }

  /** Whether `q` lies behind the ray's start, measured along the ray's dominant axis. */
  predicate Behind(ray: Ray, q: Vec) {
    if XDominant(ray.direction) then QuotientNegative(q.x - ray.start.x, ray.direction.x)
    else QuotientNegative(q.y - ray.start.y, ray.direction.y)
  }

  /** The crossing of the ray's line and the segment's line. */
  function IntersectPoint(ray: Ray, seg: Segment): Vec
    requires Determinant(ray, seg) != 0.0
  {
    Solve2(Perp(ray.direction), Dot(ray.start, Perp(ray.direction)),
           Perp(SegDir(seg)), Dot(seg.v1, Perp(SegDir(seg))))
  }

  /** The position of `q` along the segment (0 at v1, 1 at v2), read on the segment's dominant axis. */
  function SegFactor(seg: Segment, q: Vec): real
    requires SegDir(seg) != Zero
  {
    var d := SegDir(seg);
    if XDominant(d) then (q.x - seg.v1.x) / d.x else (q.y - seg.v1.y) / d.y
  }

  predicate OutsideRange(f: real, margin: real) {
    f < -margin || f > 1.0 + margin
  }

  /** `fraysegment(aRay, aSegment, margin)`. The margin must be positive (the default is
      DefaultMargin): a margin of zero would let the source divide by a zero determinant. */
  function FRaySegment(ray: Ray, seg: Segment, margin: real): (r: RayHit)
    requires margin > 0.0
    ensures r.result ==> r.inttype == Normal || r.inttype == Colinear
    ensures r.intpoint.Some? <==> Abs(Determinant(ray, seg)) >= margin
  {
    var det := Determinant(ray, seg);
    if Abs(det) < margin then
      if Abs(DFactor(ray, seg)) > margin then RayHit(false, Parallel, None)
      else if Behind(ray, seg.v1) && Behind(ray, seg.v2) then RayHit(false, Colinear, None)
      else RayHit(true, Colinear, None)
    else
      DetDirs(ray, seg);
      var p := IntersectPoint(ray, seg);
      if Behind(ray, p) then RayHit(false, WrongOrientation, Some(p))
      else if OutsideRange(SegFactor(seg, p), margin) then RayHit(false, OutsideSegment, Some(p))
      else RayHit(true, Normal, Some(p))
  }

  /** A non-zero determinant needs both directions to be non-zero. */
  lemma DetDirs(ray: Ray, seg: Segment)
    requires Determinant(ray, seg) != 0.0
    ensures SegDir(seg) != Zero && ray.direction != Zero
  {
    CrossNonZero(Perp(ray.direction), Perp(SegDir(seg)));
  }

  /** A segment whose ends coincide has no normal, so every start is on its line. */
  lemma PointSegmentDFactor(ray: Ray, seg: Segment)
    requires SegDir(seg) == Zero
    ensures DFactor(ray, seg) == 0.0
  {
    DotZero(ray.start, Perp(SegDir(seg)));
    DotZero(seg.v1, Perp(SegDir(seg)));
  }

  /** Only a `normal` hit or a hitting `colinear` case reports true; a point is returned exactly in
      the three crossing cases, and it lies on both the ray's line and the segment's line. A
      `normal` point lies ahead of the start and within the margin-widened segment. */
  lemma HitMeaning(ray: Ray, seg: Segment, margin: real)
    requires margin > 0.0
    ensures var r := FRaySegment(ray, seg, margin);
      (r.result ==> r.inttype == Normal || r.inttype == Colinear) &&
      (r.intpoint.Some? <==> r.inttype in {WrongOrientation, OutsideSegment, Normal}) &&
      (r.intpoint.Some? ==>
        Dot(r.intpoint.value, Perp(ray.direction)) == Dot(ray.start, Perp(ray.direction)) &&
        Dot(r.intpoint.value, Perp(SegDir(seg))) == Dot(seg.v1, Perp(SegDir(seg)))) &&
      (r.inttype == Normal ==>
        SegDir(seg) != Zero && !Behind(ray, r.intpoint.value) &&
        -margin <= SegFactor(seg, r.intpoint.value) <= 1.0 + margin)
  {
    if Abs(Determinant(ray, seg)) >= margin {
      DetDirs(ray, seg);
    }
  }

  /** A (near) zero determinant gives `parallel` when the lines are apart and `colinear`
      otherwise, a hit unless both endpoints lie behind the start; no point is returned. */
  lemma NearZeroDeterminant(ray: Ray, seg: Segment, margin: real)
    requires margin > 0.0 && Abs(Determinant(ray, seg)) < margin
    ensures var r := FRaySegment(ray, seg, margin);
      r.intpoint == None &&
      (r.inttype == Parallel <==> Abs(DFactor(ray, seg)) > margin) &&
      (r.inttype != Parallel ==> r.inttype == Colinear) &&
      (r.inttype == Colinear ==> (r.result <==> !(Behind(ray, seg.v1) && Behind(ray, seg.v2)))) &&
      (r.inttype == Parallel ==> !r.result)
  {
  }

  /** Otherwise the lines cross; the point is always returned, `wrongorientation` is decided
      before `outsidesegment`, and the segment test is the factor leaving [-margin, 1+margin]. */
  lemma Crossing(ray: Ray, seg: Segment, margin: real)
    requires margin > 0.0 && Abs(Determinant(ray, seg)) >= margin
    ensures SegDir(seg) != Zero
    ensures var r := FRaySegment(ray, seg, margin);
      var p := IntersectPoint(ray, seg);
      r.intpoint == Some(p) &&
      (r.inttype == WrongOrientation <==> Behind(ray, p)) &&
      (r.inttype == OutsideSegment <==> !Behind(ray, p) && OutsideRange(SegFactor(seg, p), margin)) &&
      (r.inttype == Normal <==> r.result) &&
      (r.inttype in {WrongOrientation, OutsideSegment, Normal})
  {
    DetDirs(ray, seg);
  }

  lemma DivNeg(a: real, b: real)
    requires b != 0.0
    ensures (-a) / (-b) == a / b && a / (-b) == -(a / b)
  {
  }

  lemma QuotientNegativeNeg(n: real, d: real)
    requires d != 0.0
    ensures QuotientNegative(-n, -d) == QuotientNegative(n, d)
  {
  }

  /** Solve2 is unchanged when one equation is multiplied by -1. */
  lemma Solve2NegSecond(n1: Vec, d1: real, n2: Vec, d2: real)
    requires Cross(n1, n2) != 0.0
    ensures Cross(n1, Vec(-n2.x, -n2.y)) != 0.0
    ensures Solve2(n1, d1, Vec(-n2.x, -n2.y), -d2) == Solve2(n1, d1, n2, d2)
  {
    var p := Solve2(n1, d1, n2, d2);
    Solve2Unique(n1, d1, Vec(-n2.x, -n2.y), -d2, p);
  }

  function SwapEnds(seg: Segment): Segment {
    Segment(seg.v2, seg.v1)
  }

  lemma SwapDeterminant(ray: Ray, seg: Segment)
    ensures Determinant(ray, SwapEnds(seg)) == -Determinant(ray, seg)
    ensures DFactor(ray, SwapEnds(seg)) == -DFactor(ray, seg)
  {
    var d := SegDir(seg);
    var sn := Perp(d);
    assert Perp(SegDir(SwapEnds(seg))) == Vec(-sn.x, -sn.y);
    assert Dot(seg.v2, sn) == Dot(seg.v1, sn) + Dot(d, sn);
  }

  lemma SwapPoint(ray: Ray, seg: Segment)
    requires Determinant(ray, seg) != 0.0
    ensures Determinant(ray, SwapEnds(seg)) != 0.0
    ensures IntersectPoint(ray, SwapEnds(seg)) == IntersectPoint(ray, seg)
  {
    SwapDeterminant(ray, seg);
    var d := SegDir(seg);
    var sn, rn := Perp(d), Perp(ray.direction);
    assert Perp(SegDir(SwapEnds(seg))) == Vec(-sn.x, -sn.y);
    assert Dot(seg.v2, Vec(-sn.x, -sn.y)) == -Dot(seg.v1, sn) by {
      assert Dot(seg.v2, sn) == Dot(seg.v1, sn) + Dot(d, sn);
    }
    Solve2NegSecond(rn, Dot(ray.start, rn), sn, Dot(seg.v1, sn));
  }

  lemma OneMinus(a: real, b: real)
    requires b != 0.0
    ensures (a - b) / (-b) == 1.0 - a / b
  {
    assert (a - b) / (-b) == (b - a) / b;
    assert (b - a) / b == b / b - a / b;
  }

  /** Along the reversed segment a point sits at one minus its old factor. */
  lemma SwapFactor(seg: Segment, q: Vec)
    requires SegDir(seg) != Zero
    ensures SegDir(SwapEnds(seg)) != Zero
    ensures SegFactor(SwapEnds(seg), q) == 1.0 - SegFactor(seg, q)
  {
    var d := SegDir(seg);
    if XDominant(d) {
      var a, b := q.x - seg.v1.x, d.x;
      assert b != 0.0;
      assert SegDir(SwapEnds(seg)).x == -b && q.x - seg.v2.x == a - b;
      assert SegFactor(SwapEnds(seg), q) == (a - b) / (-b);
      OneMinus(a, b);
    } else {
      var a, b := q.y - seg.v1.y, d.y;
      assert b != 0.0;
      assert SegDir(SwapEnds(seg)).y == -b && q.y - seg.v2.y == a - b;
      assert SegFactor(SwapEnds(seg), q) == (a - b) / (-b);
      OneMinus(a, b);
    }
  }

  /** Swapping the segment's endpoints changes nothing: neither the result, nor the case,
      nor the point. */
  lemma {:induction false} SwapInvariant(ray: Ray, seg: Segment, margin: real)
    requires margin > 0.0
    ensures FRaySegment(ray, SwapEnds(seg), margin) == FRaySegment(ray, seg, margin)
  {
    SwapDeterminant(ray, seg);
    if Abs(Determinant(ray, seg)) >= margin {
      DetDirs(ray, seg);
      SwapPoint(ray, seg);
      SwapFactor(seg, IntersectPoint(ray, seg));
    }
  }

  function MirrorHitX(r: RayHit): RayHit {
    match r.intpoint
    case None => r
    case Some(p) => r.(intpoint := Some(MirrorX(p)))
  }

  function MirrorHitY(r: RayHit): RayHit {
    match r.intpoint
    case None => r
    case Some(p) => r.(intpoint := Some(MirrorY(p)))
  }

  function MirrorRayX(ray: Ray): Ray { Ray(MirrorX(ray.start), MirrorX(ray.direction)) }
  function MirrorSegX(seg: Segment): Segment { Segment(MirrorX(seg.v1), MirrorX(seg.v2)) }
  function MirrorRayY(ray: Ray): Ray { Ray(MirrorY(ray.start), MirrorY(ray.direction)) }
  function MirrorSegY(seg: Segment): Segment { Segment(MirrorY(seg.v1), MirrorY(seg.v2)) }

  lemma MirrorXDeterminant(ray: Ray, seg: Segment)
    ensures Determinant(MirrorRayX(ray), MirrorSegX(seg)) == -Determinant(ray, seg)
    ensures DFactor(MirrorRayX(ray), MirrorSegX(seg)) == -DFactor(ray, seg)
  {
    var sn, rn := Perp(SegDir(seg)), Perp(ray.direction);
    assert Perp(SegDir(MirrorSegX(seg))) == Vec(-sn.x, sn.y);
    assert Perp(MirrorRayX(ray).direction) == Vec(-rn.x, rn.y);
  }

  lemma MirrorYDeterminant(ray: Ray, seg: Segment)
    ensures Determinant(MirrorRayY(ray), MirrorSegY(seg)) == -Determinant(ray, seg)
    ensures DFactor(MirrorRayY(ray), MirrorSegY(seg)) == -DFactor(ray, seg)
  {
    var sn, rn := Perp(SegDir(seg)), Perp(ray.direction);
    assert Perp(SegDir(MirrorSegY(seg))) == Vec(sn.x, -sn.y);
    assert Perp(MirrorRayY(ray).direction) == Vec(rn.x, -rn.y);
  }

  lemma MirrorXBehind(ray: Ray, q: Vec)
    ensures Behind(MirrorRayX(ray), MirrorX(q)) == Behind(ray, q)
  {
    if !XDominant(ray.direction) {
      QuotientNegativeNeg(q.y - ray.start.y, ray.direction.y);
    }
  }

  lemma MirrorYBehind(ray: Ray, q: Vec)
    requires ray.direction != Zero
    ensures Behind(MirrorRayY(ray), MirrorY(q)) == Behind(ray, q)
  {
    if XDominant(ray.direction) {
      QuotientNegativeNeg(q.x - ray.start.x, ray.direction.x);
    }
  }

  lemma MirrorXPoint(ray: Ray, seg: Segment)
    requires Determinant(ray, seg) != 0.0
    ensures Determinant(MirrorRayX(ray), MirrorSegX(seg)) != 0.0
    ensures IntersectPoint(MirrorRayX(ray), MirrorSegX(seg)) == MirrorX(IntersectPoint(ray, seg))
  {
    MirrorXDeterminant(ray, seg);
    var ray', seg' := MirrorRayX(ray), MirrorSegX(seg);
    var p := IntersectPoint(ray, seg);
    var sn, rn := Perp(SegDir(seg)), Perp(ray.direction);
    assert Perp(SegDir(seg')) == Vec(-sn.x, sn.y);
    assert Perp(ray'.direction) == Vec(-rn.x, rn.y);
    assert Dot(MirrorX(p), Perp(ray'.direction)) == -Dot(p, rn);
    assert Dot(MirrorX(p), Perp(SegDir(seg'))) == -Dot(p, sn);
    Solve2Unique(Perp(ray'.direction), Dot(ray'.start, Perp(ray'.direction)),
                 Perp(SegDir(seg')), Dot(seg'.v1, Perp(SegDir(seg'))), MirrorX(p));
  }

  lemma MirrorYPoint(ray: Ray, seg: Segment)
    requires Determinant(ray, seg) != 0.0
    ensures Determinant(MirrorRayY(ray), MirrorSegY(seg)) != 0.0
    ensures IntersectPoint(MirrorRayY(ray), MirrorSegY(seg)) == MirrorY(IntersectPoint(ray, seg))
  {
    MirrorYDeterminant(ray, seg);
    var ray', seg' := MirrorRayY(ray), MirrorSegY(seg);
    var p := IntersectPoint(ray, seg);
    var sn, rn := Perp(SegDir(seg)), Perp(ray.direction);
    assert Perp(SegDir(seg')) == Vec(sn.x, -sn.y);
    assert Perp(ray'.direction) == Vec(rn.x, -rn.y);
    assert Dot(MirrorY(p), Perp(ray'.direction)) == -Dot(p, rn);
    assert Dot(MirrorY(p), Perp(SegDir(seg'))) == -Dot(p, sn);
    Solve2Unique(Perp(ray'.direction), Dot(ray'.start, Perp(ray'.direction)),
                 Perp(SegDir(seg')), Dot(seg'.v1, Perp(SegDir(seg'))), MirrorY(p));
  }

  lemma MirrorXFactor(seg: Segment, q: Vec)
    requires SegDir(seg) != Zero
    ensures SegDir(MirrorSegX(seg)) != Zero
    ensures SegFactor(MirrorSegX(seg), MirrorX(q)) == SegFactor(seg, q)
  {
    var d := SegDir(seg);
    if !XDominant(d) {
      DivNeg(q.y - seg.v1.y, d.y);
      assert -q.y - -seg.v1.y == -(q.y - seg.v1.y);
    }
  }

  lemma MirrorYFactor(seg: Segment, q: Vec)
    requires SegDir(seg) != Zero
    ensures SegDir(MirrorSegY(seg)) != Zero
    ensures SegFactor(MirrorSegY(seg), MirrorY(q)) == SegFactor(seg, q)
  {
    var d := SegDir(seg);
    if XDominant(d) {
      DivNeg(q.x - seg.v1.x, d.x);
      assert -q.x - -seg.v1.x == -(q.x - seg.v1.x);
    }
  }

  /** Mirroring ray and segment across the x axis keeps the result and the case and mirrors the point. */
  lemma {:induction false} MirrorXInvariant(ray: Ray, seg: Segment, margin: real)
    requires margin > 0.0
    ensures FRaySegment(MirrorRayX(ray), MirrorSegX(seg), margin) == MirrorHitX(FRaySegment(ray, seg, margin))
  {
    MirrorXDeterminant(ray, seg);
    MirrorXBehind(ray, seg.v1);
    MirrorXBehind(ray, seg.v2);
    if Abs(Determinant(ray, seg)) >= margin {
      DetDirs(ray, seg);
      MirrorXPoint(ray, seg);
      var p := IntersectPoint(ray, seg);
      MirrorXBehind(ray, p);
      MirrorXFactor(seg, p);
    }
  }

  /** Mirroring across the y axis likewise, for a non-zero ray direction (with a zero direction the
      source's colinear test divides by a signed zero, whose sign the mirror flips). */
  lemma {:induction false} MirrorYInvariant(ray: Ray, seg: Segment, margin: real)
    requires margin > 0.0 && ray.direction != Zero
    ensures FRaySegment(MirrorRayY(ray), MirrorSegY(seg), margin) == MirrorHitY(FRaySegment(ray, seg, margin))
  {
    MirrorYDeterminant(ray, seg);
    MirrorYBehind(ray, seg.v1);
    MirrorYBehind(ray, seg.v2);
    if Abs(Determinant(ray, seg)) >= margin {
      DetDirs(ray, seg);
      MirrorYPoint(ray, seg);
      var p := IntersectPoint(ray, seg);
      MirrorYBehind(ray, p);
      MirrorYFactor(seg, p);
    }
  }

  /** A crossing example: the lines meet at `q`, the ray's start, direction and the segment are
      given, and the outcome follows from the sign tests at `q`. */
  lemma CrossingAt(ray: Ray, seg: Segment, q: Vec)
    requires Abs(Determinant(ray, seg)) >= DefaultMargin
    requires Dot(q, Perp(ray.direction)) == Dot(ray.start, Perp(ray.direction))
    requires Dot(q, Perp(SegDir(seg))) == Dot(seg.v1, Perp(SegDir(seg)))
    ensures Determinant(ray, seg) != 0.0 && IntersectPoint(ray, seg) == q
  {
    Solve2Unique(Perp(ray.direction), Dot(ray.start, Perp(ray.direction)),
                 Perp(SegDir(seg)), Dot(seg.v1, Perp(SegDir(seg))), q);
  }

  /** Rows of the ray/segment test table: a forward ray hits the segment at (1.5, -1.5), the
      reversed ray meets the same point behind its start, and a shortened segment stops short of
      it. Each numeric fact is its own lemma. */
  lemma NormalDeterminant(ray: Ray, seg: Segment)
    requires ray == Ray(Vec(0.5, 1.5), Vec(1.0, -3.0)) && seg == Segment(Vec(3.0, -2.0), Vec(-1.5, -0.5))
    ensures Determinant(ray, seg) == -12.0
  {
  }

  lemma NormalOnLines(ray: Ray, seg: Segment)
    requires ray == Ray(Vec(0.5, 1.5), Vec(1.0, -3.0)) && seg == Segment(Vec(3.0, -2.0), Vec(-1.5, -0.5))
    ensures Dot(Vec(1.5, -1.5), Perp(ray.direction)) == Dot(ray.start, Perp(ray.direction))
    ensures Dot(Vec(1.5, -1.5), Perp(SegDir(seg))) == Dot(seg.v1, Perp(SegDir(seg)))
  {
  }

  lemma NormalBehind(ray: Ray, seg: Segment)
    requires ray == Ray(Vec(0.5, 1.5), Vec(1.0, -3.0)) && seg == Segment(Vec(3.0, -2.0), Vec(-1.5, -0.5))
    ensures !Behind(ray, Vec(1.5, -1.5))
  {
  }

  lemma NormalFactor(ray: Ray, seg: Segment)
    requires ray == Ray(Vec(0.5, 1.5), Vec(1.0, -3.0)) && seg == Segment(Vec(3.0, -2.0), Vec(-1.5, -0.5))
    ensures SegDir(seg) != Zero && SegFactor(seg, Vec(1.5, -1.5)) == 1.0 / 3.0
  {
  }
  lemma ReversedDeterminant(ray: Ray, seg: Segment)
    requires ray == Ray(Vec(0.5, 1.5), Vec(-1.0, 3.0)) && seg == Segment(Vec(3.0, -2.0), Vec(-1.5, -0.5))
    ensures Determinant(ray, seg) == 12.0
  {
  }

  lemma ReversedOnLines(ray: Ray, seg: Segment)
    requires ray == Ray(Vec(0.5, 1.5), Vec(-1.0, 3.0)) && seg == Segment(Vec(3.0, -2.0), Vec(-1.5, -0.5))
    ensures Dot(Vec(1.5, -1.5), Perp(ray.direction)) == Dot(ray.start, Perp(ray.direction))
    ensures Dot(Vec(1.5, -1.5), Perp(SegDir(seg))) == Dot(seg.v1, Perp(SegDir(seg)))
  {
  }

  lemma ReversedBehind(ray: Ray, seg: Segment)
    requires ray == Ray(Vec(0.5, 1.5), Vec(-1.0, 3.0)) && seg == Segment(Vec(3.0, -2.0), Vec(-1.5, -0.5))
    ensures Behind(ray, Vec(1.5, -1.5))
  {
  }
  lemma ShortDeterminant(ray: Ray, seg: Segment)
    requires ray == Ray(Vec(0.5, 1.5), Vec(1.0, -3.0)) && seg == Segment(Vec(1.0, -4.0 / 3.0), Vec(-1.5, -0.5))
    ensures Determinant(ray, seg) == -20.0 / 3.0
  {
  }

  lemma ShortOnLines(ray: Ray, seg: Segment)
    requires ray == Ray(Vec(0.5, 1.5), Vec(1.0, -3.0)) && seg == Segment(Vec(1.0, -4.0 / 3.0), Vec(-1.5, -0.5))
    ensures Dot(Vec(1.5, -1.5), Perp(ray.direction)) == Dot(ray.start, Perp(ray.direction))
    ensures Dot(Vec(1.5, -1.5), Perp(SegDir(seg))) == Dot(seg.v1, Perp(SegDir(seg)))
  {
  }

  lemma ShortBehind(ray: Ray, seg: Segment)
    requires ray == Ray(Vec(0.5, 1.5), Vec(1.0, -3.0)) && seg == Segment(Vec(1.0, -4.0 / 3.0), Vec(-1.5, -0.5))
    ensures !Behind(ray, Vec(1.5, -1.5))
  {
  }

  lemma ShortFactor(ray: Ray, seg: Segment)
    requires ray == Ray(Vec(0.5, 1.5), Vec(1.0, -3.0)) && seg == Segment(Vec(1.0, -4.0 / 3.0), Vec(-1.5, -0.5))
    ensures SegDir(seg) != Zero && SegFactor(seg, Vec(1.5, -1.5)) == -0.2
  {
  }

  lemma NormalExample(ray: Ray, seg: Segment)
    requires ray == Ray(Vec(0.5, 1.5), Vec(1.0, -3.0)) && seg == Segment(Vec(3.0, -2.0), Vec(-1.5, -0.5))
    ensures FRaySegment(ray, seg, DefaultMargin) == RayHit(true, Normal, Some(Vec(1.5, -1.5)))
  {
    NormalDeterminant(ray, seg);
    NormalOnLines(ray, seg);
    NormalBehind(ray, seg);
    NormalFactor(ray, seg);
    CrossingAt(ray, seg, Vec(1.5, -1.5));
    Crossing(ray, seg, DefaultMargin);
  }
  lemma WrongOrientationExample(ray: Ray, seg: Segment)
    requires ray == Ray(Vec(0.5, 1.5), Vec(-1.0, 3.0)) && seg == Segment(Vec(3.0, -2.0), Vec(-1.5, -0.5))
    ensures FRaySegment(ray, seg, DefaultMargin) == RayHit(false, WrongOrientation, Some(Vec(1.5, -1.5)))
  {
    ReversedDeterminant(ray, seg);
    ReversedOnLines(ray, seg);
    ReversedBehind(ray, seg);
    CrossingAt(ray, seg, Vec(1.5, -1.5));
    Crossing(ray, seg, DefaultMargin);
  }
  lemma OutsideSegmentExample(ray: Ray, seg: Segment)
    requires ray == Ray(Vec(0.5, 1.5), Vec(1.0, -3.0)) && seg == Segment(Vec(1.0, -4.0 / 3.0), Vec(-1.5, -0.5))
    ensures FRaySegment(ray, seg, DefaultMargin) == RayHit(false, OutsideSegment, Some(Vec(1.5, -1.5)))
  {
    ShortDeterminant(ray, seg);
    ShortOnLines(ray, seg);
    ShortBehind(ray, seg);
    ShortFactor(ray, seg);
    CrossingAt(ray, seg, Vec(1.5, -1.5));
    Crossing(ray, seg, DefaultMargin);
  }

  /** The parallel row of the same table. */
  lemma ParallelExample(ray: Ray, seg: Segment)
    requires ray == Ray(Vec(1.0, -1.0), Vec(9.0, 3.0)) && seg == Segment(Vec(2.0, 3.0), Vec(5.0, 4.0))
    ensures FRaySegment(ray, seg, DefaultMargin) == RayHit(false, Parallel, None)
  {
    assert SegDir(seg) == Vec(3.0, 1.0);
    assert Determinant(ray, seg) == 0.0;
    assert DFactor(ray, seg) == -11.0;
  }

  lemma VerticalDeterminant(ray: Ray, seg: Segment, up: bool)
    requires seg == Segment(Vec(1.0, 1.0), Vec(1.0, 3.0))
    requires ray == Ray(Vec(1.0, -1.0), if up then Vec(0.0, 1.0) else Vec(0.0, -1.0))
    ensures Determinant(ray, seg) == 0.0
  {
  }

  lemma VerticalDFactor(ray: Ray, seg: Segment, up: bool)
    requires seg == Segment(Vec(1.0, 1.0), Vec(1.0, 3.0))
    requires ray == Ray(Vec(1.0, -1.0), if up then Vec(0.0, 1.0) else Vec(0.0, -1.0))
    ensures DFactor(ray, seg) == 0.0
  {
  }

  lemma VerticalBehind(ray: Ray, seg: Segment, up: bool)
    requires seg == Segment(Vec(1.0, 1.0), Vec(1.0, 3.0))
    requires ray == Ray(Vec(1.0, -1.0), if up then Vec(0.0, 1.0) else Vec(0.0, -1.0))
    ensures Behind(ray, seg.v1) == Behind(ray, seg.v2) == !up
  {
  }

  /** The colinear rows: a vertical segment above the start is missed by the downward ray and hit
      by the upward one. */
  lemma ColinearExample(ray: Ray, seg: Segment, up: bool)
    requires seg == Segment(Vec(1.0, 1.0), Vec(1.0, 3.0))
    requires ray == Ray(Vec(1.0, -1.0), if up then Vec(0.0, 1.0) else Vec(0.0, -1.0))
    ensures FRaySegment(ray, seg, DefaultMargin) == RayHit(up, Colinear, None)
  {
    VerticalDeterminant(ray, seg, up);
    VerticalDFactor(ray, seg, up);
    VerticalBehind(ray, seg, up);
    NearZeroDeterminant(ray, seg, DefaultMargin);
  }

  lemma HorizontalDeterminant(ray: Ray, seg: Segment, left: bool)
    requires seg == Segment(Vec(1.0, 2.0), Vec(-2.0, 2.0))
    requires ray == Ray(Vec(3.5, 2.0), if left then Vec(-0.7, 0.0) else Vec(1.0, 0.0))
    ensures Determinant(ray, seg) == 0.0
  {
    assert ray.direction.y == 0.0 && SegDir(seg).y == 0.0;
  }

  lemma HorizontalDFactor(ray: Ray, seg: Segment, left: bool)
    requires seg == Segment(Vec(1.0, 2.0), Vec(-2.0, 2.0))
    requires ray == Ray(Vec(3.5, 2.0), if left then Vec(-0.7, 0.0) else Vec(1.0, 0.0))
    ensures DFactor(ray, seg) == 0.0
  {
  }

  lemma HorizontalBehind(ray: Ray, seg: Segment, left: bool)
    requires seg == Segment(Vec(1.0, 2.0), Vec(-2.0, 2.0))
    requires ray == Ray(Vec(3.5, 2.0), if left then Vec(-0.7, 0.0) else Vec(1.0, 0.0))
    ensures Behind(ray, seg.v1) == Behind(ray, seg.v2) == !left
  {
  }

  /** The horizontal colinear rows: a segment to the left of the start is hit by the leftward
      ray and missed by the rightward one, the sign tests read on the x axis. */
  lemma ColinearHorizontalExample(ray: Ray, seg: Segment, left: bool)
    requires seg == Segment(Vec(1.0, 2.0), Vec(-2.0, 2.0))
    requires ray == Ray(Vec(3.5, 2.0), if left then Vec(-0.7, 0.0) else Vec(1.0, 0.0))
    ensures FRaySegment(ray, seg, DefaultMargin) == RayHit(left, Colinear, None)
  {
    HorizontalDeterminant(ray, seg, left);
    HorizontalDFactor(ray, seg, left);
    HorizontalBehind(ray, seg, left);
    NearZeroDeterminant(ray, seg, DefaultMargin);
  }
}
