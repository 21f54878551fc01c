/** `lineIntersect` of scripts/polygontools.ts: where the line through `a` along `aDir` meets
    the line through `b` along `bDir`. The source works with unit normals, which it gets by a
    square root; here the normals are the un-normalised `Perp` of each direction and the two
    thresholds are compared in squared form, which decides the same way over exact reals. */
module Lines {
  import opened Vectors
  import opened Results

  /** `realMargin`. */
  const RealMargin: real := 0.01

  /** The fields of the source's `IntersectResult`. A coordinate or coefficient the source
      computes as NaN (a direction of length zero makes its unit normal NaN) is `None`, and
      so is the point of a parallel pair, which the source leaves undefined. */
  datatype IntersectResult = IntersectResult(
    result: bool,
    colinear: bool,
    point: Option<Vec>,
    acoeff: Option<real>,
    bcoeff: Option<real>)

  /** The determinant of the unit normals is below the margin:
      `|Cross(bn, an)| / (|aDir| |bDir|) < 0.01`. */
  predicate NearParallel(aDir: Vec, bDir: Vec) {
    Square(Cross(Perp(bDir), Perp(aDir))) < Square(RealMargin) * Dot(aDir, aDir) * Dot(bDir, bDir)
  }

  /** The distance of `b` from the line through `a` exceeds the margin:
      `|fdot(b, an) - fdot(a, an)| > 0.01` with the unit normal `an` of `aDir`. */
  predicate FarApart(a: Vec, aDir: Vec, b: Vec) {
    Square(Dot(b, Perp(aDir)) - Dot(a, Perp(aDir))) > Square(RealMargin) * Dot(aDir, aDir)
  }

  /** The parameter `k` with `from + dir * k == to`, read off the larger component of `dir`. */
  function Coeff(from: Vec, dir: Vec, to: Vec): real
    requires dir != Zero
  {
    if Abs(dir.x) > Abs(dir.y) then (to.x - from.x) / dir.x else (to.y - from.y) / dir.y
  }

  lemma SquarePositive(v: Vec)
    requires v != Zero
    ensures Dot(v, v) > 0.0
  {
    calc {
      Dot(v, v);
      v.x * v.x + v.y * v.y;
    > { SumOfSquares(v.x, v.y); }
      0.0;
    }
  }

  lemma SumOfSquares(x: real, y: real)
    requires x != 0.0 || y != 0.0
    ensures x * x + y * y > 0.0
  {
    if x > 0.0 { ProductPositive(x, x); } else if x < 0.0 { ProductPositive(-x, -x); }
    if y > 0.0 { ProductPositive(y, y); } else if y < 0.0 { ProductPositive(-y, -y); }
  }

  lemma ProductPositive(x: real, y: real)
    requires x > 0.0 && y > 0.0
    ensures x * y > 0.0
  {
  }

  lemma Cancel(c: real, u: real, v: real)
    requires c != 0.0 && c * u == c * v
    ensures u == v
  {
  }

  /** A pair of directions that is not near parallel has a non-zero determinant. */
  lemma {:induction false} Determinant(aDir: Vec, bDir: Vec)
    requires aDir != Zero && bDir != Zero && !NearParallel(aDir, bDir)
    ensures Cross(Perp(bDir), Perp(aDir)) != 0.0
  {
    SquarePositive(aDir);
    SquarePositive(bDir);
    var p := Dot(aDir, aDir) * Dot(bDir, bDir);
    assert p > 0.0;
    assert Square(RealMargin) * p > 0.0;
  }

  /** `lineIntersect`. */
  function LineIntersect(a: Vec, aDir: Vec, b: Vec, bDir: Vec): (r: IntersectResult)
    ensures !r.result <==> aDir != Zero && bDir != Zero && NearParallel(aDir, bDir) && FarApart(a, aDir, b)
    ensures r.colinear <==> aDir != Zero && bDir != Zero && NearParallel(aDir, bDir) && !FarApart(a, aDir, b)
    ensures r.colinear ==> r.point == Some(a)
    ensures r.result && !r.colinear && aDir != Zero && bDir != Zero ==>
      r.point.Some? && r.acoeff.Some? && r.bcoeff.Some?
    ensures r.acoeff.Some? <==> aDir != Zero && bDir != Zero
    ensures r.bcoeff.Some? <==> aDir != Zero && bDir != Zero
    ensures r.result && r.acoeff.Some? ==> r.point.Some?
  {
    if aDir == Zero || bDir == Zero then
      IntersectResult(true, false, None, None, None)
    else
      var aNorm := Perp(aDir);
      var bNorm := Perp(bDir);
      if NearParallel(aDir, bDir) then
        if FarApart(a, aDir, b) then
          IntersectResult(false, false, None, Some(0.0), Some(0.0))
        else
          IntersectResult(true, true, Some(a), Some(Coeff(a, aDir, b)), Some(Coeff(b, bDir, a)))
      else
        Determinant(aDir, bDir);
        var p := Solve2(bNorm, Dot(b, bNorm), aNorm, Dot(a, aNorm));
        IntersectResult(true, false, Some(p), Some(Coeff(a, aDir, p)), Some(Coeff(b, bDir, p)))
  }

  /** A point off `from` along `dir` is reached by walking `Coeff` steps of `dir`. */
  lemma {:induction false} CoeffOnLine(from: Vec, dir: Vec, to: Vec)
    requires dir != Zero && Cross(dir, Sub(to, from)) == 0.0
    ensures Add(from, Mul(dir, Coeff(from, dir, to))) == to
  {
    var w := Sub(to, from);
    assert w.x == to.x - from.x && w.y == to.y - from.y;
    assert dir.x * w.y == dir.y * w.x;
    var k := Coeff(from, dir, to);
    if Abs(dir.x) > Abs(dir.y) {
      assert k == w.x / dir.x;
      AlongParallel(dir.x, dir.y, w.x, w.y, k);
    } else {
      assert dir.y != 0.0 && k == w.y / dir.y;
      AlongParallel(dir.y, dir.x, w.y, w.x, k);
    }
    assert Mul(dir, k) == w;
  }

  /** If (wu, wv) is parallel to (du, dv) and du is not zero, then (wu, wv) is
      (du, dv) scaled by wu / du. */
  lemma AlongParallel(du: real, dv: real, wu: real, wv: real, k: real)
    requires du != 0.0 && du * wv == dv * wu && k == wu / du
    ensures du * k == wu && dv * k == wv
  {
    assert du * k == wu;
    assert du * (dv * k) == dv * (du * k);
    Cancel(du, dv * k, wv);
  }

  lemma DotPerpIsCross(w: Vec, d: Vec)
    ensures Dot(w, Perp(d)) == Cross(d, w)
  {
  }

  /** When the lines cross, the point lies on both of them, and each coefficient walks from
      its line's start to the point: `a + aDir * acoeff == point == b + bDir * bcoeff`. */
  lemma {:induction false} CrossingPoint(a: Vec, aDir: Vec, b: Vec, bDir: Vec)
    requires aDir != Zero && bDir != Zero && !NearParallel(aDir, bDir)
    ensures var r := LineIntersect(a, aDir, b, bDir);
      r.result && !r.colinear && r.point.Some? && r.acoeff.Some? && r.bcoeff.Some? &&
      Cross(aDir, Sub(r.point.value, a)) == 0.0 && Cross(bDir, Sub(r.point.value, b)) == 0.0 &&
      Add(a, Mul(aDir, r.acoeff.value)) == r.point.value &&
      Add(b, Mul(bDir, r.bcoeff.value)) == r.point.value
  {
    Determinant(aDir, bDir);
    var p := Solve2(Perp(bDir), Dot(b, Perp(bDir)), Perp(aDir), Dot(a, Perp(aDir)));
    assert LineIntersect(a, aDir, b, bDir).point == Some(p);
    DotPerpIsCross(Sub(p, a), aDir);
    DotPerpIsCross(Sub(p, b), bDir);
    assert Dot(Sub(p, a), Perp(aDir)) == Dot(p, Perp(aDir)) - Dot(a, Perp(aDir));
    assert Dot(Sub(p, b), Perp(bDir)) == Dot(p, Perp(bDir)) - Dot(b, Perp(bDir));
    CoeffOnLine(a, aDir, p);
    CoeffOnLine(b, bDir, p);
  }

  /** Colinear lines: if `b` lies exactly on the line through `a`, then `acoeff` walks from
      `a` to `b`, and symmetrically for `bcoeff`. */
  lemma {:induction false} ColinearCoefficients(a: Vec, aDir: Vec, b: Vec, bDir: Vec)
    requires LineIntersect(a, aDir, b, bDir).colinear
    ensures var r := LineIntersect(a, aDir, b, bDir);
      r.acoeff.Some? && r.bcoeff.Some? &&
      (Cross(aDir, Sub(b, a)) == 0.0 ==> Add(a, Mul(aDir, r.acoeff.value)) == b) &&
      (Cross(bDir, Sub(a, b)) == 0.0 ==> Add(b, Mul(bDir, r.bcoeff.value)) == a)
  {
    if Cross(aDir, Sub(b, a)) == 0.0 {
      CoeffOnLine(a, aDir, b);
    }
    if Cross(bDir, Sub(a, b)) == 0.0 {
      CoeffOnLine(b, bDir, a);
    }
  }

  /** Exchanging the two lines of a crossing gives the same point with the coefficients
      exchanged. */
  lemma {:induction false} CrossingSymmetric(a: Vec, aDir: Vec, b: Vec, bDir: Vec)
    requires aDir != Zero && bDir != Zero && !NearParallel(aDir, bDir)
    ensures !NearParallel(bDir, aDir)
    ensures var r, s := LineIntersect(a, aDir, b, bDir), LineIntersect(b, bDir, a, aDir);
      r.point == s.point && r.acoeff == s.bcoeff && r.bcoeff == s.acoeff
  {
    assert Cross(Perp(aDir), Perp(bDir)) == -Cross(Perp(bDir), Perp(aDir));
    assert Square(Cross(Perp(aDir), Perp(bDir))) == Square(Cross(Perp(bDir), Perp(aDir)));
    assert Dot(bDir, bDir) * Dot(aDir, aDir) == Dot(aDir, aDir) * Dot(bDir, bDir);
    Determinant(aDir, bDir);
    Determinant(bDir, aDir);
    var p := Solve2(Perp(bDir), Dot(b, Perp(bDir)), Perp(aDir), Dot(a, Perp(aDir)));
    Solve2Unique(Perp(aDir), Dot(a, Perp(aDir)), Perp(bDir), Dot(b, Perp(bDir)), p);
  }

  /** A step of `CrossingExample`: the result for lines known to cross at `p`. */
  lemma CrossingResult(a: Vec, aDir: Vec, b: Vec, bDir: Vec, p: Vec)
    requires aDir != Zero && bDir != Zero && !NearParallel(aDir, bDir)
    requires Cross(Perp(bDir), Perp(aDir)) != 0.0
    requires p == Solve2(Perp(bDir), Dot(b, Perp(bDir)), Perp(aDir), Dot(a, Perp(aDir)))
    ensures LineIntersect(a, aDir, b, bDir) ==
      IntersectResult(true, false, Some(p), Some(Coeff(a, aDir, p)), Some(Coeff(b, bDir, p)))
  {
  }

  /** The lines through (1, 2) along (6, -3) and through (6, 3) along (-1, 4) cross at
      (7, -1), one step forward along the first and one step back along the second. */
  lemma CrossingExample(a: Vec, aDir: Vec, b: Vec, bDir: Vec)
    requires a == Vec(1.0, 2.0) && aDir == Vec(6.0, -3.0)
    requires b == Vec(6.0, 3.0) && bDir == Vec(-1.0, 4.0)
    ensures LineIntersect(a, aDir, b, bDir) ==
      IntersectResult(true, false, Some(Vec(7.0, -1.0)), Some(1.0), Some(-1.0))
  {
    ExampleNotParallel(aDir, bDir);
    var q := Vec(7.0, -1.0);
    ExampleOnA(a, aDir, q);
    ExampleOnB(b, bDir, q);
    Solve2Unique(Perp(bDir), Dot(b, Perp(bDir)), Perp(aDir), Dot(a, Perp(aDir)), q);
    CrossingResult(a, aDir, b, bDir, q);
    ExampleCoeffA(a, aDir, q);
    ExampleCoeffB(b, bDir, q);
  }

  lemma ExampleNotParallel(aDir: Vec, bDir: Vec)
    requires aDir == Vec(6.0, -3.0) && bDir == Vec(-1.0, 4.0)
    ensures aDir != Zero && bDir != Zero
    ensures !NearParallel(aDir, bDir) && Cross(Perp(bDir), Perp(aDir)) == -21.0
  {
  }

  lemma ExampleOnA(a: Vec, aDir: Vec, q: Vec)
    requires a == Vec(1.0, 2.0) && aDir == Vec(6.0, -3.0) && q == Vec(7.0, -1.0)
    ensures Dot(q, Perp(aDir)) == Dot(a, Perp(aDir))
  {
  }

  lemma ExampleOnB(b: Vec, bDir: Vec, q: Vec)
    requires b == Vec(6.0, 3.0) && bDir == Vec(-1.0, 4.0) && q == Vec(7.0, -1.0)
    ensures Dot(q, Perp(bDir)) == Dot(b, Perp(bDir))
  {
  }

  lemma ExampleCoeffA(a: Vec, aDir: Vec, q: Vec)
    requires a == Vec(1.0, 2.0) && aDir == Vec(6.0, -3.0) && q == Vec(7.0, -1.0)
    ensures aDir != Zero && Coeff(a, aDir, q) == 1.0
  {
  }

  lemma ExampleCoeffB(b: Vec, bDir: Vec, q: Vec)
    requires b == Vec(6.0, 3.0) && bDir == Vec(-1.0, 4.0) && q == Vec(7.0, -1.0)
    ensures bDir != Zero && Coeff(b, bDir, q) == -1.0
  {
  }
}
