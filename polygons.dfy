/** Polygon index arithmetic, corner orientation and the convex decomposition of
    scripts/polygontools.ts. A polygon is its vertex sequence, closed by the edge from the
    last vertex back to the first. */
module Polygons {
  import opened Vectors
  import opened Results

  /** `prev(i, length)`: the index before `i` around a polygon of `n` vertices. */
  function Prev(i: int, n: int): (r: int)
    ensures 0 <= i < n ==> 0 <= r < n
  {
    if i == 0 then n - 1 else i - 1
  }

  /** `next(i, length)`: the index after `i` around a polygon of `n` vertices. */
  function Next(i: int, n: int): (r: int)
    ensures 0 <= i < n ==> 0 <= r < n
  {
    if i == n - 1 then 0 else i + 1
  }

  /** Stepping back and forth around the polygon returns to the same vertex. */
  lemma PrevNextInverse(i: int, n: int)
    requires 0 <= i < n
    ensures Next(Prev(i, n), n) == i && Prev(Next(i, n), n) == i
    ensures n > 1 ==> Prev(i, n) != i && Next(i, n) != i
  {
  }

  /** How far `t` lies after `s` going forward around the polygon. */
  function Gap(s: int, t: int, n: int): (g: int)
    requires 0 <= s < n && 0 <= t < n
    ensures 0 <= g < n
    ensures g == 0 <==> s == t
  {
    if t >= s then t - s else t - s + n
  }

  /** The orientation of the corner a-b-c: the component of `c - b` along the left normal of
      `a - b`. The source's `angle(a, b, c)` (measured from `b -> a` towards `b -> c`) is above
      pi exactly when this is negative, and below pi exactly when it is positive or when the
      two arms point the same way. The source's normalisation only scales it by a positive
      factor. */
  function Turn(a: Vec, b: Vec, c: Vec): real {
    Dot(Sub(c, b), Perp(Sub(a, b)))
  }

  /** `angle(a, b, c) > Math.PI`. When an arm has length zero the source's angle is NaN and
      the comparison is false; `Turn` is zero then. */
  predicate Reflex(a: Vec, b: Vec, c: Vec) {
    Turn(a, b, c) < 0.0
  }

  /** `angle(a, b, c) < Math.PI`. */
  predicate BelowPi(a: Vec, b: Vec, c: Vec) {
    Turn(a, b, c) > 0.0 || (Turn(a, b, c) == 0.0 && Dot(Sub(c, b), Sub(a, b)) > 0.0)
  }

  /** Swapping the arms of a corner flips its orientation: when the arms are not aligned,
      the corner is below pi exactly when the swapped corner is reflex, and a corner
      is never both reflex and below pi. */
  lemma {:induction false} SwappedCorner(a: Vec, b: Vec, c: Vec)
    ensures Turn(c, b, a) == -Turn(a, b, c)
    ensures Turn(a, b, c) != 0.0 ==> (BelowPi(a, b, c) <==> Reflex(c, b, a))
    ensures !(Reflex(a, b, c) && BelowPi(a, b, c))
  {
    var u, w := Sub(a, b), Sub(c, b);
    assert Turn(a, b, c) == w.y * u.x - w.x * u.y;
    assert Turn(c, b, a) == u.y * w.x - u.x * w.y;
  }

  /** The corner at vertex `i` is reflex. */
  predicate ReflexAt(vs: seq<Vec>, i: int)
    requires 0 <= i < |vs|
  {
    Reflex(vs[Prev(i, |vs|)], vs[i], vs[Next(i, |vs|)])
  }

  /** No corner of the polygon exceeds pi. */
  predicate IsConvex(vs: seq<Vec>) {
    forall i :: 0 <= i < |vs| ==> !ReflexAt(vs, i)
  }

  /** With one or two vertices every corner is degenerate, so the polygon counts as convex. */
  lemma {:induction false} FewVerticesConvex(vs: seq<Vec>)
    requires |vs| <= 2
    ensures IsConvex(vs)
  {
    forall i | 0 <= i < |vs|
      ensures !ReflexAt(vs, i)
    {
      var n := |vs|;
      var u := Sub(vs[Prev(i, n)], vs[i]);
      assert vs[Next(i, n)] == vs[Prev(i, n)];
      assert Turn(vs[Prev(i, n)], vs[i], vs[Next(i, n)]) == u.x * (-u.y) + u.y * u.x;
    }
  }

  /** `convexTest`: false as soon as one corner is reflex. */
  method ConvexTest(verts: seq<Vec>) returns (convex: bool)
    ensures convex <==> IsConvex(verts)
  {
    var n := |verts|;
    for i := 0 to n
      invariant forall j :: 0 <= j < i ==> !ReflexAt(verts, j)
    {
      var prevIndex := if i == 0 then n - 1 else i - 1;
      var nextIndex := if i == n - 1 then 0 else i + 1;
      if Reflex(verts[prevIndex], verts[i], verts[nextIndex]) {
        assert ReflexAt(verts, i);
        return false;
      }
    }
    return true;
  }

  /** `concavTest`: the negation of `convexTest`. */
  method ConcavTest(verts: seq<Vec>) returns (concave: bool)
    ensures concave <==> exists i :: 0 <= i < |verts| && ReflexAt(verts, i)
  {
    var convex := ConvexTest(verts);
    concave := !convex;
  }

  /** The `len` vertices met going forward around `vs` from index `from`. */
  function Run(vs: seq<Vec>, from: int, len: int): (r: seq<Vec>)
    requires 0 <= from < |vs| && 0 <= len <= |vs|
    ensures |r| == len
    ensures forall k :: 0 <= k < len ==> r[k] == vs[if from + k < |vs| then from + k else from + k - |vs|]
  {
    seq(len, k requires 0 <= k < len => vs[if from + k < |vs| then from + k else from + k - |vs|])
  }

  /** `a` lists the vertices of `b` in the same cyclic order, starting elsewhere. */
  ghost predicate IsRotationOf(a: seq<Vec>, b: seq<Vec>) {
    exists m :: 0 <= m <= |b| && a == b[m..] + b[..m]
  }

  /** The two polygons `convexSeparate` cuts `vs` into along the diagonal from vertex `s` to
      vertex `t`: the first runs around from `t` to `s`, the second from `s` to `t`; both
      keep the diagonal's end points, so between them they hold two vertices more than `vs`. */
  function Split(vs: seq<Vec>, s: int, t: int): (pieces: (seq<Vec>, seq<Vec>))
    requires 0 <= s < |vs| && 0 <= t < |vs| && s != t
    ensures |pieces.0| == Gap(t, s, |vs|) + 1 && |pieces.1| == Gap(s, t, |vs|) + 1
    ensures |pieces.0| + |pieces.1| == |vs| + 2
    ensures IsRotationOf(pieces.0, Run(vs, t, |pieces.0|))
    ensures IsRotationOf(pieces.1, Run(vs, s, |pieces.1|))
    ensures forall v :: v in pieces.0 || v in pieces.1 ==> v in vs
  {
    var n := |vs|;
    if t > s then
      var p1 := vs[..s + 1] + vs[t..];
      var p2 := vs[s..t + 1];
      var r1 := Run(vs, t, |p1|);
      assert r1 == vs[t..] + vs[..s + 1];
      assert p1 == r1[n - t..] + r1[..n - t];
      assert p2 == Run(vs, s, |p2|)[0..] + Run(vs, s, |p2|)[..0];
      (p1, p2)
    else
      var p1 := vs[t..s + 1];
      var p2 := vs[..t + 1] + vs[s..];
      var r2 := Run(vs, s, |p2|);
      assert r2 == vs[s..] + vs[..t + 1];
      assert p2 == r2[n - s..] + r2[..n - s];
      assert p1 == Run(vs, t, |p1|)[0..] + Run(vs, t, |p1|)[..0];
      (p1, p2)
  }

  /** The number of vertices over all pieces. */
  function TotalSize(pieces: seq<seq<Vec>>): nat {
    if pieces == [] then 0 else TotalSize(pieces[..|pieces| - 1]) + |pieces[|pieces| - 1]|
  }

  lemma {:induction false} TotalSizeAppend(a: seq<seq<Vec>>, b: seq<seq<Vec>>)
    ensures TotalSize(a + b) == TotalSize(a) + TotalSize(b)
    decreases |b|
  {
    if b != [] {
      assert (a + b)[..|a + b| - 1] == a + b[..|b| - 1];
      TotalSizeAppend(a, b[..|b| - 1]);
    } else {
      assert a + b == a;
    }
  }

  /** `pieces` cut `vs` into convex polygons: there is at least one; each is `vs` itself or
      has at least three vertices, all of them vertices of `vs`; and each cut beyond the
      first piece adds the two end points of one diagonal to the vertex count. */
  ghost predicate ConvexPieces(vs: seq<Vec>, pieces: seq<seq<Vec>>) {
    |pieces| >= 1 &&
    (forall k :: 0 <= k < |pieces| ==> IsConvex(pieces[k])) &&
    (forall k :: 0 <= k < |pieces| ==> pieces[k] == vs || |pieces[k]| >= 3) &&
    (forall k, v :: 0 <= k < |pieces| && v in pieces[k] ==> v in vs) &&
    TotalSize(pieces) == |vs| + 2 * (|pieces| - 1)
  }

  /** The pieces of the two halves of a split together cut the whole polygon. */
  lemma JoinPieces(vs: seq<Vec>, h0: seq<Vec>, h1: seq<Vec>, a: seq<seq<Vec>>, b: seq<seq<Vec>>)
    requires |h0| >= 3 && |h1| >= 3 && |h0| + |h1| == |vs| + 2
    requires forall v :: v in h0 || v in h1 ==> v in vs
    requires ConvexPieces(h0, a) && ConvexPieces(h1, b)
    ensures ConvexPieces(vs, a + b) && |a + b| >= 2
  {
    TotalSizeAppend(a, b);
    var ab := a + b;
    forall k | 0 <= k < |ab|
      ensures IsConvex(ab[k]) && (ab[k] == vs || |ab[k]| >= 3)
      ensures forall v :: v in ab[k] ==> v in vs
    {
      if k < |a| {
        assert ab[k] == a[k];
      } else {
        assert ab[k] == b[k - |a|];
      }
    }
  }

  /** The first reflex corner from index `i` on, or `|vs|` when there is none: where the
      search loop of `convexSeparate` stops. */
  function FirstReflex(vs: seq<Vec>, i: nat): (k: nat)
    requires i <= |vs|
    ensures i <= k <= |vs|
    ensures k < |vs| ==> ReflexAt(vs, k)
    ensures forall j :: i <= j < k ==> !ReflexAt(vs, j)
    decreases |vs| - i
  {
    if i == |vs| then i
    else if ReflexAt(vs, i) then i
    else FirstReflex(vs, i + 1)
  }

  /** The polygons `convexSeparate` cuts up without throwing: the convex ones, and those
      whose backward walk from the first reflex corner passes at least one vertex and whose
      two halves along the resulting diagonal are separable again. */
  ghost predicate Separable(vs: seq<Vec>)
    decreases |vs|
  {
    IsConvex(vs) ||
    (3 <= |vs| && FirstReflex(vs, 0) < |vs| &&
     var s := FirstReflex(vs, 0);
     var t := WalkEnd(vs, s, Prev(Prev(s, |vs|), |vs|), -1);
     t != -1 && Separable(Split(vs, s, t).0) && Separable(Split(vs, s, t).1))
  }

  /** `convexSeparate`: cuts a polygon into convex pieces. At the first reflex corner `s` it
      walks backwards from the vertex two before `s` while the corner formed with the edge
      into `s` stays below pi, cuts along the diagonal from `s` to the last vertex that
      passed, and separates both halves again. Each cut adds one diagonal, whose two end
      points then belong to both pieces. The source throws when the walk stops at once;
      its first throw ("your math is wrong") cannot be reached, since a reflex corner was
      just found by the same test. */
  method ConvexSeparate(verts: seq<Vec>) returns (r: Result<seq<seq<Vec>>>)
    ensures r == Ok([verts]) <==> IsConvex(verts)
    ensures r.Err? <==> !Separable(verts)
    ensures r.Ok? ==> ConvexPieces(verts, r.value)
    decreases |verts|
  {
    var convex := ConvexTest(verts);
    if convex {
      return Ok([verts]);
    }
    var n := |verts|;
    if n <= 2 {
      FewVerticesConvex(verts);
      assert false;
    }

    var sepI := 0;
    var foundAngle := false;
    for i := 0 to n
      invariant !foundAngle
      invariant forall j :: 0 <= j < i ==> !ReflexAt(verts, j)
    {
      var prevIndex := Prev(i, n);
      var nextIndex := Next(i, n);
      if Reflex(verts[prevIndex], verts[i], verts[nextIndex]) {
        sepI := i;
        foundAngle := true;
        break;
      }
    }
    if !foundAngle {
      assert false;
    }
    assert ReflexAt(verts, sepI) && sepI == FirstReflex(verts, 0);

    var prevTestIndex := WalkBack(verts, sepI);
    if prevTestIndex == -1 {
      return Err("something is seriously wrong with my math");
    }

    var pieces := Split(verts, sepI, prevTestIndex);
    var r1 := ConvexSeparate(pieces.0);
    if r1.Err? {
      return r1;
    }
    var r2 := ConvexSeparate(pieces.1);
    if r2.Err? {
      return r2;
    }
    JoinPieces(verts, pieces.0, pieces.1, r1.value, r2.value);
    r := Ok(r1.value + r2.value);
  }

  /** Where the backward walk of `convexSeparate` ends when it is at `testIndex`, having
      last passed `last` (-1 when it has passed none): the last vertex it passes, testing
      each corner at the reflex vertex `sepI` towards the vertex tested. */
  ghost function WalkEnd(verts: seq<Vec>, sepI: nat, testIndex: nat, last: int): (r: int)
    requires 3 <= |verts| && sepI < |verts| && ReflexAt(verts, sepI)
    requires testIndex < |verts| && 1 <= Gap(sepI, testIndex, |verts|) <= |verts| - 2
    requires last == -1 ==> testIndex == Prev(Prev(sepI, |verts|), |verts|)
    requires last != -1 ==>
      0 <= last < |verts| && testIndex == Prev(last, |verts|) &&
      2 <= Gap(sepI, last, |verts|) <= |verts| - 2 &&
      BelowPi(verts[Prev(sepI, |verts|)], verts[sepI], verts[last]) &&
      BelowPi(verts[Prev(sepI, |verts|)], verts[sepI], verts[Prev(Prev(sepI, |verts|), |verts|)])
    ensures var n := |verts|;
      r == -1 <==> !BelowPi(verts[Prev(sepI, n)], verts[sepI], verts[Prev(Prev(sepI, n), n)])
    ensures var n := |verts|;
      r != -1 ==>
        0 <= r < n && 2 <= Gap(sepI, r, n) <= n - 2 &&
        BelowPi(verts[Prev(sepI, n)], verts[sepI], verts[r]) &&
        !BelowPi(verts[Prev(sepI, n)], verts[sepI], verts[Prev(r, n)])
    decreases Gap(sepI, testIndex, |verts|)
  {
    var n := |verts|;
    if !BelowPi(verts[Prev(sepI, n)], verts[sepI], verts[testIndex]) then last
    else if testIndex == Next(sepI, n) then
      SwappedCorner(verts[Prev(sepI, n)], verts[sepI], verts[testIndex]);
      assert false;
      last
    else WalkEnd(verts, sepI, Prev(testIndex, n), testIndex)
  }

  /** The backward walk of `convexSeparate`: from two vertices before the reflex vertex
      `sepI`, steps back while the corner at `sepI` towards the tested vertex stays below
      pi, and returns the last vertex tested that was, or -1 when the very first is not.
      The walk ends at the latest on the vertex after `sepI`, where the corner is the
      reflex one itself. */
  method WalkBack(verts: seq<Vec>, sepI: nat) returns (prevTestIndex: int)
    requires 3 <= |verts| && sepI < |verts| && ReflexAt(verts, sepI)
    ensures prevTestIndex == WalkEnd(verts, sepI, Prev(Prev(sepI, |verts|), |verts|), -1)
    ensures var n := |verts|;
      prevTestIndex == -1 <==> !BelowPi(verts[Prev(sepI, n)], verts[sepI], verts[Prev(Prev(sepI, n), n)])
    ensures var n := |verts|;
      prevTestIndex != -1 ==>
        0 <= prevTestIndex < n && 2 <= Gap(sepI, prevTestIndex, n) <= n - 2 &&
        BelowPi(verts[Prev(sepI, n)], verts[sepI], verts[prevTestIndex]) &&
        !BelowPi(verts[Prev(sepI, n)], verts[sepI], verts[Prev(prevTestIndex, n)])
  {
    var n := |verts|;
    var testIndex := Prev(Prev(sepI, n), n);
    prevTestIndex := -1;
    while BelowPi(verts[Prev(sepI, n)], verts[sepI], verts[testIndex])
      invariant 0 <= testIndex < n
      invariant 1 <= Gap(sepI, testIndex, n) <= n - 2
      invariant prevTestIndex == -1 ==> testIndex == Prev(Prev(sepI, n), n)
      invariant prevTestIndex != -1 ==>
        0 <= prevTestIndex < n && testIndex == Prev(prevTestIndex, n) &&
        2 <= Gap(sepI, prevTestIndex, n) <= n - 2 &&
        BelowPi(verts[Prev(sepI, n)], verts[sepI], verts[prevTestIndex]) &&
        BelowPi(verts[Prev(sepI, n)], verts[sepI], verts[Prev(Prev(sepI, n), n)])
      invariant WalkEnd(verts, sepI, testIndex, prevTestIndex) == WalkEnd(verts, sepI, Prev(Prev(sepI, n), n), -1)
      decreases Gap(sepI, testIndex, n)
    {
      if testIndex == Next(sepI, n) {
        SwappedCorner(verts[Prev(sepI, n)], verts[sepI], verts[testIndex]);
        assert false;
      }
      prevTestIndex := testIndex;
      testIndex := Prev(testIndex, n);
    }
  }
}
