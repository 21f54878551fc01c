/** `polyIntersect` of scripts/polygontools.ts: every edge of the first polygon is tested
    against every edge of the second; each strictly interior crossing becomes a node, and
    both boundaries are then cut at their crossings by `createEdgeSequences`.

    The specification side follows the source's loops: `Hits` lists the crossings in the
    order the nested loops meet them (edge `i` of the first polygon, then edge `j` of the
    second), and the k-th hit is node `k` of the arrangement. */
module Intersection {
  import opened Vectors
  import opened Results
  import opened Polygons
  import opened Lines
  import opened Arrangement

  /** A crossing found by the nested loops: the edge of each polygon, the point and the two
      coefficients of the `IntersectResult`. */
  datatype Hit = Hit(i: nat, j: nat, point: Vec, acoeff: real, bcoeff: real)

  /** `fsub(verts[next(i)], verts[i])`: the direction of edge `i`. */
  function EdgeDir(vs: seq<Vec>, i: nat): Vec
    requires i < |vs|
  {
    Sub(vs[Next(i, |vs|)], vs[i])
  }

  /** The `lineIntersect` call for edge `i` of `v1` and edge `j` of `v2`. */
  function EdgeTest(v1: seq<Vec>, v2: seq<Vec>, i: nat, j: nat): IntersectResult
    requires i < |v1| && j < |v2|
  {
    LineIntersect(v1[i], EdgeDir(v1, i), v2[j], EdgeDir(v2, j))
  }

  /** The test that makes a result a node: both coefficients strictly between 0 and 1. */
  predicate IsCut(r: IntersectResult) {
    r.result && r.acoeff.Some? && r.bcoeff.Some? &&
    0.0 < r.acoeff.value < 1.0 && 0.0 < r.bcoeff.value < 1.0
  }

  /** `h` records a cutting result of its two edges. */
  predicate HitOf(v1: seq<Vec>, v2: seq<Vec>, h: Hit) {
    h.i < |v1| && h.j < |v2| &&
    var r := EdgeTest(v1, v2, h.i, h.j);
    IsCut(r) && r.point == Some(h.point) &&
    r.acoeff == Some(h.acoeff) && r.bcoeff == Some(h.bcoeff)
  }

  /** The hits of edge `i` of `v1` with the first `m` edges of `v2`. */
  ghost function RowHits(v1: seq<Vec>, v2: seq<Vec>, i: nat, m: nat): (hs: seq<Hit>)
    requires i < |v1| && m <= |v2|
    ensures forall k :: 0 <= k < |hs| ==> hs[k].i == i && hs[k].j < m
  {
    if m == 0 then []
    else
      var r := EdgeTest(v1, v2, i, m - 1);
      RowHits(v1, v2, i, m - 1) +
        if IsCut(r) then [Hit(i, m - 1, r.point.value, r.acoeff.value, r.bcoeff.value)] else []
  }

  /** The hits of the first `e` edges of `v1` with all edges of `v2`, in loop order. */
  ghost function Hits(v1: seq<Vec>, v2: seq<Vec>, e: nat): (hs: seq<Hit>)
    requires e <= |v1|
    ensures forall k :: 0 <= k < |hs| ==> hs[k].i < e && hs[k].j < |v2|
  {
    if e == 0 then [] else Hits(v1, v2, e - 1) + RowHits(v1, v2, e - 1, |v2|)
  }

  /** The edge a hit lies on, in the first polygon or in the second. */
  function Side(h: Hit, first: bool): nat {
    if first then h.i else h.j
  }

  /** The list `polyIntersect` builds for edge `e` of one polygon: the hits on it, in the
      order they were found, each naming its node. Both lists carry the same result, with
      `acoeff` from the first polygon's edge. */
  ghost function CrossingsOn(hits: seq<Hit>, first: bool, e: nat): (cs: seq<Crossing>)
    ensures forall q :: 0 <= q < |cs| ==> cs[q].node < |hits|
  {
    if hits == [] then []
    else
      var k := |hits| - 1;
      CrossingsOn(hits[..k], first, e) +
        if Side(hits[k], first) == e then [Crossing(k, hits[k].acoeff, hits[k].bcoeff)] else []
  }

  /** `edges1` (first) or `edges2`: one list per edge of a polygon with `n` vertices. */
  ghost function EdgeLists(hits: seq<Hit>, first: bool, n: nat): (ls: seq<seq<Crossing>>)
    ensures |ls| == n && NodesIn(ls, |hits|)
  {
    seq(n, e requires 0 <= e < n => CrossingsOn(hits, first, e))
  }

  /** The nodes before any edge sequence is made: one per hit, at its point. */
  ghost function HitNodes(hits: seq<Hit>): (ns: seq<NodeData>)
    ensures |ns| == |hits|
  {
    seq(|hits|, k requires 0 <= k < |hits| => NodeData(hits[k].point, [], []))
  }

  /** The cuts met going around each polygon. */
  ghost function FirstOrder(v1: seq<Vec>, v2: seq<Vec>): seq<Cut> {
    Order(SortedLists(EdgeLists(Hits(v1, v2, |v1|), true, |v1|)), |v1|)
  }

  ghost function SecondOrder(v1: seq<Vec>, v2: seq<Vec>): seq<Cut> {
    Order(SortedLists(EdgeLists(Hits(v1, v2, |v1|), false, |v2|)), |v2|)
  }

  /** The edge sequences of both polygons, the first polygon's first. */
  ghost function ArrangedSequences(v1: seq<Vec>, v2: seq<Vec>): seq<EdgeSequence> {
    EdgeSequencesOf(v1, FirstOrder(v1, v2)) + EdgeSequencesOf(v2, SecondOrder(v1, v2))
  }

  /** The nodes with every edge sequence pushed to them. */
  ghost function ArrangedNodes(v1: seq<Vec>, v2: seq<Vec>): seq<NodeData> {
    Joined(HitNodes(Hits(v1, v2, |v1|)), FirstOrder(v1, v2), SecondOrder(v1, v2))
  }

  /** `polyIntersect(verts1, verts2)` up to the angular sort of each node's edge list. The
      nodes are the hits, in loop order; the first polygon's edge sequences come first, then
      the second's. When a non-empty polygon has no crossing at all, `createEdgeSequences`
      fails on it and so does the whole call. */
  method PolyIntersect(verts1: seq<Vec>, verts2: seq<Vec>) returns (r: Result<Arrangement>)
    ensures var o1, o2 := FirstOrder(verts1, verts2), SecondOrder(verts1, verts2);
      r.Err? <==> (verts1 != [] && o1 == []) || (verts2 != [] && o2 == [])
    ensures r.Ok? ==> fresh(r.value)
    ensures r.Ok? ==>
      r.value.sequences == ArrangedSequences(verts1, verts2) &&
      r.value.nodes == ArrangedNodes(verts1, verts2)
  {
    var arr, edges1, edges2 := FindCrossings(verts1, verts2);
    ghost var o1, o2 := FirstOrder(verts1, verts2), SecondOrder(verts1, verts2);
    ghost var nodes0 := arr.nodes;
    var ok1 := arr.CreateEdgeSequences(edges1, verts1);
    if !ok1 {
      return Err("createEdgeSequences: no crossing on the first polygon");
    }
    assert arr.sequences == EdgeSequencesOf(verts1, o1);
    assert arr.nodes == Apply(nodes0, AllPushes(o1, 0));
    var ok2 := arr.CreateEdgeSequences(edges2, verts2);
    if !ok2 {
      return Err("createEdgeSequences: no crossing on the second polygon");
    }
    r := Ok(arr);
  }

  /** The nested loops of `polyIntersect`: the nodes and the two maps of edge lists. */
  method FindCrossings(verts1: seq<Vec>, verts2: seq<Vec>)
    returns (arr: Arrangement, edges1: seq<seq<Crossing>>, edges2: seq<seq<Crossing>>)
    ensures fresh(arr)
    ensures var hs := Hits(verts1, verts2, |verts1|);
      arr.nodes == HitNodes(hs) && arr.sequences == [] &&
      edges1 == EdgeLists(hs, true, |verts1|) && edges2 == EdgeLists(hs, false, |verts2|)
  {
    arr := new Arrangement();
    edges1 := seq(|verts1|, _ => []);
    edges2 := seq(|verts2|, _ => []);
    ghost var H: seq<Hit> := [];
    NoLists(true, |verts1|);
    NoLists(false, |verts2|);
    for i := 0 to |verts1|
      invariant H == Hits(verts1, verts2, i)
      invariant arr.nodes == HitNodes(H) && arr.sequences == []
      invariant edges1 == EdgeLists(H, true, |verts1|) && edges2 == EdgeLists(H, false, |verts2|)
    {
      edges1, edges2, H := AddRow(arr, verts1, verts2, i, edges1, edges2, H);
    }
  }

  /** Before any hit, every edge has an empty list. */
  lemma NoLists(first: bool, n: nat)
    ensures EdgeLists([], first, n) == seq(n, _ => [])
  {
  }

  /** The inner loop of `polyIntersect` for edge `i` of `verts1`: every cutting result adds
      a node and is pushed to the lists of both its edges. */
  method AddRow(arr: Arrangement, verts1: seq<Vec>, verts2: seq<Vec>, i: nat,
                edges1: seq<seq<Crossing>>, edges2: seq<seq<Crossing>>, ghost H0: seq<Hit>)
    returns (e1: seq<seq<Crossing>>, e2: seq<seq<Crossing>>, ghost H: seq<Hit>)
    requires i < |verts1| && H0 == Hits(verts1, verts2, i)
    requires arr.nodes == HitNodes(H0) && arr.sequences == []
    requires edges1 == EdgeLists(H0, true, |verts1|) && edges2 == EdgeLists(H0, false, |verts2|)
    modifies arr
    ensures H == Hits(verts1, verts2, i + 1)
    ensures arr.nodes == HitNodes(H) && arr.sequences == []
    ensures e1 == EdgeLists(H, true, |verts1|) && e2 == EdgeLists(H, false, |verts2|)
  {
    e1, e2, H := edges1, edges2, H0;
    for j := 0 to |verts2|
      invariant H == H0 + RowHits(verts1, verts2, i, j)
      invariant arr.nodes == HitNodes(H) && arr.sequences == []
      invariant e1 == EdgeLists(H, true, |verts1|) && e2 == EdgeLists(H, false, |verts2|)
    {
      var intResult := LineIntersect(verts1[i], Sub(verts1[Next(i, |verts1|)], verts1[i]),
        verts2[j], Sub(verts2[Next(j, |verts2|)], verts2[j]));
      assert intResult == EdgeTest(verts1, verts2, i, j);
      if IsCut(intResult) {
        var h := Hit(i, j, intResult.point.value, intResult.acoeff.value, intResult.bcoeff.value);
        e1, e2 := AddHit(arr, h, e1, e2, H, |verts1|, |verts2|);
        H := H + [h];
      }
    }
  }

  /** One cutting result: a new node at its point, pushed to the lists of both edges. */
  method AddHit(arr: Arrangement, h: Hit, edges1: seq<seq<Crossing>>, edges2: seq<seq<Crossing>>,
                ghost H: seq<Hit>, ghost n1: nat, ghost n2: nat)
    returns (e1: seq<seq<Crossing>>, e2: seq<seq<Crossing>>)
    requires h.i < n1 && h.j < n2
    requires arr.nodes == HitNodes(H) && arr.sequences == []
    requires edges1 == EdgeLists(H, true, n1) && edges2 == EdgeLists(H, false, n2)
    modifies arr
    ensures arr.nodes == HitNodes(H + [h]) && arr.sequences == []
    ensures e1 == EdgeLists(H + [h], true, n1) && e2 == EdgeLists(H + [h], false, n2)
  {
    var id := arr.AddNode(h.point);
    var c := Crossing(id, h.acoeff, h.bcoeff);
    EdgeListsStep(H, h, true, n1);
    EdgeListsStep(H, h, false, n2);
    HitNodesStep(H, h);
    e1 := edges1[h.i := edges1[h.i] + [c]];
    e2 := edges2[h.j := edges2[h.j] + [c]];
  }

  lemma EdgeListsStep(hits: seq<Hit>, h: Hit, first: bool, n: nat)
    requires Side(h, first) < n
    ensures var ls := EdgeLists(hits, first, n); var e := Side(h, first);
      EdgeLists(hits + [h], first, n) ==
        ls[e := ls[e] + [Crossing(|hits|, h.acoeff, h.bcoeff)]]
  {
    var ls, ls' := EdgeLists(hits, first, n), EdgeLists(hits + [h], first, n);
    assert (hits + [h])[..|hits|] == hits;
    var s := Side(h, first);
    var want := ls[s := ls[s] + [Crossing(|hits|, h.acoeff, h.bcoeff)]];
    forall e | 0 <= e < n
      ensures ls'[e] == want[e]
    {
      assert ls'[e] == CrossingsOn(hits, first, e) +
        if s == e then [Crossing(|hits|, h.acoeff, h.bcoeff)] else [];
    }
  }

  lemma HitNodesStep(hits: seq<Hit>, h: Hit)
    ensures HitNodes(hits + [h]) == HitNodes(hits) + [NodeData(h.point, [], [])]
  {
  }

  // ---------------------------------------------------------------------------------------
  // The hits are exactly the cutting edge pairs, in loop order

  /** `h` comes before `g` in the order of the nested loops. */
  predicate LoopBefore(h: Hit, g: Hit) {
    h.i < g.i || (h.i == g.i && h.j < g.j)
  }

  /** The hits are listed in the order the nested loops meet them. */
  predicate InLoopOrder(hs: seq<Hit>) {
    forall k, l :: 0 <= k < l < |hs| ==> LoopBefore(hs[k], hs[l])
  }

  lemma InLoopOrderJoin(p: seq<Hit>, q: seq<Hit>)
    requires InLoopOrder(p) && InLoopOrder(q)
    requires forall k, l :: 0 <= k < |p| && 0 <= l < |q| ==> LoopBefore(p[k], q[l])
    ensures InLoopOrder(p + q)
  {
    var hs := p + q;
    forall k, l | 0 <= k < l < |hs|
      ensures LoopBefore(hs[k], hs[l])
    {
      if l < |p| {
        assert hs[k] == p[k] && hs[l] == p[l];
      } else if k < |p| {
        assert hs[k] == p[k] && hs[l] == q[l - |p|];
      } else {
        assert hs[k] == q[k - |p|] && hs[l] == q[l - |p|];
      }
    }
  }

  /** Every hit of a row records a cutting result of its two edges. */
  lemma {:induction false} RowHitsCut(v1: seq<Vec>, v2: seq<Vec>, i: nat, m: nat)
    requires i < |v1| && m <= |v2|
    ensures forall k :: 0 <= k < |RowHits(v1, v2, i, m)| ==> HitOf(v1, v2, RowHits(v1, v2, i, m)[k])
  {
    if m > 0 {
      RowHitsCut(v1, v2, i, m - 1);
      var p := RowHits(v1, v2, i, m - 1);
      forall k | 0 <= k < |RowHits(v1, v2, i, m)|
        ensures HitOf(v1, v2, RowHits(v1, v2, i, m)[k])
      {
        if k < |p| {
          assert RowHits(v1, v2, i, m)[k] == p[k];
        }
      }
    }
  }

  lemma {:induction false} HitsCut(v1: seq<Vec>, v2: seq<Vec>, e: nat)
    requires e <= |v1|
    ensures forall k :: 0 <= k < |Hits(v1, v2, e)| ==> HitOf(v1, v2, Hits(v1, v2, e)[k])
  {
    if e > 0 {
      HitsCut(v1, v2, e - 1);
      RowHitsCut(v1, v2, e - 1, |v2|);
      var p, q := Hits(v1, v2, e - 1), RowHits(v1, v2, e - 1, |v2|);
      assert Hits(v1, v2, e) == p + q;
      forall k | 0 <= k < |p + q|
        ensures HitOf(v1, v2, (p + q)[k])
      {
        if k < |p| {
          assert (p + q)[k] == p[k];
        } else {
          assert (p + q)[k] == q[k - |p|];
        }
      }
    }
  }

  lemma {:induction false} RowHitsOrdered(v1: seq<Vec>, v2: seq<Vec>, i: nat, m: nat)
    requires i < |v1| && m <= |v2|
    ensures InLoopOrder(RowHits(v1, v2, i, m))
  {
    if m > 0 {
      RowHitsOrdered(v1, v2, i, m - 1);
      var p := RowHits(v1, v2, i, m - 1);
      var r := EdgeTest(v1, v2, i, m - 1);
      var q: seq<Hit> := if IsCut(r) then [Hit(i, m - 1, r.point.value, r.acoeff.value, r.bcoeff.value)] else [];
      InLoopOrderJoin(p, q);
    }
  }

  lemma {:induction false} HitsOrdered(v1: seq<Vec>, v2: seq<Vec>, e: nat)
    requires e <= |v1|
    ensures InLoopOrder(Hits(v1, v2, e))
  {
    if e > 0 {
      HitsOrdered(v1, v2, e - 1);
      RowHitsOrdered(v1, v2, e - 1, |v2|);
      InLoopOrderJoin(Hits(v1, v2, e - 1), RowHits(v1, v2, e - 1, |v2|));
    }
  }

  lemma {:induction false} RowHitsFind(v1: seq<Vec>, v2: seq<Vec>, i: nat, j: nat, m: nat) returns (k: nat)
    requires i < |v1| && j < m <= |v2| && IsCut(EdgeTest(v1, v2, i, j))
    ensures k < |RowHits(v1, v2, i, m)| && RowHits(v1, v2, i, m)[k].j == j
    ensures RowHits(v1, v2, i, m)[k].i == i
  {
    var p := RowHits(v1, v2, i, m - 1);
    if j < m - 1 {
      k := RowHitsFind(v1, v2, i, j, m - 1);
      assert RowHits(v1, v2, i, m)[k] == p[k];
    } else {
      k := |p|;
    }
  }

  lemma {:induction false} HitsFind(v1: seq<Vec>, v2: seq<Vec>, i: nat, j: nat, e: nat) returns (k: nat)
    requires i < e <= |v1| && j < |v2| && IsCut(EdgeTest(v1, v2, i, j))
    ensures k < |Hits(v1, v2, e)| && Hits(v1, v2, e)[k].i == i && Hits(v1, v2, e)[k].j == j
  {
    if i < e - 1 {
      k := HitsFind(v1, v2, i, j, e - 1);
      HitsKeep(v1, v2, e, k);
    } else {
      k := HitsRow(v1, v2, i, j);
    }
  }

  /** A hit among the first `e - 1` rows keeps its place once row `e - 1` is added. */
  lemma HitsKeep(v1: seq<Vec>, v2: seq<Vec>, e: nat, k: nat)
    requires 0 < e <= |v1| && k < |Hits(v1, v2, e - 1)|
    ensures k < |Hits(v1, v2, e)| && Hits(v1, v2, e)[k] == Hits(v1, v2, e - 1)[k]
  {
  }

  /** A hit of edge `i` is found in row `i`, the last row of `Hits(v1, v2, i + 1)`. */
  lemma HitsRow(v1: seq<Vec>, v2: seq<Vec>, i: nat, j: nat) returns (k: nat)
    requires i < |v1| && j < |v2| && IsCut(EdgeTest(v1, v2, i, j))
    ensures k < |Hits(v1, v2, i + 1)| && Hits(v1, v2, i + 1)[k].i == i && Hits(v1, v2, i + 1)[k].j == j
  {
    var p, q := Hits(v1, v2, i), RowHits(v1, v2, i, |v2|);
    var kq := RowHitsFind(v1, v2, i, j, |v2|);
    assert Hits(v1, v2, i + 1) == p + q;
    k := |p| + kq;
    assert Hits(v1, v2, i + 1)[k] == q[kq];
  }

  /** `polyIntersect` makes one node per edge pair whose result cuts both edges strictly
      inside, each with that result's point and coefficients, in the order of its nested
      loops (edge `i` of the first polygon, then edge `j` of the second). */
  lemma HitsExactly(v1: seq<Vec>, v2: seq<Vec>)
    ensures var hs := Hits(v1, v2, |v1|);
      (forall k :: 0 <= k < |hs| ==> HitOf(v1, v2, hs[k])) && InLoopOrder(hs) &&
      (forall i, j :: 0 <= i < |v1| && 0 <= j < |v2| && IsCut(EdgeTest(v1, v2, i, j)) ==>
        exists k :: 0 <= k < |hs| && hs[k].i == i && hs[k].j == j)
  {
    HitsOrdered(v1, v2, |v1|);
    HitsCut(v1, v2, |v1|);
    forall i, j | 0 <= i < |v1| && 0 <= j < |v2| && IsCut(EdgeTest(v1, v2, i, j))
      ensures var hs := Hits(v1, v2, |v1|);
        exists k :: 0 <= k < |hs| && hs[k].i == i && hs[k].j == j
    {
      var k := HitsFind(v1, v2, i, j, |v1|);
    }
  }

  /** Each node lies on both of its edges, strictly inside them, and each coefficient walks
      its edge from the start vertex to the node. */
  lemma HitOnBothEdges(v1: seq<Vec>, v2: seq<Vec>, h: Hit)
    requires HitOf(v1, v2, h)
    ensures Add(v1[h.i], Mul(EdgeDir(v1, h.i), h.acoeff)) == h.point ||
      EdgeTest(v1, v2, h.i, h.j).colinear
    ensures !EdgeTest(v1, v2, h.i, h.j).colinear ==>
      Add(v2[h.j], Mul(EdgeDir(v2, h.j), h.bcoeff)) == h.point
    ensures 0.0 < h.acoeff < 1.0 && 0.0 < h.bcoeff < 1.0
  {
    var a, aDir, b, bDir := v1[h.i], EdgeDir(v1, h.i), v2[h.j], EdgeDir(v2, h.j);
    if !LineIntersect(a, aDir, b, bDir).colinear {
      CrossingPoint(a, aDir, b, bDir);
    }
  }

  // ---------------------------------------------------------------------------------------
  // Each polygon meets every crossing once

  /** The number of hits on the edges below `e` of one polygon. */
  ghost function CountBelow(hits: seq<Hit>, first: bool, e: nat): nat {
    if hits == [] then 0
    else CountBelow(hits[..|hits| - 1], first, e) + if Side(hits[|hits| - 1], first) < e then 1 else 0
  }

  lemma {:induction false} CountStep(hits: seq<Hit>, first: bool, e: nat)
    requires e > 0
    ensures CountBelow(hits, first, e) == CountBelow(hits, first, e - 1) + |CrossingsOn(hits, first, e - 1)|
    decreases |hits|
  {
    if hits != [] {
      CountStep(hits[..|hits| - 1], first, e);
    }
  }

  lemma {:induction false} CountNone(hits: seq<Hit>, first: bool)
    ensures CountBelow(hits, first, 0) == 0
    decreases |hits|
  {
    if hits != [] {
      CountNone(hits[..|hits| - 1], first);
    }
  }

  lemma {:induction false} CountAll(hits: seq<Hit>, first: bool, n: nat)
    requires forall k :: 0 <= k < |hits| ==> Side(hits[k], first) < n
    ensures CountBelow(hits, first, n) == |hits|
    decreases |hits|
  {
    if hits != [] {
      var k := |hits| - 1;
      assert Side(hits[k], first) < n;
      CountAll(hits[..k], first, n);
    }
  }

  lemma EdgeListAt(hits: seq<Hit>, first: bool, n: nat, e: nat)
    requires e < n
    ensures EdgeLists(hits, first, n)[e] == CrossingsOn(hits, first, e)
  {
  }

  lemma {:induction false} ListSizesCount(hits: seq<Hit>, first: bool, n: nat, e: nat)
    requires e <= n
    ensures ListSizes(EdgeLists(hits, first, n), e) == CountBelow(hits, first, e)
  {
    if e > 0 {
      ListSizesCount(hits, first, n, e - 1);
      CountStep(hits, first, e);
      EdgeListAt(hits, first, n, e - 1);
    } else {
      CountNone(hits, first);
    }
  }

  /** Going around either polygon meets every node once, so both polygons are cut as many
      times as there are nodes, and `polyIntersect` fails exactly when there is no crossing
      and some polygon has a vertex. */
  lemma CutCounts(v1: seq<Vec>, v2: seq<Vec>)
    ensures |FirstOrder(v1, v2)| == |Hits(v1, v2, |v1|)| == |SecondOrder(v1, v2)|
    ensures (v1 != [] && FirstOrder(v1, v2) == []) || (v2 != [] && SecondOrder(v1, v2) == []) <==>
      Hits(v1, v2, |v1|) == [] && (v1 != [] || v2 != [])
  {
    var hs := Hits(v1, v2, |v1|);
    var l1, l2 := EdgeLists(hs, true, |v1|), EdgeLists(hs, false, |v2|);
    OrderSize(SortedLists(l1), |v1|);
    OrderSize(SortedLists(l2), |v2|);
    SameSizes(SortedLists(l1), l1, |v1|);
    SameSizes(SortedLists(l2), l2, |v2|);
    ListSizesCount(hs, true, |v1|, |v1|);
    ListSizesCount(hs, false, |v2|, |v2|);
    CountAll(hs, true, |v1|);
    CountAll(hs, false, |v2|);
  }

  // ---------------------------------------------------------------------------------------
  // The arrangement is well linked

  /** Every index in an edge list names a sequence; every sequence ends at a node and is
      listed there. */
  lemma ArrangementLinked(v1: seq<Vec>, v2: seq<Vec>)
    ensures Linked(ArrangedNodes(v1, v2), ArrangedSequences(v1, v2))
    ensures Registered(ArrangedNodes(v1, v2), ArrangedSequences(v1, v2))
  {
    CutsNamed(v1, v2);
    JoinedLinked(v1, v2, FirstOrder(v1, v2), SecondOrder(v1, v2), HitNodes(Hits(v1, v2, |v1|)));
  }

  /** Each polygon's `u`-th edge sequence is listed at the node of its `u`-th cut, where it
      starts. */
  lemma SequencesStart(v1: seq<Vec>, v2: seq<Vec>)
    ensures forall u :: 0 <= u < |FirstOrder(v1, v2)| ==>
      FirstOrder(v1, v2)[u].node < |ArrangedNodes(v1, v2)| &&
      u in ArrangedNodes(v1, v2)[FirstOrder(v1, v2)[u].node].edges
    ensures forall u :: 0 <= u < |SecondOrder(v1, v2)| ==>
      SecondOrder(v1, v2)[u].node < |ArrangedNodes(v1, v2)| &&
      |FirstOrder(v1, v2)| + u in ArrangedNodes(v1, v2)[SecondOrder(v1, v2)[u].node].edges
  {
    CutsNamed(v1, v2);
    JoinedStarts(FirstOrder(v1, v2), SecondOrder(v1, v2), HitNodes(Hits(v1, v2, |v1|)));
  }

  /** No edge sequence of the arrangement starts out visited. */
  lemma ArrangedFresh(v1: seq<Vec>, v2: seq<Vec>)
    ensures forall s :: 0 <= s < |ArrangedSequences(v1, v2)| ==> !ArrangedSequences(v1, v2)[s].visited
  {
    BothFresh(v1, v2, FirstOrder(v1, v2), SecondOrder(v1, v2));
  }

  /** The cuts of both polygons name nodes. */
  lemma CutsNamed(v1: seq<Vec>, v2: seq<Vec>)
    ensures CutNodesIn(FirstOrder(v1, v2), |Hits(v1, v2, |v1|)|)
    ensures CutNodesIn(SecondOrder(v1, v2), |Hits(v1, v2, |v1|)|)
  {
    var hs := Hits(v1, v2, |v1|);
    var l1, l2 := EdgeLists(hs, true, |v1|), EdgeLists(hs, false, |v2|);
    SortedListsNodes(l1, |hs|);
    SortedListsNodes(l2, |hs|);
    OrderNodes(SortedLists(l1), |v1|, |hs|);
    OrderNodes(SortedLists(l2), |v2|, |hs|);
  }
}
