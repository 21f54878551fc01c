/** `polyIntersect` and its inner `createEdgeSequences` of scripts/polygontools.ts: the
    crossings of two polygon boundaries become nodes, and each boundary is cut at its
    crossings into edge sequences running from one node to the next.

    The source links `NodeData` and `EdgeSequence` objects by reference; here both live in
    an arena, the class `Arrangement`, and refer to each other by their index in it. */
module Arrangement {
  import opened Vectors
  import opened Results
  import opened Polygons
  import opened Lines

  /** One crossing kept in an edge's list: the index of its node and the two coefficients
      of the `IntersectResult` it came from. */
  datatype Crossing = Crossing(node: nat, acoeff: real, bcoeff: real)

  /** `NodeData`: a crossing point, the edge sequences that start or end there (indices
      into `Arrangement.sequences`) and the loops `union` starts there. */
  datatype NodeData = NodeData(position: Vec, edges: seq<nat>, nodeLoops: seq<seq<Vec>>)

  /** `EdgeSequence`: the polygon vertices passed between two nodes and the node it ends
      at (`None` while the source leaves `nextNode` undefined). */
  datatype EdgeSequence = EdgeSequence(edgePoints: seq<Vec>, nextNode: Option<nat>, visited: bool)

  class Arrangement {
    var nodes: seq<NodeData>
    var sequences: seq<EdgeSequence>

    constructor ()
      ensures nodes == [] && sequences == []
    {
      nodes := [];
      sequences := [];
    }

    /** `new NodeData` with `position` set, added to `intersectPoints`; its index is its
        identity. */
    method AddNode(position: Vec) returns (id: nat)
      modifies this
      ensures id == |old(nodes)|
      ensures nodes == old(nodes) + [NodeData(position, [], [])] && sequences == old(sequences)
    {
      id := |nodes|;
      nodes := nodes + [NodeData(position, [], [])];
    }

    /** `createEdgeSequences(edgeIntResults, polyVertices)`: visits the edges in index order,
        sorts each edge's crossings by `acoeff`, and starts a new edge sequence at every
        crossing. The sequence open at a crossing ends at it and collects the vertices
        passed since the previous crossing; the last one wraps around the polygon to the
        first crossing. Every sequence is pushed to the edge lists of the node it starts
        at and of the node it ends at. With no crossing at all on a non-empty polygon the
        source dereferences the undefined `currentEdgeSequence`; the model then returns
        false and changes nothing. */
    method CreateEdgeSequences(edgeIntResults: seq<seq<Crossing>>, polyVertices: seq<Vec>)
      returns (ok: bool)
      requires |edgeIntResults| == |polyVertices|
      requires NodesIn(edgeIntResults, |nodes|)
      modifies this
      ensures var o := Order(SortedLists(edgeIntResults), |polyVertices|);
        (!ok <==> polyVertices != [] && o == []) &&
        (!ok ==> nodes == old(nodes) && sequences == old(sequences)) &&
        (ok ==> sequences == old(sequences) + EdgeSequencesOf(polyVertices, o)) &&
        (ok ==> nodes == Apply(old(nodes), AllPushes(o, |old(sequences)|)))
    {
      var n := |polyVertices|;
      ghost var S := SortedLists(edgeIntResults);
      SortedListsNodes(edgeIntResults, |nodes|);
      if n == 0 {
        return true;
      }
      var current, firstNode, lastEdgeIndex, firstCutEdgeIndex;
      ghost var O;
      current, firstNode, lastEdgeIndex, firstCutEdgeIndex, O := CutEdges(edgeIntResults, polyVertices, S);
      if current == -1 {
        BuiltNothing(polyVertices, lastEdgeIndex, old(sequences), old(nodes), sequences, nodes, firstNode);
        return false;
      }

      FillLast(polyVertices, lastEdgeIndex, firstCutEdgeIndex, current, firstNode, O,
        old(sequences), old(nodes));
      return true;
    }

    /** createEdgeSequences' loop over the edges: each edge with crossings has them sorted
        by `acoeff` and is cut at each of them by `CutEdge`. */
    method CutEdges(edgeIntResults: seq<seq<Crossing>>, polyVertices: seq<Vec>,
                    ghost S: seq<seq<Crossing>>)
      returns (current: int, firstNode: int, lastEdgeIndex: int, firstCutEdgeIndex: int,
               ghost O: seq<Cut>)
      requires |edgeIntResults| == |polyVertices| == |S|
      requires forall e :: 0 <= e < |S| ==> S[e] == SortByA(edgeIntResults[e])
      requires NodesIn(S, |nodes|)
      modifies this
      ensures Scanned(polyVertices, S, |polyVertices|, O, lastEdgeIndex, firstCutEdgeIndex,
                      old(sequences), old(nodes), sequences, nodes, current, firstNode)
    {
      ghost var seqs0, nodes0 := sequences, nodes;
      current, lastEdgeIndex, firstCutEdgeIndex, firstNode := -1, -1, -1, -1;
      O := [];
      assert seqs0 + OpenSeqs(polyVertices, [], -1) == seqs0;
      for edgeIndex := 0 to |polyVertices|
        invariant |S| == |polyVertices| && NodesIn(S, |nodes0|)
        invariant Scanned(polyVertices, S, edgeIndex, O, lastEdgeIndex, firstCutEdgeIndex,
                          seqs0, nodes0, sequences, nodes, current, firstNode)
      {
        current, firstNode, lastEdgeIndex, firstCutEdgeIndex, O :=
          VisitEdge(edgeIndex, edgeIntResults[edgeIndex], polyVertices, current, firstNode,
            lastEdgeIndex, firstCutEdgeIndex, S, O, seqs0, nodes0);
      }
    }

    /** One pass of createEdgeSequences' loop: an edge without crossings is skipped; the
        crossings of any other edge are sorted by `acoeff` and the edge is cut at each. */
    method VisitEdge(edgeIndex: nat, edgeIntersections: seq<Crossing>, polyVertices: seq<Vec>,
                     current0: int, firstNode0: int, lastEdgeIndex0: int, firstCutEdgeIndex0: int,
                     ghost S: seq<seq<Crossing>>, ghost O0: seq<Cut>,
                     ghost seqs0: seq<EdgeSequence>, ghost nodes0: seq<NodeData>)
      returns (current: int, firstNode: int, lastEdgeIndex: int, firstCutEdgeIndex: int,
               ghost O: seq<Cut>)
      requires edgeIndex < |polyVertices| && edgeIndex < |S|
      requires S[edgeIndex] == SortByA(edgeIntersections) && NodesIn(S, |nodes0|)
      requires Scanned(polyVertices, S, edgeIndex, O0, lastEdgeIndex0, firstCutEdgeIndex0,
                       seqs0, nodes0, sequences, nodes, current0, firstNode0)
      modifies this
      ensures Scanned(polyVertices, S, edgeIndex + 1, O, lastEdgeIndex, firstCutEdgeIndex,
                      seqs0, nodes0, sequences, nodes, current, firstNode)
    {
      current, firstNode, lastEdgeIndex, firstCutEdgeIndex := current0, firstNode0, lastEdgeIndex0, firstCutEdgeIndex0;
      O := O0;
      OrderStep(S, edgeIndex);
      if |edgeIntersections| == 0 {
        assert S[edgeIndex] == [];
        assert O + EdgeCuts(edgeIndex, S[edgeIndex]) == O;
        return;
      }
      if firstCutEdgeIndex == -1 {
        firstCutEdgeIndex := edgeIndex;
      }
      var sorted := SortByA(edgeIntersections);
      current, firstNode := CutEdge(edgeIndex, sorted, lastEdgeIndex, current, firstNode,
        polyVertices, O, seqs0, nodes0);
      O := O + EdgeCuts(edgeIndex, sorted);
      lastEdgeIndex := edgeIndex;
    }

    /** Fills the very last edge sequence, wrapping around to the first cut edge, ends it
        at the first node and pushes it there. */
    method FillLast(polyVertices: seq<Vec>, lastEdgeIndex: int, firstCutEdgeIndex: int,
                    current: int, firstNode: int, ghost O: seq<Cut>,
                    ghost seqs0: seq<EdgeSequence>, ghost nodes0: seq<NodeData>)
      requires O != [] && lastEdgeIndex == O[|O| - 1].edge && firstCutEdgeIndex == O[0].edge
      requires Built(polyVertices, O, lastEdgeIndex, seqs0, nodes0, sequences, nodes, current, firstNode)
      modifies this
      ensures sequences == seqs0 + EdgeSequencesOf(polyVertices, O)
      ensures nodes == Apply(nodes0, AllPushes(O, |seqs0|))
    {
      var n := |polyVertices|;
      CloseStep(polyVertices, O, seqs0, nodes0, sequences, nodes, current, firstNode);
      AppendRun(current, polyVertices, Next(lastEdgeIndex, n), firstCutEdgeIndex);
      sequences := sequences[current := sequences[current].(
        edgePoints := sequences[current].edgePoints + [polyVertices[firstCutEdgeIndex]])];
      sequences := sequences[current := sequences[current].(nextNode := Some(firstNode))];
      nodes := nodes[firstNode := nodes[firstNode].(edges := nodes[firstNode].edges + [current])];
    }

    /** The body of createEdgeSequences' loop for an edge with crossings, already sorted:
        the open sequence collects the vertices passed since the last cut edge, then each
        crossing in turn ends it and opens the next. */
    method CutEdge(edgeIndex: nat, crossings: seq<Crossing>, lastEdgeIndex: int,
                   current0: int, firstNode0: int, polyVertices: seq<Vec>, ghost O0: seq<Cut>,
                   ghost seqs0: seq<EdgeSequence>, ghost nodes0: seq<NodeData>)
      returns (current: int, firstNode: int)
      requires edgeIndex < |polyVertices|
      requires forall q :: 0 <= q < |crossings| ==> crossings[q].node < |nodes0|
      requires O0 != [] ==> lastEdgeIndex == O0[|O0| - 1].edge && lastEdgeIndex < edgeIndex
      requires Built(polyVertices, O0, lastEdgeIndex, seqs0, nodes0, sequences, nodes, current0, firstNode0)
      modifies this
      ensures EdgeOrdered(O0 + EdgeCuts(edgeIndex, crossings), |polyVertices|)
      ensures Built(polyVertices, O0 + EdgeCuts(edgeIndex, crossings), edgeIndex, seqs0, nodes0, sequences, nodes, current, firstNode)
    {
      current, firstNode := current0, firstNode0;
      if current != -1 {
        ghost var s0 := sequences;
        AppendPoints(current, Passed(polyVertices, lastEdgeIndex, edgeIndex));
        ExtendStep(polyVertices, O0, edgeIndex, seqs0, nodes0, s0, nodes, current, firstNode);
      }
      ghost var O := O0;
      for m := 0 to |crossings|
        invariant O == O0 + EdgeCuts(edgeIndex, crossings[..m])
        invariant O != [] ==> O[|O| - 1].edge <= edgeIndex
        invariant Built(polyVertices, O, edgeIndex, seqs0, nodes0, sequences, nodes, current, firstNode)
      {
        EdgeCutsStep(O0, edgeIndex, crossings, m);
        current, firstNode := Cross(crossings[m].node, current, firstNode, polyVertices, O,
          edgeIndex, seqs0, nodes0);
        O := O + [Cut(edgeIndex, crossings[m].node)];
      }
      assert crossings[..|crossings|] == crossings;
    }

    /** One pass of the inner loop over an edge's crossings, on the state built so far:
        `firstNode` is set at the first crossing met, then `CutAt` ends the open sequence at
        `myNode` and starts the next. */
    method Cross(myNode: nat, current0: int, firstNode0: int, ghost vs: seq<Vec>,
                 ghost O: seq<Cut>, ghost edgeIndex: nat, ghost seqs0: seq<EdgeSequence>,
                 ghost nodes0: seq<NodeData>)
      returns (current: int, firstNode: int)
      requires edgeIndex < |vs| && myNode < |nodes0|
      requires Built(vs, O, edgeIndex, seqs0, nodes0, sequences, nodes, current0, firstNode0)
      modifies this
      ensures Built(vs, O + [Cut(edgeIndex, myNode)], edgeIndex, seqs0, nodes0, sequences, nodes,
        current, firstNode)
    {
      firstNode := if firstNode0 == -1 then myNode else firstNode0;
      CutStep(vs, O, edgeIndex, seqs0, nodes0, sequences, nodes, current0, firstNode0, myNode);
      current := CutAt(myNode, current0);
    }

    /** The open sequence, if any, ends at `myNode` and is pushed there, and a new, empty
        sequence starts at `myNode`. */
    method CutAt(myNode: nat, current: int) returns (next: int)
      requires myNode < |nodes| && -1 <= current < |sequences|
      modifies this
      ensures next == |old(sequences)|
      ensures sequences == (if current == -1 then old(sequences)
        else old(sequences)[current := old(sequences)[current].(nextNode := Some(myNode))]) +
        [EdgeSequence([], None, false)]
      ensures nodes == Apply(old(nodes),
        (if current == -1 then [] else [(myNode, current)]) + [(myNode, next)])
    {
      if current != -1 {
        sequences := sequences[current := sequences[current].(nextNode := Some(myNode))];
        nodes := nodes[myNode := nodes[myNode].(edges := nodes[myNode].edges + [current])];
      }
      sequences := sequences + [EdgeSequence([], None, false)];
      next := |sequences| - 1;
      nodes := nodes[myNode := nodes[myNode].(edges := nodes[myNode].edges + [next])];
      if current != -1 {
        ApplyStep(old(nodes), [(myNode, current)], (myNode, next));
        ApplyStep(old(nodes), [], (myNode, current));
      } else {
        ApplyStep(old(nodes), [], (myNode, next));
      }
    }

    /** `for (...) currentEdgeSequence.edgePoints.push(polyVertices[i])` over a range. */
    method AppendPoints(current: nat, points: seq<Vec>)
      requires current < |sequences|
      modifies this
      ensures nodes == old(nodes)
      ensures sequences == old(sequences)[current := old(sequences)[current].(
        edgePoints := old(sequences)[current].edgePoints + points)]
    {
      ghost var s0 := sequences;
      assert s0[current].edgePoints + points[..0] == s0[current].edgePoints;
      assert s0[current].(edgePoints := s0[current].edgePoints) == s0[current];
      assert s0 == s0[current := s0[current]];
      for k := 0 to |points|
        invariant nodes == old(nodes)
        invariant sequences == s0[current := s0[current].(edgePoints := s0[current].edgePoints + points[..k])]
      {
        assert s0[current].edgePoints + points[..k + 1] ==
          (s0[current].edgePoints + points[..k]) + [points[k]];
        sequences := sequences[current := sequences[current].(
          edgePoints := sequences[current].edgePoints + [points[k]])];
      }
      assert points[..|points|] == points;
    }

    /** The closing loop `for (i = next(lastEdgeIndex); i != firstCutEdgeIndex; i = next(i))`:
        the vertices from `start` forward around the polygon, up to but not including
        `stop`. */
    method AppendRun(current: nat, vs: seq<Vec>, start: nat, stop: nat)
      requires current < |sequences| && start < |vs| && stop < |vs|
      modifies this
      ensures nodes == old(nodes)
      ensures sequences == old(sequences)[current := old(sequences)[current].(
        edgePoints := old(sequences)[current].edgePoints + Run(vs, start, Gap(start, stop, |vs|)))]
    {
      var n := |vs|;
      var i := start;
      ghost var s0 := sequences;
      assert s0[current].edgePoints + Run(vs, start, 0) == s0[current].edgePoints;
      assert s0[current].(edgePoints := s0[current].edgePoints) == s0[current];
      assert s0 == s0[current := s0[current]];
      while i != stop
        invariant 0 <= i < n
        invariant Gap(start, i, n) <= Gap(start, stop, n)
        invariant nodes == old(nodes)
        invariant sequences == s0[current := s0[current].(edgePoints := s0[current].edgePoints + Run(vs, start, Gap(start, i, n)))]
        decreases Gap(i, stop, n)
      {
        RunStep(vs, start, i);
        assert s0[current].edgePoints + Run(vs, start, Gap(start, i, n) + 1) ==
          (s0[current].edgePoints + Run(vs, start, Gap(start, i, n))) + [vs[i]];
        sequences := sequences[current := sequences[current].(
          edgePoints := sequences[current].edgePoints + [vs[i]])];
        i := Next(i, n);
      }
    }
  }

  /** Every crossing in the lists names a node below `count`. */
  predicate NodesIn(lists: seq<seq<Crossing>>, count: nat) {
    forall e, q :: 0 <= e < |lists| && 0 <= q < |lists[e]| ==> lists[e][q].node < count
  }

  // ---------------------------------------------------------------------------------------
  // Sorting an edge's crossings by `acoeff`

  predicate SortedByA(s: seq<Crossing>) {
    forall p, q :: 0 <= p < q < |s| ==> s[p].acoeff <= s[q].acoeff
  }

  /** Places `c` after every element of the sorted `s` whose `acoeff` is not larger. */
  function InsertByA(s: seq<Crossing>, c: Crossing): (r: seq<Crossing>)
    ensures |r| == |s| + 1
    ensures multiset(r) == multiset(s) + multiset{c}
  {
    if s == [] || s[|s| - 1].acoeff <= c.acoeff then
      s + [c]
    else
      assert s == s[..|s| - 1] + [s[|s| - 1]];
      InsertByA(s[..|s| - 1], c) + [s[|s| - 1]]
  }

  lemma {:induction false} InsertByASorted(s: seq<Crossing>, c: Crossing)
    requires SortedByA(s)
    ensures SortedByA(InsertByA(s, c))
    decreases |s|
  {
    if !(s == [] || s[|s| - 1].acoeff <= c.acoeff) {
      var init, last := s[..|s| - 1], s[|s| - 1];
      InsertByASorted(init, c);
      var r' := InsertByA(init, c);
      forall p | 0 <= p < |r'|
        ensures r'[p].acoeff <= last.acoeff
      {
        assert r'[p] in multiset(r');
        assert r'[p] in multiset(init) || r'[p] == c;
      }
      var r := r' + [last];
      forall p, q | 0 <= p < q < |r|
        ensures r[p].acoeff <= r[q].acoeff
      {
        if q == |r'| {
          assert r[p] == r'[p];
        } else {
          assert r[p] == r'[p] && r[q] == r'[q];
        }
      }
    }
  }

  /** `edgeIntersections.sort((a, b) => a.acoeff - b.acoeff)`: the same crossings, in
      ascending `acoeff`. */
  function SortByA(cs: seq<Crossing>): (r: seq<Crossing>)
    ensures |r| == |cs|
    ensures multiset(r) == multiset(cs)
    ensures SortedByA(r)
  {
    if cs == [] then []
    else
      assert cs == cs[..|cs| - 1] + [cs[|cs| - 1]];
      InsertByASorted(SortByA(cs[..|cs| - 1]), cs[|cs| - 1]);
      InsertByA(SortByA(cs[..|cs| - 1]), cs[|cs| - 1])
  }

  ghost function SortedLists(lists: seq<seq<Crossing>>): (s: seq<seq<Crossing>>)
    ensures |s| == |lists|
    ensures forall e :: 0 <= e < |lists| ==> s[e] == SortByA(lists[e])
  {
    seq(|lists|, e requires 0 <= e < |lists| => SortByA(lists[e]))
  }

  lemma SortedListsNodes(lists: seq<seq<Crossing>>, count: nat)
    requires NodesIn(lists, count)
    ensures NodesIn(SortedLists(lists), count)
  {
    var s: seq<seq<Crossing>> := SortedLists(lists);
    forall e: int, q: int | 0 <= e < |s| && 0 <= q < |s[e]|
      ensures s[e][q].node < count
    {
      assert s[e][q] in multiset(lists[e]);
    }
  }

  // ---------------------------------------------------------------------------------------
  // The order in which one polygon's boundary meets its crossings

  /** A crossing seen from one polygon: the edge it lies on and its node. */
  datatype Cut = Cut(edge: nat, node: nat)

  ghost predicate EdgeOrdered(o: seq<Cut>, n: nat) {
    (forall t :: 0 <= t < |o| ==> o[t].edge < n) &&
    (forall t, u :: 0 <= t < u < |o| ==> o[t].edge <= o[u].edge)
  }

  ghost predicate CutNodesIn(o: seq<Cut>, count: nat) {
    forall t :: 0 <= t < |o| ==> o[t].node < count
  }

  ghost function EdgeCuts(e: nat, cs: seq<Crossing>): (o: seq<Cut>)
    ensures |o| == |cs|
    ensures forall q :: 0 <= q < |cs| ==> o[q] == Cut(e, cs[q].node)
  {
    seq(|cs|, q requires 0 <= q < |cs| => Cut(e, cs[q].node))
  }

  lemma EdgeCutsStep(o: seq<Cut>, e: nat, cs: seq<Crossing>, m: nat)
    requires m < |cs|
    ensures o + EdgeCuts(e, cs[..m + 1]) == (o + EdgeCuts(e, cs[..m])) + [Cut(e, cs[m].node)]
  {
    assert EdgeCuts(e, cs[..m + 1]) == EdgeCuts(e, cs[..m]) + [Cut(e, cs[m].node)];
  }

  /** The crossings of edges `0 .. e - 1`, edge by edge, each edge's in its sorted order. */
  ghost function Order(sorted: seq<seq<Crossing>>, e: nat): (o: seq<Cut>)
    requires e <= |sorted|
    ensures EdgeOrdered(o, e)
  {
    if e == 0 then []
    else
      var p := Order(sorted, e - 1);
      var o := p + EdgeCuts(e - 1, sorted[e - 1]);
      assert forall t :: |p| <= t < |o| ==> o[t].edge == e - 1;
      o
  }

  /** The number of crossings on the edges below `e`. */
  function ListSizes(lists: seq<seq<Crossing>>, e: nat): nat
    requires e <= |lists|
  {
    if e == 0 then 0 else ListSizes(lists, e - 1) + |lists[e - 1]|
  }

  /** Passing the edges below `e` meets each of their crossings once. */
  lemma {:induction false} OrderSize(sorted: seq<seq<Crossing>>, e: nat)
    requires e <= |sorted|
    ensures |Order(sorted, e)| == ListSizes(sorted, e)
  {
    if e > 0 {
      OrderSize(sorted, e - 1);
      assert |Order(sorted, e)| == |Order(sorted, e - 1)| + |EdgeCuts(e - 1, sorted[e - 1])|;
    }
  }

  /** Lists of the same sizes hold the same number of crossings. */
  lemma {:induction false} SameSizes(a: seq<seq<Crossing>>, b: seq<seq<Crossing>>, e: nat)
    requires e <= |a| == |b|
    requires forall k :: 0 <= k < |a| ==> |a[k]| == |b[k]|
    ensures ListSizes(a, e) == ListSizes(b, e)
  {
    if e > 0 {
      SameSizes(a, b, e - 1);
    }
  }

  lemma OrderStep(sorted: seq<seq<Crossing>>, e: nat)
    requires e < |sorted|
    ensures Order(sorted, e + 1) == Order(sorted, e) + EdgeCuts(e, sorted[e])
  {
  }

  // ---------------------------------------------------------------------------------------
  // The edge sequences and node edge lists createEdgeSequences builds

  /** The vertices passed going forward along the boundary from a point on edge `a` to a
      point on the later edge `b`: the end vertices of edges `a` up to `b - 1`. */
  function Passed(vs: seq<Vec>, a: int, b: int): (r: seq<Vec>)
    requires 0 <= a <= b < |vs|
    ensures |r| == b - a
  {
    vs[a + 1 .. b + 1]
  }

  lemma PassedJoin(vs: seq<Vec>, a: int, b: int, c: int)
    requires 0 <= a <= b <= c < |vs|
    ensures Passed(vs, a, b) + Passed(vs, b, c) == Passed(vs, a, c)
    ensures Passed(vs, a, a) == []
  {
  }

  /** The sequences already closed while the cuts `o` were met: the one started at cut `t`
      ends at cut `t + 1` and holds the vertices passed between them. */
  ghost function Finished(vs: seq<Vec>, o: seq<Cut>): (f: seq<EdgeSequence>)
    requires EdgeOrdered(o, |vs|)
    ensures |f| == if o == [] then 0 else |o| - 1
  {
    if |o| <= 1 then []
    else
      var k := |o| - 1;
      assert o[k - 1].edge <= o[k].edge < |vs|;
      Finished(vs, o[..k]) + [EdgeSequence(Passed(vs, o[k - 1].edge, o[k].edge), Some(o[k].node), false)]
  }

  lemma EdgeOrderedPrefix(o: seq<Cut>, c: Cut, n: nat)
    requires EdgeOrdered(o + [c], n)
    ensures EdgeOrdered(o, n)
    ensures c.edge < n && (o != [] ==> o[|o| - 1].edge <= c.edge)
  {
    var o' := o + [c];
    assert forall t :: 0 <= t < |o| ==> o'[t] == o[t];
    assert o'[|o|] == c;
  }

  /** The state while createEdgeSequences runs over one polygon, whose cuts `o` have been
      met and whose boundary has been followed up to edge `reached`: `seqs` and `ns` hold
      what meeting `o` adds to `seqs0` and `nodes0`, `current` is the index of the open
      sequence and `firstNode` the node of the first cut (-1 while there is none). */
  ghost predicate Built(vs: seq<Vec>, o: seq<Cut>, reached: int, seqs0: seq<EdgeSequence>,
                        nodes0: seq<NodeData>, seqs: seq<EdgeSequence>, ns: seq<NodeData>,
                        current: int, firstNode: int)
  {
    EdgeOrdered(o, |vs|) && CutNodesIn(o, |nodes0|) && |ns| == |nodes0| &&
    (o != [] ==> o[|o| - 1].edge <= reached < |vs|) &&
    current == (if o == [] then -1 else |seqs0| + |o| - 1) &&
    firstNode == (if o == [] then -1 else o[0].node) &&
    seqs == seqs0 + OpenSeqs(vs, o, reached) &&
    ns == Apply(nodes0, Pushes(o, |seqs0|))
  }

  /** The state after createEdgeSequences' loop has visited the first `k` edges: the
      cuts met are `Order(S, k)`, the arrays are built from them, and the last and first
      cut edges are remembered. */
  ghost predicate Scanned(vs: seq<Vec>, S: seq<seq<Crossing>>, k: nat, o: seq<Cut>,
                          lastEdgeIndex: int, firstCutEdgeIndex: int,
                          seqs0: seq<EdgeSequence>, nodes0: seq<NodeData>,
                          seqs: seq<EdgeSequence>, ns: seq<NodeData>, current: int, firstNode: int)
  {
    k <= |S| && o == Order(S, k) &&
    Built(vs, o, lastEdgeIndex, seqs0, nodes0, seqs, ns, current, firstNode) &&
    (o == [] ==> firstCutEdgeIndex == -1) &&
    (o != [] ==> lastEdgeIndex == o[|o| - 1].edge && firstCutEdgeIndex == o[0].edge)
  }

  /** Before the first cut nothing has been added. */
  lemma BuiltNothing(vs: seq<Vec>, reached: int, seqs0: seq<EdgeSequence>, nodes0: seq<NodeData>,
                     seqs: seq<EdgeSequence>, ns: seq<NodeData>, firstNode: int)
    requires Built(vs, [], reached, seqs0, nodes0, seqs, ns, -1, firstNode)
    ensures seqs == seqs0 && ns == nodes0
  {
    assert seqs0 + [] == seqs0;
  }

  /** Following the boundary on to edge `e` keeps the state built, with the vertices passed
      added to the open sequence. */
  lemma ExtendStep(vs: seq<Vec>, o: seq<Cut>, e: int, seqs0: seq<EdgeSequence>,
                   nodes0: seq<NodeData>, seqs: seq<EdgeSequence>, ns: seq<NodeData>,
                   current: int, firstNode: int)
    requires o != [] && Built(vs, o, o[|o| - 1].edge, seqs0, nodes0, seqs, ns, current, firstNode)
    requires o[|o| - 1].edge <= e < |vs|
    ensures 0 <= current < |seqs|
    ensures Built(vs, o, e, seqs0, nodes0,
      seqs[current := seqs[current].(edgePoints := seqs[current].edgePoints + Passed(vs, o[|o| - 1].edge, e))],
      ns, current, firstNode)
  {
    var last := o[|o| - 1].edge;
    OpenSeqsExtend(vs, o, e);
    var a := OpenSeqs(vs, o, last);
    var l := a[|a| - 1];
    assert (seqs0 + a)[current := l.(edgePoints := l.edgePoints + Passed(vs, last, e))] ==
      seqs0 + a[|a| - 1 := l.(edgePoints := l.edgePoints + Passed(vs, last, e))];
  }

  /** Meeting a crossing on edge `e` keeps the state built: the open sequence ends at the
      crossing's node, is pushed there, and a new sequence starts there. */
  lemma CutStep(vs: seq<Vec>, o: seq<Cut>, e: nat, seqs0: seq<EdgeSequence>,
                nodes0: seq<NodeData>, seqs: seq<EdgeSequence>, ns: seq<NodeData>,
                current: int, firstNode: int, myNode: nat)
    requires Built(vs, o, e, seqs0, nodes0, seqs, ns, current, firstNode)
    requires e < |vs| && myNode < |nodes0|
    ensures -1 <= current < |seqs|
    ensures Built(vs, o + [Cut(e, myNode)], e, seqs0, nodes0,
      (if current == -1 then seqs else seqs[current := seqs[current].(nextNode := Some(myNode))]) +
        [EdgeSequence([], None, false)],
      Apply(ns, (if current == -1 then [] else [(myNode, current)]) + [(myNode, |seqs|)]),
      |seqs|, if firstNode == -1 then myNode else firstNode)
  {
    if o == [] {
      CutFirst(vs, e, seqs0, nodes0, seqs, ns, myNode);
    } else {
      CutNext(vs, o, e, seqs0, nodes0, seqs, ns, current, firstNode, myNode);
    }
  }

  lemma CutFirst(vs: seq<Vec>, e: nat, seqs0: seq<EdgeSequence>, nodes0: seq<NodeData>,
                 seqs: seq<EdgeSequence>, ns: seq<NodeData>, myNode: nat)
    requires Built(vs, [], e, seqs0, nodes0, seqs, ns, -1, -1)
    requires e < |vs| && myNode < |nodes0|
    ensures Built(vs, [Cut(e, myNode)], e, seqs0, nodes0, seqs + [EdgeSequence([], None, false)],
      Apply(ns, [] + [(myNode, |seqs|)]), |seqs|, myNode)
  {
    var c := Cut(e, myNode);
    EdgeOrderedStep([], c, |vs|);
    CutStepSeqs(vs, [], e, seqs0, seqs, -1, myNode);
    CutStepNodes([], e, |seqs0|, nodes0, ns, -1, myNode);
    CutNodesStep([], c, |nodes0|);
  }

  lemma CutNext(vs: seq<Vec>, o: seq<Cut>, e: nat, seqs0: seq<EdgeSequence>,
                nodes0: seq<NodeData>, seqs: seq<EdgeSequence>, ns: seq<NodeData>,
                current: int, firstNode: int, myNode: nat)
    requires o != [] && Built(vs, o, e, seqs0, nodes0, seqs, ns, current, firstNode)
    requires e < |vs| && myNode < |nodes0|
    ensures 0 <= current < |seqs|
    ensures Built(vs, o + [Cut(e, myNode)], e, seqs0, nodes0,
      seqs[current := seqs[current].(nextNode := Some(myNode))] + [EdgeSequence([], None, false)],
      Apply(ns, [(myNode, current)] + [(myNode, |seqs|)]), |seqs|, firstNode)
  {
    var c := Cut(e, myNode);
    var o' := o + [c];
    var seqs' := seqs[current := seqs[current].(nextNode := Some(myNode))] + [EdgeSequence([], None, false)];
    var ns' := Apply(ns, [(myNode, current)] + [(myNode, |seqs|)]);
    EdgeOrderedStep(o, c, |vs|);
    CutStepSeqs(vs, o, e, seqs0, seqs, current, myNode);
    CutStepNodes(o, e, |seqs0|, nodes0, ns, current, myNode);
    CutNodesStep(o, c, |nodes0|);
    BuiltOf(vs, o', e, seqs0, nodes0, seqs', ns', |seqs|, firstNode);
  }

  /** `Built`, from its parts. */
  lemma BuiltOf(vs: seq<Vec>, o: seq<Cut>, reached: int, seqs0: seq<EdgeSequence>,
                nodes0: seq<NodeData>, seqs: seq<EdgeSequence>, ns: seq<NodeData>,
                current: int, firstNode: int)
    requires EdgeOrdered(o, |vs|) && CutNodesIn(o, |nodes0|) && o != []
    requires o[|o| - 1].edge <= reached < |vs|
    requires seqs == seqs0 + OpenSeqs(vs, o, reached) && ns == Apply(nodes0, Pushes(o, |seqs0|))
    requires |ns| == |nodes0| && current == |seqs0| + |o| - 1 && firstNode == o[0].node
    ensures Built(vs, o, reached, seqs0, nodes0, seqs, ns, current, firstNode)
  {
  }

  lemma CutStepSeqs(vs: seq<Vec>, o: seq<Cut>, e: nat, seqs0: seq<EdgeSequence>,
                    seqs: seq<EdgeSequence>, current: int, myNode: nat)
    requires EdgeOrdered(o + [Cut(e, myNode)], |vs|)
    requires current == (if o == [] then -1 else |seqs0| + |o| - 1)
    requires EdgeOrdered(o, |vs|) && (o != [] ==> o[|o| - 1].edge <= e < |vs|)
    requires seqs == seqs0 + OpenSeqs(vs, o, e)
    ensures -1 <= current < |seqs|
    ensures (if current == -1 then seqs else seqs[current := seqs[current].(nextNode := Some(myNode))]) +
      [EdgeSequence([], None, false)] == seqs0 + OpenSeqs(vs, o + [Cut(e, myNode)], e)
  {
    OpenSeqsStep(vs, o, Cut(e, myNode));
    if o != [] {
      var a := OpenSeqs(vs, o, e);
      assert (seqs0 + a)[current := a[|a| - 1].(nextNode := Some(myNode))] ==
        seqs0 + a[|a| - 1 := a[|a| - 1].(nextNode := Some(myNode))];
    }
  }

  lemma CutStepNodes(o: seq<Cut>, e: nat, base: nat, nodes0: seq<NodeData>, ns: seq<NodeData>,
                     current: int, myNode: nat)
    requires current == (if o == [] then -1 else base + |o| - 1)
    requires ns == Apply(nodes0, Pushes(o, base))
    ensures Apply(ns, (if current == -1 then [] else [(myNode, current)]) + [(myNode, base + |o|)]) ==
      Apply(nodes0, Pushes(o + [Cut(e, myNode)], base))
  {
    PushesStep(o, Cut(e, myNode), base);
    var x: seq<(nat, nat)> := (if current == -1 then [] else [(myNode, current)]) + [(myNode, base + |o|)];
    ApplyConcat(nodes0, Pushes(o, base), x);
    assert Pushes(o, base) + x == Pushes(o + [Cut(e, myNode)], base);
  }

  lemma CutNodesStep(o: seq<Cut>, c: Cut, count: nat)
    requires CutNodesIn(o, count) && c.node < count
    ensures CutNodesIn(o + [c], count)
  {
    assert forall t :: 0 <= t < |o| ==> (o + [c])[t] == o[t];
  }

  lemma EdgeOrderedStep(o: seq<Cut>, c: Cut, n: nat)
    requires EdgeOrdered(o, n) && c.edge < n && (o != [] ==> o[|o| - 1].edge <= c.edge)
    ensures EdgeOrdered(o + [c], n)
    ensures (o + [c])[|o|] == c && (o != [] ==> (o + [c])[0] == o[0])
  {
    var o' := o + [c];
    forall t, u | 0 <= t < u < |o'|
      ensures o'[t].edge <= o'[u].edge
    {
      if u == |o| && t < |o| - 1 {
        assert o[t].edge <= o[|o| - 1].edge;
      }
    }
  }

  lemma FinishedStep(vs: seq<Vec>, o: seq<Cut>, c: Cut)
    requires o != [] && EdgeOrdered(o + [c], |vs|)
    ensures EdgeOrdered(o, |vs|)
    ensures o[|o| - 1].edge <= c.edge < |vs|
    ensures Finished(vs, o + [c]) ==
      Finished(vs, o) + [EdgeSequence(Passed(vs, o[|o| - 1].edge, c.edge), Some(c.node), false)]
  {
    EdgeOrderedPrefix(o, c, |vs|);
    var o' := o + [c];
    var k := |o|;
    assert o'[..k] == o;
    assert o'[k - 1] == o[k - 1];
    assert o'[k] == c;
  }

  /** The sequences met so far, once the cuts `o` have been passed and the boundary has
      been followed up to edge `reached`: the finished ones, then the one still open after
      the last cut, without an end node yet. */
  ghost function OpenSeqs(vs: seq<Vec>, o: seq<Cut>, reached: int): (r: seq<EdgeSequence>)
    requires EdgeOrdered(o, |vs|) && (o != [] ==> o[|o| - 1].edge <= reached < |vs|)
    ensures |r| == |o|
  {
    if o == [] then []
    else Finished(vs, o) + [EdgeSequence(Passed(vs, o[|o| - 1].edge, reached), None, false)]
  }

  /** Following the boundary on to edge `reached` adds the vertices passed to the open
      sequence. */
  lemma OpenSeqsExtend(vs: seq<Vec>, o: seq<Cut>, reached: int)
    requires EdgeOrdered(o, |vs|) && o != [] && o[|o| - 1].edge <= reached < |vs|
    ensures var last := o[|o| - 1].edge;
      var a := OpenSeqs(vs, o, last); var l := a[|a| - 1];
      a[|a| - 1 := l.(edgePoints := l.edgePoints + Passed(vs, last, reached))] ==
        OpenSeqs(vs, o, reached)
  {
    var last := o[|o| - 1].edge;
    PassedJoin(vs, last, last, reached);
  }

  /** Meeting the cut `c` ends the open sequence at `c`'s node and opens an empty one. */
  lemma OpenSeqsStep(vs: seq<Vec>, o: seq<Cut>, c: Cut)
    requires EdgeOrdered(o + [c], |vs|)
    ensures EdgeOrdered(o, |vs|) && c.edge < |vs| && (o != [] ==> o[|o| - 1].edge <= c.edge)
    ensures OpenSeqs(vs, o + [c], c.edge) ==
      (if o == [] then [] else
        var a := OpenSeqs(vs, o, c.edge);
        a[|a| - 1 := a[|a| - 1].(nextNode := Some(c.node))]) +
      [EdgeSequence([], None, false)]
  {
    EdgeOrderedPrefix(o, c, |vs|);
    PassedJoin(vs, c.edge, c.edge, c.edge);
    var o' := o + [c];
    assert o'[|o|] == c;
    if o != [] {
      FinishedStep(vs, o, c);
    } else {
      assert Finished(vs, o') == [];
    }
  }

  /** The vertices of the sequence that wraps around: from the vertex after the last cut
      edge, around the polygon, up to and including the first cut edge's start vertex. */
  function Closing(vs: seq<Vec>, last: nat, first: nat): (r: seq<Vec>)
    requires last < |vs| && first < |vs|
    ensures |r| == Gap(Next(last, |vs|), first, |vs|) + 1
  {
    Run(vs, Next(last, |vs|), Gap(Next(last, |vs|), first, |vs|) + 1)
  }

  /** All sequences createEdgeSequences adds for the cuts `o`. */
  ghost function EdgeSequencesOf(vs: seq<Vec>, o: seq<Cut>): (r: seq<EdgeSequence>)
    requires EdgeOrdered(o, |vs|)
    ensures |r| == |o|
  {
    if o == [] then []
    else
      Finished(vs, o) +
        [EdgeSequence(Closing(vs, o[|o| - 1].edge, o[0].edge), Some(o[0].node), false)]
  }

  /** The (node, sequence) pairs pushed while the cuts `o` are met, in push order: at each
      cut, the sequence open so far ends there and the new one starts there. */
  ghost function Pushes(o: seq<Cut>, base: nat): seq<(nat, nat)>
  {
    if o == [] then []
    else
      var k := |o| - 1;
      Pushes(o[..k], base) + (if k > 0 then [(o[k].node, base + k - 1)] else []) +
        [(o[k].node, base + k)]
  }

  /** The pushes including the last one, of the closing sequence to the first node. */
  ghost function AllPushes(o: seq<Cut>, base: nat): seq<(nat, nat)>
  {
    if o == [] then [] else Pushes(o, base) + [(o[0].node, base + |o| - 1)]
  }

  lemma PushesStep(o: seq<Cut>, c: Cut, base: nat)
    ensures Pushes(o + [c], base) == Pushes(o, base) +
      (if o != [] then [(c.node, base + |o| - 1)] else []) + [(c.node, base + |o|)]
  {
    assert (o + [c])[..|o|] == o;
  }

  /** The node list after appending each pushed sequence to its node's edge list. */
  ghost function Apply(ns: seq<NodeData>, p: seq<(nat, nat)>): (r: seq<NodeData>)
    ensures |r| == |ns|
    ensures forall x :: 0 <= x < |ns| ==>
      r[x].position == ns[x].position && r[x].nodeLoops == ns[x].nodeLoops
  {
    if p == [] then ns
    else
      var a := Apply(ns, p[..|p| - 1]);
      var q := p[|p| - 1];
      if q.0 < |a| then a[q.0 := a[q.0].(edges := a[q.0].edges + [q.1])] else a
  }

  lemma ApplyStep(ns: seq<NodeData>, p: seq<(nat, nat)>, q: (nat, nat))
    requires q.0 < |ns|
    ensures var a := Apply(ns, p);
      Apply(ns, p + [q]) == a[q.0 := a[q.0].(edges := a[q.0].edges + [q.1])]
  {
    assert (p + [q])[..|p|] == p;
  }

  lemma {:induction false} ApplyConcat(ns: seq<NodeData>, p: seq<(nat, nat)>, q: seq<(nat, nat)>)
    ensures Apply(ns, p + q) == Apply(Apply(ns, p), q)
    decreases |q|
  {
    if q == [] {
      assert p + q == p;
    } else {
      ApplyConcat(ns, p, q[..|q| - 1]);
      assert (p + q)[..|p + q| - 1] == p + q[..|q| - 1];
    }
  }

  /** Filling the open sequence with the vertices up to the first cut edge, ending it at
      the first node and pushing it there completes what createEdgeSequences adds. */
  lemma CloseStep(vs: seq<Vec>, o: seq<Cut>, seqs0: seq<EdgeSequence>, nodes0: seq<NodeData>,
                  seqs: seq<EdgeSequence>, ns: seq<NodeData>, current: int, firstNode: int)
    requires o != [] && Built(vs, o, o[|o| - 1].edge, seqs0, nodes0, seqs, ns, current, firstNode)
    ensures 0 <= current < |seqs| && 0 <= firstNode < |ns|
    ensures var n, first := |vs|, o[0].edge;
      var start := Next(o[|o| - 1].edge, n);
      var s1 := seqs[current := seqs[current].(
        edgePoints := seqs[current].edgePoints + Run(vs, start, Gap(start, first, n)))];
      var s2 := s1[current := s1[current].(edgePoints := s1[current].edgePoints + [vs[first]])];
      s2[current := s2[current].(nextNode := Some(firstNode))] == seqs0 + EdgeSequencesOf(vs, o)
    ensures ns[firstNode := ns[firstNode].(edges := ns[firstNode].edges + [current])] ==
      Apply(nodes0, AllPushes(o, |seqs0|))
  {
    var n, first, last := |vs|, o[0].edge, o[|o| - 1].edge;
    var start := Next(last, n);
    var a := OpenSeqs(vs, o, last);
    PassedJoin(vs, last, last, last);
    RunStep(vs, start, first);
    var r := Run(vs, start, Gap(start, first, n));
    var l := EdgeSequence(r + [vs[first]], Some(o[0].node), false);
    assert a[|a| - 1 := l] == EdgeSequencesOf(vs, o);
    assert seqs[current] == a[|a| - 1] == EdgeSequence([], None, false);
    var s1 := seqs[current := seqs[current].(edgePoints := seqs[current].edgePoints + r)];
    assert seqs[current].edgePoints + r == r;
    assert s1 == seqs[current := EdgeSequence(r, None, false)];
    var s2 := s1[current := s1[current].(edgePoints := s1[current].edgePoints + [vs[first]])];
    assert s2 == seqs[current := EdgeSequence(r + [vs[first]], None, false)];
    assert s2[current := s2[current].(nextNode := Some(firstNode))] == seqs[current := l];
    assert (seqs0 + a)[current := l] == seqs0 + a[|a| - 1 := l];
    ApplyStep(nodes0, Pushes(o, |seqs0|), (firstNode, current));
  }

  lemma RunStep(vs: seq<Vec>, start: int, i: int)
    requires 0 <= start < |vs| && 0 <= i < |vs|
    requires Gap(start, i, |vs|) + 1 <= |vs|
    ensures Run(vs, start, Gap(start, i, |vs|)) + [vs[i]] == Run(vs, start, Gap(start, i, |vs|) + 1)
  {
  }

  // ---------------------------------------------------------------------------------------
  // What the edge sequences of one polygon amount to

  /** The vertices of a run of sequences, one after the other. */
  ghost function AllPoints(ss: seq<EdgeSequence>): seq<Vec> {
    if ss == [] then [] else AllPoints(ss[..|ss| - 1]) + ss[|ss| - 1].edgePoints
  }

  lemma AllPointsStep(ss: seq<EdgeSequence>, s: EdgeSequence)
    ensures AllPoints(ss + [s]) == AllPoints(ss) + s.edgePoints
  {
    assert (ss + [s])[..|ss|] == ss;
  }

  lemma {:induction false} FinishedPoints(vs: seq<Vec>, o: seq<Cut>)
    requires EdgeOrdered(o, |vs|) && o != []
    ensures AllPoints(Finished(vs, o)) == Passed(vs, o[0].edge, o[|o| - 1].edge)
    decreases |o|
  {
    var k := |o| - 1;
    if k == 0 {
      PassedJoin(vs, o[0].edge, o[0].edge, o[0].edge);
    } else {
      assert o == o[..k] + [o[k]];
      EdgeOrderedPrefix(o[..k], o[k], |vs|);
      FinishedPoints(vs, o[..k]);
      var x := EdgeSequence(Passed(vs, o[k - 1].edge, o[k].edge), Some(o[k].node), false);
      AllPointsStep(Finished(vs, o[..k]), x);
      PassedJoin(vs, o[0].edge, o[k - 1].edge, o[k].edge);
    }
  }

  /** Every vertex of the polygon lies in exactly one of its edge sequences: read one after
      the other, they list the whole boundary once, starting after the first cut edge. */
  lemma CoverBoundary(vs: seq<Vec>, o: seq<Cut>)
    requires EdgeOrdered(o, |vs|) && o != []
    ensures AllPoints(EdgeSequencesOf(vs, o)) == Run(vs, Next(o[0].edge, |vs|), |vs|)
  {
    var n, f, l := |vs|, o[0].edge, o[|o| - 1].edge;
    assert f <= l;
    var last := EdgeSequence(Closing(vs, l, f), Some(o[0].node), false);
    FinishedPoints(vs, o);
    AllPointsStep(Finished(vs, o), last);
    PassedThenClosing(vs, f, l);
  }

  /** The vertices passed from the first cut edge to the last, then the closing run, go
      once around the polygon. */
  lemma PassedThenClosing(vs: seq<Vec>, f: nat, l: nat)
    requires f <= l < |vs|
    ensures Passed(vs, f, l) + Closing(vs, l, f) == Run(vs, Next(f, |vs|), |vs|)
  {
    var n := |vs|;
    var a, c := Passed(vs, f, l), Closing(vs, l, f);
    var r := Run(vs, Next(f, n), n);
    assert |a + c| == n;
    forall p | 0 <= p < n
      ensures (a + c)[p] == r[p]
    {
      if p < l - f {
        assert (a + c)[p] == a[p] == vs[f + 1 + p];
      } else {
        var q := p - (l - f);
        assert (a + c)[p] == c[q];
        if l < n - 1 {
          assert c[q] == vs[if l + 1 + q < n then l + 1 + q else l + 1 + q - n];
        } else {
          assert c[q] == vs[q];
        }
      }
    }
  }

  // ---------------------------------------------------------------------------------------
  // How the sequences are linked to the nodes

  /** Every index in a node's edge list names a sequence, and every sequence ends at a
      node. */
  ghost predicate Linked(ns: seq<NodeData>, seqs: seq<EdgeSequence>) {
    (forall x, k :: 0 <= x < |ns| && 0 <= k < |ns[x].edges| ==> ns[x].edges[k] < |seqs|) &&
    (forall s :: 0 <= s < |seqs| ==> seqs[s].nextNode.Some? && seqs[s].nextNode.value < |ns|)
  }

  /** Every sequence is listed at the node it ends at. */
  ghost predicate Registered(ns: seq<NodeData>, seqs: seq<EdgeSequence>)
    requires Linked(ns, seqs)
  {
    forall s :: 0 <= s < |seqs| ==> s in ns[seqs[s].nextNode.value].edges
  }

  /** Every edge sequence starts out unvisited. */
  lemma {:induction false} SequencesFresh(vs: seq<Vec>, o: seq<Cut>)
    requires EdgeOrdered(o, |vs|)
    ensures forall s :: 0 <= s < |EdgeSequencesOf(vs, o)| ==> !EdgeSequencesOf(vs, o)[s].visited
  {
    if o != [] {
      FinishedFresh(vs, o);
    }
  }

  /** The same for the sequences of two polygons put together. */
  lemma BothFresh(v1: seq<Vec>, v2: seq<Vec>, o1: seq<Cut>, o2: seq<Cut>)
    requires EdgeOrdered(o1, |v1|) && EdgeOrdered(o2, |v2|)
    ensures forall s :: 0 <= s < |EdgeSequencesOf(v1, o1) + EdgeSequencesOf(v2, o2)| ==>
      !(EdgeSequencesOf(v1, o1) + EdgeSequencesOf(v2, o2))[s].visited
  {
    SequencesFresh(v1, o1);
    SequencesFresh(v2, o2);
  }

  lemma {:induction false} FinishedFresh(vs: seq<Vec>, o: seq<Cut>)
    requires EdgeOrdered(o, |vs|)
    ensures forall s :: 0 <= s < |Finished(vs, o)| ==> !Finished(vs, o)[s].visited
    decreases |o|
  {
    if |o| > 1 {
      var k := |o| - 1;
      EdgeOrderedPrefix(o[..k], o[k], |vs|);
      assert o[..k] + [o[k]] == o;
      FinishedFresh(vs, o[..k]);
    }
  }

  /** Sequence `u` of a polygon cut at `o` ends at the next cut's node, the last one at the
      first cut's node. */
  lemma {:induction false} SequenceEnds(vs: seq<Vec>, o: seq<Cut>, u: nat)
    requires EdgeOrdered(o, |vs|) && u < |o|
    ensures EdgeSequencesOf(vs, o)[u].nextNode ==
      Some(o[if u + 1 < |o| then u + 1 else 0].node)
  {
    if u + 1 < |o| {
      FinishedEnd(vs, o, u);
    }
  }

  lemma {:induction false} FinishedEnd(vs: seq<Vec>, o: seq<Cut>, u: nat)
    requires EdgeOrdered(o, |vs|) && u + 1 < |o|
    ensures Finished(vs, o)[u].nextNode == Some(o[u + 1].node)
    decreases |o|
  {
    var k := |o| - 1;
    assert o == o[..k] + [o[k]];
    EdgeOrderedPrefix(o[..k], o[k], |vs|);
    if u + 1 < k {
      FinishedEnd(vs, o[..k], u);
    }
  }

  /** A pair pushed to an existing node ends up in its edge list, and nothing is ever
      removed from one. */
  lemma {:induction false} ApplyHas(ns: seq<NodeData>, p: seq<(nat, nat)>, t: nat)
    requires t < |p| && p[t].0 < |ns|
    ensures p[t].1 in Apply(ns, p)[p[t].0].edges
    decreases |p|
  {
    var k := |p| - 1;
    if t < k {
      ApplyHas(ns, p[..k], t);
      ApplyKeeps(Apply(ns, p[..k]), [p[k]], p[t].0, p[t].1);
      assert p[..k] + [p[k]] == p;
      ApplyConcat(ns, p[..k], [p[k]]);
    }
  }

  lemma {:induction false} ApplyKeeps(ns: seq<NodeData>, p: seq<(nat, nat)>, x: nat, s: nat)
    requires x < |ns| && s in ns[x].edges
    ensures s in Apply(ns, p)[x].edges
    decreases |p|
  {
    if p != [] {
      ApplyKeeps(ns, p[..|p| - 1], x, s);
    }
  }

  /** The edge lists only ever receive pushed sequences. */
  lemma {:induction false} ApplyBound(ns: seq<NodeData>, p: seq<(nat, nat)>, bound: nat)
    requires forall x, j :: 0 <= x < |ns| && 0 <= j < |ns[x].edges| ==> ns[x].edges[j] < bound
    requires forall t :: 0 <= t < |p| ==> p[t].1 < bound
    ensures forall x, j :: 0 <= x < |ns| && 0 <= j < |Apply(ns, p)[x].edges| ==>
      Apply(ns, p)[x].edges[j] < bound
    decreases |p|
  {
    if p != [] {
      var last := |p| - 1;
      ApplyBound(ns, p[..last], bound);
      var a, q := Apply(ns, p[..last]), p[last];
      if q.0 < |a| {
        var a' := a[q.0 := a[q.0].(edges := a[q.0].edges + [q.1])];
        assert Apply(ns, p) == a';
        forall x, j | 0 <= x < |a'| && 0 <= j < |a'[x].edges|
          ensures a'[x].edges[j] < bound
        {
          if x != q.0 || j < |a[x].edges| {
            assert a'[x].edges[j] == a[x].edges[j];
          }
        }
      }
    }
  }

  /** Each cut pushes the sequence it ends and the one it starts to its node. */
  lemma {:induction false} PushesHas(o: seq<Cut>, base: nat, u: nat)
    requires u < |o|
    ensures (o[u].node, base + u) in Pushes(o, base)
    ensures u + 1 < |o| ==> (o[u + 1].node, base + u) in Pushes(o, base)
    decreases |o|
  {
    var k := |o| - 1;
    assert o == o[..k] + [o[k]];
    PushesStep(o[..k], o[k], base);
    if u < k {
      PushesHas(o[..k], base, u);
    }
  }

  lemma {:induction false} PushesBound(o: seq<Cut>, base: nat)
    ensures forall q :: q in Pushes(o, base) ==> base <= q.1 < base + |o|
    decreases |o|
  {
    if o != [] {
      var k := |o| - 1;
      assert o == o[..k] + [o[k]];
      PushesStep(o[..k], o[k], base);
      PushesBound(o[..k], base);
    }
  }

  /** Every cut names a node the crossing lists name. */
  lemma {:induction false} OrderNodes(sorted: seq<seq<Crossing>>, e: nat, count: nat)
    requires e <= |sorted| && NodesIn(sorted, count)
    ensures CutNodesIn(Order(sorted, e), count)
  {
    if e > 0 {
      OrderNodes(sorted, e - 1, count);
      var p, c := Order(sorted, e - 1), EdgeCuts(e - 1, sorted[e - 1]);
      var o: seq<Cut> := p + c;
      assert Order(sorted, e) == o;
      forall t | 0 <= t < |o|
        ensures o[t].node < count
      {
        if t >= |p| {
          assert o[t] == Cut(e - 1, sorted[e - 1][t - |p|].node);
        }
      }
    }
  }

  lemma AllPushesBound(o: seq<Cut>, base: nat)
    ensures forall t :: 0 <= t < |AllPushes(o, base)| ==> AllPushes(o, base)[t].1 < base + |o|
  {
    PushesBound(o, base);
    if o != [] {
      var p := AllPushes(o, base);
      forall t | 0 <= t < |p|
        ensures p[t].1 < base + |o|
      {
        if t < |p| - 1 {
          assert p[t] in Pushes(o, base);
        }
      }
    }
  }

  /** createEdgeSequences pushes each of its sequences to the node it starts at... */
  lemma StartRegistered(o: seq<Cut>, ns: seq<NodeData>, base: nat, u: nat)
    requires CutNodesIn(o, |ns|) && u < |o|
    ensures base + u in Apply(ns, AllPushes(o, base))[o[u].node].edges
  {
    var q := Pushes(o, base);
    var p := AllPushes(o, base);
    assert p == q + [(o[0].node, base + |o| - 1)];
    PushesHas(o, base, u);
    var t :| 0 <= t < |q| && q[t] == (o[u].node, base + u);
    assert p[t] == q[t];
    ApplyHas(ns, p, t);
  }

  /** ... and to the node it ends at. */
  lemma EndRegistered(o: seq<Cut>, ns: seq<NodeData>, base: nat, u: nat)
    requires CutNodesIn(o, |ns|) && u < |o|
    ensures base + u in Apply(ns, AllPushes(o, base))[o[if u + 1 < |o| then u + 1 else 0].node].edges
  {
    var t := EndPush(o, base, u);
    ApplyHas(ns, AllPushes(o, base), t);
  }

  /** The push that lists the `u`-th sequence at the node where it ends. */
  lemma EndPush(o: seq<Cut>, base: nat, u: nat) returns (t: nat)
    requires u < |o|
    ensures t < |AllPushes(o, base)|
    ensures AllPushes(o, base)[t] == (o[if u + 1 < |o| then u + 1 else 0].node, base + u)
  {
    var q := Pushes(o, base);
    if u + 1 < |o| {
      assert AllPushes(o, base) == q + [(o[0].node, base + |o| - 1)];
      PushesHas(o, base, u);
      t :| 0 <= t < |q| && q[t] == (o[u + 1].node, base + u);
    } else {
      ClosingPush(o, base);
      t := |q|;
    }
  }

  lemma ClosingPush(o: seq<Cut>, base: nat)
    requires o != []
    ensures var q := Pushes(o, base);
      |AllPushes(o, base)| == |q| + 1 && AllPushes(o, base)[|q|] == (o[0].node, base + |o| - 1)
  {
  }

  // ---------------------------------------------------------------------------------------
  // Both polygons cut over one set of nodes

  /** The nodes once the sequences of a first polygon cut at `o1` and then of a second one
      cut at `o2` have been pushed. */
  ghost function Joined(n0: seq<NodeData>, o1: seq<Cut>, o2: seq<Cut>): seq<NodeData> {
    Apply(Apply(n0, AllPushes(o1, 0)), AllPushes(o2, |o1|))
  }

  /** Starting from nodes with empty edge lists, both polygons' sequences are well linked. */
  lemma JoinedLinked(v1: seq<Vec>, v2: seq<Vec>, o1: seq<Cut>, o2: seq<Cut>, n0: seq<NodeData>)
    requires EdgeOrdered(o1, |v1|) && EdgeOrdered(o2, |v2|)
    requires CutNodesIn(o1, |n0|) && CutNodesIn(o2, |n0|)
    requires forall x :: 0 <= x < |n0| ==> n0[x].edges == []
    ensures Linked(Joined(n0, o1, o2), EdgeSequencesOf(v1, o1) + EdgeSequencesOf(v2, o2))
    ensures Registered(Joined(n0, o1, o2), EdgeSequencesOf(v1, o1) + EdgeSequencesOf(v2, o2))
  {
    JoinedEdgesBound(o1, o2, n0);
    JoinedEnds(v1, v2, o1, o2, n0);
  }

  /** Every pushed sequence index is below the number of sequences. */
  lemma JoinedEdgesBound(o1: seq<Cut>, o2: seq<Cut>, n0: seq<NodeData>)
    requires forall x :: 0 <= x < |n0| ==> n0[x].edges == []
    ensures forall x, j :: 0 <= x < |n0| && 0 <= j < |Joined(n0, o1, o2)[x].edges| ==>
      Joined(n0, o1, o2)[x].edges[j] < |o1| + |o2|
  {
    var bound := |o1| + |o2|;
    AllPushesBound(o1, 0);
    AllPushesBound(o2, |o1|);
    ApplyBound(n0, AllPushes(o1, 0), bound);
    ApplyBound(Apply(n0, AllPushes(o1, 0)), AllPushes(o2, |o1|), bound);
  }

  /** Every sequence of either polygon ends at a node that lists it. */
  lemma JoinedEnds(v1: seq<Vec>, v2: seq<Vec>, o1: seq<Cut>, o2: seq<Cut>, n0: seq<NodeData>)
    requires EdgeOrdered(o1, |v1|) && EdgeOrdered(o2, |v2|)
    requires CutNodesIn(o1, |n0|) && CutNodesIn(o2, |n0|)
    ensures forall s :: 0 <= s < |o1| + |o2| ==>
      (EdgeSequencesOf(v1, o1) + EdgeSequencesOf(v2, o2))[s].nextNode.Some? &&
      (EdgeSequencesOf(v1, o1) + EdgeSequencesOf(v2, o2))[s].nextNode.value < |n0| &&
      s in Joined(n0, o1, o2)[(EdgeSequencesOf(v1, o1) + EdgeSequencesOf(v2, o2))[s].nextNode.value].edges
  {
    var s1, s2 := EdgeSequencesOf(v1, o1), EdgeSequencesOf(v2, o2);
    var ns := Joined(n0, o1, o2);
    forall u | 0 <= u < |s1|
      ensures s1[u].nextNode.Some? && s1[u].nextNode.value < |ns| && u in ns[s1[u].nextNode.value].edges
    {
      FirstEndAt(v1, o1, o2, n0, u);
    }
    forall u | 0 <= u < |s2|
      ensures s2[u].nextNode.Some? && s2[u].nextNode.value < |ns| && |s1| + u in ns[s2[u].nextNode.value].edges
    {
      SecondEndAt(v2, o1, o2, n0, u);
    }
    EndsJoin(s1, s2, ns);
  }

  /** Two lists of sequences that each end at nodes listing them, the second numbered after
      the first, still do so once concatenated. */
  lemma EndsJoin(s1: seq<EdgeSequence>, s2: seq<EdgeSequence>, ns: seq<NodeData>)
    requires forall u :: 0 <= u < |s1| ==>
      s1[u].nextNode.Some? && s1[u].nextNode.value < |ns| && u in ns[s1[u].nextNode.value].edges
    requires forall u :: 0 <= u < |s2| ==>
      s2[u].nextNode.Some? && s2[u].nextNode.value < |ns| && |s1| + u in ns[s2[u].nextNode.value].edges
    ensures forall s :: 0 <= s < |s1| + |s2| ==>
      (s1 + s2)[s].nextNode.Some? && (s1 + s2)[s].nextNode.value < |ns| &&
      s in ns[(s1 + s2)[s].nextNode.value].edges
  {
    forall s | 0 <= s < |s1| + |s2|
      ensures (s1 + s2)[s].nextNode.Some? && (s1 + s2)[s].nextNode.value < |ns|
      ensures s in ns[(s1 + s2)[s].nextNode.value].edges
    {
      if s >= |s1| {
        assert (s1 + s2)[s] == s2[s - |s1|];
      }
    }
  }

  lemma FirstEndAt(v1: seq<Vec>, o1: seq<Cut>, o2: seq<Cut>, n0: seq<NodeData>, u: nat)
    requires EdgeOrdered(o1, |v1|) && CutNodesIn(o1, |n0|) && u < |o1|
    ensures var e := EdgeSequencesOf(v1, o1)[u].nextNode;
      e.Some? && e.value < |n0| && u in Joined(n0, o1, o2)[e.value].edges
  {
    JoinedEndFirst(o1, o2, n0, u);
    SequenceEnds(v1, o1, u);
  }

  lemma SecondEndAt(v2: seq<Vec>, o1: seq<Cut>, o2: seq<Cut>, n0: seq<NodeData>, u: nat)
    requires EdgeOrdered(o2, |v2|) && CutNodesIn(o2, |n0|) && u < |o2|
    ensures var e := EdgeSequencesOf(v2, o2)[u].nextNode;
      e.Some? && e.value < |n0| && |o1| + u in Joined(n0, o1, o2)[e.value].edges
  {
    JoinedEndSecond(o1, o2, n0, u);
    SequenceEnds(v2, o2, u);
  }

  lemma JoinedEndFirst(o1: seq<Cut>, o2: seq<Cut>, n0: seq<NodeData>, u: nat)
    requires CutNodesIn(o1, |n0|) && u < |o1|
    ensures u in Joined(n0, o1, o2)[o1[if u + 1 < |o1| then u + 1 else 0].node].edges
  {
    var n1 := Apply(n0, AllPushes(o1, 0));
    EndRegistered(o1, n0, 0, u);
    ApplyKeeps(n1, AllPushes(o2, |o1|), o1[if u + 1 < |o1| then u + 1 else 0].node, u);
  }

  lemma JoinedEndSecond(o1: seq<Cut>, o2: seq<Cut>, n0: seq<NodeData>, u: nat)
    requires CutNodesIn(o2, |n0|) && u < |o2|
    ensures |o1| + u in Joined(n0, o1, o2)[o2[if u + 1 < |o2| then u + 1 else 0].node].edges
  {
    EndRegistered(o2, Apply(n0, AllPushes(o1, 0)), |o1|, u);
  }

  /** Each polygon's `u`-th sequence is listed at the node of its `u`-th cut, where it
      starts. */
  lemma JoinedStarts(o1: seq<Cut>, o2: seq<Cut>, n0: seq<NodeData>)
    requires CutNodesIn(o1, |n0|) && CutNodesIn(o2, |n0|)
    ensures forall u :: 0 <= u < |o1| ==>
      o1[u].node < |n0| && u in Joined(n0, o1, o2)[o1[u].node].edges
    ensures forall u :: 0 <= u < |o2| ==>
      o2[u].node < |n0| && |o1| + u in Joined(n0, o1, o2)[o2[u].node].edges
  {
    var n1 := Apply(n0, AllPushes(o1, 0));
    forall u | 0 <= u < |o1|
      ensures u in Joined(n0, o1, o2)[o1[u].node].edges
    {
      StartRegistered(o1, n0, 0, u);
      ApplyKeeps(n1, AllPushes(o2, |o1|), o1[u].node, u);
    }
    forall u | 0 <= u < |o2|
      ensures |o1| + u in Joined(n0, o1, o2)[o2[u].node].edges
    {
      StartRegistered(o2, n1, |o1|, u);
    }
  }
}
