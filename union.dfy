/** `union` of scripts/polygontools.ts: walks the arrangement built by `polyIntersect`,
    starting at every node from each edge sequence that leaves it and has not been visited,
    and following, at each node it reaches, the sequence a nesting counter selects, until
    the walk is back at its start node. Every closed walk becomes a loop of points. */
module UnionWalk {
  import opened Vectors
  import opened Results
  import opened Arrangement
  import opened Intersection

  // ---------------------------------------------------------------------------------------
  // The part of an arrangement the walk reads and never changes

  /** The edge lists and positions of the nodes, and the end node and points of the
      sequences: everything but the `visited` flags and the `nodeLoops`. */
  datatype Shape = Shape(lists: seq<seq<nat>>, positions: seq<Vec>,
                         ends: seq<Option<nat>>, points: seq<seq<Vec>>)

  function ShapeOf(ns: seq<NodeData>, ss: seq<EdgeSequence>): (g: Shape)
    ensures |g.lists| == |g.positions| == |ns| && |g.ends| == |g.points| == |ss|
    ensures forall x :: 0 <= x < |ns| ==> g.lists[x] == ns[x].edges && g.positions[x] == ns[x].position
    ensures forall s :: 0 <= s < |ss| ==> g.ends[s] == ss[s].nextNode && g.points[s] == ss[s].edgePoints
  {
    Shape(seq(|ns|, x requires 0 <= x < |ns| => ns[x].edges),
          seq(|ns|, x requires 0 <= x < |ns| => ns[x].position),
          seq(|ss|, s requires 0 <= s < |ss| => ss[s].nextNode),
          seq(|ss|, s requires 0 <= s < |ss| => ss[s].edgePoints))
  }

  /** Every listed sequence exists, and every sequence ends at a node whose list holds it:
      what `polyIntersect` leaves behind (`ArrangementLinked`). */
  ghost predicate WellLinked(g: Shape) {
    |g.lists| == |g.positions| && |g.ends| == |g.points| &&
    (forall x, k :: 0 <= x < |g.lists| && 0 <= k < |g.lists[x]| ==> g.lists[x][k] < |g.ends|) &&
    (forall s :: 0 <= s < |g.ends| ==>
      g.ends[s].Some? && g.ends[s].value < |g.lists| && s in g.lists[g.ends[s].value])
  }

  lemma LinkedShape(ns: seq<NodeData>, ss: seq<EdgeSequence>)
    requires Linked(ns, ss) && Registered(ns, ss)
    ensures WellLinked(ShapeOf(ns, ss))
  {
  }

  /** Marking a sequence visited changes no part of the shape. */
  lemma VisitKeepsShape(ns: seq<NodeData>, ss: seq<EdgeSequence>, s: nat)
    requires s < |ss|
    ensures ShapeOf(ns, ss[s := ss[s].(visited := true)]) == ShapeOf(ns, ss)
  {
    var a, b := ShapeOf(ns, ss[s := ss[s].(visited := true)]), ShapeOf(ns, ss);
    assert a.ends == b.ends;
    assert a.points == b.points;
  }

  /** Adding a loop to a node changes no part of the shape. */
  lemma LoopKeepsShape(ns: seq<NodeData>, ss: seq<EdgeSequence>, x: nat, loop: seq<Vec>)
    requires x < |ns|
    ensures ShapeOf(ns[x := ns[x].(nodeLoops := ns[x].nodeLoops + [loop])], ss) == ShapeOf(ns, ss)
  {
    var a, b := ShapeOf(ns[x := ns[x].(nodeLoops := ns[x].nodeLoops + [loop])], ss), ShapeOf(ns, ss);
    assert a.lists == b.lists;
    assert a.positions == b.positions;
  }

  /** Sequence `e` ends at node `y`: the source's `e.nextNode === y`. Any other sequence
      at `y` points away from it. */
  predicate Arrives(g: Shape, e: nat, y: nat) {
    e < |g.ends| && g.ends[e] == Some(y)
  }

  // ---------------------------------------------------------------------------------------
  // Choosing the next sequence at a node

  /** `findIndex(val => val === s)`: the first position of `s` in `l`. */
  function FirstIndex(l: seq<nat>, s: nat): (k: nat)
    requires s in l
    ensures k < |l| && l[k] == s && s !in l[..k]
  {
    if l[0] == s then 0
    else
      assert l == [l[0]] + l[1..];
      var k := FirstIndex(l[1..], s) + 1;
      assert l[..k] == [l[0]] + l[1..][..k - 1];
      k
  }

  /** The position `d` steps after `k` in a circular list of `n` positions. */
  function Cyc(k: nat, d: nat, n: nat): nat
    requires k < n && d <= n
  {
    if k + d < n then k + d else k + d - n
  }

  /** The nesting counter on reaching the `d`-th position after `k` in node `y`'s list: the
      number of sequences passed that arrive at `y` less the number that leave it. */
  ghost function Nest(g: Shape, y: nat, k: nat, d: nat): int
    requires y < |g.lists| && k < |g.lists[y]| && 1 <= d <= |g.lists[y]|
    decreases d
  {
    if d == 1 then 0
    else
      var e := g.lists[y][Cyc(k, d - 1, |g.lists[y]|)];
      Nest(g, y, k, d - 1) + (if Arrives(g, e, y) then 1 else -1)
  }

  /** The `d`-th position after `k` holds a sequence leaving `y` with the counter at zero. */
  ghost predicate Open(g: Shape, y: nat, k: nat, d: nat)
    requires y < |g.lists| && k < |g.lists[y]| && 1 <= d < |g.lists[y]|
  {
    !Arrives(g, g.lists[y][Cyc(k, d, |g.lists[y]|)], y) && Nest(g, y, k, d) == 0
  }

  /** The first open position at or after the `d`-th, before coming back to `k`. */
  ghost function OpenFrom(g: Shape, y: nat, k: nat, d: nat): (r: Option<nat>)
    requires y < |g.lists| && k < |g.lists[y]| && 1 <= d <= |g.lists[y]|
    ensures r.Some? ==> d <= r.value < |g.lists[y]|
    decreases |g.lists[y]| - d
  {
    if d == |g.lists[y]| then None
    else if Open(g, y, k, d) then Some(d)
    else OpenFrom(g, y, k, d + 1)
  }

  /** `OpenFrom` finds the first open position from the `d`-th on, and finds none only
      when there is none before coming back to `k`. */
  lemma {:induction false} OpenFromFirst(g: Shape, y: nat, k: nat, d: nat)
    requires y < |g.lists| && k < |g.lists[y]| && 1 <= d <= |g.lists[y]|
    ensures OpenFrom(g, y, k, d).Some? ==> Open(g, y, k, OpenFrom(g, y, k, d).value)
    ensures OpenFrom(g, y, k, d).Some? ==>
      forall d' :: d <= d' < OpenFrom(g, y, k, d).value ==> !Open(g, y, k, d')
    ensures OpenFrom(g, y, k, d).None? ==> forall d' :: d <= d' < |g.lists[y]| ==> !Open(g, y, k, d')
    decreases |g.lists[y]| - d
  {
    if d < |g.lists[y]| && !Open(g, y, k, d) {
      OpenFromFirst(g, y, k, d + 1);
    }
  }

  /** The sequence the walk takes on arriving at `y` by sequence `s`: scanning `y`'s list
      circularly from just after `s`, the first that leaves `y` while the counter is zero;
      `None` when the scan comes back to `s` without one. */
  ghost function Next(g: Shape, y: nat, s: nat): (r: Option<nat>)
    requires y < |g.lists| && s in g.lists[y]
    ensures r.Some? ==> r.value in g.lists[y]
  {
    var k := FirstIndex(g.lists[y], s);
    match OpenFrom(g, y, k, 1)
    case None => None
    case Some(d) => Some(g.lists[y][Cyc(k, d, |g.lists[y]|)])
  }

  /** The inner `for` loop of `union`: finds `s` in the list of the node `y` it arrives at,
      then scans on from there, counting sequences that arrive at `y` up and those that
      leave it down, and stops at the first leaving one met with the counter at zero. */
  method NextSequence(arr: Arrangement, y: nat, s: nat) returns (r: Option<nat>)
    requires y < |arr.nodes| && s in arr.nodes[y].edges
    requires forall k :: 0 <= k < |arr.nodes[y].edges| ==> arr.nodes[y].edges[k] < |arr.sequences|
    ensures r == Next(ShapeOf(arr.nodes, arr.sequences), y, s)
  {
    ghost var g := ShapeOf(arr.nodes, arr.sequences);
    var edges := arr.nodes[y].edges;
    var n := |edges|;
    var seqIndex := FirstIndex(edges, s);
    var nestCounter := 0;
    var i := if seqIndex == n - 1 then 0 else seqIndex + 1;
    ghost var d := 1;
    assert g.lists[y] == edges;
    while i != seqIndex
      invariant 1 <= d <= n && i == Cyc(seqIndex, d, n)
      invariant nestCounter == Nest(g, y, seqIndex, d)
      invariant OpenFrom(g, y, seqIndex, d) == OpenFrom(g, y, seqIndex, 1)
      decreases n - d
    {
      var e := edges[i];
      var arrives := arr.sequences[e].nextNode == Some(y);
      assert e == g.lists[y][Cyc(seqIndex, d, n)] && arrives == Arrives(g, e, y);
      if !arrives && nestCounter == 0 {
        return Some(e);
      }
      ScanStep(g, y, seqIndex, d);
      nestCounter := nestCounter + if arrives then 1 else -1;
      i := if i == n - 1 then 0 else i + 1;
      d := d + 1;
    }
    return None;
  }

  /** One step of the scan past a position that is not open. */
  lemma ScanStep(g: Shape, y: nat, k: nat, d: nat)
    requires y < |g.lists| && k < |g.lists[y]| && 1 <= d < |g.lists[y]|
    requires !Open(g, y, k, d)
    ensures OpenFrom(g, y, k, d + 1) == OpenFrom(g, y, k, d)
    ensures Nest(g, y, k, d + 1) ==
      Nest(g, y, k, d) + if Arrives(g, g.lists[y][Cyc(k, d, |g.lists[y]|)], y) then 1 else -1
    ensures Cyc(k, d + 1, |g.lists[y]|) ==
      if Cyc(k, d, |g.lists[y]|) == |g.lists[y]| - 1 then 0 else Cyc(k, d, |g.lists[y]|) + 1
  {
  }

  // ---------------------------------------------------------------------------------------
  // Walking a loop

  predicate Distinct(w: seq<nat>) {
    forall t, u :: 0 <= t < u < |w| ==> w[t] != w[u]
  }

  /** A repetition-free list of sequence indices is no longer than the number of sequences. */
  lemma {:induction false} DistinctBound(w: seq<nat>, count: nat)
    requires Distinct(w) && forall t :: 0 <= t < |w| ==> w[t] < count
    ensures |w| <= count
    decreases count
  {
    if w != [] {
      assert 0 <= w[0] < count;
      if count - 1 in w {
        var t :| 0 <= t < |w| && w[t] == count - 1;
        var v := w[..t] + w[t + 1..];
        forall a | 0 <= a < |v|
          ensures v[a] < count - 1
        {
          if a < t {
            assert v[a] == w[a];
          } else {
            assert v[a] == w[a + 1];
          }
        }
        DistinctBound(v, count - 1);
      } else {
        DistinctBound(w, count - 1);
      }
    }
  }

  /** Why a walk fails: where the source's `console.assert`s would log, and then spin. */
  const NotFound := "next edge sequence not found"
  const WalkedTwice := "edge sequence walked twice"

  /** The walk started by the sequences `w`, which ends at node `x` or fails: from the last
      sequence taken, arriving somewhere other than `x`, the next one is chosen by `Next`.
      It fails where the source never leaves its inner loop: when no next sequence is
      found, or when the one found was taken before in this walk, so that the walk repeats
      itself forever without reaching `x`. */
  ghost function Follow(g: Shape, x: nat, w: seq<nat>): (r: Result<seq<nat>>)
    requires WellLinked(g) && w != [] && Distinct(w)
    requires forall t :: 0 <= t < |w| ==> w[t] < |g.ends|
    ensures r.Ok? ==> r.value != [] && forall t :: 0 <= t < |r.value| ==> r.value[t] < |g.ends|
    decreases |g.ends| - |w|
  {
    var s := w[|w| - 1];
    var y := g.ends[s].value;
    if y == x then Ok(w)
    else
      match Next(g, y, s)
      case None => Err(NotFound)
      case Some(e) =>
        if e in w || |w| >= |g.ends| then Err(WalkedTwice)
        else Follow(g, x, w + [e])
  }

  /** A walk that closes extends `w` without repeating a sequence, each sequence after the
      first is the one `Next` chooses where the previous one arrives, only the last one
      arrives at `x`. */
  lemma FollowCloses(g: Shape, x: nat, w: seq<nat>)
    requires WellLinked(g) && w != [] && Distinct(w)
    requires forall t :: 0 <= t < |w| ==> w[t] < |g.ends|
    requires Follow(g, x, w).Ok?
    ensures var v := Follow(g, x, w).value;
      |w| <= |v| && v[..|w|] == w && Distinct(v) && Arrives(g, v[|v| - 1], x)
    ensures forall t :: |w| - 1 <= t < |Follow(g, x, w).value| - 1 ==>
      !Arrives(g, Follow(g, x, w).value[t], x) &&
      Next(g, g.ends[Follow(g, x, w).value[t]].value, Follow(g, x, w).value[t]) ==
        Some(Follow(g, x, w).value[t + 1])
  {
    FollowExtends(g, x, w);
    FollowSteps(g, x, w);
  }

  /** One step of a walk that has not closed yet: it goes on with the sequence `Next`
      chooses, which is new to it. */
  lemma FollowOn(g: Shape, x: nat, w: seq<nat>) returns (e: nat)
    requires WellLinked(g) && w != [] && Distinct(w)
    requires forall t :: 0 <= t < |w| ==> w[t] < |g.ends|
    requires Follow(g, x, w).Ok? && !Arrives(g, w[|w| - 1], x)
    ensures e < |g.ends| && e !in w && Next(g, g.ends[w[|w| - 1]].value, w[|w| - 1]) == Some(e)
    ensures |w| < |g.ends|
    ensures Distinct(w + [e]) && forall t :: 0 <= t < |w + [e]| ==> (w + [e])[t] < |g.ends|
    ensures Follow(g, x, w + [e]) == Follow(g, x, w)
  {
    var s := w[|w| - 1];
    var y := g.ends[s].value;
    e := Next(g, y, s).value;
  }

  /** The part of `FollowCloses` about the sequences the walk keeps and the one it ends by. */
  lemma FollowExtends(g: Shape, x: nat, w: seq<nat>)
    requires WellLinked(g) && w != [] && Distinct(w)
    requires forall t :: 0 <= t < |w| ==> w[t] < |g.ends|
    requires Follow(g, x, w).Ok?
    ensures var v := Follow(g, x, w).value;
      |w| <= |v| && v[..|w|] == w && Distinct(v) && Arrives(g, v[|v| - 1], x)
  {
    FollowPrefix(g, x, w);
    FollowEnd(g, x, w);
  }

  lemma {:induction false} FollowPrefix(g: Shape, x: nat, w: seq<nat>)
    requires WellLinked(g) && w != [] && Distinct(w)
    requires forall t :: 0 <= t < |w| ==> w[t] < |g.ends|
    requires Follow(g, x, w).Ok?
    ensures |w| <= |Follow(g, x, w).value| && Follow(g, x, w).value[..|w|] == w
    decreases |g.ends| - |w|
  {
    if !Arrives(g, w[|w| - 1], x) {
      var e := FollowOn(g, x, w);
      FollowPrefix(g, x, w + [e]);
      var v := Follow(g, x, w).value;
      assert v[..|w| + 1][..|w|] == v[..|w|];
    }
  }

  lemma {:induction false} FollowEnd(g: Shape, x: nat, w: seq<nat>)
    requires WellLinked(g) && w != [] && Distinct(w)
    requires forall t :: 0 <= t < |w| ==> w[t] < |g.ends|
    requires Follow(g, x, w).Ok?
    ensures Distinct(Follow(g, x, w).value)
    ensures Arrives(g, Follow(g, x, w).value[|Follow(g, x, w).value| - 1], x)
    decreases |g.ends| - |w|
  {
    if !Arrives(g, w[|w| - 1], x) {
      var e := FollowOn(g, x, w);
      FollowEnd(g, x, w + [e]);
    }
  }

  /** The part of `FollowCloses` about each step the walk takes. */
  lemma {:induction false} FollowSteps(g: Shape, x: nat, w: seq<nat>)
    requires WellLinked(g) && w != [] && Distinct(w)
    requires forall t :: 0 <= t < |w| ==> w[t] < |g.ends|
    requires Follow(g, x, w).Ok?
    ensures forall t :: |w| - 1 <= t < |Follow(g, x, w).value| - 1 ==>
      !Arrives(g, Follow(g, x, w).value[t], x) &&
      Next(g, g.ends[Follow(g, x, w).value[t]].value, Follow(g, x, w).value[t]) ==
        Some(Follow(g, x, w).value[t + 1])
    decreases |g.ends| - |w|
  {
    if !Arrives(g, w[|w| - 1], x) {
      var e := FollowOn(g, x, w);
      FollowSteps(g, x, w + [e]);
      FollowPrefix(g, x, w + [e]);
      var v := Follow(g, x, w).value;
      assert v[|w| - 1] == (w + [e])[|w| - 1] == w[|w| - 1];
      assert v[|w|] == (w + [e])[|w|] == e;
    } else {
      FollowPrefix(g, x, w);
    }
  }

  /** The points the walk appends for the sequences `w`: each one's points, then the
      position of the node it arrives at. */
  ghost function Steps(g: Shape, w: seq<nat>): seq<Vec>
    requires WellLinked(g) && forall t :: 0 <= t < |w| ==> w[t] < |g.ends|
  {
    if w == [] then []
    else
      var s := w[|w| - 1];
      Steps(g, w[..|w| - 1]) + g.points[s] + [g.positions[g.ends[s].value]]
  }

  /** The loop of a closed walk `w` from `x`: `x`'s position, then the steps of every
      sequence but the last, whose points are not appended. */
  ghost function Trace(g: Shape, x: nat, w: seq<nat>): (loop: seq<Vec>)
    requires WellLinked(g) && x < |g.positions| && w != []
    requires forall t :: 0 <= t < |w| ==> w[t] < |g.ends|
    ensures loop != [] && loop[0] == g.positions[x]
  {
    [g.positions[x]] + Steps(g, w[..|w| - 1])
  }

  /** The state of a walk from `x` begun with `s0` that has taken the sequences `walked`
      and collected `myLoop`, starting from the flags `ss0`. */
  ghost predicate Walking(g: Shape, x: nat, s0: nat, ss0: seq<EdgeSequence>, ss: seq<EdgeSequence>,
                          walked: seq<nat>, myLoop: seq<Vec>)
  {
    WellLinked(g) && x < |g.positions| && |ss| == |ss0| == |g.ends| &&
    walked != [] && Distinct(walked) && (forall t :: 0 <= t < |walked| ==> walked[t] < |g.ends|) &&
    walked[0] == s0 && Follow(g, x, walked) == Follow(g, x, [s0]) &&
    myLoop == Trace(g, x, walked) &&
    forall s :: 0 <= s < |ss| ==> ss[s].visited == (ss0[s].visited || s in walked)
  }

  /** Taking `e`, the sequence `Next` chooses after the last one taken, keeps the walk going. */
  lemma WalkingStep(g: Shape, x: nat, s0: nat, ss0: seq<EdgeSequence>, ss: seq<EdgeSequence>,
                    walked: seq<nat>, myLoop: seq<Vec>, e: nat)
    requires Walking(g, x, s0, ss0, ss, walked, myLoop)
    requires !Arrives(g, walked[|walked| - 1], x) && e !in walked
    requires Next(g, g.ends[walked[|walked| - 1]].value, walked[|walked| - 1]) == Some(e)
    ensures e < |ss| && |walked| < |g.ends|
    ensures var last := walked[|walked| - 1];
      Walking(g, x, s0, ss0, ss[e := ss[e].(visited := true)], walked + [e],
              myLoop + g.points[last] + [g.positions[g.ends[last].value]])
  {
    var last := walked[|walked| - 1];
    var y := g.ends[last].value;
    assert e in g.lists[y];
    DistinctBound(walked + [e], |g.ends|);
    TraceStep(g, x, walked, e);
    assert Follow(g, x, walked) == Follow(g, x, walked + [e]);
  }

  /** The inner `while` of `union`: starting at node `x` with sequence `s0`, marks each
      sequence taken visited and appends its points and the position of the node it
      arrives at, until a sequence arrives back at `x`; that last one contributes nothing.
      Where the source would spin forever the model returns an error. */
  method Walk(arr: Arrangement, x: nat, s0: nat) returns (r: Result<seq<Vec>>, ghost w: seq<nat>)
    requires WellLinked(ShapeOf(arr.nodes, arr.sequences))
    requires x < |arr.nodes| && s0 < |arr.sequences|
    modifies arr
    ensures arr.nodes == old(arr.nodes) && |arr.sequences| == |old(arr.sequences)|
    ensures ShapeOf(arr.nodes, arr.sequences) == ShapeOf(old(arr.nodes), old(arr.sequences))
    ensures r.Ok? <==> Follow(ShapeOf(old(arr.nodes), old(arr.sequences)), x, [s0]).Ok?
    ensures r.Ok? ==> w != [] && w[0] == s0
    ensures r.Ok? ==> Follow(ShapeOf(old(arr.nodes), old(arr.sequences)), x, [s0]) == Ok(w)
    ensures r.Ok? ==> r.value == Trace(ShapeOf(old(arr.nodes), old(arr.sequences)), x, w)
    ensures r.Ok? ==> forall s :: 0 <= s < |arr.sequences| ==>
      arr.sequences[s].visited == (old(arr.sequences[s].visited) || s in w)
    ensures forall s :: 0 <= s < |arr.sequences| && old(arr.sequences[s].visited) ==>
      arr.sequences[s].visited
  {
    ghost var g := ShapeOf(arr.nodes, arr.sequences);
    ghost var ss0 := arr.sequences;
    var myLoop := [arr.nodes[x].position];
    VisitKeepsShape(arr.nodes, arr.sequences, s0);
    arr.sequences := arr.sequences[s0 := arr.sequences[s0].(visited := true)];
    var mySeq := s0;
    var walked: seq<nat> := [s0];
    assert [s0][..0] == [];
    while arr.sequences[mySeq].nextNode != Some(x)
      invariant arr.nodes == old(arr.nodes) && ShapeOf(arr.nodes, arr.sequences) == g
      invariant Walking(g, x, s0, ss0, arr.sequences, walked, myLoop)
      invariant mySeq == walked[|walked| - 1]
      decreases |g.ends| - |walked|
    {
      var nextNode := arr.sequences[mySeq].nextNode.value;
      myLoop := myLoop + arr.sequences[mySeq].edgePoints + [arr.nodes[nextNode].position];
      assert nextNode == g.ends[mySeq].value && arr.nodes[nextNode].edges == g.lists[nextNode];
      assert mySeq in g.lists[nextNode];
      var found := NextSequence(arr, nextNode, mySeq);
      if found.None? {
        return Err(NotFound), walked;
      }
      if found.value in walked {
        return Err(WalkedTwice), walked;
      }
      WalkingStep(g, x, s0, ss0, arr.sequences, walked, Trace(g, x, walked), found.value);
      mySeq := found.value;
      walked := walked + [mySeq];
      VisitKeepsShape(arr.nodes, arr.sequences, mySeq);
      arr.sequences := arr.sequences[mySeq := arr.sequences[mySeq].(visited := true)];
    }
    return Ok(myLoop), walked;
  }

  /** Taking one more sequence appends the steps of the one taken before it. */
  lemma TraceStep(g: Shape, x: nat, w: seq<nat>, e: nat)
    requires WellLinked(g) && x < |g.positions| && w != [] && e < |g.ends|
    requires forall t :: 0 <= t < |w| ==> w[t] < |g.ends|
    ensures Trace(g, x, w + [e]) ==
      Trace(g, x, w) + g.points[w[|w| - 1]] + [g.positions[g.ends[w[|w| - 1]].value]]
  {
    var v := w + [e];
    assert v[..|v| - 1] == w;
    assert w == w[..|w| - 1] + [w[|w| - 1]];
  }

  // ---------------------------------------------------------------------------------------
  // The loops started at one node

  /** Sequence `s` leaves node `x` and has not been visited. */
  predicate Untaken(ss: seq<EdgeSequence>, s: nat, x: nat) {
    s < |ss| && ss[s].nextNode != Some(x) && !ss[s].visited
  }

  /** `node.edges.find(val => val.nextNode !== node && !val.visited)`: the first sequence in
      node `x`'s list `l` that leaves `x` unvisited. */
  function FirstUntaken(l: seq<nat>, ss: seq<EdgeSequence>, x: nat): (r: Option<nat>)
    ensures r.Some? ==> r.value in l && Untaken(ss, r.value, x)
    ensures r.Some? ==> forall k :: 0 <= k < FirstIndex(l, r.value) ==> !Untaken(ss, l[k], x)
    ensures r.None? ==> forall k :: 0 <= k < |l| ==> !Untaken(ss, l[k], x)
  {
    if l == [] then None
    else if Untaken(ss, l[0], x) then Some(l[0])
    else
      var r := FirstUntaken(l[1..], ss, x);
      if r.Some? then
        assert l == [l[0]] + l[1..];
        assert FirstIndex(l, r.value) == FirstIndex(l[1..], r.value) + 1;
        r
      else r
  }

  /** The number of sequences not yet visited. */
  function Unvisited(ss: seq<EdgeSequence>): nat {
    if ss == [] then 0 else Unvisited(ss[..|ss| - 1]) + if ss[|ss| - 1].visited then 0 else 1
  }

  /** Visiting sequence `s`, and unvisiting none, lowers the count. */
  lemma {:induction false} FewerUnvisited(a: seq<EdgeSequence>, b: seq<EdgeSequence>, s: nat)
    requires |a| == |b| && s < |a| && !a[s].visited && b[s].visited
    requires forall t :: 0 <= t < |a| && a[t].visited ==> b[t].visited
    ensures Unvisited(b) < Unvisited(a)
  {
    var n := |a| - 1;
    if s < n {
      FewerUnvisited(a[..n], b[..n], s);
    } else {
      NoMoreUnvisited(a[..n], b[..n]);
    }
  }

  lemma {:induction false} NoMoreUnvisited(a: seq<EdgeSequence>, b: seq<EdgeSequence>)
    requires |a| == |b|
    requires forall t :: 0 <= t < |a| && a[t].visited ==> b[t].visited
    ensures Unvisited(b) <= Unvisited(a)
  {
    if a != [] {
      NoMoreUnvisited(a[..|a| - 1], b[..|b| - 1]);
    }
  }

  /** `loop` is the loop of the closed walk `w` that node `x` starts with a sequence
      leaving it. */
  ghost predicate Walked(g: Shape, x: nat, w: seq<nat>, loop: seq<Vec>) {
    WellLinked(g) && x < |g.lists| && w != [] && w[0] in g.lists[x] && !Arrives(g, w[0], x) &&
    Follow(g, x, [w[0]]) == Ok(w) && loop == Trace(g, x, w)
  }

  /** A sequence one of the walks took. */
  ghost predicate InWalks(walks: seq<seq<nat>>, s: nat) {
    exists i :: 0 <= i < |walks| && s in walks[i]
  }

  /** The visited flags of `ss` are those of `ss0` plus the sequences of `walks`. */
  ghost predicate VisitedBy(ss0: seq<EdgeSequence>, ss: seq<EdgeSequence>, walks: seq<seq<nat>>) {
    |ss| == |ss0| &&
    forall s :: 0 <= s < |ss| ==> ss[s].visited == (ss0[s].visited || InWalks(walks, s))
  }

  /** Sequence `s` leaves node `x` and is still open once `walks` are taken after the flags
      of `ss0`: it was neither visited in `ss0` nor taken by one of `walks`. */
  ghost predicate OpenAfter(g: Shape, ss0: seq<EdgeSequence>, walks: seq<seq<nat>>, s: nat, x: nat) {
    s < |ss0| && !Arrives(g, s, x) && !ss0[s].visited && !InWalks(walks, s)
  }

  /** No sequence of `l` leaves node `x` open once `walks` are taken. */
  ghost predicate NoneOpen(g: Shape, ss0: seq<EdgeSequence>, walks: seq<seq<nat>>, x: nat, l: seq<nat>)
    decreases |l|
  {
    l == [] || (!OpenAfter(g, ss0, walks, l[|l| - 1], x) && NoneOpen(g, ss0, walks, x, l[..|l| - 1]))
  }

  lemma {:induction false} NoneOpenEach(g: Shape, ss0: seq<EdgeSequence>, walks: seq<seq<nat>>, x: nat, l: seq<nat>)
    ensures NoneOpen(g, ss0, walks, x, l) <==> forall k :: 0 <= k < |l| ==> !OpenAfter(g, ss0, walks, l[k], x)
    decreases |l|
  {
    if l != [] {
      var pre := l[..|l| - 1];
      NoneOpenEach(g, ss0, walks, x, pre);
      assert forall k :: 0 <= k < |pre| ==> pre[k] == l[k];
    }
  }

  /** `s` is the sequence `find` picks at node `x` once `walks` are taken: the first one of
      `x`'s list that is still open. */
  ghost predicate FirstOpen(g: Shape, ss0: seq<EdgeSequence>, walks: seq<seq<nat>>, x: nat, s: nat) {
    x < |g.lists| && s in g.lists[x] && OpenAfter(g, ss0, walks, s, x) &&
    NoneOpen(g, ss0, walks, x, g.lists[x][..FirstIndex(g.lists[x], s)])
  }

  /** The walks started at `x` so far, with their loops: each one closed, and each one
      started on the first sequence of `x`'s list that was neither visited before nor taken
      by an earlier walk. */
  ghost predicate WalkLog(g: Shape, x: nat, ss0: seq<EdgeSequence>, walks: seq<seq<nat>>, loops: seq<seq<Vec>>) {
    |walks| == |loops| && forall i :: 0 <= i < |walks| ==> Logged(g, x, ss0, walks, loops, i)
  }

  /** Walk `i` of the log closes, and starts on what `find` picks at `x` after the walks
      before it. */
  ghost predicate Logged(g: Shape, x: nat, ss0: seq<EdgeSequence>, walks: seq<seq<nat>>, loops: seq<seq<Vec>>, i: nat)
    requires i < |walks| == |loops|
  {
    Walked(g, x, walks[i], loops[i]) && FirstOpen(g, ss0, walks[..i], x, walks[i][0])
  }

  /** A sequence is in the walks of `walks + more` exactly when it is in those of one part. */
  lemma InWalksJoin(walks: seq<seq<nat>>, more: seq<seq<nat>>, s: nat)
    ensures InWalks(walks + more, s) <==> InWalks(walks, s) || InWalks(more, s)
  {
    if InWalks(walks, s) {
      var i :| 0 <= i < |walks| && s in walks[i];
      assert (walks + more)[i] == walks[i];
    }
    if InWalks(more, s) {
      var i :| 0 <= i < |more| && s in more[i];
      assert (walks + more)[|walks| + i] == more[i];
    }
    if InWalks(walks + more, s) {
      var i :| 0 <= i < |walks + more| && s in (walks + more)[i];
      if i < |walks| {
        assert s in walks[i];
      } else {
        assert s in more[i - |walks|];
      }
    }
  }

  lemma VisitedStep(ss0: seq<EdgeSequence>, before: seq<EdgeSequence>, after: seq<EdgeSequence>,
                    walks: seq<seq<nat>>, w: seq<nat>)
    requires VisitedBy(ss0, before, walks) && |after| == |before|
    requires forall s :: 0 <= s < |after| ==> after[s].visited == (before[s].visited || s in w)
    ensures VisitedBy(ss0, after, walks + [w])
  {
    forall s | 0 <= s < |after|
      ensures after[s].visited == (ss0[s].visited || InWalks(walks + [w], s))
    {
      InWalksJoin(walks, [w], s);
      if s in w {
        assert [w][0] == w;
      }
      if InWalks([w], s) {
        var i :| 0 <= i < 1 && s in [w][i];
      }
    }
  }

  /** Two rounds of walks compose: flags set by `walks` and then by `more`. */
  lemma VisitedJoin(ss0: seq<EdgeSequence>, mid: seq<EdgeSequence>, ss: seq<EdgeSequence>,
                    walks: seq<seq<nat>>, more: seq<seq<nat>>)
    requires VisitedBy(ss0, mid, walks) && VisitedBy(mid, ss, more)
    ensures VisitedBy(ss0, ss, walks + more)
  {
    forall s | 0 <= s < |ss|
      ensures ss[s].visited == (ss0[s].visited || InWalks(walks + more, s))
    {
      InWalksJoin(walks, more, s);
    }
  }

  /** With the flags of `ss` set by `walks` over those of `ss0`, what `find` picks at `x` is
      the first open sequence of `x`'s list. */
  lemma FoundIsFirstOpen(g: Shape, ns: seq<NodeData>, ss0: seq<EdgeSequence>, ss: seq<EdgeSequence>,
                         walks: seq<seq<nat>>, x: nat, s: nat)
    requires ShapeOf(ns, ss) == g && VisitedBy(ss0, ss, walks) && x < |ns|
    requires FirstUntaken(g.lists[x], ss, x) == Some(s)
    ensures FirstOpen(g, ss0, walks, x, s)
  {
    var l := g.lists[x];
    var before := l[..FirstIndex(l, s)];
    forall k | 0 <= k < |before|
      ensures !OpenAfter(g, ss0, walks, before[k], x)
    {
      assert before[k] == l[k] && !Untaken(ss, l[k], x);
    }
    NoneOpenEach(g, ss0, walks, x, before);
  }

  /** Open after `more` over the flags of `mid` is open after `walks + more` over those of
      `ss0`, when `walks` set the flags of `mid`. */
  lemma OpenShift(g: Shape, ss0: seq<EdgeSequence>, mid: seq<EdgeSequence>, walks: seq<seq<nat>>,
                  more: seq<seq<nat>>, x: nat, s: nat)
    requires VisitedBy(ss0, mid, walks)
    ensures OpenAfter(g, mid, more, s, x) <==> OpenAfter(g, ss0, walks + more, s, x)
  {
    InWalksJoin(walks, more, s);
  }

  /** The first open sequence after `more` over the flags of `mid` is the first one after
      `walks + more` over those of `ss0`. */
  lemma FirstOpenShift(g: Shape, ss0: seq<EdgeSequence>, mid: seq<EdgeSequence>, walks: seq<seq<nat>>,
                       more: seq<seq<nat>>, x: nat, s: nat)
    requires VisitedBy(ss0, mid, walks) && FirstOpen(g, mid, more, x, s)
    ensures FirstOpen(g, ss0, walks + more, x, s)
  {
    var l := g.lists[x];
    var before := l[..FirstIndex(l, s)];
    OpenShift(g, ss0, mid, walks, more, x, s);
    NoneOpenEach(g, mid, more, x, before);
    forall k | 0 <= k < |before|
      ensures !OpenAfter(g, ss0, walks + more, before[k], x)
    {
      OpenShift(g, ss0, mid, walks, more, x, before[k]);
    }
    NoneOpenEach(g, ss0, walks + more, x, before);
  }

  lemma WalkLogStep(g: Shape, x: nat, ns: seq<NodeData>, ss0: seq<EdgeSequence>, before: seq<EdgeSequence>,
                    walks: seq<seq<nat>>, loops: seq<seq<Vec>>, w: seq<nat>, loop: seq<Vec>)
    requires WalkLog(g, x, ss0, walks, loops) && VisitedBy(ss0, before, walks) && ShapeOf(ns, before) == g
    requires Walked(g, x, w, loop) && FirstUntaken(g.lists[x], before, x) == Some(w[0])
    ensures WalkLog(g, x, ss0, walks + [w], loops + [loop])
  {
    var walks', loops' := walks + [w], loops + [loop];
    forall i | 0 <= i < |walks'|
      ensures Logged(g, x, ss0, walks', loops', i)
    {
      if i < |walks| {
        assert Logged(g, x, ss0, walks, loops, i);
        assert walks'[i] == walks[i] && loops'[i] == loops[i];
        assert walks'[..i] == walks[..i];
      } else {
        assert walks'[i] == w && loops'[i] == loop;
        assert walks'[..i] == walks;
        FoundIsFirstOpen(g, ns, ss0, before, walks, x, w[0]);
      }
    }
  }

  /** Adding `loop` to node `x` after `loops`. */
  lemma AddedLoop(ns0: seq<NodeData>, x: nat, loops: seq<seq<Vec>>, loop: seq<Vec>)
    requires x < |ns0|
    ensures var ns := ns0[x := ns0[x].(nodeLoops := ns0[x].nodeLoops + loops)];
      ns[x := ns[x].(nodeLoops := ns[x].nodeLoops + [loop])] ==
      ns0[x := ns0[x].(nodeLoops := ns0[x].nodeLoops + (loops + [loop]))]
  {
    assert ns0[x].nodeLoops + loops + [loop] == ns0[x].nodeLoops + (loops + [loop]);
  }

  /** The `while (true)` of `union` for one node `x`: as long as a sequence leaves `x`
      unvisited, walks the loop it starts and adds that loop to `x`'s `nodeLoops`. */
  method NodeLoops(arr: Arrangement, x: nat) returns (r: Result<seq<seq<Vec>>>, ghost walks: seq<seq<nat>>)
    requires WellLinked(ShapeOf(arr.nodes, arr.sequences)) && x < |arr.nodes|
    modifies arr
    ensures |arr.nodes| == |old(arr.nodes)| && |arr.sequences| == |old(arr.sequences)|
    ensures ShapeOf(arr.nodes, arr.sequences) == ShapeOf(old(arr.nodes), old(arr.sequences))
    ensures forall s :: 0 <= s < |arr.sequences| && old(arr.sequences[s].visited) ==>
      arr.sequences[s].visited
    ensures r.Ok? ==>
      arr.nodes == old(arr.nodes)[x := old(arr.nodes)[x].(nodeLoops := old(arr.nodes)[x].nodeLoops + r.value)]
    ensures r.Ok? ==> forall k :: 0 <= k < |arr.nodes[x].edges| ==>
      !Untaken(arr.sequences, arr.nodes[x].edges[k], x)
    ensures r.Ok? ==> WalkLog(ShapeOf(old(arr.nodes), old(arr.sequences)), x, old(arr.sequences), walks, r.value)
    ensures r.Ok? ==> VisitedBy(old(arr.sequences), arr.sequences, walks)
    ensures r.Err? ==>
      exists s0 :: s0 in old(arr.nodes)[x].edges && Untaken(old(arr.sequences), s0, x) &&
        Follow(ShapeOf(old(arr.nodes), old(arr.sequences)), x, [s0]).Err?
  {
    ghost var g := ShapeOf(arr.nodes, arr.sequences);
    ghost var ns0, ss0 := arr.nodes, arr.sequences;
    var loops: seq<seq<Vec>> := [];
    walks := [];
    assert ns0[x].nodeLoops + loops == ns0[x].nodeLoops;
    assert ns0[x].(nodeLoops := ns0[x].nodeLoops) == ns0[x];
    while true
      invariant |arr.nodes| == |ns0| && |arr.sequences| == |ss0|
      invariant ShapeOf(arr.nodes, arr.sequences) == g
      invariant arr.nodes == ns0[x := ns0[x].(nodeLoops := ns0[x].nodeLoops + loops)]
      invariant VisitedBy(ss0, arr.sequences, walks)
      invariant WalkLog(g, x, ss0, walks, loops)
      decreases Unvisited(arr.sequences)
    {
      var open := FirstUntaken(arr.nodes[x].edges, arr.sequences, x);
      if open.None? {
        break;
      }
      var s0 := open.value;
      ghost var nsBefore, before := arr.nodes, arr.sequences;
      var loop;
      ghost var w;
      loop, w := Walk(arr, x, s0);
      if loop.Err? {
        return Err(loop.msg), walks;
      }
      FewerUnvisited(before, arr.sequences, s0);
      LoopKeepsShape(arr.nodes, arr.sequences, x, loop.value);
      VisitedStep(ss0, before, arr.sequences, walks, w);
      assert nsBefore[x].edges == g.lists[x];
      WalkLogStep(g, x, nsBefore, ss0, before, walks, loops, w, loop.value);
      AddedLoop(ns0, x, loops, loop.value);
      arr.nodes := arr.nodes[x := arr.nodes[x].(nodeLoops := arr.nodes[x].nodeLoops + [loop.value])];
      loops := loops + [loop.value];
      walks := walks + [w];
    }
    return Ok(loops), walks;
  }

  // ---------------------------------------------------------------------------------------
  // All loops

  /** No sequence leaves node `y` unvisited. */
  ghost predicate Settled(ns: seq<NodeData>, ss: seq<EdgeSequence>, y: nat) {
    y < |ns| && forall k :: 0 <= k < |ns[y].edges| ==> !Untaken(ss, ns[y].edges[k], y)
  }

  /** No visited flag of `a` is cleared in `b`. */
  ghost predicate Monotone(a: seq<EdgeSequence>, b: seq<EdgeSequence>) {
    |a| == |b| && forall s :: 0 <= s < |a| && a[s].visited ==> b[s].visited
  }

  /** A node stays settled while the shape is kept and flags are only set. */
  lemma StaysSettled(ns: seq<NodeData>, ss: seq<EdgeSequence>, ns': seq<NodeData>, ss': seq<EdgeSequence>, y: nat)
    requires Settled(ns, ss, y) && Monotone(ss, ss') && |ns'| == |ns|
    requires ShapeOf(ns', ss') == ShapeOf(ns, ss)
    ensures Settled(ns', ss', y)
  {
    var g := ShapeOf(ns, ss);
    assert ns'[y].edges == g.lists[y] == ns[y].edges;
    forall k | 0 <= k < |ns'[y].edges|
      ensures !Untaken(ss', ns'[y].edges[k], y)
    {
      var s := ns[y].edges[k];
      if s < |ss| {
        assert ss'[s].nextNode == g.ends[s] == ss[s].nextNode;
      }
    }
  }

  /** `n` copies of node index `x`. */
  function Repeat(x: nat, n: nat): (r: seq<nat>)
    ensures |r| == n && forall i :: 0 <= i < n ==> r[i] == x
  {
    if n == 0 then [] else Repeat(x, n - 1) + [x]
  }

  /** The loops of `loops` whose walk started at node `x`, in order. */
  ghost function LoopsAt(loops: seq<seq<Vec>>, starts: seq<nat>, x: nat): seq<seq<Vec>>
    requires |loops| == |starts|
  {
    if loops == [] then []
    else
      var n := |loops| - 1;
      LoopsAt(loops[..n], starts[..n], x) + if starts[n] == x then [loops[n]] else []
  }

  /** Appending loops all started at `x` extends `x`'s share and no other node's. */
  lemma {:induction false} LoopsAtAppend(loops: seq<seq<Vec>>, starts: seq<nat>, more: seq<seq<Vec>>, x: nat, y: nat)
    requires |loops| == |starts|
    ensures LoopsAt(loops + more, starts + Repeat(x, |more|), y) ==
      LoopsAt(loops, starts, y) + if y == x then more else []
    decreases |more|
  {
    if more != [] {
      var n := |more| - 1;
      var l, t := loops + more, starts + Repeat(x, |more|);
      assert l[..|l| - 1] == loops + more[..n];
      assert t[..|t| - 1] == starts + Repeat(x, n);
      LoopsAtAppend(loops, starts, more[..n], x, y);
      assert more == more[..n] + [more[n]];
    } else {
      assert loops + more == loops;
      assert starts + Repeat(x, |more|) == starts;
    }
  }

  /** The walks of all nodes so far, node by node: each one closed from its start node, and
      each one started on the first sequence of its node's list that was neither visited at
      first nor taken by an earlier walk. */
  ghost predicate UnionLog(g: Shape, ss0: seq<EdgeSequence>, starts: seq<nat>, walks: seq<seq<nat>>,
                           loops: seq<seq<Vec>>) {
    |starts| == |walks| == |loops| &&
    (forall i, j :: 0 <= i < j < |starts| ==> starts[i] <= starts[j]) &&
    forall i :: 0 <= i < |walks| ==> Entry(g, ss0, starts, walks, loops, i)
  }

  /** One log entry: the walk closes from its start node, no node before that one has an
      open sequence left after the earlier walks, and the walk starts on what `find` picks
      there after them. */
  ghost predicate Entry(g: Shape, ss0: seq<EdgeSequence>, starts: seq<nat>, walks: seq<seq<nat>>,
                        loops: seq<seq<Vec>>, i: nat)
    requires i < |starts| == |walks| == |loops|
  {
    Walked(g, starts[i], walks[i], loops[i]) && DoneBefore(g, ss0, walks[..i], starts[i]) &&
    FirstOpen(g, ss0, walks[..i], starts[i], walks[i][0])
  }

  /** No node before `x` has a sequence left open once `walks` are taken: the outer loop of
      `union` is past them. */
  ghost predicate DoneBefore(g: Shape, ss0: seq<EdgeSequence>, walks: seq<seq<nat>>, x: nat) {
    forall y, s :: 0 <= y < x && y < |g.lists| && s in g.lists[y] ==> !OpenAfter(g, ss0, walks, s, y)
  }

  /** A sequence closed by `walks` stays closed once more walks are taken. */
  lemma DoneGrows(g: Shape, ss0: seq<EdgeSequence>, walks: seq<seq<nat>>, more: seq<seq<nat>>, x: nat)
    requires DoneBefore(g, ss0, walks, x)
    ensures DoneBefore(g, ss0, walks + more, x)
  {
    forall y, s | 0 <= y < x && y < |g.lists| && s in g.lists[y]
      ensures !OpenAfter(g, ss0, walks + more, s, y)
    {
      InWalksJoin(walks, more, s);
    }
  }

  /** Settled nodes, read through the flags `walks` set over `ss0`, have nothing open. */
  lemma SettledDone(g: Shape, ns: seq<NodeData>, ss0: seq<EdgeSequence>, ss: seq<EdgeSequence>,
                    walks: seq<seq<nat>>, x: nat)
    requires ShapeOf(ns, ss) == g && VisitedBy(ss0, ss, walks) && x <= |ns|
    requires forall y :: 0 <= y < x ==> Settled(ns, ss, y)
    ensures DoneBefore(g, ss0, walks, x)
  {
    forall y, s | 0 <= y < x && y < |g.lists| && s in g.lists[y]
      ensures !OpenAfter(g, ss0, walks, s, y)
    {
      var k :| 0 <= k < |ns[y].edges| && ns[y].edges[k] == s;
      assert Settled(ns, ss, y) && !Untaken(ss, ns[y].edges[k], y);
    }
  }

  lemma UnionLogStep(g: Shape, ss0: seq<EdgeSequence>, before: seq<EdgeSequence>,
                     starts: seq<nat>, walks: seq<seq<nat>>, loops: seq<seq<Vec>>,
                     x: nat, more: seq<seq<nat>>, moreLoops: seq<seq<Vec>>)
    requires UnionLog(g, ss0, starts, walks, loops) && VisitedBy(ss0, before, walks)
    requires forall i :: 0 <= i < |starts| ==> starts[i] < x
    requires WalkLog(g, x, before, more, moreLoops) && DoneBefore(g, ss0, walks, x)
    ensures UnionLog(g, ss0, starts + Repeat(x, |more|), walks + more, loops + moreLoops)
  {
    var starts': seq<nat> := starts + Repeat(x, |more|);
    var walks', loops' := walks + more, loops + moreLoops;
    forall i | 0 <= i < |walks'|
      ensures Entry(g, ss0, starts', walks', loops', i)
    {
      if i < |walks| {
        OldEntry(g, ss0, starts, walks, loops, starts', walks', loops', i);
      } else {
        NewEntry(g, ss0, before, starts, walks, loops, x, more, moreLoops, i - |walks|);
      }
    }
  }

  lemma OldEntry(g: Shape, ss0: seq<EdgeSequence>, starts: seq<nat>, walks: seq<seq<nat>>, loops: seq<seq<Vec>>,
                 starts': seq<nat>, walks': seq<seq<nat>>, loops': seq<seq<Vec>>, i: nat)
    requires UnionLog(g, ss0, starts, walks, loops) && i < |walks|
    requires |starts'| == |walks'| == |loops'| && |walks| <= |walks'|
    requires starts'[..|starts|] == starts && walks'[..|walks|] == walks && loops'[..|loops|] == loops
    ensures Entry(g, ss0, starts', walks', loops', i)
  {
    assert starts'[i] == starts[i] && walks'[i] == walks[i] && loops'[i] == loops[i];
    assert walks'[..i] == walks[..i];
    assert Entry(g, ss0, starts, walks, loops, i);
  }

  lemma NewEntry(g: Shape, ss0: seq<EdgeSequence>, before: seq<EdgeSequence>,
                 starts: seq<nat>, walks: seq<seq<nat>>, loops: seq<seq<Vec>>,
                 x: nat, more: seq<seq<nat>>, moreLoops: seq<seq<Vec>>, m: nat)
    requires |starts| == |walks| == |loops| && VisitedBy(ss0, before, walks)
    requires WalkLog(g, x, before, more, moreLoops) && DoneBefore(g, ss0, walks, x) && m < |more|
    ensures Entry(g, ss0, starts + Repeat(x, |more|), walks + more, loops + moreLoops, |walks| + m)
  {
    var starts': seq<nat> := starts + Repeat(x, |more|);
    var walks', loops' := walks + more, loops + moreLoops;
    var i := |walks| + m;
    assert walks'[i] == more[m] && loops'[i] == moreLoops[m] && starts'[i] == x;
    assert Logged(g, x, before, more, moreLoops, m);
    assert walks'[..i] == walks + more[..m];
    FirstOpenShift(g, ss0, before, walks, more[..m], x, more[m][0]);
    DoneGrows(g, ss0, walks, more[..m], x);
  }

  /** Node `y` holds the loops started at it after those it had at first. */
  ghost predicate HoldsLoops(ns0: seq<NodeData>, ns: seq<NodeData>, loops: seq<seq<Vec>>, starts: seq<nat>)
    requires |loops| == |starts|
  {
    |ns| == |ns0| &&
    forall y :: 0 <= y < |ns| ==> ns[y] == ns0[y].(nodeLoops := ns0[y].nodeLoops + LoopsAt(loops, starts, y))
  }

  lemma HoldsLoopsStep(ns0: seq<NodeData>, ns: seq<NodeData>, loops: seq<seq<Vec>>, starts: seq<nat>,
                       x: nat, more: seq<seq<Vec>>)
    requires |loops| == |starts| && HoldsLoops(ns0, ns, loops, starts) && x < |ns|
    ensures HoldsLoops(ns0, ns[x := ns[x].(nodeLoops := ns[x].nodeLoops + more)],
                       loops + more, starts + Repeat(x, |more|))
  {
    var ns' := ns[x := ns[x].(nodeLoops := ns[x].nodeLoops + more)];
    forall y | 0 <= y < |ns'|
      ensures ns'[y] == ns0[y].(nodeLoops := ns0[y].nodeLoops +
        LoopsAt(loops + more, starts + Repeat(x, |more|), y))
    {
      HoldsAt(ns0[y], ns[y], ns'[y], loops, starts, x, y, more);
    }
  }

  /** One node of `HoldsLoopsStep`. */
  lemma HoldsAt(n0: NodeData, n: NodeData, n': NodeData, loops: seq<seq<Vec>>, starts: seq<nat>,
                x: nat, y: nat, more: seq<seq<Vec>>)
    requires |loops| == |starts| && n == n0.(nodeLoops := n0.nodeLoops + LoopsAt(loops, starts, y))
    requires n' == if y == x then n.(nodeLoops := n.nodeLoops + more) else n
    ensures n' == n0.(nodeLoops := n0.nodeLoops + LoopsAt(loops + more, starts + Repeat(x, |more|), y))
  {
    LoopsAtAppend(loops, starts, more, x, y);
    if y == x {
      AddedAt(n0, LoopsAt(loops, starts, y), more);
    } else {
      assert LoopsAt(loops, starts, y) + [] == LoopsAt(loops, starts, y);
    }
  }

  lemma AddedAt(n0: NodeData, earlier: seq<seq<Vec>>, more: seq<seq<Vec>>)
    ensures var n := n0.(nodeLoops := n0.nodeLoops + earlier);
      n.(nodeLoops := n.nodeLoops + more) == n0.(nodeLoops := n0.nodeLoops + (earlier + more))
  {
    assert n0.nodeLoops + earlier + more == n0.nodeLoops + (earlier + more);
  }

  /** The state after the loops of nodes `0` to `x - 1` are collected, starting from the
      nodes `ns0` and sequences `ss0` of shape `g`. */
  ghost predicate Collected(g: Shape, ns0: seq<NodeData>, ss0: seq<EdgeSequence>, x: nat,
                            ns: seq<NodeData>, ss: seq<EdgeSequence>,
                            starts: seq<nat>, walks: seq<seq<nat>>, loops: seq<seq<Vec>>)
  {
    WellLinked(g) && ShapeOf(ns0, ss0) == g && x <= |ns| == |ns0| && ShapeOf(ns, ss) == g &&
    Monotone(ss0, ss) &&
    UnionLog(g, ss0, starts, walks, loops) && VisitedBy(ss0, ss, walks) &&
    (forall i :: 0 <= i < |starts| ==> starts[i] < x) &&
    (forall y :: 0 <= y < x ==> Settled(ns, ss, y)) &&
    HoldsLoops(ns0, ns, loops, starts)
  }

  lemma CollectedStart(ns0: seq<NodeData>, ss0: seq<EdgeSequence>)
    requires WellLinked(ShapeOf(ns0, ss0))
    ensures Collected(ShapeOf(ns0, ss0), ns0, ss0, 0, ns0, ss0, [], [], [])
  {
    forall y | 0 <= y < |ns0|
      ensures ns0[y] == ns0[y].(nodeLoops := ns0[y].nodeLoops + LoopsAt([], [], y))
    {
      assert ns0[y].nodeLoops + [] == ns0[y].nodeLoops;
    }
  }

  /** Collecting the loops of node `x`, as `NodeLoops` does when it succeeds. */
  lemma CollectedStep(g: Shape, ns0: seq<NodeData>, ss0: seq<EdgeSequence>, x: nat,
                      nsB: seq<NodeData>, ssB: seq<EdgeSequence>, ns: seq<NodeData>, ss: seq<EdgeSequence>,
                      starts: seq<nat>, walks: seq<seq<nat>>, loops: seq<seq<Vec>>,
                      more: seq<seq<nat>>, moreLoops: seq<seq<Vec>>)
    requires Collected(g, ns0, ss0, x, nsB, ssB, starts, walks, loops) && x < |nsB|
    requires |ns| == |nsB| && ShapeOf(ns, ss) == ShapeOf(nsB, ssB) && Monotone(ssB, ss)
    requires ns == nsB[x := nsB[x].(nodeLoops := nsB[x].nodeLoops + moreLoops)]
    requires forall k :: 0 <= k < |ns[x].edges| ==> !Untaken(ss, ns[x].edges[k], x)
    requires WalkLog(g, x, ssB, more, moreLoops) && VisitedBy(ssB, ss, more)
    ensures Collected(g, ns0, ss0, x + 1, ns, ss, starts + Repeat(x, |more|), walks + more, loops + moreLoops)
  {
    forall y | 0 <= y < x
      ensures Settled(ns, ss, y)
    {
      StaysSettled(nsB, ssB, ns, ss, y);
    }
    assert Settled(ns, ss, x);
    VisitedJoin(ss0, ssB, ss, walks, more);
    SettledDone(g, nsB, ss0, ssB, walks, x);
    UnionLogStep(g, ss0, ssB, starts, walks, loops, x, more, moreLoops);
    HoldsLoopsStep(ns0, nsB, loops, starts, x, moreLoops);
  }

  /** A failing walk from node `x` is one from the nodes and sequences at first. */
  lemma CollectedErr(g: Shape, ns0: seq<NodeData>, ss0: seq<EdgeSequence>, x: nat,
                     ns: seq<NodeData>, ss: seq<EdgeSequence>,
                     starts: seq<nat>, walks: seq<seq<nat>>, loops: seq<seq<Vec>>)
    requires Collected(g, ns0, ss0, x, ns, ss, starts, walks, loops) && x < |ns|
    requires exists s0 :: s0 in ns[x].edges && Untaken(ss, s0, x) && Follow(ShapeOf(ns, ss), x, [s0]).Err?
    ensures exists y, s0 ::
      0 <= y < |ns0| && s0 in ns0[y].edges && Untaken(ss0, s0, y) && Follow(g, y, [s0]).Err?
  {
    var s0 :| s0 in ns[x].edges && Untaken(ss, s0, x) && Follow(ShapeOf(ns, ss), x, [s0]).Err?;
    assert ns0[x].edges == g.lists[x] == ns[x].edges;
    assert Untaken(ss0, s0, x);
  }

  /** The `for (let node of intNodes)` loop of `union`: the loops of every node in turn,
      each added to its node's `nodeLoops` and to the result. */
  method UnionLoops(arr: Arrangement) returns (r: Result<seq<seq<Vec>>>, ghost starts: seq<nat>, ghost walks: seq<seq<nat>>)
    requires WellLinked(ShapeOf(arr.nodes, arr.sequences))
    modifies arr
    ensures |arr.nodes| == |old(arr.nodes)|
    ensures ShapeOf(arr.nodes, arr.sequences) == ShapeOf(old(arr.nodes), old(arr.sequences))
    ensures Monotone(old(arr.sequences), arr.sequences)
    ensures r.Ok? ==> UnionLog(ShapeOf(old(arr.nodes), old(arr.sequences)), old(arr.sequences), starts, walks, r.value)
    ensures r.Ok? ==> VisitedBy(old(arr.sequences), arr.sequences, walks)
    ensures r.Ok? ==> forall y :: 0 <= y < |arr.nodes| ==> Settled(arr.nodes, arr.sequences, y)
    ensures r.Ok? ==> DoneBefore(ShapeOf(old(arr.nodes), old(arr.sequences)), old(arr.sequences), walks, |arr.nodes|)
    ensures r.Ok? ==> |r.value| == |starts| && HoldsLoops(old(arr.nodes), arr.nodes, r.value, starts)
    ensures r.Err? ==>
      exists y, s0 :: 0 <= y < |old(arr.nodes)| && s0 in old(arr.nodes)[y].edges &&
        Untaken(old(arr.sequences), s0, y) && Follow(ShapeOf(old(arr.nodes), old(arr.sequences)), y, [s0]).Err?
  {
    ghost var g := ShapeOf(arr.nodes, arr.sequences);
    ghost var ns0, ss0 := arr.nodes, arr.sequences;
    var unionLoops: seq<seq<Vec>> := [];
    starts, walks := [], [];
    CollectedStart(ns0, ss0);
    var x := 0;
    while x < |arr.nodes|
      invariant Collected(g, ns0, ss0, x, arr.nodes, arr.sequences, starts, walks, unionLoops)
      decreases |arr.nodes| - x
    {
      ghost var nsBefore, ssBefore := arr.nodes, arr.sequences;
      var loops;
      ghost var more;
      loops, more := NodeLoops(arr, x);
      if loops.Err? {
        CollectedErr(g, ns0, ss0, x, nsBefore, ssBefore, starts, walks, unionLoops);
        return Err(loops.msg), starts, walks;
      }
      CollectedStep(g, ns0, ss0, x, nsBefore, ssBefore, arr.nodes, arr.sequences,
                    starts, walks, unionLoops, more, loops.value);
      unionLoops := unionLoops + loops.value;
      starts := starts + Repeat(x, |more|);
      walks := walks + more;
      x := x + 1;
    }
    SettledDone(g, arr.nodes, ss0, arr.sequences, walks, x);
    return Ok(unionLoops), starts, walks;
  }

  // ---------------------------------------------------------------------------------------
  // Sorting the edge lists, and the whole of `union`

  /** Each `orders[x]` lists the same sequences as node `x`'s edge list, possibly in
      another order: what the angular sort at the end of `polyIntersect` produces. */
  ghost predicate Permutes(ns: seq<NodeData>, orders: seq<seq<nat>>) {
    |orders| == |ns| && forall x :: 0 <= x < |ns| ==> multiset(orders[x]) == multiset(ns[x].edges)
  }

  /** The nodes with their edge lists replaced by `orders`. */
  function Reordered(ns: seq<NodeData>, orders: seq<seq<nat>>): (ns': seq<NodeData>)
    requires |orders| == |ns|
    ensures |ns'| == |ns| && forall x :: 0 <= x < |ns| ==> ns'[x] == ns[x].(edges := orders[x])
  {
    seq(|ns|, x requires 0 <= x < |ns| => ns[x].(edges := orders[x]))
  }

  /** Reordering the edge lists keeps the arrangement well linked. */
  lemma ReorderKeepsLinked(ns: seq<NodeData>, ss: seq<EdgeSequence>, orders: seq<seq<nat>>)
    requires WellLinked(ShapeOf(ns, ss)) && Permutes(ns, orders)
    ensures WellLinked(ShapeOf(Reordered(ns, orders), ss))
  {
    var g, g' := ShapeOf(ns, ss), ShapeOf(Reordered(ns, orders), ss);
    forall x, k | 0 <= x < |g'.lists| && 0 <= k < |g'.lists[x]|
      ensures g'.lists[x][k] < |g'.ends|
    {
      var e := orders[x][k];
      assert g'.lists[x] == orders[x];
      assert e in multiset(orders[x]);
      assert e in ns[x].edges;
      var k' :| 0 <= k' < |ns[x].edges| && ns[x].edges[k'] == e;
      assert g.lists[x][k'] == e;
    }
    forall s | 0 <= s < |g'.ends|
      ensures g'.ends[s].Some? && g'.ends[s].value < |g'.lists| && s in g'.lists[g'.ends[s].value]
    {
      var y := g.ends[s].value;
      assert s in ns[y].edges;
      assert s in multiset(ns[y].edges);
      assert s in orders[y];
      assert g'.lists[y] == orders[y];
    }
  }

  /** The `n.edges.sort(...)` of every node, given the orders the sort arrives at. */
  method SortEdges(arr: Arrangement, orders: seq<seq<nat>>)
    requires Permutes(arr.nodes, orders)
    modifies arr
    ensures arr.nodes == Reordered(old(arr.nodes), orders) && arr.sequences == old(arr.sequences)
  {
    ghost var ns0 := arr.nodes;
    var x := 0;
    while x < |arr.nodes|
      invariant |arr.nodes| == |ns0| && x <= |ns0| && arr.sequences == old(arr.sequences)
      invariant forall y :: 0 <= y < x ==> arr.nodes[y] == ns0[y].(edges := orders[y])
      invariant forall y :: x <= y < |ns0| ==> arr.nodes[y] == ns0[y]
    {
      arr.nodes := arr.nodes[x := arr.nodes[x].(edges := orders[x])];
      x := x + 1;
    }
    assert forall y :: 0 <= y < |ns0| ==> arr.nodes[y] == Reordered(ns0, orders)[y];
  }

  /** The shape `union` walks: the arrangement of the two polygons with each node's edge
      list in the given order. */
  ghost function Arranged(v1: seq<Vec>, v2: seq<Vec>, orders: seq<seq<nat>>): Shape
    requires |orders| == |ArrangedNodes(v1, v2)|
  {
    ShapeOf(Reordered(ArrangedNodes(v1, v2), orders), ArrangedSequences(v1, v2))
  }

  /** `polyIntersect` fails: a polygon with vertices has no crossing. */
  ghost predicate NoCrossing(v1: seq<Vec>, v2: seq<Vec>) {
    (v1 != [] && FirstOrder(v1, v2) == []) || (v2 != [] && SecondOrder(v1, v2) == [])
  }

  /** Once every node is settled, every sequence that leaves a node was taken by a walk. */
  lemma AllTaken(ns: seq<NodeData>, ss0: seq<EdgeSequence>, ss: seq<EdgeSequence>, walks: seq<seq<nat>>)
    requires WellLinked(ShapeOf(ns, ss)) && VisitedBy(ss0, ss, walks)
    requires forall s :: 0 <= s < |ss0| ==> !ss0[s].visited
    requires forall y :: 0 <= y < |ns| ==> Settled(ns, ss, y)
    ensures forall y, s :: 0 <= y < |ns| && s in ns[y].edges && !Arrives(ShapeOf(ns, ss), s, y) ==>
      InWalks(walks, s)
  {
    var g := ShapeOf(ns, ss);
    forall y, s | 0 <= y < |ns| && s in ns[y].edges && !Arrives(g, s, y)
      ensures InWalks(walks, s)
    {
      var k :| 0 <= k < |ns[y].edges| && ns[y].edges[k] == s;
      assert g.lists[y][k] == s && Settled(ns, ss, y);
      assert !Untaken(ss, ns[y].edges[k], y);
      assert ss[s].visited;
    }
  }

  /** At most one sequence of a node's list is the first open one. */
  lemma FirstOpenUnique(g: Shape, ss0: seq<EdgeSequence>, walks: seq<seq<nat>>, x: nat, s: nat, t: nat)
    requires FirstOpen(g, ss0, walks, x, s) && FirstOpen(g, ss0, walks, x, t)
    ensures s == t
  {
    var l := g.lists[x];
    var a, b := FirstIndex(l, s), FirstIndex(l, t);
    NoneOpenEach(g, ss0, walks, x, l[..a]);
    NoneOpenEach(g, ss0, walks, x, l[..b]);
    assert forall k :: 0 <= k < a ==> l[..a][k] == l[k];
    assert forall k :: 0 <= k < b ==> l[..b][k] == l[k];
  }

  /** An entry's walk starts at a node with an open sequence, so no entry with nothing open
      before a later node can start earlier than it. */
  lemma StartIsLeast(g: Shape, ss0: seq<EdgeSequence>, walks: seq<seq<nat>>, x: nat, s: nat, x': nat)
    requires FirstOpen(g, ss0, walks, x, s) && DoneBefore(g, ss0, walks, x')
    ensures x' <= x
  {
    assert x < |g.lists| && s in g.lists[x] && OpenAfter(g, ss0, walks, s, x);
  }

  /** Two entries after the same walks start at the same node and take the same walk. */
  lemma EntriesAgree(g: Shape, ss0: seq<EdgeSequence>, walks: seq<seq<nat>>,
                     x: nat, w: seq<nat>, loop: seq<Vec>, x': nat, w': seq<nat>, loop': seq<Vec>)
    requires Walked(g, x, w, loop) && DoneBefore(g, ss0, walks, x) && FirstOpen(g, ss0, walks, x, w[0])
    requires Walked(g, x', w', loop') && DoneBefore(g, ss0, walks, x') && FirstOpen(g, ss0, walks, x', w'[0])
    ensures x == x' && w == w' && loop == loop'
  {
    StartIsLeast(g, ss0, walks, x, w[0], x');
    StartIsLeast(g, ss0, walks, x', w'[0], x);
    FirstOpenUnique(g, ss0, walks, x, w[0], w'[0]);
  }

  /** Equal prefixes of length `n` with equal elements at `n` are equal prefixes of `n + 1`. */
  lemma PrefixStep<T>(a: seq<T>, b: seq<T>, n: nat)
    requires n < |a| && n < |b| && a[..n] == b[..n] && a[n] == b[n]
    ensures a[..n + 1] == b[..n + 1]
  {
    assert a[..n + 1] == a[..n] + [a[n]] && b[..n + 1] == b[..n] + [b[n]];
  }

  /** Two logs over the same shape and flags agree on every entry both have. */
  lemma {:induction false} LogsAgree(g: Shape, ss0: seq<EdgeSequence>,
                                     starts: seq<nat>, walks: seq<seq<nat>>, loops: seq<seq<Vec>>,
                                     starts': seq<nat>, walks': seq<seq<nat>>, loops': seq<seq<Vec>>, n: nat)
    requires UnionLog(g, ss0, starts, walks, loops) && UnionLog(g, ss0, starts', walks', loops')
    requires n <= |walks| && n <= |walks'|
    ensures starts[..n] == starts'[..n] && walks[..n] == walks'[..n] && loops[..n] == loops'[..n]
    decreases n
  {
    if n > 0 {
      var i := n - 1;
      LogsAgree(g, ss0, starts, walks, loops, starts', walks', loops', i);
      assert Entry(g, ss0, starts, walks, loops, i) && Entry(g, ss0, starts', walks', loops', i);
      EntriesAgree(g, ss0, walks[..i], starts[i], walks[i], loops[i], starts'[i], walks'[i], loops'[i]);
      PrefixStep(starts, starts', i);
      PrefixStep(walks, walks', i);
      PrefixStep(loops, loops', i);
    }
  }

  /** Every logged walk starts on a sequence still open after the walks before it. */
  lemma EntryOpen(g: Shape, ss0: seq<EdgeSequence>, starts: seq<nat>, walks: seq<seq<nat>>,
                  loops: seq<seq<Vec>>, i: nat)
    requires UnionLog(g, ss0, starts, walks, loops) && i < |walks|
    ensures starts[i] < |g.lists| && walks[i] != [] && walks[i][0] in g.lists[starts[i]] &&
      OpenAfter(g, ss0, walks[..i], walks[i][0], starts[i])
  {
    assert Entry(g, ss0, starts, walks, loops, i);
  }

  /** The loops of `union`, and the order they come in, are determined by the shape and the
      first flags: two logs that both leave no sequence open are the same log. */
  lemma UnionLogUnique(g: Shape, ss0: seq<EdgeSequence>,
                       starts: seq<nat>, walks: seq<seq<nat>>, loops: seq<seq<Vec>>,
                       starts': seq<nat>, walks': seq<seq<nat>>, loops': seq<seq<Vec>>)
    requires UnionLog(g, ss0, starts, walks, loops) && DoneBefore(g, ss0, walks, |g.lists|)
    requires UnionLog(g, ss0, starts', walks', loops') && DoneBefore(g, ss0, walks', |g.lists|)
    ensures starts == starts' && walks == walks' && loops == loops'
  {
    var n := if |walks| <= |walks'| then |walks| else |walks'|;
    LogsAgree(g, ss0, starts, walks, loops, starts', walks', loops', n);
    if n < |walks'| {
      EntryOpen(g, ss0, starts', walks', loops', n);
      assert false;
    }
    if n < |walks| {
      EntryOpen(g, ss0, starts, walks, loops, n);
      assert false;
    }
    assert starts == starts[..n] && walks == walks[..n] && loops == loops[..n];
    assert starts' == starts'[..n] && walks' == walks'[..n] && loops' == loops'[..n];
  }

  /** Sorting the edge lists of a freshly built arrangement and collecting the loops of
      every node. */
  method SortedLoops(arr: Arrangement, orders: seq<seq<nat>>)
    returns (r: Result<seq<seq<Vec>>>, ghost starts: seq<nat>, ghost walks: seq<seq<nat>>)
    requires WellLinked(ShapeOf(arr.nodes, arr.sequences)) && Permutes(arr.nodes, orders)
    requires forall s :: 0 <= s < |arr.sequences| ==> !arr.sequences[s].visited
    modifies arr
    ensures WellLinked(ShapeOf(Reordered(old(arr.nodes), orders), old(arr.sequences)))
    ensures r.Ok? ==> UnionLog(ShapeOf(Reordered(old(arr.nodes), orders), old(arr.sequences)),
                                 old(arr.sequences), starts, walks, r.value)
    ensures r.Ok? ==> DoneBefore(ShapeOf(Reordered(old(arr.nodes), orders), old(arr.sequences)),
                                   old(arr.sequences), walks, |orders|)
    ensures r.Ok? ==> forall y, s ::
      0 <= y < |orders| && s in orders[y] &&
      !Arrives(ShapeOf(Reordered(old(arr.nodes), orders), old(arr.sequences)), s, y) ==>
      InWalks(walks, s)
    ensures r.Err? ==>
      exists y, s0 :: 0 <= y < |orders| && s0 in orders[y] &&
        !Arrives(ShapeOf(Reordered(old(arr.nodes), orders), old(arr.sequences)), s0, y) &&
        Follow(ShapeOf(Reordered(old(arr.nodes), orders), old(arr.sequences)), y, [s0]).Err?
  {
    ghost var ns, ss := arr.nodes, arr.sequences;
    ReorderKeepsLinked(ns, ss, orders);
    SortEdges(arr, orders);
    ghost var g := ShapeOf(arr.nodes, arr.sequences);
    assert g == ShapeOf(Reordered(ns, orders), ss);
    ghost var sorted := arr.nodes;
    assert forall y :: 0 <= y < |orders| ==> sorted[y].edges == g.lists[y] == orders[y];
    r, starts, walks := UnionLoops(arr);
    assert forall y :: 0 <= y < |orders| ==> arr.nodes[y].edges == g.lists[y];
    if r.Ok? {
      AllTaken(arr.nodes, ss, arr.sequences, walks);
    } else {
      ghost var y, s0 :| 0 <= y < |sorted| && s0 in sorted[y].edges && Untaken(ss, s0, y) &&
        Follow(g, y, [s0]).Err?;
      assert !Arrives(g, s0, y);
    }
  }

  /** `union(verts1, verts2)`, with the orders the angular sort puts each node's edge list
      in: builds the arrangement, sorts it, and collects the loops of every node. */
  method Union(verts1: seq<Vec>, verts2: seq<Vec>, orders: seq<seq<nat>>)
    returns (r: Result<seq<seq<Vec>>>, ghost starts: seq<nat>, ghost walks: seq<seq<nat>>)
    requires Permutes(ArrangedNodes(verts1, verts2), orders)
    ensures WellLinked(Arranged(verts1, verts2, orders))
    ensures NoCrossing(verts1, verts2) ==> r.Err?
    ensures r.Ok? ==>
      UnionLog(Arranged(verts1, verts2, orders), ArrangedSequences(verts1, verts2), starts, walks, r.value)
    ensures r.Ok? ==> DoneBefore(Arranged(verts1, verts2, orders), ArrangedSequences(verts1, verts2), walks, |orders|)
    ensures r.Ok? ==> forall y, s ::
      0 <= y < |orders| && s in orders[y] && !Arrives(Arranged(verts1, verts2, orders), s, y) ==>
      InWalks(walks, s)
    ensures r.Err? ==>
      NoCrossing(verts1, verts2) ||
      exists y, s0 :: 0 <= y < |orders| && s0 in orders[y] &&
        !Arrives(Arranged(verts1, verts2, orders), s0, y) &&
        Follow(Arranged(verts1, verts2, orders), y, [s0]).Err?
  {
    ghost var ns, ss := ArrangedNodes(verts1, verts2), ArrangedSequences(verts1, verts2);
    ArrangementLinked(verts1, verts2);
    LinkedShape(ns, ss);
    ReorderKeepsLinked(ns, ss, orders);
    starts, walks := [], [];
    var built := PolyIntersect(verts1, verts2);
    if built.Err? {
      return Err(built.msg), starts, walks;
    }
    var arr := built.value;
    ArrangedFresh(verts1, verts2);
    r, starts, walks := SortedLoops(arr, orders);
  }
}
