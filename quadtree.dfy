/** The quad tree of the collision manager (`QuadNode`) and the manager itself: forms are
    filed at the deepest node whose quarter alone they touch, and a query gathers the forms of
    every node its rectangle reaches before testing each one exactly. */
module QuadTree {
  import opened Vectors
  import opened Results
  import opened Bounds
  import opened Forms

  /** Quarter `k` of `r` (0 top-left, 1 top-right, 2 bottom-left, 3 bottom-right), each built
      from one corner of `r` and the midpoint lines. */
  function Quadrant(r: Rect, k: nat): Rect
    requires r.Rect? && k < 4
  {
    var halflineX := (r.topLeft.x + r.bottomRight.x) * 0.5;
    var halflineY := (r.topLeft.y + r.bottomRight.y) * 0.5;
    if k == 0 then MakeRect(r.topLeft.x, halflineX, r.topLeft.y, halflineY)
    else if k == 1 then MakeRect(r.bottomRight.x, halflineX, r.topLeft.y, halflineY)
    else if k == 2 then MakeRect(r.topLeft.x, halflineX, r.bottomRight.y, halflineY)
    else MakeRect(r.bottomRight.x, halflineX, r.bottomRight.y, halflineY)
  }

  /** Each quarter lies inside its rectangle. */
  lemma QuadrantInside(r: Rect, k: nat)
    requires r.Rect? && Normalised(r) && k < 4
    ensures Inside(Quadrant(r, k), r)
  {
  }

  /** The four quarters cover their rectangle. */
  lemma QuadrantsCover(r: Rect, p: Vec)
    requires r.Rect? && Normalised(r) && Contains(r, p)
    ensures exists k :: 0 <= k < 4 && Contains(Quadrant(r, k), p)
  {
    var halflineX := (r.topLeft.x + r.bottomRight.x) * 0.5;
    var halflineY := (r.topLeft.y + r.bottomRight.y) * 0.5;
    var k := (if p.x <= halflineX then 0 else 1) + (if p.y <= halflineY then 0 else 2);
    assert Contains(Quadrant(r, k), p);
  }

  /** How many of `rs` meet `fr`. */
  function CountHits(fr: Rect, rs: seq<Rect>): nat
    decreases |rs|
  {
    if rs == [] then 0
    else CountHits(fr, rs[..|rs| - 1]) + (if Intersects(fr, rs[|rs| - 1]) then 1 else 0)
  }

  /** The index of the last of `rs` that meets `fr`, or -1. */
  function LastHit(fr: Rect, rs: seq<Rect>): (k: int)
    ensures -1 <= k < |rs|
    ensures k >= 0 ==> Intersects(fr, rs[k])
    decreases |rs|
  {
    if rs == [] then -1
    else if Intersects(fr, rs[|rs| - 1]) then |rs| - 1
    else LastHit(fr, rs[..|rs| - 1])
  }

  lemma {:induction false} LastHitFound(fr: Rect, rs: seq<Rect>)
    ensures LastHit(fr, rs) == -1 <==> CountHits(fr, rs) == 0
    decreases |rs|
  {
    if rs != [] {
      LastHitFound(fr, rs[..|rs| - 1]);
    }
  }

  /** Extending the rectangles by one updates the count and the last hit. */
  lemma HitsStep(fr: Rect, rs: seq<Rect>, i: nat)
    requires i < |rs|
    ensures CountHits(fr, rs[..i + 1]) == CountHits(fr, rs[..i]) + (if Intersects(fr, rs[i]) then 1 else 0)
    ensures LastHit(fr, rs[..i + 1]) == if Intersects(fr, rs[i]) then i else LastHit(fr, rs[..i])
  {
    assert rs[..i + 1][..i] == rs[..i];
  }

  /** A rectangle that meets `fr` is counted, and when it is the only one it is the one
      `LastHit` names. */
  lemma {:induction false} HitCounted(fr: Rect, rs: seq<Rect>, k: nat)
    requires k < |rs| && Intersects(fr, rs[k])
    ensures CountHits(fr, rs) >= 1
    ensures CountHits(fr, rs) == 1 ==> LastHit(fr, rs) == k
    decreases |rs|
  {
    if k < |rs| - 1 {
      var pre := rs[..|rs| - 1];
      assert pre[k] == rs[k];
      HitCounted(fr, pre, k);
    }
  }

  class QuadNode {
    /** The node's `boundingRect`. */
    const rect: Rect
    /** The children `topLeft`, `topRight`, `bottomLeft`, `bottomRight`, or none at depth 0. */
    const children: seq<QuadNode>
    /** The depth the node was built with. */
    ghost const depth: nat
    /** The nodes of the subtree (and possibly more: only what the proofs need is kept). */
    ghost const Repr: set<QuadNode>
    /** The positions of the children taken from the root down to this node. */
    ghost const path: seq<nat>
    var forms: seq<Shape>

    /** The children's rectangles, in order. */
    function ChildRects(): (rs: seq<Rect>)
      ensures |rs| == |children| && forall k :: 0 <= k < |children| ==> rs[k] == children[k].rect
    {
      seq(|children|, k requires 0 <= k < |children| => children[k].rect)
    }

    /** The shape the constructor gives the tree: a leaf at depth 0, otherwise four subtrees
        one level shallower on the four quarters of the node's rectangle. */
    ghost predicate Valid()
      decreases depth
    {
      this in Repr && rect.Rect? && Normalised(rect) &&
      (depth == 0 ==> children == []) &&
      (depth > 0 ==>
        |children| == 4 &&
        forall k :: 0 <= k < 4 ==>
          children[k].Repr <= Repr && children[k].depth == depth - 1 &&
          children[k].rect == Quadrant(rect, k) && children[k].Valid())
    }

    /** Each child's path is this node's followed by the child's position. */
    ghost predicate Placed()
      requires Valid()
      decreases depth
    {
      forall k :: 0 <= k < |children| ==> children[k].path == path + [k] && children[k].Placed()
    }

    /** `new QuadNode(br, depth)`: the full tree of the given depth, every node empty; `path`
        names the node's place below the root. */
    constructor (br: Rect, depth: nat, ghost path: seq<nat>)
      requires br.Rect? && Normalised(br)
      ensures Valid() && Placed() && rect == br && this.depth == depth && this.path == path
      ensures forall n :: n in Repr ==> n.forms == []
      decreases depth
    {
      forms := [];
      rect := br;
      this.depth := depth;
      this.path := path;
      if depth == 0 {
        children := [];
        Repr := {this};
      } else {
        var topLeft := new QuadNode(Quadrant(br, 0), depth - 1, path + [0]);
        var topRight := new QuadNode(Quadrant(br, 1), depth - 1, path + [1]);
        var bottomLeft := new QuadNode(Quadrant(br, 2), depth - 1, path + [2]);
        var bottomRight := new QuadNode(Quadrant(br, 3), depth - 1, path + [3]);
        children := [topLeft, topRight, bottomLeft, bottomRight];
        Repr := {this} + topLeft.Repr + topRight.Repr + bottomLeft.Repr + bottomRight.Repr;
      }
    }

    /** The node `addCollisionForm` files a form with rectangle `fr` at: a leaf, or the first
        node at which two or more quarters meet `fr`; it descends into the only quarter `fr`
        meets, and fails (the source dereferences a missing child) when `fr` meets none. */
    ghost function Target(fr: Rect): (t: Option<QuadNode>)
      requires Valid()
      ensures t.Some? ==> t.value in Repr && t.value.Valid()
      decreases depth
    {
      if depth == 0 then Some(this)
      else
        var qs := ChildRects();
        var hits := CountHits(fr, qs);
        if hits >= 2 then Some(this)
        else if hits == 0 then None
        else
          LastHitFound(fr, qs);
          children[LastHit(fr, qs)].Target(fr)
    }

    /** The nodes `addCollisionForm` may change. */
    ghost function TargetSet(fr: Rect): set<QuadNode>
      requires Valid()
    {
      var t := Target(fr);
      if t.Some? then {t.value} else {}
    }

    /** `addCollisionForm`: the form is appended to the forms of `Target`, and nothing else
        changes; `ok` is false where the source would throw. */
    method AddCollisionForm(form: Shape) returns (ok: bool)
      requires Valid()
      modifies TargetSet(ShapeRect(form))
      ensures ok <==> Target(ShapeRect(form)).Some?
      ensures ok ==> Target(ShapeRect(form)).value.forms == old(Target(ShapeRect(form)).value.forms) + [form]
      decreases depth
    {
      var addHere := true;
      var addTo: QuadNode? := null;
      var nodesCount := 0;
      var formBr := ShapeRect(form);
      ghost var qs := ChildRects();
      for i := 0 to |children|
        invariant addHere <==> i == 0
        invariant nodesCount == CountHits(formBr, qs[..i])
        invariant addTo == null <==> LastHit(formBr, qs[..i]) == -1
        invariant addTo != null ==> addTo == children[LastHit(formBr, qs[..i])]
        invariant unchanged(TargetSet(formBr))
      {
        var node := children[i];
        HitsStep(formBr, qs, i);
        addHere := false;
        if Intersects(formBr, node.rect) {
          addTo := node;
          nodesCount := nodesCount + 1;
        }
      }
      if nodesCount >= 2 {
        addHere := true;
      }
      assert qs[..|children|] == qs;
      if addHere {
        assert Target(formBr) == Some(this);
        forms := forms + [form];
        ok := true;
      } else if addTo == null {
        LastHitFound(formBr, qs);
        ok := false;
      } else {
        LastHitFound(formBr, qs);
        assert Target(formBr) == addTo.Target(formBr);
        ok := addTo.AddCollisionForm(form);
      }
    }

    /** A form is filed nowhere exactly when the tree has children and the form's rectangle
        misses the root's rectangle. */
    lemma {:induction false} TargetNone(fr: Rect)
      requires Valid() && Normalised(fr)
      ensures Target(fr).None? <==> depth > 0 && !Intersects(fr, rect)
      decreases depth
    {
      if depth > 0 {
        var qs := ChildRects();
        LastHitFound(fr, qs);
        if Intersects(fr, rect) {
          IntersectsIffCommonPoint(fr, rect);
          var p :| Contains(fr, p) && Contains(rect, p);
          QuadrantsCover(rect, p);
          var k :| 0 <= k < 4 && Contains(Quadrant(rect, k), p);
          IntersectsIffCommonPoint(fr, Quadrant(rect, k));
          HitCounted(fr, qs, k);
          if CountHits(fr, qs) == 1 {
            var c := children[LastHit(fr, qs)];
            c.TargetNone(fr);
          }
        } else if CountHits(fr, qs) > 0 {
          var k := LastHit(fr, qs);
          IntersectsIffCommonPoint(fr, qs[k]);
          var p :| Contains(fr, p) && Contains(qs[k], p);
          QuadrantInside(rect, k);
          IntersectsIffCommonPoint(fr, rect);
        }
      }
    }

    /** Where a form is filed: at a leaf or at a node where it meets two quarters or more;
        the node's rectangle holds every point of the form's rectangle that lies in this
        node's rectangle, and meets the form's rectangle whenever this node's does. */
    lemma {:induction false} TargetCovers(fr: Rect, p: Vec)
      requires Valid() && Normalised(fr) && Target(fr).Some?
      ensures Target(fr).value.depth == 0 || CountHits(fr, Target(fr).value.ChildRects()) >= 2
      ensures Contains(fr, p) && Contains(rect, p) ==> Contains(Target(fr).value.rect, p)
      ensures Intersects(fr, rect) ==> Intersects(fr, Target(fr).value.rect)
      decreases depth
    {
      if depth > 0 {
        var qs := ChildRects();
        LastHitFound(fr, qs);
        if CountHits(fr, qs) == 1 {
          var c := children[LastHit(fr, qs)];
          c.TargetCovers(fr, p);
          if Contains(fr, p) && Contains(rect, p) {
            QuadrantsCover(rect, p);
            var k :| 0 <= k < 4 && Contains(Quadrant(rect, k), p);
            IntersectsIffCommonPoint(fr, Quadrant(rect, k));
            HitCounted(fr, qs, k);
          }
        }
      }
    }

    /** `searchNodeFor`: the first node, in the order top-left, top-right, bottom-left,
        bottom-right, whose subtree search succeeds, or this node, or null when the point is
        outside. */
    function SearchNodeFor(p: Vec): (r: QuadNode?)
      requires Valid()
      ensures r == null <==> !Contains(rect, p)
      ensures r != null ==> r in Repr && r.Valid() && Contains(r.rect, p)
      decreases depth, 5
    {
      if !Contains(rect, p) then null else SearchChildren(p, 0)
    }

    /** The loop of `searchNodeFor` from child `k` on. */
    function SearchChildren(p: Vec, k: nat): (r: QuadNode)
      requires Valid() && k <= |children| && Contains(rect, p)
      ensures r in Repr && r.Valid() && Contains(r.rect, p)
      decreases depth, |children| - k
    {
      if k == |children| then this
      else
        var res := children[k].SearchNodeFor(p);
        if res != null then res else SearchChildren(p, k + 1)
    }

    /** A point of the rectangle is always found in a leaf: the quarters cover their node. */
    lemma {:induction false} SearchFindsLeaf(p: Vec)
      requires Valid() && Contains(rect, p)
      ensures SearchNodeFor(p) != null && SearchNodeFor(p).depth == 0
      decreases depth, 5
    {
      if depth > 0 {
        QuadrantsCover(rect, p);
        var j :| 0 <= j < 4 && Contains(Quadrant(rect, j), p);
        SearchChildrenLeaf(p, 0, j);
      }
    }

    lemma {:induction false} SearchChildrenLeaf(p: Vec, k: nat, j: nat)
      requires Valid() && depth > 0 && Contains(rect, p)
      requires k <= j < 4 && Contains(children[j].rect, p)
      ensures SearchChildren(p, k).depth == 0
      decreases depth, 4 - k
    {
      var res := children[k].SearchNodeFor(p);
      if res != null {
        children[k].SearchFindsLeaf(p);
      } else {
        SearchChildrenLeaf(p, k + 1, j);
      }
    }

    /** The nodes `deepSearch` pushes, in order: this node when its rectangle meets `q`,
        followed by those of each child's subtree. */
    ghost function Visit(q: Rect): seq<QuadNode>
      requires Valid()
      decreases depth, 5
    {
      if Intersects(rect, q) then [this] + VisitChildren(q, |children|) else []
    }

    /** The nodes pushed by the first `k` children's searches. */
    ghost function VisitChildren(q: Rect, k: nat): seq<QuadNode>
      requires Valid() && k <= |children|
      decreases depth, k
    {
      if k == 0 then [] else VisitChildren(q, k - 1) + children[k - 1].Visit(q)
    }

    /** Only nodes of the subtree whose rectangles meet `q` are visited. */
    lemma {:induction false} VisitSound(q: Rect)
      requires Valid()
      ensures forall n :: n in Visit(q) ==> n in Repr && n.Valid() && Intersects(n.rect, q)
      decreases depth, 5
    {
      if Intersects(rect, q) {
        VisitChildrenSound(q, |children|);
      }
    }

    lemma {:induction false} VisitChildrenSound(q: Rect, k: nat)
      requires Valid() && k <= |children|
      ensures forall n :: n in VisitChildren(q, k) ==> n in Repr && n.Valid() && Intersects(n.rect, q)
      decreases depth, k
    {
      if k > 0 {
        VisitChildrenSound(q, k - 1);
        children[k - 1].VisitSound(q);
      }
    }

    /** The search lists every node at most once, and only nodes below this one. */
    lemma {:induction false} VisitOnce(q: Rect)
      requires Valid() && Placed()
      ensures forall n :: n in Visit(q) ==> path <= n.path
      ensures NoRepeats(Visit(q))
      decreases depth, 5
    {
      if Intersects(rect, q) {
        var rest := VisitChildren(q, |children|);
        VisitChildrenOnce(q, |children|);
        assert this !in rest;
        Concatenated([this], rest);
      }
    }

    /** The children's searches list distinct nodes, each below the child it came from. */
    lemma {:induction false} VisitChildrenOnce(q: Rect, k: nat)
      requires Valid() && Placed() && k <= |children|
      ensures forall n :: n in VisitChildren(q, k) ==>
        path < n.path && n.path[|path|] < k
      ensures NoRepeats(VisitChildren(q, k))
      decreases depth, k
    {
      if k > 0 {
        var c := children[k - 1];
        VisitChildrenOnce(q, k - 1);
        c.VisitOnce(q);
        forall n | n in c.Visit(q)
          ensures path < n.path && n.path[|path|] == k - 1
        {
          assert path + [k - 1] <= n.path;
        }
        Concatenated(VisitChildren(q, k - 1), c.Visit(q));
      }
    }

    /** `deepSearch(node, form, resArray)`: pushes onto `found` the nodes whose rectangles
        meet `q`, descending only below those. */
    method DeepSearch(q: Rect, found: seq<QuadNode>) returns (res: seq<QuadNode>)
      requires Valid()
      ensures res == found + Visit(q)
      decreases depth
    {
      res := found;
      if Intersects(rect, q) {
        res := res + [this];
        for i := 0 to |children|
          invariant res == found + [this] + VisitChildren(q, i)
        {
          res := children[i].DeepSearch(q, res);
          assert VisitChildren(q, i + 1) == VisitChildren(q, i) + children[i].Visit(q);
        }
      }
    }

    /** The search reaches the node a form is filed at whenever the query rectangle shares
        a point with the form's rectangle inside this node's rectangle. */
    lemma {:induction false} VisitReachesTarget(fr: Rect, q: Rect, p: Vec)
      requires Valid() && Normalised(fr) && Normalised(q) && Target(fr).Some?
      requires Contains(fr, p) && Contains(q, p) && Contains(rect, p)
      ensures Target(fr).value in Visit(q)
      decreases depth
    {
      IntersectsIffCommonPoint(rect, q);
      if depth > 0 {
        var qs := ChildRects();
        LastHitFound(fr, qs);
        if CountHits(fr, qs) == 1 {
          var k := LastHit(fr, qs);
          QuadrantsCover(rect, p);
          var j :| 0 <= j < 4 && Contains(Quadrant(rect, j), p);
          IntersectsIffCommonPoint(fr, Quadrant(rect, j));
          HitCounted(fr, qs, j);
          children[k].VisitReachesTarget(fr, q, p);
          VisitChildrenHas(q, |children|, k);
        }
      }
    }

    lemma {:induction false} VisitChildrenHas(q: Rect, k: nat, j: nat)
      requires Valid() && j < k <= |children|
      ensures forall n :: n in children[j].Visit(q) ==> n in VisitChildren(q, k)
      decreases k
    {
      if j < k - 1 {
        VisitChildrenHas(q, k - 1, j);
      }
    }
  }

  /** No node appears twice in `ns`. */
  ghost predicate NoRepeats(ns: seq<QuadNode>) {
    forall i, j :: 0 <= i < j < |ns| ==> ns[i] != ns[j]
  }

  lemma Concatenated(a: seq<QuadNode>, b: seq<QuadNode>)
    requires NoRepeats(a) && NoRepeats(b) && forall n :: n in a ==> n !in b
    ensures NoRepeats(a + b)
  {
    forall i, j | 0 <= i < j < |a + b|
      ensures (a + b)[i] != (a + b)[j]
    {
      if i < |a| && j >= |a| {
        assert (a + b)[i] in a && (a + b)[j] == b[j - |a|];
      }
    }
  }

  /** A stored form `f` is reported for a query `c`: the rectangles meet, the pair can be
      evaluated, and the forms intersect. */
  predicate Hit(f: Shape, c: Shape) {
    Intersects(ShapeRect(f), ShapeRect(c)) && FormsDefined(f, c) && FormIntersects(f, c)
  }

  /** The condition `collisionsWith` tests each form with, left to right: the exact test
      runs only when the rectangles meet. */
  method TestForm(f: Shape, c: Shape) returns (hit: bool)
    requires Intersects(ShapeRect(f), ShapeRect(c)) ==> FormsDefined(f, c)
    ensures hit == Hit(f, c)
  {
    hit := false;
    if Intersects(ShapeRect(f), ShapeRect(c)) {
      hit := FormIntersect(f, c);
    }
  }

  /** The forms of `fs` that `collisionsWith` reports, in order. */
  function Matches(fs: seq<Shape>, c: Shape): (ms: seq<Shape>)
    decreases |fs|
  {
    if fs == [] then []
    else Matches(fs[..|fs| - 1], c) + (if Hit(fs[|fs| - 1], c) then [fs[|fs| - 1]] else [])
  }

  lemma MatchesStep(fs: seq<Shape>, j: nat, c: Shape)
    requires j < |fs|
    ensures Matches(fs[..j + 1], c) == Matches(fs[..j], c) + (if Hit(fs[j], c) then [fs[j]] else [])
  {
    assert fs[..j + 1][..j] == fs[..j];
  }

  /** The inner loop of `collisionsWith`: appends the forms of `fs` that hit `c`, in order. */
  method AppendMatches(acc: seq<Shape>, fs: seq<Shape>, c: Shape) returns (res: seq<Shape>)
    requires forall f :: f in fs && Intersects(ShapeRect(f), ShapeRect(c)) ==> FormsDefined(f, c)
    ensures res == acc + Matches(fs, c)
  {
    res := acc;
    for j := 0 to |fs|
      invariant res == acc + Matches(fs[..j], c)
    {
      assert fs[j] in fs;
      var hit := TestForm(fs[j], c);
      MatchesStep(fs, j, c);
      if hit {
        res := res + [fs[j]];
      }
    }
    assert fs[..|fs|] == fs;
  }

  /** A form is reported exactly when it is one of `fs` and it hits the query. */
  lemma {:induction false} MatchesMeaning(fs: seq<Shape>, c: Shape)
    ensures forall f :: f in Matches(fs, c) <==> f in fs && Hit(f, c)
    decreases |fs|
  {
    if fs != [] {
      var pre := fs[..|fs| - 1];
      MatchesMeaning(pre, c);
      assert fs == pre + [fs[|fs| - 1]];
    }
  }

  /** The forms `collisionsWith` reports from the nodes `ns`, node by node. */
  ghost function Collect(ns: seq<QuadNode>, c: Shape): seq<Shape>
    reads set n | n in ns
    decreases |ns|
  {
    if ns == [] then []
    else Collect(ns[..|ns| - 1], c) + Matches(ns[|ns| - 1].forms, c)
  }

  lemma CollectStep(ns: seq<QuadNode>, i: nat, c: Shape)
    requires i < |ns|
    ensures Collect(ns[..i + 1], c) == Collect(ns[..i], c) + Matches(ns[i].forms, c)
  {
    assert ns[..i + 1][..i] == ns[..i];
  }

  /** A form is collected exactly when one of the nodes holds it and it hits the query. */
  lemma {:induction false} CollectMeaning(ns: seq<QuadNode>, c: Shape, f: Shape)
    ensures f in Collect(ns, c) <==> Hit(f, c) && exists n :: n in ns && f in n.forms
    decreases |ns|
  {
    if ns != [] {
      var pre := ns[..|ns| - 1];
      var last := ns[|ns| - 1];
      CollectMeaning(pre, c, f);
      MatchesMeaning(last.forms, c);
      assert ns == pre + [last];
    }
  }

  /** A form is reported from `fs` once for each time `fs` holds it, if it hits the query. */
  lemma {:induction false} MatchesCount(fs: seq<Shape>, c: Shape, f: Shape)
    ensures multiset(Matches(fs, c))[f] == if Hit(f, c) then multiset(fs)[f] else 0
    decreases |fs|
  {
    if fs != [] {
      var pre, last := fs[..|fs| - 1], fs[|fs| - 1];
      MatchesCount(pre, c, f);
      CountKept(Matches(pre, c), fs, Hit(last, c), Hit(f, c), f);
    }
  }

  /** Extending a filtered sequence `ms` of all but the last of `fs` by that last form when
      it is kept keeps the count of `f` in step. */
  lemma CountKept(ms: seq<Shape>, fs: seq<Shape>, keepLast: bool, keepF: bool, f: Shape)
    requires fs != []
    requires multiset(ms)[f] == if keepF then multiset(fs[..|fs| - 1])[f] else 0
    requires fs[|fs| - 1] == f ==> keepLast == keepF
    ensures multiset(ms + if keepLast then [fs[|fs| - 1]] else [])[f] == if keepF then multiset(fs)[f] else 0
  {
    var pre, last := fs[..|fs| - 1], fs[|fs| - 1];
    assert fs == pre + [last];
    assert multiset(fs) == multiset(pre) + multiset{last};
    assert multiset(ms + [last]) == multiset(ms) + multiset{last};
    assert ms + [] == ms;
  }

  /** When `t` is the only node of the duplicate-free `ns` that may hold `f`, the nodes
      report `f` as often as `t` does if `t` is among them, and never otherwise. */
  lemma {:induction false} CollectCount(ns: seq<QuadNode>, c: Shape, f: Shape, t: QuadNode)
    requires NoRepeats(ns) && forall n :: n in ns && f in n.forms ==> n == t
    ensures multiset(Collect(ns, c))[f] == if t in ns && Hit(f, c) then multiset(t.forms)[f] else 0
    decreases |ns|
  {
    if ns != [] {
      var pre, last := ns[..|ns| - 1], ns[|ns| - 1];
      assert ns == pre + [last];
      CollectCount(pre, c, f, t);
      MatchesCount(last.forms, c, f);
      if last == t {
        assert t !in pre;
      } else {
        assert f !in last.forms;
      }
    }
  }

  /** The depth of the manager's tree. */
  const TreeDepth := 5

  class CollisionManager {
    var collisionForms: seq<Shape>
    const quadTree: QuadNode

    /** The tree keeps its shape, every form filed in it was added through the manager and
        sits at the node `addCollisionForm` chooses for it, and no node holds a form more
        often than it was added. */
    ghost predicate Valid()
      reads this, quadTree.Repr
    {
      quadTree.Valid() && quadTree.Placed() && quadTree.depth == TreeDepth &&
      (forall n, f :: n in quadTree.Repr && f in n.forms ==>
        f in collisionForms && quadTree.Target(ShapeRect(f)) == Some(n)) &&
      forall n, f :: n in quadTree.Repr ==> multiset(n.forms)[f] <= multiset(collisionForms)[f]
    }

    /** Every form that `collisionsWith(c)` tests can be tested against `c`: those held by
        the nodes the search reaches whose rectangles meet the query's. */
    ghost predicate Answerable(c: Shape)
      requires quadTree.Valid()
      reads this, quadTree.Repr
    {
      quadTree.VisitSound(ShapeRect(c));
      forall n, f :: n in quadTree.Visit(ShapeRect(c)) && f in n.forms && Intersects(ShapeRect(f), ShapeRect(c)) ==>
        FormsDefined(f, c)
    }

    /** `new CollisionManager(x, y, width, height)`: an empty tree of depth five over the
        given area. */
    constructor (x: real, y: real, width: real, height: real)
      ensures Valid() && collisionForms == []
      ensures quadTree.rect == MakeRect(x, x + width, y, y + height)
    {
      collisionForms := [];
      quadTree := new QuadNode(MakeRect(x, x + width, y, y + height), TreeDepth, []);
    }

    /** Records `form`, then files it in the tree; filing fails exactly when the form's
        rectangle misses the managed area. */
    method AddForm(form: Shape) returns (ok: bool)
      requires Valid()
      modifies this, quadTree.TargetSet(ShapeRect(form))
      ensures Valid()
      ensures collisionForms == old(collisionForms) + [form]
      ensures ok <==> Intersects(ShapeRect(form), quadTree.rect)
      ensures ok <==> quadTree.Target(ShapeRect(form)).Some?
      ensures ok ==> quadTree.Target(ShapeRect(form)).value.forms ==
                     old(quadTree.Target(ShapeRect(form)).value.forms) + [form]
    {
      collisionForms := collisionForms + [form];
      ok := quadTree.AddCollisionForm(form);
      quadTree.TargetNone(ShapeRect(form));
    }

    /** `addStaticPolygon`: a polygon form over a copy of `vertices`. */
    method AddStaticPolygon(vertices: seq<Vec>) returns (polyForm: Shape, ok: bool)
      requires Valid()
      modifies this, quadTree.TargetSet(ShapeRect(Polygon(vertices)))
      ensures Valid() && polyForm == Polygon(vertices)
      ensures collisionForms == old(collisionForms) + [polyForm]
      ensures ok <==> Intersects(PolygonBounds(vertices), quadTree.rect)
      ensures ok <==> quadTree.Target(ShapeRect(polyForm)).Some?
      ensures ok ==> quadTree.Target(ShapeRect(polyForm)).value.forms ==
                     old(quadTree.Target(ShapeRect(polyForm)).value.forms) + [polyForm]
    {
      polyForm := Polygon(vertices);
      ok := AddForm(polyForm);
    }

    /** `addStaticCircle`. */
    method AddStaticCircle(center: Vec, radius: real) returns (myForm: Shape, ok: bool)
      requires Valid()
      modifies this, quadTree.TargetSet(ShapeRect(Circle(center, radius)))
      ensures Valid() && myForm == Circle(center, radius)
      ensures collisionForms == old(collisionForms) + [myForm]
      ensures ok <==> Intersects(CircleRect(center, radius), quadTree.rect)
      ensures ok <==> quadTree.Target(ShapeRect(myForm)).Some?
      ensures ok ==> quadTree.Target(ShapeRect(myForm)).value.forms ==
                     old(quadTree.Target(ShapeRect(myForm)).value.forms) + [myForm]
    {
      myForm := Circle(center, radius);
      ok := AddForm(myForm);
    }

    /** What `collisionsWith(c)` returns. */
    ghost function CollisionsOf(c: Shape): seq<Shape>
      requires quadTree.Valid()
      reads quadTree.Repr
    {
      quadTree.VisitSound(ShapeRect(c));
      Collect(quadTree.Visit(ShapeRect(c)), c)
    }

    /** `collisionsWith`: the forms of the nodes the query's rectangle reaches whose
        rectangles meet the query's and that intersect it. */
    method CollisionsWith(colForm: Shape) returns (resultArray: seq<Shape>)
      requires Valid() && Answerable(colForm)
      ensures resultArray == CollisionsOf(colForm)
      ensures forall f :: f in resultArray ==> f in collisionForms && Hit(f, colForm)
      ensures multiset(resultArray) <= multiset(collisionForms)
    {
      var formBr := ShapeRect(colForm);
      var nodesToTry := quadTree.DeepSearch(formBr, []);
      quadTree.VisitSound(formBr);
      assert nodesToTry == quadTree.Visit(formBr);
      resultArray := [];
      for i := 0 to |nodesToTry|
        invariant resultArray == Collect(nodesToTry[..i], colForm)
      {
        var aNode := nodesToTry[i];
        Reached(colForm, aNode);
        resultArray := AppendMatches(resultArray, aNode.forms, colForm);
        CollectStep(nodesToTry, i, colForm);
      }
      assert nodesToTry[..|nodesToTry|] == nodesToTry;
      CollisionsSound(colForm);
      CollisionsAtMostAdded(colForm);
    }

    /** Every reported form is stored, its rectangle meets the query's, and it intersects
        the query. */
    lemma CollisionsSound(c: Shape)
      requires Valid()
      ensures forall f :: f in CollisionsOf(c) ==> f in collisionForms && Hit(f, c)
    {
      var ns := quadTree.Visit(ShapeRect(c));
      quadTree.VisitSound(ShapeRect(c));
      forall f | f in CollisionsOf(c)
        ensures f in collisionForms && Hit(f, c)
      {
        CollectMeaning(ns, c, f);
        var n :| n in ns && f in n.forms;
        Stored(n, f);
      }
    }

    /** A stored form is reported once for each time its node holds it, when the search
        reaches that node and the form hits the query, and otherwise not at all: the search
        never reports a stored form twice. */
    lemma CollisionsCount(c: Shape, n: QuadNode, f: Shape)
      requires Valid() && n in quadTree.Repr && f in n.forms
      ensures multiset(CollisionsOf(c))[f] ==
        if n in quadTree.Visit(ShapeRect(c)) && Hit(f, c) then multiset(n.forms)[f] else 0
    {
      var ns := quadTree.Visit(ShapeRect(c));
      quadTree.VisitSound(ShapeRect(c));
      quadTree.VisitOnce(ShapeRect(c));
      OnlyHolder(ns, n, f);
      CollectCount(ns, c, f, n);
    }

    /** No form is reported more often than it was added. */
    lemma CollisionsAtMostAdded(c: Shape)
      requires Valid()
      ensures multiset(CollisionsOf(c)) <= multiset(collisionForms)
    {
      var ns := quadTree.Visit(ShapeRect(c));
      quadTree.VisitSound(ShapeRect(c));
      quadTree.VisitOnce(ShapeRect(c));
      forall f
        ensures multiset(CollisionsOf(c))[f] <= multiset(collisionForms)[f]
      {
        var holder := quadTree;
        if n :| n in ns && f in n.forms {
          holder := n;
          OnlyHolder(ns, n, f);
        }
        CollectCount(ns, c, f, holder);
      }
    }

    /** A form is held by one node of the tree at most: the one it is filed at. */
    lemma OnlyHolder(ns: seq<QuadNode>, t: QuadNode, f: Shape)
      requires Valid() && t in quadTree.Repr && f in t.forms
      requires forall n :: n in ns ==> n in quadTree.Repr
      ensures forall n :: n in ns && f in n.forms ==> n == t
    {
      forall n | n in ns && f in n.forms
        ensures n == t
      {
        assert quadTree.Target(ShapeRect(f)) == Some(n);
      }
    }

    /** A node the search of an answerable query reaches holds only forms testable against it. */
    lemma Reached(c: Shape, n: QuadNode)
      requires Valid() && Answerable(c) && n in quadTree.Visit(ShapeRect(c))
      ensures forall f :: f in n.forms && Intersects(ShapeRect(f), ShapeRect(c)) ==> FormsDefined(f, c)
    {
    }

    lemma Stored(n: QuadNode, f: Shape)
      requires Valid() && n in quadTree.Repr && f in n.forms
      ensures f in collisionForms
    {
    }

    /** A query whose rectangle misses the managed area reaches no node: it can always be
        answered, and the answer is empty, whatever the tree holds. */
    lemma OutsideQuery(c: Shape)
      requires Valid() && !Intersects(quadTree.rect, ShapeRect(c))
      ensures Answerable(c) && CollisionsOf(c) == []
    {
      assert quadTree.Visit(ShapeRect(c)) == [];
    }

    /** A stored form is reported whenever it intersects the query and its rectangle shares
        a point of the managed area with the query's rectangle. */
    lemma CollisionsComplete(c: Shape, n: QuadNode, f: Shape, p: Vec)
      requires Valid() && Answerable(c)
      requires n in quadTree.Repr && f in n.forms
      requires Contains(ShapeRect(f), p) && Contains(ShapeRect(c), p) && Contains(quadTree.rect, p)
      ensures FormsDefined(f, c)
      ensures FormIntersects(f, c) ==> f in CollisionsOf(c)
    {
      IntersectsIffCommonPoint(ShapeRect(f), ShapeRect(c));
      quadTree.VisitReachesTarget(ShapeRect(f), ShapeRect(c), p);
      CollectMeaning(quadTree.Visit(ShapeRect(c)), c, f);
    }
  }
}
