# fizzgame collision and polygon core in Dafny

This project models the geometric core of the fizzgame browser game. It covers two files of the game.

- `scripts/collisionmanager.ts`:
  - the collision forms: polygon, circle and point;
  - their bounding rectangles;
  - the ray/segment intersector `fraysegment`;
  - the narrow-phase test `fintersect`;
  - the quad tree `QuadNode`, which files each form at the deepest node whose single quarter it touches;
  - the `CollisionManager`, which answers "which stored forms collide with this one".
- `scripts/polygontools.ts`:
  - the vertex index helpers `prev` and `next`;
  - the corner tests `convexTest` and `concavTest`;
  - the convex decomposition `convexSeparate`;
  - the line intersector `lineIntersect`;
  - `polyIntersect`, which finds the crossings of two polygon boundaries and cuts both boundaries at them into edge sequences (`createEdgeSequences`);
  - `union`, which walks those edge sequences from node to node and collects the closed loops.

Modules, one per concern of the source:

| module | file | what it holds |
|---|---|---|
| `Vectors`, `Results` | vectors.dfy | `fdot`, `fadd`, `fmul`, `fsub`, the 2x2 solver both intersectors use, and `Option`/`Result` for the paths where the source throws or dereferences `undefined` |
| `Bounds` | bounds.dfy | `BoundingRect` |
| `RaySegment` | raysegment.dfy | `fraysegment` and the rows of its test table |
| `Forms` | forms.dfy | the forms, `PolygonForm` (a class with its bounds cache), `checkPoint`, `fintersect` and the forms' `intersects` dispatch |
| `QuadTree` | quadtree.dfy | `QuadNode` and `CollisionManager` as classes |
| `Polygons` | polygons.dfy | `prev`, `next`, corner orientation, `convexTest`, `concavTest`, `convexSeparate` |
| `Lines` | lines.dfy | `lineIntersect` |
| `Arrangement` | arrangement.dfy | `NodeData`, `EdgeSequence` and `createEdgeSequences` |
| `Intersection` | intersection.dfy | `polyIntersect` |
| `UnionWalk` | union.dfy | `union` |

## How the model works

**Numbers and geometry.**
- Numbers are exact reals.
- `angle(a, b, c)` is only ever compared with pi. It is modelled by the sign of a cross product (`Polygons.Reflex`, `Polygons.BelowPi`), because normalising the arms only scales that sign by a positive factor.
- `lineIntersect` compares its two thresholds in squared form. This avoids the square roots of `normalToEdge` and decides the same way over exact reals.

**Objects and state.**
- `NodeData` and `EdgeSequence` refer to each other by reference in the source. Here they live in one arena object, `Arrangement.Arrangement`, and refer to each other by index.
- The quad tree keeps the source's object structure: each node is a `QuadNode` object whose `forms` list is updated in place.

**Behaviours the model keeps as written.**
- `forEachEdge` builds the end of each edge from the next vertex's x and the current vertex's own y. `Forms.EdgesAreHorizontal` states what that means for every test built on it.
- In the polygon/polygon branch of `fintersect`, the edge-pair loops compute a flag that is never returned. `Forms.PolygonPairShortcut` states the result.
- In `union`, the sequence that closes a walk contributes no points. `UnionWalk.Trace` is that loop.
- `polyIntersect` lists its nodes in the order of its nested loops: edge `i` of the first polygon, then edge `j` of the second (`Intersection.HitsExactly`). Nothing reorders them afterwards. For the quadrilateral and triangle of the "polygon intersection" test (scripts/polygontools.spec.ts:121-155), this puts the crossing (23/3, 37/9) of edges 2 and 1 before the crossing (90/13, 31/13) of edges 3 and 0. The test's expected result lists the two nodes the other way round.
- `createEdgeSequences` sorts each edge's crossings by `acoeff` for both polygons. `acoeff` is the coefficient along the first polygon's edge, so the second polygon's lists are sorted by the first polygon's coefficient, not by their own position along the edge (`Intersection.CrossingsOn`, `Arrangement.SortByA`).
- `forEachEdge` is modelled once, in `Forms.PolygonForm.ForEachEdge`, with its callback protocol: stop at the first refusal. Its three callers are `checkPoint` (`Forms.CheckPoint`), the circle branch (`Forms.CircleEdges`) and the polygon branch (`Forms.PolygonEdgesCross`) of `fintersect`. Each loops over `Forms.Edges` itself, which is the same edge order `ForEachEdge` is proved to hand out, and breaks where the callback would refuse.

**Errors.**
- Where the source throws or dereferences a missing value, the model mostly returns an error value (`Err`, `None` or `ok == false`) instead.
- `fintersect` is the exception. The pairs it cannot evaluate are excluded by precondition (`Forms.Defined`, `Forms.FormsDefined`, `QuadTree.CollisionManager.Answerable`) instead of returning an error. These pairs are a circle or point against a polygon, and two polygons of which exactly one has no vertex. `collisionsWith` only excludes such a pair when its search actually reaches it.
- Where the source logs a failed `console.assert` inside `union`'s walk and then never leaves its loop, the model also returns `Err`.

## Model

| member | source | states |
|---|---|---|
| Vectors.Solve2 | scripts/collisionmanager.ts:71-77 | the point both intersectors compute lies on both lines (its dot products with the two normals are the two distances) |
| Vectors.Solve2Unique | scripts/polygontools.ts:186-189 | any point on both lines is that point, so the crossing is unique when the determinant is non-zero |
| Bounds.MakeRect | scripts/collisionmanager.ts:216-226 | the constructor orders its corners: the two x values and the two y values are kept, smaller one top-left, whichever order they came in |
| Bounds.ContainsBetween | scripts/collisionmanager.ts:227-232 | a constructed rectangle contains exactly the points between the given coordinates, borders included |
| Bounds.CornersContained | scripts/collisionmanager.ts:227-232 | containment is inclusive: all four corners are inside |
| Bounds.IntersectsSymmetric | scripts/collisionmanager.ts:233-244 | `intersects` does not depend on which rectangle is asked |
| Bounds.IntersectsIffCommonPoint | scripts/collisionmanager.ts:233-244 | two rectangles intersect exactly when some point lies in both, so touching rectangles intersect |
| Bounds.TouchingIntersect | scripts/collisionmanager.ts:233-244 | squares sharing one side intersect; squares half a unit apart do not |
| RaySegment.QuotientNegative | scripts/collisionmanager.ts:58-66 | the sign test `n / d < 0` of the colinear case, including a zero denominator as floats evaluate it |
| RaySegment.FRaySegment | scripts/collisionmanager.ts:29-106 | only a `normal` or a `colinear` result reports a hit, and a point is returned exactly when the determinant reaches the margin; each branch is characterised by `RaySegment.HitMeaning`, `RaySegment.NearZeroDeterminant` and `RaySegment.Crossing` |
| RaySegment.HitMeaning | scripts/collisionmanager.ts:29-106 | only `normal` or a hitting `colinear` case reports true; a point is returned exactly in the three crossing cases; it lies on both lines; a `normal` point is ahead of the start and within the margin-widened segment |
| RaySegment.NearZeroDeterminant | scripts/collisionmanager.ts:46-69 | a near-zero determinant gives `parallel` when the lines are further apart than the margin, otherwise `colinear`, a hit unless both segment ends lie behind the start |
| RaySegment.Crossing | scripts/collisionmanager.ts:71-105 | otherwise the point is always returned; `wrongorientation` is decided before `outsidesegment`; the segment test is the factor leaving [-margin, 1 + margin] |
| RaySegment.DetDirs | scripts/collisionmanager.ts:46 | a non-zero determinant needs non-zero ray and segment directions |
| RaySegment.PointSegmentDFactor | scripts/collisionmanager.ts:52 | a segment whose ends coincide puts every start on its line |
| RaySegment.SwapInvariant | scripts/collisionmanager.spec.ts:73-82 | swapping the segment's ends changes neither the result, the case nor the point |
| RaySegment.MirrorXInvariant | scripts/collisionmanager.spec.ts:83-92 | mirroring ray and segment across the x axis keeps result and case and mirrors the point |
| RaySegment.MirrorYInvariant | scripts/collisionmanager.spec.ts:93-102 | the same across the y axis, for a non-zero ray direction |
| RaySegment.CrossingAt | scripts/collisionmanager.ts:71-105 | when the lines meet at a known point, the outcome follows from the sign tests at that point |
| RaySegment.NormalExample | scripts/collisionmanager.spec.ts:58-63 | test row "intersect test 2": a hit at (1.5, -1.5), case `normal` |
| RaySegment.WrongOrientationExample | scripts/collisionmanager.spec.ts:52-57 | "intersect test 1": the same point, behind the start |
| RaySegment.OutsideSegmentExample | scripts/collisionmanager.spec.ts:64-69 | "intersect test 3": the shortened segment stops short of the point |
| RaySegment.ParallelExample | scripts/collisionmanager.spec.ts:16-27 | the parallel rows: no hit, case `parallel` |
| RaySegment.ColinearExample | scripts/collisionmanager.spec.ts:28-39 | the vertical colinear rows: missed downwards, hit upwards |
| RaySegment.ColinearHorizontalExample | scripts/collisionmanager.spec.ts:40-51 | the horizontal colinear rows: the rightward ray misses the segment lying behind it, the leftward ray hits it |
| Forms.EdgesAreHorizontal | scripts/collisionmanager.ts:259-271 | every edge `forEachEdge` yields is horizontal, from vertex `i` to the next vertex's x at vertex `i`'s y |
| Forms.PolygonForm.ForEachEdge | scripts/collisionmanager.ts:259-271 | the edges handed out are a prefix of the polygon's edges in order; all but the last were accepted; the walk stops early only after a refusal |
| Forms.PolygonForm.BoundingRect | scripts/collisionmanager.ts:276-292 | the first call caches the min/max bounds of the vertices; later calls return the cached rectangle |
| Forms.ExtentIsMinMax | scripts/collisionmanager.ts:280-289 | the bounds loop finds the true minima and maxima: every vertex lies within them and each is attained |
| Forms.PolygonBoundsTight | scripts/collisionmanager.ts:276-292 | a polygon's rectangle holds every vertex and lies inside every rectangle that holds them all |
| Forms.ShapeRect | scripts/collisionmanager.ts:276-338 | every form's `boundingRect` has ordered corners |
| Forms.CircleRectHoldsDisc | scripts/collisionmanager.ts:315-318 | a circle's rectangle contains its whole disc |
| Forms.CheckPoint | scripts/collisionmanager.ts:123-135 | `checkPoint` reports inside exactly when the rightward ray from the point hits an odd number of the yielded edges |
| Forms.LevelEdgeHit | scripts/collisionmanager.ts:123-135 | a yielded (horizontal) edge counts exactly when it lies within the margin of the ray's line and not wholly left of the point |
| Forms.DegenerateEdgeHits | scripts/collisionmanager.ts:263-267 | an edge collapsed to a point or to a vertical step counts whenever it is not left of the point |
| Forms.BehindEdgeMisses | scripts/collisionmanager.ts:123-135 | an edge wholly left of the point never counts |
| Forms.LevelEdgeMiss | scripts/collisionmanager.ts:123-135 | a horizontal edge far enough below the point is missed |
| Forms.FarPointInsideSquare | scripts/collisionmanager.ts:123-135 | a point far above the 10 x 10 square is reported inside it, because only the collapsed right side counts |
| Forms.CircleScanFirstDecisive | scripts/collisionmanager.ts:147-171 | the circle/edge scan reports a hit exactly when its first decisive edge does; edges after the first obtuse one are never examined |
| Forms.CircleEdges | scripts/collisionmanager.ts:147-171 | the edge loop of the circle branch computes that scan |
| Forms.PolygonEdgesCross | scripts/collisionmanager.ts:179-206 | the nested edge loops set their flag exactly when some edge pair meets nearer than the first edge's length |
| Forms.Intersect | scripts/collisionmanager.ts:108-209 | `fintersect` with its early returns equals the case-by-case definition `FIntersect` |
| Forms.RoundPair | scripts/collisionmanager.ts:111-120 | two points or circles intersect exactly when their centers are closer than the tolerance plus their radii |
| Forms.PolygonPairShortcut | scripts/collisionmanager.ts:173-208 | two polygons intersect only when a first vertex of one is inside the other, however their edges cross |
| Forms.FormIntersect | scripts/collisionmanager.ts:272-335 | the forms' `intersects` methods call `fintersect` with a polygon first, a point second |
| Forms.FormIntersectsSymmetric | scripts/collisionmanager.ts:272-335 | whichever of two forms is asked, the answer is the same |
| QuadTree.QuadrantInside | scripts/collisionmanager.ts:371-377 | each quarter built by the constructor lies inside its node's rectangle |
| QuadTree.QuadrantsCover | scripts/collisionmanager.ts:371-377 | the four quarters cover their node's rectangle |
| QuadTree.LastHitFound | scripts/collisionmanager.ts:389-400 | the loop remembers no child exactly when no child's rectangle meets the form's |
| QuadTree.HitCounted | scripts/collisionmanager.ts:389-402 | a child that meets the form is counted, and when it is the only one it is the one remembered |
| QuadTree.QuadNode.constructor | scripts/collisionmanager.ts:359-381 | a full tree of the given depth over the four quarters, every node empty |
| QuadTree.QuadNode.AddCollisionForm | scripts/collisionmanager.ts:383-408 | the form is appended to the forms of the node `Target` names and nothing else changes; it fails where the source dereferences a missing child |
| QuadTree.QuadNode.TargetNone | scripts/collisionmanager.ts:383-408 | a form is filed nowhere exactly when the node has children and the form's rectangle misses the node's rectangle |
| QuadTree.QuadNode.TargetCovers | scripts/collisionmanager.ts:383-408 | a form is filed at a leaf or where it meets two quarters or more; that node holds every point of the form's rectangle inside the node's rectangle |
| QuadTree.QuadNode.SearchNodeFor | scripts/collisionmanager.ts:410-421 | null exactly when the point is outside; otherwise a node of the tree containing the point |
| QuadTree.QuadNode.SearchFindsLeaf | scripts/collisionmanager.ts:410-421 | a point inside the rectangle is always found in a leaf |
| QuadTree.QuadNode.DeepSearch | scripts/collisionmanager.ts:460-469 | `deepSearch` appends exactly the nodes `Visit` lists: those whose rectangles meet the query, in pre-order |
| QuadTree.QuadNode.VisitSound | scripts/collisionmanager.ts:460-469 | only nodes of the subtree whose rectangles meet the query are visited |
| QuadTree.QuadNode.VisitReachesTarget | scripts/collisionmanager.ts:460-469 | the search reaches the node a form is filed at whenever the query shares a point with the form's rectangle inside the tree |
| QuadTree.QuadNode.VisitOnce | scripts/collisionmanager.ts:460-469 | the search lists no node twice, and only nodes at or below the node it starts from |
| QuadTree.TestForm | scripts/collisionmanager.ts:475 | the exact test runs only after the rectangles meet |
| QuadTree.AppendMatches | scripts/collisionmanager.ts:473-477 | the inner loop appends the node's forms that hit the query, in order |
| QuadTree.MatchesMeaning | scripts/collisionmanager.ts:473-477 | a form is appended exactly when it is one of the node's forms and it hits the query |
| QuadTree.CollectMeaning | scripts/collisionmanager.ts:471-478 | a form is collected exactly when a visited node holds it and it hits the query |
| QuadTree.MatchesCount | scripts/collisionmanager.ts:473-477 | a form is appended from a node as many times as the node holds it if it hits the query, and never otherwise |
| QuadTree.CollectCount | scripts/collisionmanager.ts:471-478 | over a duplicate-free list of nodes of which only `t` may hold the form, the form is collected as often as `t` holds it when `t` is listed and the form hits the query, and never otherwise |
| QuadTree.CollisionManager.constructor | scripts/collisionmanager.ts:429-432 | an empty manager over a depth-five tree covering the given area |
| QuadTree.CollisionManager.AddForm | scripts/collisionmanager.ts:441-442 | the form is recorded, then filed; filing fails exactly when its rectangle misses the managed area |
| QuadTree.CollisionManager.AddStaticPolygon | scripts/collisionmanager.ts:434-444 | a polygon form over a copy of the vertices is recorded, and filed at the end of the deepest node covering its rectangle (`QuadNode.Target`); filing succeeds exactly when that rectangle meets the managed area |
| QuadTree.CollisionManager.AddStaticCircle | scripts/collisionmanager.ts:446-454 | a circle form is recorded, and filed at the end of the deepest node covering its rectangle (`QuadNode.Target`); filing succeeds exactly when that rectangle meets the managed area |
| QuadTree.CollisionManager.CollisionsWith | scripts/collisionmanager.ts:456-480 | the result is the forms of the visited nodes that hit the query, node by node; every one is stored, meets the query's rectangle and intersects the query; no form appears more often than it was added |
| QuadTree.CollisionManager.CollisionsSound | scripts/collisionmanager.ts:456-480 | every reported form is stored, meets the query's rectangle and intersects the query |
| QuadTree.CollisionManager.CollisionsCount | scripts/collisionmanager.ts:456-480 | a stored form is reported exactly as often as its node holds it when the search reaches the node and the form hits the query, and otherwise not at all |
| QuadTree.CollisionManager.CollisionsAtMostAdded | scripts/collisionmanager.ts:456-480 | no form is reported more often than it was added, so the search never reports a stored form twice |
| QuadTree.CollisionManager.OutsideQuery | scripts/collisionmanager.ts:456-470 | a query whose rectangle misses the managed area reaches no node: it is always answerable and the answer is empty, whatever the tree holds |
| QuadTree.CollisionManager.CollisionsComplete | scripts/collisionmanager.ts:456-480 | a stored form that intersects the query is reported whenever the two rectangles share a point of the managed area |
| Polygons.Prev | scripts/polygontools.ts:42-45 | the index before `i` stays a vertex index |
| Polygons.Next | scripts/polygontools.ts:47-50 | the index after `i` stays a vertex index |
| Polygons.PrevNextInverse | scripts/polygontools.ts:42-50 | stepping back then forward, or forward then back, returns to the same vertex |
| Polygons.SwappedCorner | scripts/polygontools.ts:52-65 | swapping a corner's arms turns "below pi" into "reflex" when the arms are not aligned; no corner is both |
| Polygons.FewVerticesConvex | scripts/polygontools.ts:82-92 | a polygon of one or two vertices counts as convex |
| Polygons.ConvexTest | scripts/polygontools.ts:82-92 | true exactly when no corner exceeds pi |
| Polygons.ConcavTest | scripts/polygontools.ts:94-97 | true exactly when some corner exceeds pi |
| Polygons.Split | scripts/polygontools.ts:134-154 | the two pieces run around the polygon from each end of the diagonal to the other, both keep the diagonal's ends, and together they have two vertices more |
| Polygons.JoinPieces | scripts/polygontools.ts:144-157 | the convex pieces of the two halves together cut the whole polygon |
| Polygons.ConvexSeparate | scripts/polygontools.ts:99-158 | a convex polygon is returned alone, and only a convex one; it fails exactly when the polygon is not `Separable`, i.e. the backward walk from its first reflex corner passes no vertex, here or in one of the halves it cuts off; any other result is a list of convex pieces made of its vertices, adding two vertices per cut |
| Polygons.FirstReflex | scripts/polygontools.ts:107-117 | the search stops at the first corner exceeding pi, or after the last vertex when none does |
| Polygons.WalkEnd | scripts/polygontools.ts:122-132 | the backward walk ends at "none" exactly when the first tested corner is not below pi; otherwise at a vertex between two and n - 2 steps back that passes and whose predecessor fails |
| Polygons.WalkBack | scripts/polygontools.ts:122-132 | the loop ends where `WalkEnd` says: "none" exactly when the first tested corner is not below pi; otherwise the last vertex that passed, between two and n - 2 steps back, whose predecessor fails |
| Lines.LineIntersect | scripts/polygontools.ts:176-235 | no result exactly for near-parallel lines further apart than the margin; colinear exactly for near-parallel lines within it, with the point `a`; coefficients exist exactly for non-zero directions |
| Lines.Determinant | scripts/polygontools.ts:189-190 | directions that are not near parallel have a non-zero determinant |
| Lines.CoeffOnLine | scripts/polygontools.ts:222-232 | a coefficient read off the larger component walks from the line's start to the point |
| Lines.CrossingPoint | scripts/polygontools.ts:216-234 | a crossing's point lies on both lines, and `a + aDir * acoeff == point == b + bDir * bcoeff` |
| Lines.ColinearCoefficients | scripts/polygontools.ts:199-213 | for colinear lines each coefficient walks from its own start to the other line's start |
| Lines.CrossingSymmetric | scripts/polygontools.ts:176-235 | exchanging the two lines gives the same point with the coefficients exchanged |
| Lines.CrossingExample | scripts/polygontools.spec.ts:51-60 | the test's lines cross at (7, -1) with coefficients 1 and -1 |
| Arrangement.InsertByASorted | scripts/polygontools.ts:299 | inserting into an `acoeff`-sorted list keeps it sorted |
| Arrangement.SortByA | scripts/polygontools.ts:299 | the sort returns the same crossings, sorted by ascending `acoeff` |
| Arrangement.Arrangement.AddNode | scripts/polygontools.ts:272-274 | a new node at the point, with empty lists, added at the end |
| Arrangement.Arrangement.CreateEdgeSequences | scripts/polygontools.ts:282-333 | fails (changing nothing) exactly when a non-empty polygon has no crossing; otherwise appends the sequences `EdgeSequencesOf` names and pushes each one to its start and end node |
| Arrangement.Arrangement.CutEdges | scripts/polygontools.ts:293-322 | after the edge loop, the cuts met are those of every edge in order, with the sequences and pushes they produce |
| Arrangement.Arrangement.VisitEdge | scripts/polygontools.ts:295-321 | one pass of the edge loop extends that state by one edge |
| Arrangement.Arrangement.CutEdge | scripts/polygontools.ts:301-321 | the open sequence collects the vertices passed, then each crossing ends it and opens the next |
| Arrangement.Arrangement.CutAt | scripts/polygontools.ts:312-319 | the open sequence ends at the node and is pushed there; a new empty sequence starts and is pushed there |
| Arrangement.Arrangement.FillLast | scripts/polygontools.ts:323-332 | the last sequence wraps around to the first cut edge and ends at the first node |
| Arrangement.Arrangement.AppendPoints | scripts/polygontools.ts:301-305 | the vertices of a range are appended to one sequence, nothing else changes |
| Arrangement.Arrangement.AppendRun | scripts/polygontools.ts:324-328 | the vertices from `start` around to `stop` are appended to one sequence |
| Arrangement.OrderSize | scripts/polygontools.ts:293-322 | the loop meets each crossing of each edge exactly once |
| Arrangement.CoverBoundary | scripts/polygontools.ts:282-333 | read one after the other, the sequences list the whole boundary once, starting after the first cut edge |
| Arrangement.PassedThenClosing | scripts/polygontools.ts:301-330 | the vertices between the first and last cut edge, then the closing run, go once around the polygon |
| Arrangement.SequencesFresh | scripts/polygontools.ts:243-248 | every edge sequence starts out unvisited |
| Arrangement.SequenceEnds | scripts/polygontools.ts:312-331 | each sequence ends at the next cut's node; the last one at the first cut's node |
| Arrangement.StartRegistered | scripts/polygontools.ts:318-319 | every sequence is listed at the node it starts at |
| Arrangement.EndRegistered | scripts/polygontools.ts:314-315 | every sequence is listed at the node it ends at |
| Arrangement.JoinedLinked | scripts/polygontools.ts:335-337 | after both polygons are cut, every listed sequence exists and every sequence ends at a node |
| Arrangement.JoinedEnds | scripts/polygontools.ts:335-337 | every sequence of either polygon ends at a node that lists it |
| Arrangement.JoinedStarts | scripts/polygontools.ts:335-337 | each polygon's `u`-th sequence is listed at the node of its `u`-th cut |
| Intersection.PolyIntersect | scripts/polygontools.ts:250-337 | fails exactly when a non-empty polygon has no crossing; otherwise one node per hit, then the first polygon's sequences, then the second's |
| Intersection.FindCrossings | scripts/polygontools.ts:252-280 | the nested loops build one node per hit and the edge lists `EdgeLists` names |
| Intersection.AddRow | scripts/polygontools.ts:266-279 | the inner loop adds the hits of one edge of the first polygon |
| Intersection.AddHit | scripts/polygontools.ts:272-277 | a hit adds a node and is pushed to the lists of both its edges |
| Intersection.HitsCut | scripts/polygontools.ts:268-270 | every listed hit records a strictly interior crossing of its two edges |
| Intersection.HitsOrdered | scripts/polygontools.ts:263-280 | the hits are listed in the order of the nested loops |
| Intersection.HitsFind | scripts/polygontools.ts:263-280 | every strictly interior crossing of two edges is listed |
| Intersection.HitsExactly | scripts/polygontools.ts:263-280 | one node per strictly interior crossing, in loop order, and no other |
| Intersection.HitOnBothEdges | scripts/polygontools.ts:268-273 | each node lies strictly inside both of its edges, each coefficient walking its edge to the node |
| Intersection.CutCounts | scripts/polygontools.ts:282-337 | both polygons are cut once per node, and `polyIntersect` fails exactly when there is no crossing and some polygon has a vertex |
| Intersection.ArrangementLinked | scripts/polygontools.ts:250-337 | in the result every listed sequence exists, and every sequence ends at a node that lists it |
| Intersection.SequencesStart | scripts/polygontools.ts:250-337 | each sequence is listed at the node where it starts |
| Intersection.ArrangedFresh | scripts/polygontools.ts:250-337 | no sequence of the result starts out visited |
| Intersection.CutsNamed | scripts/polygontools.ts:250-337 | every cut names an existing node |
| UnionWalk.LinkedShape | scripts/polygontools.ts:365 | the arrangement `union` receives is well linked |
| UnionWalk.VisitKeepsShape | scripts/polygontools.ts:377 | marking a sequence visited changes nothing the walk reads |
| UnionWalk.LoopKeepsShape | scripts/polygontools.ts:410 | adding a loop to a node changes nothing the walk reads |
| UnionWalk.FirstIndex | scripts/polygontools.ts:389 | `findIndex` returns the first position holding the sequence |
| UnionWalk.OpenFromFirst | scripts/polygontools.ts:393-406 | the scan finds the first position that leaves the node with the nesting counter at zero, and finds none only when there is none before it comes back |
| UnionWalk.NextSequence | scripts/polygontools.ts:389-406 | the `for` loop returns exactly the sequence `Next` chooses, or none |
| UnionWalk.DistinctBound | scripts/polygontools.ts:379-408 | a walk that repeats no sequence is no longer than the number of sequences, so every walk ends |
| UnionWalk.FollowCloses | scripts/polygontools.ts:379-408 | a closed walk repeats no sequence; each step is the one `Next` chooses; only the last step arrives back at the start node |
| UnionWalk.FollowOn | scripts/polygontools.ts:379-406 | a walk that has not closed goes on with a sequence new to it |
| UnionWalk.Trace | scripts/polygontools.ts:371-386 | a loop starts at its start node's position |
| UnionWalk.Walk | scripts/polygontools.ts:371-408 | succeeds exactly when the walk closes; then the loop is `Trace` of the walk and exactly the walk's sequences become visited |
| UnionWalk.FirstUntaken | scripts/polygontools.ts:373 | `find` returns the first sequence in the list that leaves the node unvisited, or none when there is none |
| UnionWalk.FoundIsFirstOpen | scripts/polygontools.ts:373 | what `find` picks, with the flags set by earlier walks, is the first sequence of the list that leaves the node and was neither visited at first nor taken by those walks |
| UnionWalk.FirstOpenShift | scripts/polygontools.ts:367-415 | the first open sequence after later walks over flags set by earlier walks is the first open one after all of them over the flags at first |
| UnionWalk.FewerUnvisited | scripts/polygontools.ts:377 | visiting one more sequence lowers the unvisited count, so the node loop ends |
| UnionWalk.NodeLoops | scripts/polygontools.ts:369-413 | walks from a node until no sequence leaves it unvisited; each loop is added to the node's `nodeLoops`; each walk closes and starts on the first sequence of the node's list that leaves the node, was not visited at first and was not taken by an earlier walk; on failure some such walk does not close |
| UnionWalk.LoopsAtAppend | scripts/polygontools.ts:410-412 | adding the loops of one node extends that node's share and no other's |
| UnionWalk.UnionLoops | scripts/polygontools.ts:367-415 | on success every node is settled and no sequence is left open; the walks go node by node: when a walk starts at a node, no earlier node has an open sequence left, and the walk closes and starts on the first sequence of its node's list still open after the walks before it; every loop is held by its start node; on failure some walk from a sequence open at first does not close |
| UnionWalk.ReorderKeepsLinked | scripts/polygontools.ts:340-358 | sorting the edge lists keeps the arrangement well linked |
| UnionWalk.SortEdges | scripts/polygontools.ts:340-358 | every node's edge list is put in its given order |
| UnionWalk.AllTaken | scripts/polygontools.ts:367-415 | once every node is settled, every sequence that leaves a node was taken by some walk |
| UnionWalk.SortedLoops | scripts/polygontools.ts:340-415 | on the sorted arrangement: success means the walks go node by node (no earlier node has an open sequence left when a walk starts), every walk closes and starts on the first sequence of its node's sorted list still open after the walks before it, and every leaving sequence was walked; failure names a walk from a leaving sequence that does not close |
| UnionWalk.Union | scripts/polygontools.ts:363-416 | fails when `polyIntersect` fails; on success the walks go node by node (no earlier node has an open sequence left when a walk starts), every walk closes from its start node, starting on the first sequence of that node's list no earlier walk took, and every sequence leaving a node is walked; otherwise a walk does not close |
| UnionWalk.UnionLogUnique | scripts/polygontools.ts:367-415 | two walk logs over the same arrangement that both follow the node-by-node order and leave nothing open are equal: the loops `union` returns, and their order, are determined by the arrangement |

## Left out

- 64-bit floating point. Everything is exact reals. NaN and the infinities are modelled only where the source reaches them: a zero denominator in `RaySegment.QuotientNegative`, the unbounded rectangle `Bounds.Plane` of a polygon without vertices, and the `None` coefficients of `Lines.LineIntersect`.
- `normalize`, `normalToEdge` and the numeric value of `angle`. Only `angle`'s comparison with pi is used by the core, and it is modelled by the sign of a cross product.
- `windTest`. `union` computes the winding of each loop and discards it, and nothing else in the core calls it.
- The angular sort of each node's edge list at the end of `polyIntersect` (`edgeSeqAngle`, computed with `angle`). `UnionWalk.SortEdges` applies a given order per node. `UnionWalk.Union` requires that order to be a permutation of the node's list (`UnionWalk.Permutes`). The order itself is not computed.
- `copy()` of the three forms and the `PointForm`/`CircleForm` fields as mutable objects. Forms are values (`Forms.Shape`), so two equal forms cannot be told apart in the quad tree or in `collisionsWith`'s result.
- `QuadNode.parentNode`. It is set by the constructor and never read.
- The `PolygonForm` bounds cache inside the manager. Stored polygons are values whose vertices never change after `addStaticPolygon`, so the cached rectangle always equals `Forms.PolygonBounds`. The cache itself is modelled in `Forms.PolygonForm.BoundingRect`.
- The source's exceptions and `undefined` dereferences outside `fintersect`. They become `Err`, `None` or `ok == false`, and the model does not describe what the program does afterwards.
- Forms.FIntersect: the throwing pairs of `fintersect` are outside its precondition `Forms.Defined`. These are a circle or point against a polygon (a missing `center`), and two polygons of which exactly one has no vertex (a missing first vertex). The throw itself is not modelled.
- Forms.Intersect: the same pairs are excluded by the same precondition.
- QuadTree.CollisionManager.CollisionsWith: requires `Answerable`: no form held by a node the search reaches may make one of those pairs with the query when their rectangles meet. Such a query throws in the source and is outside the model. For example, after `addStaticPolygon([])`, `collisionsWith` a polygon with vertices throws whenever the query's rectangle meets the managed area. The empty polygon's unbounded rectangle meets every query, and the search reaches the root. A query that misses the managed area reaches no node and returns `[]` in both (`QuadTree.CollisionManager.OutsideQuery`).
- UnionWalk.UnionLoops, UnionWalk.SortedLoops and UnionWalk.Union: on failure, the contract names a walk that does not close. That walk starts at some node on a sequence no walk had taken at the start. The contract does not say it is the walk the source is on when it stops.
- RaySegment.FRaySegment: requires a positive margin. Every caller in the core passes the default of 0.01 (`RaySegment.DefaultMargin`); with a zero or negative margin the source can divide by a zero determinant, and that case is not modelled.
- `console.assert` in `union`. A failed "next edge sequence couldn't be found", or a sequence taken twice in the same walk, makes the source spin forever; the model returns `Err` there. A sequence found visited by an earlier walk is only logged by the source, and the model likewise goes on.
- UnionWalk.Union: on failure the contract names either a `polyIntersect` failure or a walk that does not close; the converse (that such a walk always makes the whole call fail) is not proved, because an earlier walk may already have marked its start visited.
- UnionWalk.FollowCloses: "edge sequence shouldn't be visited" is proved within one walk (no sequence repeats) and across walks only for their first sequences (each starts on a sequence no earlier walk took), not for every sequence of every walk.
- The rest of the game (scenes, player, level editor, UI, rendering through pixi.js). It is not part of this model.
