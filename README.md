# Triangle manifold adjacency in Dafny

This project models the core of a small triangle-mesh library. A `Manifold`
holds an array of triangles. Each triangle stores three vertex ids and three
`Link`s. A link names a half-edge of another triangle as (triangle index,
side). Side `s` of a triangle is the half-edge that starts at `vertex[s]` and
ends at `vertex[(s + 1) % 3]`. The special value `InvalidLink = (0, 3)` marks a
boundary side.

The model covers two parts of the library.

- **The builder.** It reads a flat index array three entries at a time. It then
  threads one intrusive list of corners per vertex through the build workspace
  (`vertexRings`, `triangleVertexRings.next`). For each vertex it copies the
  list into `adjList` and pairs up half-edges that run a→b and b→a. The build
  rejects the mesh as soon as a pair finds a slot already taken, which means a
  third triangle on one edge.
- **The traversal primitives.** These are `getEdgeKey`, the one-step rotations
  `nextClockwise` and `nextAnticlockwise`, and the four two-phase ring walks
  `visitTriangles{Clockwise,Anticlockwise}` and
  `visitEdges{Clockwise,Anticlockwise}`. Each walk returns the sequence of links
  it hands to the visitor, together with its boolean result.

Modules follow the structure of the code:

| module | contents |
|---|---|
| `Mesh` | `Link`, `Triangle`, `InvalidLink`, link equality, and the predicates on a link table: `WellFormed`, `Complete`, `NonManifold` |
| `Rotation` | `getEdgeKey`, `nextClockwise`, `nextAnticlockwise` |
| `Rings` | the corner list of each vertex and its threading through the workspace |
| `Matching` | the invariant of the pairwise matching loop |
| `Walks` | specification functions for the four walks, plus an independent description by repeated rotation |
| `Manifolds` | the classes `BuildWorkspace` and `Manifold`, and their imperative methods |
| `Examples` | small meshes and the build outcome each one must have |
| `MeshTables` | meshes given by a table of their directed edges, whose link table is then determined |
| `GridWalks`, `FanWalks` | the walks of the two test meshes, on the link tables the builder produces for them |
| `RingExamples` | the two test meshes built from their index buffers, and the walks the tests make on them |

The walks are written as loops over a local cursor. Each loop is proved equal
to a recursive specification function (`Walks.TrianglesClockwise` and its
three siblings). The properties of the walks are then proved as lemmas about
those functions.

The builder is written as loops over the triangle and workspace sequences.
Its result is specified as follows:

- the links are always `WellFormed`: every link is in range, reciprocal, and
  joins oppositely wound edges;
- the build returns true exactly when the mesh is not `NonManifold`;
- on true, the link table is `Complete`: every opposite pair is linked.

Together with `Mesh.LinkTableUnique`, this shows that a successful build's link
table depends only on the vertex data.

Each walk's first loop follows the rotation orbit of its cursor one step per
iteration (`Walks.ForwardAlongOrbit`), and so does the second loop
(`Walks.BackfillAlongOrbit`). Neither loop emits a link twice. The triangle
walks are exact mirror images: when one returns true, the other walk between
the same two links, run in the other direction, returns true and emits the
same links in reverse order (`Walks.TrianglesMirror`). The edge walks are not
exact mirrors, although they are often described that way. Each edge walk emits
its own `start` and never its `end`, so when one returns true the other emits
its own start first. It then emits the edges the first walk crossed after its
start, in reverse order, each as the twin half-edge
(`Walks.EdgesClockwiseMirror`, `Walks.EdgesAnticlockwiseMirror`).

The two meshes of the walk tests, a strip of twelve triangles and two fans
around vertex 6 that share the single edge 6-7, are built from their index buffers. The model proves
that each build succeeds, that the link table is the listed one, and that each
walk the tests make visits exactly the listed links with the listed result.

## Model

| member | source | states |
|---|---|---|
| Mesh.LinkEq | src/manifold.cpp:23-26 | Link `==` holds exactly when both links are the same (index, side) pair |
| Mesh.LinkNe | src/manifold.cpp:28-31 | Link `!=` holds exactly when the links differ, and is the negation of `==` |
| Mesh.CodeInjective | include/manifold.h:88-95 | `index * 3 + side` identifies a half-edge: two real half-edges have the same code exactly when they are equal |
| Mesh.SetLink | src/manifold.cpp:122-127 | Writing one link slot changes that slot only and leaves all vertex data alone |
| Mesh.WellFormedInRange | include/manifold.h:86 | In a well-formed table every link is InvalidLink or a real half-edge (index < n, side < 3) |
| Mesh.CompleteIsManifold | src/manifold.cpp:121-132 | A well-formed, complete link table has no half-edge with two different opposites |
| Mesh.LinkTableUnique | src/manifold.cpp:72-93 | Two well-formed, complete link tables over the same vertex data are identical, so rebuilding gives the same links |
| Mesh.SameLinkSlot | src/manifold.cpp:72-93 | In two such tables, each single link slot agrees |
| Mesh.LinksMatchSameVertices | src/manifold.cpp:121-127 | Matching links depend only on vertex data, so they survive a change of link data |
| Mesh.NonManifoldSameVertices | src/manifold.cpp:121-125 | Whether a mesh is non-manifold depends only on its vertex data |
| Rotation.EdgeKey | include/manifold.h:88-95 | getEdgeKey is below 3·\|triangles\|; it is the link's own code or its opposite's, and its own code on a boundary side |
| Rotation.EdgeKeyCanonical | include/manifold.h:88-95 | In a well-formed table two half-edges get the same key exactly when they are equal or linked to each other |
| Rotation.NextAnticlockwise | include/manifold.h:97-106 | nextAnticlockwise returns InvalidLink or a real half-edge whenever every stored link is; in a well-formed table a real result lies in another triangle and links back to the side it was read from |
| Rotation.NextClockwise | include/manifold.h:108-117 | nextClockwise returns InvalidLink or a real half-edge whenever every stored link is; in a well-formed table a real result lies in another triangle and links back to the side it was read from |
| Rotation.NextClockwiseStaysAtVertex | include/manifold.h:108-117 | nextClockwise maps a corner at v to InvalidLink or to a corner at v in a different triangle |
| Rotation.NextAnticlockwiseStaysAtVertex | include/manifold.h:97-106 | nextAnticlockwise maps a half-edge ending at v to InvalidLink or to a half-edge ending at v in a different triangle |
| Rotation.ClockwiseThenAnticlockwise | include/manifold.h:97-117 | After a clockwise step, turning and stepping anticlockwise comes back to where the step started |
| Rotation.AnticlockwiseThenClockwise | include/manifold.h:97-117 | After an anticlockwise step, turning and stepping clockwise comes back to where the step started |
| Rings.CornerOf | src/manifold.cpp:86-90 | Decoding a corner code yields the real half-edge with that code |
| Rings.CornersBelowContents | src/manifold.cpp:83-101 | The corner list of v contains exactly the corners at v with a lower code, in strictly decreasing code order |
| Rings.DecreasingDistinct | src/manifold.cpp:100-101 | A strictly decreasing corner list never repeats a corner, so the list walk ends |
| Rings.CornersBelowSplit | src/manifold.cpp:100-101 | The head of a non-empty corner list is a corner at v, and the rest of the list is the list below the head's code |
| Rings.HeadInvalidIffEmpty | src/manifold.cpp:95-98 | A vertex ring's head is InvalidLink exactly when the vertex has no corners |
| Rings.CornersBelowNext | src/manifold.cpp:86-90 | Pushing corner (i, j) extends the list of `vertex[j]` by that corner and leaves every other vertex's list alone |
| Rings.ThreadStart | src/manifold.cpp:80-82 | With every ring head InvalidLink, the workspace threads the empty corner lists |
| Rings.ThreadStep | src/manifold.cpp:86-90 | One threading step (`tvr.next[j] = vr; vr = {i, j}`) keeps every vertex ring and every next pointer equal to the head of the right corner list |
| Matching.ProgressStart | src/manifold.cpp:83-93 | With every link cleared, the matching invariant holds before the first vertex |
| Matching.ProgressEnterRing | src/manifold.cpp:99-105 | Collecting a vertex's adjacency list keeps the invariant |
| Matching.ProgressLeaveRing | src/manifold.cpp:95-131 | Once all corner pairs of vertex v are tried, every opposite pair whose first half-edge starts at v is linked |
| Matching.ProgressNextCorner | src/manifold.cpp:105-110 | Finishing the inner loop for corner k1 advances the invariant to k1 + 1 |
| Matching.DoneStep | src/manifold.cpp:110-117 | One inner iteration adds exactly the proposed pair to the set of pairs already tried |
| Matching.ProgressSkip | src/manifold.cpp:111-121 | An iteration that does not propose an opposite pair keeps the invariant |
| Matching.ProposalTest | src/manifold.cpp:106-121 | The loop's index and vertex tests accept a corner pair exactly when it is an opposite pair in index order |
| Matching.RingTrianglesDistinct | src/manifold.cpp:101-116 | Two different corners of one vertex ring belong to different triangles in a non-degenerate mesh, so the `k1 == k2` skip is the only same-triangle case |
| Matching.ProposedNotDone | src/manifold.cpp:110-117 | A pair the loop proposes has not been decided by an earlier iteration, so a taken slot cannot be the pair's own earlier match |
| Matching.ProgressJoin | src/manifold.cpp:121-127 | Linking two empty slots of an opposite pair in both directions keeps the invariant |
| Matching.ClashIsNonManifold | src/manifold.cpp:122-125 | A proposed opposite pair that finds a slot already taken proves the mesh non-manifold |
| Matching.ProgressFinish | src/manifold.cpp:95-132 | After the last vertex the links are well-formed and complete |
| Walks.Orbit | include/manifold.h:97-117 | Rotating j times from a cursor gives a cursor again; after at least one step the result is InvalidLink or a real half-edge, never an out-of-range link |
| Walks.ReachedOnOrbit | include/manifold.h:136-145 | If the first phase returns true, `end` lies on the rotation orbit of `start` within the fuel |
| Walks.OnOrbitReached | include/manifold.h:136-145 | If `end` lies on that orbit within the fuel, the first phase returns true |
| Walks.ForwardReachesEnd | include/manifold.h:136-145 | The first phase returns true exactly when `end` is met on the orbit of `start` |
| Walks.ConnectedIffOnOrbit | include/manifold.h:119-120 | Each walk returns true exactly when start is connected with end by rotation in the walk's direction |
| Walks.ForwardMissesInvalid | include/manifold.h:141-143 | The first phase compares after reducing the side mod 3, so it never meets InvalidLink |
| Walks.InvalidEndNeverConnected | include/manifold.h:136-156 | With `end` InvalidLink, all four walks return false |
| Walks.BothInvalidVisitNothing | include/manifold.h:136-156 | With both `start` and `end` InvalidLink, all four walks visit nothing and return false |
| Walks.SeedVisitedFirst | include/manifold.h:136-180 | With a valid `start`, the edge walks and visitTrianglesClockwise emit `start` first; visitTrianglesAnticlockwise emits `(start.index, (start.side + 1) % 3)` first |
| Walks.ForwardFirst | include/manifold.h:136-145 | A first phase that visits before checking emits the cursor, or the cursor turned by k, first |
| Walks.CombineFirst | include/manifold.h:136-157 | A finished walk emits its seed first, or without a seed what its first phase emits first |
| Walks.ForwardOrders | include/manifold.h:136-226 | The three first-phase loop shapes step through the same positions and agree on the result; their emitted links differ only by the turn and by the last element |
| Walks.BackfillOrders | include/manifold.h:147-194 | Visiting before or after the turn in the end-seeded phase emits the same positions, turned |
| Walks.EdgesClockwiseFollowTriangles | include/manifold.h:200-239 | visitEdgesClockwise returns the same bool as visitTrianglesClockwise, and its emitted links are the start followed by the triangle walk's links, turned up to the boundary |
| Walks.EdgesAnticlockwiseFollowTriangles | include/manifold.h:243-282 | The same correspondence between visitEdgesAnticlockwise and visitTrianglesAnticlockwise |
| Walks.StepAroundVertex | include/manifold.h:141-144 | One turn-and-follow step around vertex v stays at v |
| Walks.ForwardAroundVertex | include/manifold.h:136-145 | Everything the first phase emits lies at the ring's centre |
| Walks.BackfillAroundVertex | include/manifold.h:147-155 | Everything the end-seeded phase emits lies at the ring's centre |
| Walks.TrianglesClockwiseAroundVertex | include/manifold.h:121-157 | Every link visitTrianglesClockwise emits is a corner at the centre vertex |
| Walks.CombineAtVertex | include/manifold.h:136-157 | Every link of a finished walk comes from its seed, its start-seeded loop or its end-seeded loop, so per-loop facts about the centre vertex carry over to the whole walk |
| Walks.TrianglesAnticlockwiseAroundVertex | include/manifold.h:161-196 | Every link visitTrianglesAnticlockwise emits is a corner at the centre vertex |
| Walks.EdgesClockwiseAroundVertex | include/manifold.h:200-239 | Every link visitEdgesClockwise emits starts or ends at the centre vertex |
| Walks.EdgesAnticlockwiseAroundVertex | include/manifold.h:243-282 | Every link visitEdgesAnticlockwise emits starts or ends at the centre vertex |
| Walks.ForwardFuel | include/manifold.h:136-145 | A first phase that finished within some fuel gives the same outcome with more fuel |
| Walks.BackfillFuel | include/manifold.h:147-155 | An end-seeded phase that finished within some fuel gives the same outcome with more fuel |
| Walks.FuelIrrelevant | include/manifold.h:121-282 | A walk that finished within some fuel gives the same bool and emitted links with any larger fuel |
| Walks.ForwardAlongOrbit | include/manifold.h:136-145 | The first loop emits the items of successive orbit points of its cursor, skipping none. It returns true at the first point whose turn is `end`, false at the first boundary crossing, and runs out of fuel only when the first `fuel` points are real links that all miss `end` |
| Walks.BackfillAlongOrbit | include/manifold.h:147-155 | The second loop emits the items of successive orbit points of `end` up to the first boundary crossing, and runs out of fuel only when the first `fuel` points are real links |
| Walks.OrbitAdd | include/manifold.h:97-117 | Rotating i steps and then j more is rotating i + j steps |
| Walks.OrbitRecurs | include/manifold.h:97-117 | Once the orbit returns to a point it repeats with the same period from there on |
| Walks.ForwardDistinct | include/manifold.h:136-145 | A first loop that returns emits no link twice |
| Walks.BackfillDistinct | include/manifold.h:147-155 | A second loop that finishes emits no link twice |
| Walks.ClockwiseWalkRun | include/manifold.h:136-145 | When visitTrianglesClockwise returns true, what it emits is a run of distinct corners, each the clockwise neighbour of the one before, from `start` to the corner whose turned side is `end` |
| Walks.AnticlockwiseWalkRun | include/manifold.h:161-196 | When visitTrianglesAnticlockwise returns true, what it emits is a run of distinct corners, each anticlockwise of the one before, from the corner of `start` to `end` |
| Walks.ClockwiseRunBackwards | include/manifold.h:161-196 | A clockwise run read backwards is exactly what the anticlockwise triangle loop emits between the same ends, and that loop returns true |
| Walks.AnticlockwiseRunBackwards | include/manifold.h:121-157 | An anticlockwise run read backwards is exactly what the clockwise triangle loop emits between the same ends, and that loop returns true |
| Walks.TrianglesMirror | include/manifold.h:121-196 | When either triangle walk from b to a returns true, the opposite walk from a to b returns true and emits the same links in reverse order, in both directions |
| Walks.EdgesClockwiseMirror | include/manifold.h:200-282 | When visitEdgesClockwise(b, a) returns true, visitEdgesAnticlockwise(a, b) returns true and emits `a`, then the twins of the half-edges the clockwise walk emitted after `b`, in reverse order |
| Walks.EdgesAnticlockwiseMirror | include/manifold.h:200-282 | The same with the two edge walks exchanged |
| Walks.ForwardStep | include/manifold.h:136-145 | One iteration of the first loop that does not meet `end` emits one item and continues from the neighbour across the turned side with one less fuel |
| Walks.BackfillStep | include/manifold.h:147-155 | One iteration of the second loop emits one item and continues from the neighbour across the turned side |
| Walks.ForwardChain | include/manifold.h:136-145 | Along a chain of cursors, each the neighbour across the previous one's turned side and none turning onto `end`, the first loop emits one item per cursor and then continues from the end of the chain |
| Walks.ForwardReaches | include/manifold.h:136-145 | A first loop along a chain whose last cursor turns onto `end` returns true, having emitted one item per cursor (and one for the last cursor unless it checks before it visits) |
| Walks.ForwardBoundary | include/manifold.h:136-145 | A first loop along a chain that ends at a boundary side returns false, having emitted one item per cursor |
| Walks.BackfillBoundary | include/manifold.h:147-155 | The second loop along a chain that ends at a boundary side emits one item per cursor |
| Manifolds.Max | src/manifold.cpp:48-50 | `max` returns one of its arguments, and that argument is at least the other |
| Manifolds.VertexCount | src/manifold.cpp:41-50 | The vertex count exceeds every vertex id and is 1 + the largest one; it is 0 with no triangles |
| Manifolds.Loaded | src/manifold.cpp:42-55 | The loader yields `count / 3` triangles; triangle t has vertices `indices[3t .. 3t+2]` and three InvalidLinks; a trailing partial triple is ignored |
| Manifolds.LoadedNext | src/manifold.cpp:42-54 | While the cursor `i` is below `count`, the triple ending at `i` is the next loaded triangle |
| Manifolds.LoadedDone | src/manifold.cpp:42 | When the cursor passes `count`, every triangle has been loaded |
| Manifolds.VertexCountSnoc | src/manifold.cpp:48-50 | Appending a triangle updates the vertex count by the three `max` steps |
| Manifolds.VertexCountBelow | src/manifold.cpp:48-50 | A common bound on every vertex id bounds the vertex count |
| Manifolds.LoadedVertexCountBound | src/manifold.cpp:48-50 | With every vertex id below 2^32 − 1, the vertex count fits in 32 bits |
| Manifolds.ClearStep | src/manifold.cpp:91 | Clearing slot (i, j) extends the cleared prefix of link slots by one |
| Manifolds.BuildWorkspace.constructor | include/manifold.h:52-57 | A fresh workspace has empty vectors |
| Manifolds.BuildWorkspace.CollectRing | src/manifold.cpp:99-101 | Following the next pointers from a ring head fills adjList with the vertex's corner list |
| Manifolds.MatchCorner | src/manifold.cpp:105-130 | Trying corner k1 against every corner of the ring either advances the invariant or returns false on a non-manifold mesh with reciprocal links |
| Manifolds.MatchPair | src/manifold.cpp:110-128 | One inner iteration: skips, links an opposite pair, or returns false on a non-manifold mesh with reciprocal links |
| Manifolds.Manifold.constructor | src/manifold.cpp:33-36 | A new manifold has no triangles and a vertex count of 0 |
| Manifolds.Manifold.Load | src/manifold.cpp:40-55 | The triangle array becomes the loaded triangles, and the vertex count becomes their vertex count |
| Manifolds.Manifold.BuildFromIndices | src/manifold.cpp:38-58 | Loads the indices and builds; the result is well-formed, true exactly when the mesh is not non-manifold, and complete on true |
| Manifolds.Manifold.BuildFromVector | src/manifold.cpp:60-63 | The same promise for a whole index vector |
| Manifolds.Manifold.Build | src/manifold.cpp:65-133 | Keeps the vertex data, returns true without touching the workspace when there are no triangles, leaves links well-formed, returns true exactly when the mesh is not non-manifold, and on true links every opposite pair |
| Manifolds.Manifold.ThreadRings | src/manifold.cpp:71-93 | Clears every link and threads every vertex's corner list through the workspace |
| Manifolds.Manifold.MatchRing | src/manifold.cpp:103-130 | Matching one vertex ring either completes the invariant for that vertex or returns false on a non-manifold mesh with reciprocal links |
| Manifolds.Manifold.VisitTrianglesClockwise | include/manifold.h:121-157 | The loop emits exactly the links of TrianglesClockwise and returns its bool |
| Manifolds.Manifold.VisitTrianglesAnticlockwise | include/manifold.h:161-196 | The loop emits exactly the links of TrianglesAnticlockwise and returns its bool |
| Manifolds.Manifold.VisitEdgesClockwise | include/manifold.h:200-239 | The loop emits exactly the links of EdgesClockwise and returns its bool |
| Manifolds.Manifold.VisitEdgesAnticlockwise | include/manifold.h:243-282 | The loop emits exactly the links of EdgesAnticlockwise and returns its bool |
| Examples.SharedEdgeOpposites | src/manifold.cpp:106-121 | Triangles 0-1-2 and 1-0-3 have exactly one opposite pair, side 0 of each, so they are manifold |
| Examples.SingleTriangleLinks | src/manifold.cpp:51-53 | A lone triangle is manifold and its well-formed link table is all boundary |
| Examples.SharedEdgeLinks | src/manifold.cpp:121-127 | Their well-formed, complete link table links side 0 to side 0 and leaves the other sides boundary |
| Examples.ThreeOnOneEdgeNonManifold | src/manifold.cpp:122-125 | Three triangles on one edge give a half-edge with two opposites |
| Examples.SingleTriangle | src/manifold.cpp:38-133 | An isolated triangle builds, and all three of its sides are boundary |
| Examples.SharedEdge | src/manifold.cpp:38-133 | Two triangles sharing an edge build and are linked side 0 to side 0 |
| Examples.ThreeOnOneEdge | src/manifold.cpp:38-133 | Three triangles on one edge are rejected |
| MeshTables.TabulatedManifold | src/manifold.cpp:122-125 | A mesh in which each directed edge is used by at most one half-edge is not non-manifold |
| MeshTables.TabulatedLinks | src/manifold.cpp:121-127 | In a well-formed, complete link table of such a mesh, each half-edge is linked to the reverse edge, or to InvalidLink when the reverse edge is not in the mesh |
| RingExamples.LoadedGrid | src/manifoldTest.cpp:40-43 | The loader reads the strip's twelve triangles from its index buffer |
| RingExamples.GridIndicesValid | src/manifoldTest.cpp:40-46 | The strip's index buffer meets the builder's preconditions: ids fit and no triangle repeats a vertex |
| RingExamples.GridLinks | src/manifoldTest.cpp:35-46 | The only well-formed, complete link table for the strip is the listed one |
| RingExamples.BuildGrid | src/manifoldTest.cpp:44-46 | The strip builds, and its link table is the listed one |
| GridWalks.GridClockwiseAroundFour | src/manifoldTest.cpp:50-56 | Clockwise from (7,0) to (2,1) returns true and visits six corners, all at vertex 4 |
| GridWalks.GridAnticlockwiseAroundFive | src/manifoldTest.cpp:58-64 | Anticlockwise from (7,0) to (2,1) returns true and visits six corners, all at vertex 5 |
| GridWalks.GridAnticlockwiseAroundSix | src/manifoldTest.cpp:66-72 | Anticlockwise from (9,0) to (4,1) returns false and visits four corners, all at vertex 6 |
| GridWalks.GridClockwiseAroundThree | src/manifoldTest.cpp:74-80 | Clockwise from (5,0) to (0,1) returns false and visits two corners, both at vertex 3 |
| GridWalks.GridClockwiseFromThree | src/manifoldTest.cpp:82-88 | Clockwise from (0,2) to InvalidLink returns false and visits two corners at vertex 3 |
| GridWalks.GridClockwiseToThree | src/manifoldTest.cpp:90-96 | Clockwise from InvalidLink to (5,2) returns false and visits two corners at vertex 3 |
| GridWalks.GridAnticlockwiseFromThree | src/manifoldTest.cpp:98-104 | Anticlockwise from (5,2) to InvalidLink returns false and visits two corners at vertex 3 |
| GridWalks.GridAnticlockwiseToThree | src/manifoldTest.cpp:106-112 | Anticlockwise from InvalidLink to (0,2) returns false and visits two corners at vertex 3 |
| RingExamples.VisitRingTest | src/manifoldTest.cpp:33-113 | Builds the strip and runs the eight triangle walks of the ring test; each returns the listed bool and visits exactly the listed corners |
| RingExamples.LoadedFan | src/manifoldTest.cpp:124-126 | The loader reads the two fans' eleven triangles from their index buffer |
| RingExamples.FanIndicesValid | src/manifoldTest.cpp:124-129 | The fans' index buffer meets the builder's preconditions |
| RingExamples.FanLinks | src/manifoldTest.cpp:117-129 | The only well-formed, complete link table for the two fans is the listed one |
| RingExamples.BuildFan | src/manifoldTest.cpp:127-129 | The two fans build, and their link table is the listed one |
| FanWalks.FanClockwiseAcross | src/manifoldTest.cpp:136-149 | visitEdgesClockwise from (7,0) to (2,1) returns false and visits exactly the six half-edges the test lists |
| FanWalks.FanClockwiseFromLower | src/manifoldTest.cpp:151-161 | visitEdgesClockwise from (7,0) to InvalidLink returns false and visits exactly the three listed half-edges |
| FanWalks.FanClockwiseToUpper | src/manifoldTest.cpp:163-173 | visitEdgesClockwise from InvalidLink to (2,1) returns false and visits exactly the three listed half-edges |
| FanWalks.FanAnticlockwiseAcross | src/manifoldTest.cpp:175-188 | visitEdgesAnticlockwise from (2,1) to (7,0) returns false and visits exactly the six listed half-edges |
| FanWalks.FanClockwiseJoined | src/manifoldTest.cpp:190-203 | visitEdgesClockwise from (3,2) to (8,2) returns true after the six listed half-edges |
| FanWalks.FanAnticlockwiseJoined | src/manifoldTest.cpp:205-218 | visitEdgesAnticlockwise from (8,2) to (3,2) returns true after the six listed half-edges |
| RingExamples.VisitEdgesTest | src/manifoldTest.cpp:115-219 | Builds the two fans and runs the six edge walks of the edge test; each returns the listed bool and visits exactly the listed half-edges |

## Left out

- Link packing: the 30-bit `index` and 2-bit `side` fields are a plain pair. `Build` and the loaders require fewer than 2^30 triangles instead of modelling truncation.
- Manifolds.VertexCount: does not model 32-bit wrap-around of `vertex + 1`; the loaders require every vertex id below 2^32 − 1.
- Manifolds.Manifold.Build: requires every vertex id below `m_maxVertexCount`. An out-of-range id in a direct `build(wks)` call indexes past `vertexRings` in the C++ code, which is undefined behaviour.
- Manifolds.Manifold.Build: requires non-degenerate triangles (three distinct vertices). With a repeated vertex, a triangle can be paired with itself and the outcome depends on the loop order.
- Manifolds.Manifold.Build: when it returns false, the model promises only that the partial link table is well-formed, not which pairs were already linked.
- Loop structure: the body of the matching loop is written as the module-level methods `MatchCorner` (the inner `k2` loop) and `MatchPair` (one iteration). They work on a sequence value that `MatchRing` writes back to the triangle field.
- Loop structure: `ThreadRings` and `Load` likewise build their results in local sequences and assign the fields at the end.
- Manifolds.Manifold.VisitTrianglesClockwise (and the three other walks): the visitor callback is replaced by the returned sequence of emitted links.
- Manifolds.Manifold.VisitTrianglesClockwise (and the three other walks): each loop runs at most `fuel` iterations. `None` means the walk had not returned by then. Either C++ loop can run forever. The first loop never returns when `start` is on a closed ring that `end` is not on. The second loop never returns when `end` is on a closed ring, for example with `start` InvalidLink and `end` an interior corner (include/manifold.h:147-155). `Walks.FuelIrrelevant` shows that a finished walk does not depend on the fuel.
- Workspace capacity and allocation, and the reuse of vector storage between builds, are not modelled. Only the contents are.
- `adjList.count()` is the length of the list.
- The `max` from the GLSL maths header is integer maximum; the rest of that header is not part of this model.
- The unit-test harness, its `ManifoldUnitTests` macro and `assertTest` are not part of this model. The two meshes and every walk of its two tests are reproduced in `RingExamples`, `GridWalks` and `FanWalks`. The tests' visit counters and `visitedEdge` flags are replaced by the exact list of visited links.
- Concurrency: the code is single-threaded.
