// The two meshes of the walk tests, built from their index buffers: the
// build succeeds, its link table is the listed one, and every walk the tests
// make visits exactly the listed cursors.

module RingExamples {
  import opened Mesh
  import opened Walks
  import opened Manifolds
  import opened MeshTables
  import opened GridWalks
  import opened FanWalks

  // ---------------------------------------------------------------------------
  // The strip of twelve triangles on three rows of vertices, 0-1-2-10, 3-4-5-6 and 7-8-9-11.

  /** The triangles, by their vertices. */
  ghost predicate IsGrid(tris: seq<Triangle>)
  {
    |tris| == 12 &&
    tris[0].vertex == [0, 4, 3] &&
    tris[1].vertex == [0, 1, 4] &&
    tris[2].vertex == [1, 5, 4] &&
    tris[3].vertex == [1, 2, 5] &&
    tris[4].vertex == [2, 6, 5] &&
    tris[5].vertex == [3, 4, 7] &&
    tris[6].vertex == [4, 8, 7] &&
    tris[7].vertex == [4, 5, 8] &&
    tris[8].vertex == [5, 9, 8] &&
    tris[9].vertex == [5, 6, 9] &&
    tris[10].vertex == [2, 10, 6] &&
    tris[11].vertex == [6, 11, 9]
  }

  /** The index buffer, one triple per triangle. */
  const GridIndices: seq<nat> :=
    [0, 4, 3] + [0, 1, 4] + [1, 5, 4] + [1, 2, 5] + [2, 6, 5] + [3, 4, 7] +
    [4, 8, 7] + [4, 5, 8] + [5, 9, 8] + [5, 6, 9] + [2, 10, 6] + [6, 11, 9]

  // LoadedGrid0 to LoadedGrid5 split LoadedGrid below into pieces of two triangles each.
  lemma LoadedGrid0(tris: seq<Triangle>)
    requires SameVertices(tris, Loaded(GridIndices, |GridIndices|))
    ensures tris[0].vertex == [0, 4, 3]
    ensures tris[1].vertex == [0, 1, 4]
  {
    LoadedVertices(GridIndices, tris, 0);
    LoadedVertices(GridIndices, tris, 1);
  }

  lemma LoadedGrid1(tris: seq<Triangle>)
    requires SameVertices(tris, Loaded(GridIndices, |GridIndices|))
    ensures tris[2].vertex == [1, 5, 4]
    ensures tris[3].vertex == [1, 2, 5]
  {
    LoadedVertices(GridIndices, tris, 2);
    LoadedVertices(GridIndices, tris, 3);
  }

  lemma LoadedGrid2(tris: seq<Triangle>)
    requires SameVertices(tris, Loaded(GridIndices, |GridIndices|))
    ensures tris[4].vertex == [2, 6, 5]
    ensures tris[5].vertex == [3, 4, 7]
  {
    LoadedVertices(GridIndices, tris, 4);
    LoadedVertices(GridIndices, tris, 5);
  }

  lemma LoadedGrid3(tris: seq<Triangle>)
    requires SameVertices(tris, Loaded(GridIndices, |GridIndices|))
    ensures tris[6].vertex == [4, 8, 7]
    ensures tris[7].vertex == [4, 5, 8]
  {
    LoadedVertices(GridIndices, tris, 6);
    LoadedVertices(GridIndices, tris, 7);
  }

  lemma LoadedGrid4(tris: seq<Triangle>)
    requires SameVertices(tris, Loaded(GridIndices, |GridIndices|))
    ensures tris[8].vertex == [5, 9, 8]
    ensures tris[9].vertex == [5, 6, 9]
  {
    LoadedVertices(GridIndices, tris, 8);
    LoadedVertices(GridIndices, tris, 9);
  }

  lemma LoadedGrid5(tris: seq<Triangle>)
    requires SameVertices(tris, Loaded(GridIndices, |GridIndices|))
    ensures tris[10].vertex == [2, 10, 6]
    ensures tris[11].vertex == [6, 11, 9]
  {
    LoadedVertices(GridIndices, tris, 10);
    LoadedVertices(GridIndices, tris, 11);
  }

  /** The loader reads these triangles from the index buffer. */
  lemma LoadedGrid(tris: seq<Triangle>)
    requires SameVertices(tris, Loaded(GridIndices, |GridIndices|))
    ensures IsGrid(tris)
  {
    LoadedGrid0(tris);
    LoadedGrid1(tris);
    LoadedGrid2(tris);
    LoadedGrid3(tris);
    LoadedGrid4(tris);
    LoadedGrid5(tris);
  }

  /** The index buffer meets the builder's preconditions. */
  lemma GridIndicesValid()
    ensures |GridIndices| < U32 && |GridIndices| / 3 < INDEX_LIMIT
    ensures forall k :: 0 <= k < 3 * (|GridIndices| / 3) ==> GridIndices[k] + 1 < U32
    ensures NonDegenerate(Loaded(GridIndices, |GridIndices|))
  {
    assert forall k :: 0 <= k < |GridIndices| ==> GridIndices[k] < 12;
    GridNonDegenerate(Loaded(GridIndices, |GridIndices|));
  }

  lemma GridNonDegenerate(tris: seq<Triangle>)
    requires SameVertices(tris, Loaded(GridIndices, |GridIndices|))
    ensures NonDegenerate(tris)
  {
    LoadedGrid(tris);
    GridEdgeTable(tris);
  }

  // GridEdge, GridEdgesOwned and GridEdgeTable tabulate the strip's half-edges by their end vertices, the
  // form MeshTables.TabulatedLinks takes.
  /** The half-edge from u to w. */
  function GridEdge(u: nat, w: nat): Link
  {
    if u == 0 then (if w == 4 then Link(0, 0) else if w == 1 then Link(1, 0) else InvalidLink) else
    if u == 1 then (if w == 4 then Link(1, 1) else if w == 5 then Link(2, 0) else if w == 2 then Link(3, 0) else InvalidLink) else
    if u == 2 then (if w == 5 then Link(3, 1) else if w == 6 then Link(4, 0) else if w == 10 then Link(10, 0) else InvalidLink) else
    if u == 3 then (if w == 0 then Link(0, 2) else if w == 4 then Link(5, 0) else InvalidLink) else
    if u == 4 then (if w == 3 then Link(0, 1) else if w == 0 then Link(1, 2) else if w == 1 then Link(2, 2) else if w == 7 then Link(5, 1) else if w == 8 then Link(6, 0) else if w == 5 then Link(7, 0) else InvalidLink) else
    if u == 5 then (if w == 4 then Link(2, 1) else if w == 1 then Link(3, 2) else if w == 2 then Link(4, 2) else if w == 8 then Link(7, 1) else if w == 9 then Link(8, 0) else if w == 6 then Link(9, 0) else InvalidLink) else
    if u == 6 then (if w == 5 then Link(4, 1) else if w == 9 then Link(9, 1) else if w == 2 then Link(10, 2) else if w == 11 then Link(11, 0) else InvalidLink) else
    if u == 7 then (if w == 3 then Link(5, 2) else if w == 4 then Link(6, 2) else InvalidLink) else
    if u == 8 then (if w == 7 then Link(6, 1) else if w == 4 then Link(7, 2) else if w == 5 then Link(8, 2) else InvalidLink) else
    if u == 9 then (if w == 8 then Link(8, 1) else if w == 5 then Link(9, 2) else if w == 6 then Link(11, 2) else InvalidLink) else
    if u == 10 then (if w == 6 then Link(10, 1) else InvalidLink) else
    if u == 11 then (if w == 9 then Link(11, 1) else InvalidLink) else
    InvalidLink
  }

  lemma GridEdgesOwned(tris: seq<Triangle>)
    requires IsGrid(tris)
    ensures forall g :: IsHalfEdge(|tris|, g) ==> GridEdge(Origin(tris, g), Target(tris, g)) == g
  {
    forall h | IsHalfEdge(|tris|, h)
      ensures GridEdge(Origin(tris, h), Target(tris, h)) == h
    {
      assert h.index == 0 || h.index == 1 || h.index == 2 || h.index == 3 || h.index == 4 || h.index == 5 || h.index == 6 || h.index == 7 || h.index == 8 || h.index == 9 || h.index == 10 || h.index == 11;
      assert h.side == 0 || h.side == 1 || h.side == 2;
    }
  }

  lemma GridEdgeTable(tris: seq<Triangle>)
    requires IsGrid(tris)
    ensures EdgeTable(tris, GridEdge) && NonDegenerate(tris)
  {
    GridEdgesOwned(tris);
  }

  // GridLinks0 to GridLinks3 split GridLinks below into pieces of a few triangles each.
  lemma GridLinks0(tris: seq<Triangle>)
    requires IsGrid(tris)
    requires forall h :: IsHalfEdge(|tris|, h) ==> LinkAt(tris, h) == GridEdge(Target(tris, h), Origin(tris, h))
    ensures LinkAt(tris, Link(0, 0)) == Link(1, 2)
    ensures LinkAt(tris, Link(0, 1)) == Link(5, 0)
    ensures LinkAt(tris, Link(0, 2)) == InvalidLink
    ensures LinkAt(tris, Link(1, 0)) == InvalidLink
    ensures LinkAt(tris, Link(1, 1)) == Link(2, 2)
    ensures LinkAt(tris, Link(1, 2)) == Link(0, 0)
    ensures LinkAt(tris, Link(2, 0)) == Link(3, 2)
    ensures LinkAt(tris, Link(2, 1)) == Link(7, 0)
    ensures LinkAt(tris, Link(2, 2)) == Link(1, 1)
  {
  }

  lemma GridLinks1(tris: seq<Triangle>)
    requires IsGrid(tris)
    requires forall h :: IsHalfEdge(|tris|, h) ==> LinkAt(tris, h) == GridEdge(Target(tris, h), Origin(tris, h))
    ensures LinkAt(tris, Link(3, 0)) == InvalidLink
    ensures LinkAt(tris, Link(3, 1)) == Link(4, 2)
    ensures LinkAt(tris, Link(3, 2)) == Link(2, 0)
    ensures LinkAt(tris, Link(4, 0)) == Link(10, 2)
    ensures LinkAt(tris, Link(4, 1)) == Link(9, 0)
    ensures LinkAt(tris, Link(4, 2)) == Link(3, 1)
    ensures LinkAt(tris, Link(5, 0)) == Link(0, 1)
    ensures LinkAt(tris, Link(5, 1)) == Link(6, 2)
    ensures LinkAt(tris, Link(5, 2)) == InvalidLink
  {
  }

  lemma GridLinks2(tris: seq<Triangle>)
    requires IsGrid(tris)
    requires forall h :: IsHalfEdge(|tris|, h) ==> LinkAt(tris, h) == GridEdge(Target(tris, h), Origin(tris, h))
    ensures LinkAt(tris, Link(6, 0)) == Link(7, 2)
    ensures LinkAt(tris, Link(6, 1)) == InvalidLink
    ensures LinkAt(tris, Link(6, 2)) == Link(5, 1)
    ensures LinkAt(tris, Link(7, 0)) == Link(2, 1)
    ensures LinkAt(tris, Link(7, 1)) == Link(8, 2)
    ensures LinkAt(tris, Link(7, 2)) == Link(6, 0)
    ensures LinkAt(tris, Link(8, 0)) == Link(9, 2)
    ensures LinkAt(tris, Link(8, 1)) == InvalidLink
    ensures LinkAt(tris, Link(8, 2)) == Link(7, 1)
  {
  }

  lemma GridLinks3(tris: seq<Triangle>)
    requires IsGrid(tris)
    requires forall h :: IsHalfEdge(|tris|, h) ==> LinkAt(tris, h) == GridEdge(Target(tris, h), Origin(tris, h))
    ensures LinkAt(tris, Link(9, 0)) == Link(4, 1)
    ensures LinkAt(tris, Link(9, 1)) == Link(11, 2)
    ensures LinkAt(tris, Link(9, 2)) == Link(8, 0)
    ensures LinkAt(tris, Link(10, 0)) == InvalidLink
    ensures LinkAt(tris, Link(10, 1)) == InvalidLink
    ensures LinkAt(tris, Link(10, 2)) == Link(4, 0)
    ensures LinkAt(tris, Link(11, 0)) == InvalidLink
    ensures LinkAt(tris, Link(11, 1)) == InvalidLink
    ensures LinkAt(tris, Link(11, 2)) == Link(9, 1)
  {
  }

  /** A well-formed, complete link table for these triangles is the one listed. */
  lemma GridLinks(tris: seq<Triangle>)
    requires IsGrid(tris) && WellFormed(tris) && Complete(tris)
    ensures GridLinked(tris) && GridCorners(tris)
  {
    GridEdgeTable(tris);
    TabulatedLinks(tris, GridEdge);
    GridLinks0(tris);
    GridLinks1(tris);
    GridLinks2(tris);
    GridLinks3(tris);
  }

  /** The index buffer builds, and the link table is the listed one. */
  method BuildGrid() returns (ok: bool, m: Manifold)
    ensures ok && m.Valid() && GridLinked(m.triangles) && GridCorners(m.triangles)
  {
    var wks := new BuildWorkspace();
    m := new Manifold();
    GridIndicesValid();
    ok := m.BuildFromVector(wks, GridIndices);
    LoadedGrid(m.triangles);
    GridEdgeTable(m.triangles);
    TabulatedManifold(m.triangles, GridEdge);
    GridLinks(m.triangles);
  }

  /** The strip builds, and each triangle walk around its vertices visits exactly the listed corners. */
  method VisitRingTest() returns (ok: bool, walks: seq<Option<Walk>>)
    ensures ok
    ensures walks == [
      Some(Walk(true, [Link(7, 0), Link(6, 0), Link(5, 1), Link(0, 1), Link(1, 2), Link(2, 2)])),
      Some(Walk(true, [Link(7, 1), Link(8, 0), Link(9, 0), Link(4, 2), Link(3, 2), Link(2, 1)])),
      Some(Walk(false, [Link(9, 1), Link(11, 0), Link(4, 1), Link(10, 2)])),
      Some(Walk(false, [Link(5, 0), Link(0, 2)])),
      Some(Walk(false, [Link(0, 2), Link(5, 0)])),
      Some(Walk(false, [Link(5, 0), Link(0, 2)])),
      Some(Walk(false, [Link(5, 0), Link(0, 2)])),
      Some(Walk(false, [Link(0, 2), Link(5, 0)]))]
  {
    var m;
    ok, m := BuildGrid();
    GridClockwiseAroundFour(m.triangles);
    var w0 := m.VisitTrianglesClockwise(Link(7, 0), Link(2, 1), 20);
    GridAnticlockwiseAroundFive(m.triangles);
    var w1 := m.VisitTrianglesAnticlockwise(Link(7, 0), Link(2, 1), 20);
    GridAnticlockwiseAroundSix(m.triangles);
    var w2 := m.VisitTrianglesAnticlockwise(Link(9, 0), Link(4, 1), 20);
    GridClockwiseAroundThree(m.triangles);
    var w3 := m.VisitTrianglesClockwise(Link(5, 0), Link(0, 1), 20);
    GridClockwiseFromThree(m.triangles);
    var w4 := m.VisitTrianglesClockwise(Link(0, 2), InvalidLink, 20);
    GridClockwiseToThree(m.triangles);
    var w5 := m.VisitTrianglesClockwise(InvalidLink, Link(5, 2), 20);
    GridAnticlockwiseFromThree(m.triangles);
    var w6 := m.VisitTrianglesAnticlockwise(Link(5, 2), InvalidLink, 20);
    GridAnticlockwiseToThree(m.triangles);
    var w7 := m.VisitTrianglesAnticlockwise(InvalidLink, Link(0, 2), 20);
    walks := [w0, w1, w2, w3, w4, w5, w6, w7];
  }

  // ---------------------------------------------------------------------------
  // Two fans of triangles around vertex 6, 5-0-1-2-3-4-7 above and 8-9-10-11-12-7 below, sharing the single edge 6-7.

  /** The triangles, by their vertices. */
  ghost predicate IsFan(tris: seq<Triangle>)
  {
    |tris| == 11 &&
    tris[0].vertex == [0, 6, 5] &&
    tris[1].vertex == [0, 1, 6] &&
    tris[2].vertex == [1, 2, 6] &&
    tris[3].vertex == [2, 3, 6] &&
    tris[4].vertex == [3, 4, 6] &&
    tris[5].vertex == [4, 7, 6] &&
    tris[6].vertex == [6, 9, 8] &&
    tris[7].vertex == [6, 10, 9] &&
    tris[8].vertex == [6, 11, 10] &&
    tris[9].vertex == [6, 12, 11] &&
    tris[10].vertex == [6, 7, 12]
  }

  /** The index buffer, one triple per triangle. */
  const FanIndices: seq<nat> :=
    [0, 6, 5] + [0, 1, 6] + [1, 2, 6] + [2, 3, 6] + [3, 4, 6] + [4, 7, 6] +
    [6, 9, 8] + [6, 10, 9] + [6, 11, 10] + [6, 12, 11] + [6, 7, 12]

  // LoadedFan0 to LoadedFan5 split LoadedFan below into pieces of two triangles each.
  lemma LoadedFan0(tris: seq<Triangle>)
    requires SameVertices(tris, Loaded(FanIndices, |FanIndices|))
    ensures tris[0].vertex == [0, 6, 5]
    ensures tris[1].vertex == [0, 1, 6]
  {
    LoadedVertices(FanIndices, tris, 0);
    LoadedVertices(FanIndices, tris, 1);
  }

  lemma LoadedFan1(tris: seq<Triangle>)
    requires SameVertices(tris, Loaded(FanIndices, |FanIndices|))
    ensures tris[2].vertex == [1, 2, 6]
    ensures tris[3].vertex == [2, 3, 6]
  {
    LoadedVertices(FanIndices, tris, 2);
    LoadedVertices(FanIndices, tris, 3);
  }

  lemma LoadedFan2(tris: seq<Triangle>)
    requires SameVertices(tris, Loaded(FanIndices, |FanIndices|))
    ensures tris[4].vertex == [3, 4, 6]
    ensures tris[5].vertex == [4, 7, 6]
  {
    LoadedVertices(FanIndices, tris, 4);
    LoadedVertices(FanIndices, tris, 5);
  }

  lemma LoadedFan3(tris: seq<Triangle>)
    requires SameVertices(tris, Loaded(FanIndices, |FanIndices|))
    ensures tris[6].vertex == [6, 9, 8]
    ensures tris[7].vertex == [6, 10, 9]
  {
    LoadedVertices(FanIndices, tris, 6);
    LoadedVertices(FanIndices, tris, 7);
  }

  lemma LoadedFan4(tris: seq<Triangle>)
    requires SameVertices(tris, Loaded(FanIndices, |FanIndices|))
    ensures tris[8].vertex == [6, 11, 10]
    ensures tris[9].vertex == [6, 12, 11]
  {
    LoadedVertices(FanIndices, tris, 8);
    LoadedVertices(FanIndices, tris, 9);
  }

  lemma LoadedFan5(tris: seq<Triangle>)
    requires SameVertices(tris, Loaded(FanIndices, |FanIndices|))
    ensures tris[10].vertex == [6, 7, 12]
  {
    LoadedVertices(FanIndices, tris, 10);
  }

  /** The loader reads these triangles from the index buffer. */
  lemma LoadedFan(tris: seq<Triangle>)
    requires SameVertices(tris, Loaded(FanIndices, |FanIndices|))
    ensures IsFan(tris)
  {
    LoadedFan0(tris);
    LoadedFan1(tris);
    LoadedFan2(tris);
    LoadedFan3(tris);
    LoadedFan4(tris);
    LoadedFan5(tris);
  }

  /** The index buffer meets the builder's preconditions. */
  lemma FanIndicesValid()
    ensures |FanIndices| < U32 && |FanIndices| / 3 < INDEX_LIMIT
    ensures forall k :: 0 <= k < 3 * (|FanIndices| / 3) ==> FanIndices[k] + 1 < U32
    ensures NonDegenerate(Loaded(FanIndices, |FanIndices|))
  {
    assert forall k :: 0 <= k < |FanIndices| ==> FanIndices[k] < 13;
    FanNonDegenerate(Loaded(FanIndices, |FanIndices|));
  }

  lemma FanNonDegenerate(tris: seq<Triangle>)
    requires SameVertices(tris, Loaded(FanIndices, |FanIndices|))
    ensures NonDegenerate(tris)
  {
    LoadedFan(tris);
    FanEdgeTable(tris);
  }

  // FanEdge, FanEdgesOwned and FanEdgeTable tabulate the fans' half-edges by their end vertices, the
  // form MeshTables.TabulatedLinks takes.
  /** The half-edge from u to w. */
  function FanEdge(u: nat, w: nat): Link
  {
    if u == 0 then (if w == 6 then Link(0, 0) else if w == 1 then Link(1, 0) else InvalidLink) else
    if u == 1 then (if w == 6 then Link(1, 1) else if w == 2 then Link(2, 0) else InvalidLink) else
    if u == 2 then (if w == 6 then Link(2, 1) else if w == 3 then Link(3, 0) else InvalidLink) else
    if u == 3 then (if w == 6 then Link(3, 1) else if w == 4 then Link(4, 0) else InvalidLink) else
    if u == 4 then (if w == 6 then Link(4, 1) else if w == 7 then Link(5, 0) else InvalidLink) else
    if u == 5 then (if w == 0 then Link(0, 2) else InvalidLink) else
    if u == 6 then (if w == 5 then Link(0, 1) else if w == 0 then Link(1, 2) else if w == 1 then Link(2, 2) else if w == 2 then Link(3, 2) else if w == 3 then Link(4, 2) else if w == 4 then Link(5, 2) else if w == 9 then Link(6, 0) else if w == 10 then Link(7, 0) else if w == 11 then Link(8, 0) else if w == 12 then Link(9, 0) else if w == 7 then Link(10, 0) else InvalidLink) else
    if u == 7 then (if w == 6 then Link(5, 1) else if w == 12 then Link(10, 1) else InvalidLink) else
    if u == 8 then (if w == 6 then Link(6, 2) else InvalidLink) else
    if u == 9 then (if w == 8 then Link(6, 1) else if w == 6 then Link(7, 2) else InvalidLink) else
    if u == 10 then (if w == 9 then Link(7, 1) else if w == 6 then Link(8, 2) else InvalidLink) else
    if u == 11 then (if w == 10 then Link(8, 1) else if w == 6 then Link(9, 2) else InvalidLink) else
    if u == 12 then (if w == 11 then Link(9, 1) else if w == 6 then Link(10, 2) else InvalidLink) else
    InvalidLink
  }

  lemma FanEdgesOwned(tris: seq<Triangle>)
    requires IsFan(tris)
    ensures forall g :: IsHalfEdge(|tris|, g) ==> FanEdge(Origin(tris, g), Target(tris, g)) == g
  {
    forall h | IsHalfEdge(|tris|, h)
      ensures FanEdge(Origin(tris, h), Target(tris, h)) == h
    {
      assert h.index == 0 || h.index == 1 || h.index == 2 || h.index == 3 || h.index == 4 || h.index == 5 || h.index == 6 || h.index == 7 || h.index == 8 || h.index == 9 || h.index == 10;
      assert h.side == 0 || h.side == 1 || h.side == 2;
    }
  }

  lemma FanEdgeTable(tris: seq<Triangle>)
    requires IsFan(tris)
    ensures EdgeTable(tris, FanEdge) && NonDegenerate(tris)
  {
    FanEdgesOwned(tris);
  }

  // FanLinks0 to FanLinks3 split FanLinks below into pieces of a few triangles each.
  lemma FanLinks0(tris: seq<Triangle>)
    requires IsFan(tris)
    requires forall h :: IsHalfEdge(|tris|, h) ==> LinkAt(tris, h) == FanEdge(Target(tris, h), Origin(tris, h))
    ensures LinkAt(tris, Link(0, 0)) == Link(1, 2)
    ensures LinkAt(tris, Link(0, 1)) == InvalidLink
    ensures LinkAt(tris, Link(0, 2)) == InvalidLink
    ensures LinkAt(tris, Link(1, 0)) == InvalidLink
    ensures LinkAt(tris, Link(1, 1)) == Link(2, 2)
    ensures LinkAt(tris, Link(1, 2)) == Link(0, 0)
    ensures LinkAt(tris, Link(2, 0)) == InvalidLink
    ensures LinkAt(tris, Link(2, 1)) == Link(3, 2)
    ensures LinkAt(tris, Link(2, 2)) == Link(1, 1)
  {
  }

  lemma FanLinks1(tris: seq<Triangle>)
    requires IsFan(tris)
    requires forall h :: IsHalfEdge(|tris|, h) ==> LinkAt(tris, h) == FanEdge(Target(tris, h), Origin(tris, h))
    ensures LinkAt(tris, Link(3, 0)) == InvalidLink
    ensures LinkAt(tris, Link(3, 1)) == Link(4, 2)
    ensures LinkAt(tris, Link(3, 2)) == Link(2, 1)
    ensures LinkAt(tris, Link(4, 0)) == InvalidLink
    ensures LinkAt(tris, Link(4, 1)) == Link(5, 2)
    ensures LinkAt(tris, Link(4, 2)) == Link(3, 1)
    ensures LinkAt(tris, Link(5, 0)) == InvalidLink
    ensures LinkAt(tris, Link(5, 1)) == Link(10, 0)
    ensures LinkAt(tris, Link(5, 2)) == Link(4, 1)
  {
  }

  lemma FanLinks2(tris: seq<Triangle>)
    requires IsFan(tris)
    requires forall h :: IsHalfEdge(|tris|, h) ==> LinkAt(tris, h) == FanEdge(Target(tris, h), Origin(tris, h))
    ensures LinkAt(tris, Link(6, 0)) == Link(7, 2)
    ensures LinkAt(tris, Link(6, 1)) == InvalidLink
    ensures LinkAt(tris, Link(6, 2)) == InvalidLink
    ensures LinkAt(tris, Link(7, 0)) == Link(8, 2)
    ensures LinkAt(tris, Link(7, 1)) == InvalidLink
    ensures LinkAt(tris, Link(7, 2)) == Link(6, 0)
    ensures LinkAt(tris, Link(8, 0)) == Link(9, 2)
    ensures LinkAt(tris, Link(8, 1)) == InvalidLink
    ensures LinkAt(tris, Link(8, 2)) == Link(7, 0)
  {
  }

  lemma FanLinks3(tris: seq<Triangle>)
    requires IsFan(tris)
    requires forall h :: IsHalfEdge(|tris|, h) ==> LinkAt(tris, h) == FanEdge(Target(tris, h), Origin(tris, h))
    ensures LinkAt(tris, Link(9, 0)) == Link(10, 2)
    ensures LinkAt(tris, Link(9, 1)) == InvalidLink
    ensures LinkAt(tris, Link(9, 2)) == Link(8, 0)
    ensures LinkAt(tris, Link(10, 0)) == Link(5, 1)
    ensures LinkAt(tris, Link(10, 1)) == InvalidLink
    ensures LinkAt(tris, Link(10, 2)) == Link(9, 0)
  {
  }

  /** A well-formed, complete link table for these triangles is the one listed. */
  lemma FanLinks(tris: seq<Triangle>)
    requires IsFan(tris) && WellFormed(tris) && Complete(tris)
    ensures FanLinked(tris)
  {
    FanEdgeTable(tris);
    TabulatedLinks(tris, FanEdge);
    FanLinks0(tris);
    FanLinks1(tris);
    FanLinks2(tris);
    FanLinks3(tris);
  }

  /** The index buffer builds, and the link table is the listed one. */
  method BuildFan() returns (ok: bool, m: Manifold)
    ensures ok && m.Valid() && FanLinked(m.triangles)
  {
    var wks := new BuildWorkspace();
    m := new Manifold();
    FanIndicesValid();
    ok := m.BuildFromVector(wks, FanIndices);
    LoadedFan(m.triangles);
    FanEdgeTable(m.triangles);
    TabulatedManifold(m.triangles, FanEdge);
    FanLinks(m.triangles);
  }

  /** The two fans build, and each edge walk around vertex 6 visits exactly the listed half-edges. */
  method VisitEdgesTest() returns (ok: bool, walks: seq<Option<Walk>>)
    ensures ok
    ensures walks == [
      Some(Walk(false, [Link(7, 0), Link(7, 2), Link(6, 2), Link(2, 2), Link(1, 2), Link(0, 1)])),
      Some(Walk(false, [Link(7, 0), Link(7, 2), Link(6, 2)])),
      Some(Walk(false, [Link(2, 2), Link(1, 2), Link(0, 1)])),
      Some(Walk(false, [Link(2, 1), Link(2, 2), Link(1, 2), Link(0, 1), Link(7, 2), Link(6, 2)])),
      Some(Walk(true, [Link(3, 2), Link(3, 1), Link(4, 1), Link(5, 1), Link(10, 2), Link(9, 2)])),
      Some(Walk(true, [Link(8, 2), Link(8, 0), Link(9, 0), Link(10, 0), Link(5, 2), Link(4, 2)]))]
  {
    var m;
    ok, m := BuildFan();
    FanClockwiseAcross(m.triangles);
    var w0 := m.VisitEdgesClockwise(Link(7, 0), Link(2, 1), 20);
    FanClockwiseFromLower(m.triangles);
    var w1 := m.VisitEdgesClockwise(Link(7, 0), InvalidLink, 20);
    FanClockwiseToUpper(m.triangles);
    var w2 := m.VisitEdgesClockwise(InvalidLink, Link(2, 1), 20);
    FanAnticlockwiseAcross(m.triangles);
    var w3 := m.VisitEdgesAnticlockwise(Link(2, 1), Link(7, 0), 20);
    FanClockwiseJoined(m.triangles);
    var w4 := m.VisitEdgesClockwise(Link(3, 2), Link(8, 2), 20);
    FanAnticlockwiseJoined(m.triangles);
    var w5 := m.VisitEdgesAnticlockwise(Link(8, 2), Link(3, 2), 20);
    walks := [w0, w1, w2, w3, w4, w5];
  }
}
