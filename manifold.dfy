// The Manifold object and its build workspace (include/manifold.h,
// src/manifold.cpp): loading triangles from an index buffer, building the
// adjacency links, and the four ring walks.

module Manifolds {
  import opened Mesh
  import opened Rings
  import opened Matching
  import opened Rotation
  import opened Walks

  /** `glsl_math::max` on unsigned values. */
  function Max(a: nat, b: nat): (r: nat)
    ensures (r == a || r == b) && a <= r && b <= r
  {
    if a < b then b else a
  }

  /** The vertex count the loader derives: one more than the largest vertex id,
      0 for no triangles. */
  function VertexCount(tris: seq<Triangle>): (m: nat)
    ensures forall t, j :: 0 <= t < |tris| && 0 <= j < 3 ==> tris[t].vertex[j] < m
    ensures m == 0 || exists t, j :: 0 <= t < |tris| && 0 <= j < 3 && tris[t].vertex[j] + 1 == m
    ensures tris == [] ==> m == 0
  {
    if tris == [] then 0
    else
      var t := tris[|tris| - 1];
      var prev := VertexCount(tris[..|tris| - 1]);
      assert forall s :: 0 <= s < |tris| - 1 ==> tris[..|tris| - 1][s] == tris[s];
      Max(Max(Max(prev, t.vertex[0] + 1), t.vertex[1] + 1), t.vertex[2] + 1)
  }

  /** Triangle t of an index buffer, with all links unset. */
  function LoadTriangle(indices: seq<nat>, t: nat): Triangle
    requires 3 * t + 3 <= |indices|
  {
    Triangle([indices[3 * t], indices[3 * t + 1], indices[3 * t + 2]], [InvalidLink, InvalidLink, InvalidLink])
  }

  /** The triangles the loader reads from the first `count` indices; a trailing
      incomplete triple is ignored. */
  function Loaded(indices: seq<nat>, count: nat): (tris: seq<Triangle>)
    requires count <= |indices|
    ensures |tris| == count / 3
    ensures forall t :: 0 <= t < |tris| ==> tris[t] == LoadTriangle(indices, t)
  {
    seq(count / 3, t requires 0 <= t < count / 3 => LoadTriangle(indices, t))
  }

  /** While the loader's cursor i (the last index of the next triple) is
      below count, the next triple is the next loaded triangle. */
  lemma LoadedNext(indices: seq<nat>, count: nat, n: nat, i: nat)
    requires count <= |indices| && i == 3 * n + 2 && i < count
    ensures n < |Loaded(indices, count)|
    ensures Loaded(indices, count)[..n + 1] == Loaded(indices, count)[..n] +
      [Triangle([indices[i - 2], indices[i - 1], indices[i]], [InvalidLink, InvalidLink, InvalidLink])]
  {
    var L := Loaded(indices, count);
    assert L[n] == LoadTriangle(indices, n);
    assert L[..n + 1] == L[..n] + [L[n]];
  }

  /** Once the cursor reaches count, every complete triple has been loaded. */
  lemma LoadedDone(indices: seq<nat>, count: nat, n: nat, i: nat)
    requires count <= |indices| && i == 3 * n + 2 && count <= i && n <= |Loaded(indices, count)|
    ensures n == |Loaded(indices, count)|
  {
  }

  lemma VertexCountSnoc(tris: seq<Triangle>, t: Triangle)
    ensures VertexCount(tris + [t]) ==
      Max(Max(Max(VertexCount(tris), t.vertex[0] + 1), t.vertex[1] + 1), t.vertex[2] + 1)
  {
    assert (tris + [t])[..|tris|] == tris;
  }

  /** A bound on every vertex id bounds the vertex count. */
  lemma VertexCountBelow(tris: seq<Triangle>, b: nat)
    requires forall t, j :: 0 <= t < |tris| && 0 <= j < 3 ==> tris[t].vertex[j] < b
    ensures VertexCount(tris) <= b
  {
    var m := VertexCount(tris);
    if m != 0 {
      var t, j :| 0 <= t < |tris| && 0 <= j < 3 && tris[t].vertex[j] + 1 == m;
    }
  }

  /** Vertex ids below 2^32 - 1 keep the vertex count within `uint32_t`. */
  lemma LoadedVertexCountBound(indices: seq<nat>, count: nat)
    requires count <= |indices|
    requires forall k :: 0 <= k < 3 * (count / 3) ==> indices[k] + 1 < U32
    ensures VertexCount(Loaded(indices, count)) < U32
  {
    var L := Loaded(indices, count);
    forall t, j | 0 <= t < |L| && 0 <= j < 3
      ensures L[t].vertex[j] < U32 - 1
    {
      assert L[t].vertex[j] == indices[3 * t + j];
      assert 3 * t + j < 3 * (count / 3);
    }
    VertexCountBelow(L, U32 - 1);
  }

  /** The links of the sides with codes below c are InvalidLink. */
  ghost predicate ClearedBelow(tris: seq<Triangle>, c: nat)
  {
    forall h :: IsHalfEdge(|tris|, h) && Code(h) < c ==> LinkAt(tris, h) == InvalidLink
  }

  /** Clearing side (i, j) extends the cleared sides by one code. */
  lemma ClearStep(tris: seq<Triangle>, i: nat, j: nat, c: nat)
    requires i < |tris| && j < 3 && c == 3 * i + j && ClearedBelow(tris, c)
    ensures ClearedBelow(SetLink(tris, Link(i, j), InvalidLink), c + 1)
  {
    forall h | IsHalfEdge(|tris|, h) && Code(h) < c + 1
      ensures LinkAt(SetLink(tris, Link(i, j), InvalidLink), h) == InvalidLink
    {
      CodeInjective(h, Link(i, j));
    }
  }

  /** A value-initialised `TriangleVertexRings`: three all-zero links. */
  const ZeroLinks: Links3 := [Link(0, 0), Link(0, 0), Link(0, 0)]

  /** `Manifold::BuildWorkspace`: scratch storage of the builder. */
  class BuildWorkspace {
    /** Head of the corner list of each vertex. */
    var vertexRings: seq<Link>
    /** For each corner, the next corner of the same vertex's list. */
    var triangleVertexRings: seq<Links3>
    /** The corners of the vertex being matched. */
    var adjList: seq<Link>

    constructor ()
      ensures vertexRings == [] && triangleVertexRings == [] && adjList == []
    {
      vertexRings := [];
      triangleVertexRings := [];
      adjList := [];
    }

    /** Every corner of V is threaded onto the list of its vertex, for the
        m vertices of V. */
    ghost predicate Threaded(V: seq<Triangle>, m: nat)
      reads this`vertexRings, this`triangleVertexRings
    {
      |vertexRings| == m && ThreadedBelow(V, vertexRings, triangleVertexRings, 3 * |V|)
    }

    /** The loop that copies the list of vertex v, from its head, into
        adjList. */
    method CollectRing(head: Link, ghost V: seq<Triangle>, ghost v: nat)
      requires Threaded(V, |vertexRings|) && v < |vertexRings| && head == vertexRings[v]
      modifies this`adjList
      ensures adjList == Ring(V, v)
    {
      adjList := [];
      var vr := head;
      ghost var b: nat := 3 * |V|;
      HeadInvalidIffEmpty(V, v, b);
      while LinkNe(vr, InvalidLink)
        invariant b <= 3 * |V|
        invariant vr == Head(CornersBelow(V, v, b))
        invariant CornersBelow(V, v, b) == [] <==> vr == InvalidLink
        invariant adjList + CornersBelow(V, v, b) == Ring(V, v)
        decreases b
      {
        CornersBelowSplit(V, v, b);
        ghost var s := CornersBelow(V, v, b);
        assert adjList + s == (adjList + [vr]) + CornersBelow(V, v, Code(vr));
        adjList := adjList + [vr];
        b := Code(vr);
        vr := triangleVertexRings[vr.index][vr.side];
        HeadInvalidIffEmpty(V, v, b);
      }
    }
  }

  /** The inner matching loop of build(wks) for corner adj[k1] of vertex v:
      its half-edge leaving v is tried against the half-edge entering v of
      every corner adj[k2]. */
  method MatchCorner(tris0: seq<Triangle>, adjList: seq<Link>, k1: nat, ghost V: seq<Triangle>, ghost v: nat)
    returns (ok: bool, tris: seq<Triangle>)
    requires adjList == Ring(V, v) && k1 < |adjList|
    requires NonDegenerate(V)
    requires Progress(V, tris0, v, adjList, k1, 0)
    ensures SameVertices(tris, V)
    ensures ok ==> Progress(V, tris, v, adjList, k1 + 1, 0)
    ensures !ok ==> NonManifold(V) && LinksMatch(V, tris)
  {
    tris := tris0;
    var adjCount := |adjList|;
    var vr1 := adjList[k1];
    ProposalTest(V, v, adjList, k1, k1);
    assert tris[vr1.index].vertex == V[vr1.index].vertex;
    var v1 := tris[vr1.index].vertex[(vr1.side + 1) % 3];
    var s1 := vr1.side;
    for k2 := 0 to adjCount
      invariant Progress(V, tris, v, adjList, k1, k2)
    {
      ok, tris := MatchPair(tris, adjList, k1, k2, v1, s1, V, v);
      if !ok {
        return;
      }
    }
    ProgressNextCorner(V, tris, v, adjList, k1);
    ok := true;
  }

  /** One iteration of the inner matching loop: corners adj[k1] and adj[k2]
      of vertex v, where v1 is the vertex the half-edge s1 = adj[k1].side
      leads to. Different corners, the first in a triangle with no higher
      index, whose half-edges run between the same two vertices, are linked
      both ways, unless one of the two slots is taken already, which is a
      third triangle on the edge and fails the build. */
  method MatchPair(tris0: seq<Triangle>, adjList: seq<Link>, k1: nat, k2: nat, v1: nat, s1: nat,
                   ghost V: seq<Triangle>, ghost v: nat)
    returns (ok: bool, tris: seq<Triangle>)
    requires adjList == Ring(V, v) && k1 < |adjList| && k2 < |adjList|
    requires NonDegenerate(V)
    requires Progress(V, tris0, v, adjList, k1, k2)
    requires s1 == adjList[k1].side && adjList[k1].index < |V| && s1 < 3 && v1 == Target(V, adjList[k1])
    ensures SameVertices(tris, V)
    ensures ok ==> Progress(V, tris, v, adjList, k1, k2 + 1)
    ensures !ok ==> NonManifold(V) && LinksMatch(V, tris)
  {
    tris := tris0;
    ProposalTest(V, v, adjList, k1, k2);
    var vr1 := adjList[k1];
    var vr2 := adjList[k2];
    if k1 == k2 || vr1.index > vr2.index {
      ProgressSkip(V, tris, v, adjList, k1, k2);
      return true, tris;
    }
    var s2 := (vr2.side + 2) % 3;
    assert tris[vr2.index].vertex == V[vr2.index].vertex;
    var v2 := tris[vr2.index].vertex[s2];
    if v1 != v2 {
      ProgressSkip(V, tris, v, adjList, k1, k2);
      return true, tris;
    }
    var nb1 := tris[vr1.index].link[s1];
    var nb2 := tris[vr2.index].link[s2];
    if LinkNe(nb1, InvalidLink) || LinkNe(nb2, InvalidLink) {
      ClashIsNonManifold(V, tris, v, adjList, k1, k2);
      return false, tris;
    }
    ProgressJoin(V, tris, v, adjList, k1, k2);
    tris := SetLink(tris, Link(vr1.index, s1), Link(vr2.index, s2));
    tris := SetLink(tris, Link(vr2.index, s2), Link(vr1.index, s1));
    ok := true;
  }

  /** `Manifold`: the triangle table and the vertex count. */
  class Manifold {
    var triangles: seq<Triangle>
    var maxVertexCount: nat

    /** The links of the table can be followed: each is InvalidLink or names a
        side of an existing triangle. */
    ghost predicate Valid()
      reads this
    {
      LinksInRange(triangles)
    }

    constructor ()
      ensures triangles == [] && maxVertexCount == 0 && Valid()
    {
      triangles := [];
      maxVertexCount := 0;
    }

    /** build(wks, triangleIndices, triangleIndexCount): load the triangles of
        the index buffer, each triple one triangle, then build adjacency. */
    method BuildFromIndices(wks: BuildWorkspace, indices: seq<nat>, count: nat) returns (ok: bool)
      requires count <= |indices| && count < U32
      requires count / 3 < INDEX_LIMIT
      requires forall k :: 0 <= k < 3 * (count / 3) ==> indices[k] + 1 < U32
      requires NonDegenerate(Loaded(indices, count))
      modifies this, wks
      ensures SameVertices(triangles, Loaded(indices, count))
      ensures maxVertexCount == VertexCount(Loaded(indices, count))
      ensures Valid()
      ensures WellFormed(triangles)
      ensures ok <==> !NonManifold(triangles)
      ensures ok ==> Complete(triangles)
    {
      Load(indices, count);
      ok := Build(wks);
    }

    /** The loading loop of build(wks, triangleIndices, triangleIndexCount):
        one triangle per complete triple, links unset, and the vertex count
        one above the largest id. */
    method Load(indices: seq<nat>, count: nat)
      requires count <= |indices|
      requires forall k :: 0 <= k < 3 * (count / 3) ==> indices[k] + 1 < U32
      modifies this`triangles, this`maxVertexCount
      ensures triangles == Loaded(indices, count)
      ensures maxVertexCount == VertexCount(triangles) && maxVertexCount < U32
    {
      ghost var L := Loaded(indices, count);
      var tris: seq<Triangle> := [];
      var vertexCount: nat := 0;
      var i := 2;
      while i < count
        invariant i == 3 * |tris| + 2 && |tris| <= |L|
        invariant tris == L[..|tris|]
        invariant vertexCount == VertexCount(tris)
        decreases count - i
      {
        ghost var n := |tris|;
        LoadedNext(indices, count, n, i);
        var t := Triangle([indices[i - 2], indices[i - 1], indices[i]], [InvalidLink, InvalidLink, InvalidLink]);
        vertexCount := Max(vertexCount, t.vertex[0] + 1);
        vertexCount := Max(vertexCount, t.vertex[1] + 1);
        vertexCount := Max(vertexCount, t.vertex[2] + 1);
        VertexCountSnoc(tris, t);
        tris := tris + [t];
        i := i + 3;
      }
      LoadedDone(indices, count, |tris|, i);
      assert tris == L by {
        assert L[..|L|] == L;
      }
      LoadedVertexCountBound(indices, count);
      triangles, maxVertexCount := tris, vertexCount;
    }

    /** build(wks, triangleIndices) on a whole index vector. */
    method BuildFromVector(wks: BuildWorkspace, indices: seq<nat>) returns (ok: bool)
      requires |indices| < U32
      requires |indices| / 3 < INDEX_LIMIT
      requires forall k :: 0 <= k < 3 * (|indices| / 3) ==> indices[k] + 1 < U32
      requires NonDegenerate(Loaded(indices, |indices|))
      modifies this, wks
      ensures SameVertices(triangles, Loaded(indices, |indices|))
      ensures maxVertexCount == VertexCount(Loaded(indices, |indices|))
      ensures Valid()
      ensures WellFormed(triangles)
      ensures ok <==> !NonManifold(triangles)
      ensures ok ==> Complete(triangles)
    {
      ok := BuildFromIndices(wks, indices, |indices|);
    }

    /** build(wks): compute every link of the current triangles. Succeeds
        exactly when no edge is shared by more than two oppositely wound
        triangles, and then links every pair of opposite half-edges. */
    method Build(wks: BuildWorkspace) returns (ok: bool)
      requires |triangles| < INDEX_LIMIT && maxVertexCount < U32
      requires forall t, j :: 0 <= t < |triangles| && 0 <= j < 3 ==> triangles[t].vertex[j] < maxVertexCount
      requires NonDegenerate(triangles)
      modifies this`triangles, wks
      ensures SameVertices(triangles, old(triangles))
      ensures Valid()
      ensures old(triangles) == [] ==> ok && triangles == old(triangles) && unchanged(wks)
      ensures old(triangles) != [] ==> wks.Threaded(old(triangles), maxVertexCount)
      ensures WellFormed(triangles)
      ensures ok <==> !NonManifold(triangles)
      ensures ok ==> Complete(triangles)
    {
      if |triangles| == 0 {
        return true;
      }
      ghost var V := triangles;
      ThreadRings(wks);
      ProgressStart(V, triangles);
      for i := 0 to maxVertexCount
        invariant Progress(V, triangles, i, [], 0, 0)
        invariant wks.Threaded(V, maxVertexCount)
      {
        var vr := wks.vertexRings[i];
        if LinkEq(vr, InvalidLink) {
          HeadInvalidIffEmpty(V, i, 3 * |V|);
          ProgressLeaveRing(V, triangles, i, []);
          continue;
        }
        wks.CollectRing(vr, V, i);
        ProgressEnterRing(V, triangles, i, wks.adjList);
        ok := MatchRing(wks, V, i);
        if !ok {
          NonManifoldSameVertices(V, triangles);
          LinksMatchSameVertices(V, triangles, triangles);
          return;
        }
        ProgressLeaveRing(V, triangles, i, wks.adjList);
      }
      ProgressFinish(V, triangles, maxVertexCount);
      CompleteIsManifold(triangles);
      ok := true;
    }

    /** The first part of build(wks): size the workspace, thread every corner
        onto the list of its vertex in increasing code order, and clear every
        link. */
    method ThreadRings(wks: BuildWorkspace)
      requires |triangles| < INDEX_LIMIT
      requires forall t, j :: 0 <= t < |triangles| && 0 <= j < 3 ==> triangles[t].vertex[j] < maxVertexCount
      modifies this`triangles, wks`vertexRings, wks`triangleVertexRings
      ensures SameVertices(triangles, old(triangles))
      ensures forall h :: IsHalfEdge(|triangles|, h) ==> LinkAt(triangles, h) == InvalidLink
      ensures wks.Threaded(old(triangles), maxVertexCount)
    {
      ghost var V := triangles;
      var tris := triangles;
      var triangleCount := |tris|;
      // clear() then resize(): value-initialised elements are all-zero links
      var vertexRings := seq(maxVertexCount, _ => Link(0, 0));
      var triangleVertexRings: seq<Links3> := seq(triangleCount, _ => ZeroLinks);
      for i := 0 to maxVertexCount
        invariant |vertexRings| == maxVertexCount
        invariant forall w :: 0 <= w < i ==> vertexRings[w] == InvalidLink
      {
        vertexRings := vertexRings[i := InvalidLink];
      }
      ThreadStart(V, vertexRings, triangleVertexRings);
      ghost var c: nat := 0;  // the code 3 * i + j of the next corner
      for i := 0 to triangleCount
        invariant SameVertices(tris, V) && |vertexRings| == maxVertexCount && c == 3 * i
        invariant ThreadedBelow(V, vertexRings, triangleVertexRings, c)
        invariant ClearedBelow(tris, c)
      {
        for j := 0 to 3
          invariant SameVertices(tris, V) && |vertexRings| == maxVertexCount && c == 3 * i + j
          invariant ThreadedBelow(V, vertexRings, triangleVertexRings, c)
          invariant ClearedBelow(tris, c)
        {
          var vi := tris[i].vertex[j];
          assert vi == V[i].vertex[j];
          ThreadStep(V, vertexRings, triangleVertexRings, i, j, c);
          triangleVertexRings := triangleVertexRings[i := triangleVertexRings[i][j := vertexRings[vi]]];
          vertexRings := vertexRings[vi := Link(i, j)];
          ClearStep(tris, i, j, c);
          tris := SetLink(tris, Link(i, j), InvalidLink);
          c := c + 1;
        }
        assert c == 3 * (i + 1);
      }
      assert c == 3 * |V|;
      triangles := tris;
      wks.vertexRings, wks.triangleVertexRings := vertexRings, triangleVertexRings;
    }

    /** The matching loops for vertex v: every corner adj[k1] is tried against
        every other corner adj[k2] of a triangle with no lower index; when the
        half-edge leaving v in the first ends where the half-edge entering v in
        the second starts, the two are linked, unless one of them is linked
        already, which fails the build. */
    method MatchRing(wks: BuildWorkspace, ghost V: seq<Triangle>, ghost v: nat) returns (ok: bool)
      requires wks.adjList == Ring(V, v)
      requires NonDegenerate(V)
      requires Progress(V, triangles, v, wks.adjList, 0, 0)
      modifies this`triangles
      ensures SameVertices(triangles, V)
      ensures ok ==> Progress(V, triangles, v, wks.adjList, |wks.adjList|, 0)
      ensures !ok ==> NonManifold(V) && LinksMatch(V, triangles)
    {
      var adjList := wks.adjList;
      var tris := triangles;
      var adjCount := |adjList|;
      for k1 := 0 to adjCount
        invariant Progress(V, tris, v, adjList, k1, 0)
      {
        ok, tris := MatchCorner(tris, adjList, k1, V, v);
        if !ok {
          triangles := tris;
          return;
        }
      }
      triangles := tris;
      ok := true;
    }

    /** visitTrianglesClockwise: visits the corners from `start` clockwise
        until `end` is met (true) or a boundary is crossed; in the latter case
        also visits from `end` anticlockwise to the other boundary (false). */
    method VisitTrianglesClockwise(start: Link, end: Link, fuel: nat) returns (r: Option<Walk>)
      requires Valid() && Cursor(triangles, start) && Cursor(triangles, end)
      ensures r == TrianglesClockwise(triangles, start, end, fuel)
    {
      var visited: seq<Link> := [];
      var it := start;
      var steps := 0;
      while LinkNe(it, InvalidLink)
        invariant steps <= fuel && Cursor(triangles, it)
        invariant Forward(triangles, VisitTurnCheck, 2, start, end, fuel) ==
          Prefix(visited, Forward(triangles, VisitTurnCheck, 2, it, end, fuel - steps))
        decreases fuel - steps
      {
        if steps == fuel {
          return None;
        }
        PrefixAppend(visited, [it], Forward(triangles, VisitTurnCheck, 2, LinkAt(triangles, Turn(it, 2)), end, fuel - steps - 1));
        visited := visited + [it];
        it := it.(side := (it.side + 2) % 3);
        if LinkEq(it, end) {
          return Some(Walk(true, visited));
        }
        it := triangles[it.index].link[it.side];
        steps := steps + 1;
      }
      ExtendEmpty(visited, None);
      var back: seq<Link> := [];
      it := end;
      steps := 0;
      ExtendEmpty(back, Backfill(triangles, false, 1, end, fuel));
      while LinkNe(it, InvalidLink)
        invariant steps <= fuel && Cursor(triangles, it)
        invariant Backfill(triangles, false, 1, end, fuel) == Extend(back, Backfill(triangles, false, 1, it, fuel - steps))
        decreases fuel - steps
      {
        if steps == fuel {
          return None;
        }
        ExtendAppend(back, [Turn(it, 1)], Backfill(triangles, false, 1, LinkAt(triangles, Turn(it, 1)), fuel - steps - 1));
        it := it.(side := (it.side + 1) % 3);
        back := back + [it];
        it := triangles[it.index].link[it.side];
        steps := steps + 1;
      }
      ExtendEmpty(back, None);
      return Some(Walk(false, visited + back));
    }

    /** visitTrianglesAnticlockwise: the mirror walk, turning before it visits
        on the way from `start` and after it visits on the way from `end`. */
    method VisitTrianglesAnticlockwise(start: Link, end: Link, fuel: nat) returns (r: Option<Walk>)
      requires Valid() && Cursor(triangles, start) && Cursor(triangles, end)
      ensures r == TrianglesAnticlockwise(triangles, start, end, fuel)
    {
      var visited: seq<Link> := [];
      var it := start;
      var steps := 0;
      while LinkNe(it, InvalidLink)
        invariant steps <= fuel && Cursor(triangles, it)
        invariant Forward(triangles, TurnVisitCheck, 1, start, end, fuel) ==
          Prefix(visited, Forward(triangles, TurnVisitCheck, 1, it, end, fuel - steps))
        decreases fuel - steps
      {
        if steps == fuel {
          return None;
        }
        PrefixAppend(visited, [Turn(it, 1)], Forward(triangles, TurnVisitCheck, 1, LinkAt(triangles, Turn(it, 1)), end, fuel - steps - 1));
        it := it.(side := (it.side + 1) % 3);
        visited := visited + [it];
        if LinkEq(it, end) {
          return Some(Walk(true, visited));
        }
        it := triangles[it.index].link[it.side];
        steps := steps + 1;
      }
      ExtendEmpty(visited, None);
      var back: seq<Link> := [];
      it := end;
      steps := 0;
      ExtendEmpty(back, Backfill(triangles, true, 2, end, fuel));
      while LinkNe(it, InvalidLink)
        invariant steps <= fuel && Cursor(triangles, it)
        invariant Backfill(triangles, true, 2, end, fuel) == Extend(back, Backfill(triangles, true, 2, it, fuel - steps))
        decreases fuel - steps
      {
        if steps == fuel {
          return None;
        }
        ExtendAppend(back, [it], Backfill(triangles, true, 2, LinkAt(triangles, Turn(it, 2)), fuel - steps - 1));
        back := back + [it];
        it := it.(side := (it.side + 2) % 3);
        it := triangles[it.index].link[it.side];
        steps := steps + 1;
      }
      ExtendEmpty(back, None);
      return Some(Walk(false, visited + back));
    }

    /** visitEdgesClockwise: visits `start`, then the half-edges met turning
        clockwise until `end` (true) or a boundary; then from `end`
        anticlockwise to the other boundary (false). */
    method VisitEdgesClockwise(start: Link, end: Link, fuel: nat) returns (r: Option<Walk>)
      requires Valid() && Cursor(triangles, start) && Cursor(triangles, end)
      ensures r == EdgesClockwise(triangles, start, end, fuel)
    {
      var visited: seq<Link> := [];
      var it := start;
      var steps := 0;
      if LinkNe(it, InvalidLink) {
        visited := [it];
        // the do-while loop: its first test is the enclosing condition
        while LinkNe(it, InvalidLink)
          invariant steps <= fuel && Cursor(triangles, it)
          invariant Seed(start, Forward(triangles, TurnCheckVisit, 2, start, end, fuel)) ==
            Prefix(visited, Forward(triangles, TurnCheckVisit, 2, it, end, fuel - steps))
          decreases fuel - steps
        {
          if steps == fuel {
            return None;
          }
          PrefixAppend(visited, [Turn(it, 2)], Forward(triangles, TurnCheckVisit, 2, LinkAt(triangles, Turn(it, 2)), end, fuel - steps - 1));
          it := it.(side := (it.side + 2) % 3);
          if LinkEq(it, end) {
            assert visited + [] == visited;
            return Some(Walk(true, visited));
          }
          visited := visited + [it];
          it := triangles[it.index].link[it.side];
          steps := steps + 1;
        }
      }
      ExtendEmpty(visited, None);
      var back: seq<Link> := [];
      it := end;
      steps := 0;
      ExtendEmpty(back, Backfill(triangles, false, 1, end, fuel));
      while LinkNe(it, InvalidLink)
        invariant steps <= fuel && Cursor(triangles, it)
        invariant Backfill(triangles, false, 1, end, fuel) == Extend(back, Backfill(triangles, false, 1, it, fuel - steps))
        decreases fuel - steps
      {
        if steps == fuel {
          return None;
        }
        ExtendAppend(back, [Turn(it, 1)], Backfill(triangles, false, 1, LinkAt(triangles, Turn(it, 1)), fuel - steps - 1));
        it := it.(side := (it.side + 1) % 3);
        back := back + [it];
        it := triangles[it.index].link[it.side];
        steps := steps + 1;
      }
      ExtendEmpty(back, None);
      return Some(Walk(false, visited + back));
    }

    /** visitEdgesAnticlockwise: the mirror of visitEdgesClockwise. */
    method VisitEdgesAnticlockwise(start: Link, end: Link, fuel: nat) returns (r: Option<Walk>)
      requires Valid() && Cursor(triangles, start) && Cursor(triangles, end)
      ensures r == EdgesAnticlockwise(triangles, start, end, fuel)
    {
      var visited: seq<Link> := [];
      var it := start;
      var steps := 0;
      if LinkNe(it, InvalidLink) {
        visited := [it];
        // the do-while loop: its first test is the enclosing condition
        while LinkNe(it, InvalidLink)
          invariant steps <= fuel && Cursor(triangles, it)
          invariant Seed(start, Forward(triangles, TurnCheckVisit, 1, start, end, fuel)) ==
            Prefix(visited, Forward(triangles, TurnCheckVisit, 1, it, end, fuel - steps))
          decreases fuel - steps
        {
          if steps == fuel {
            return None;
          }
          PrefixAppend(visited, [Turn(it, 1)], Forward(triangles, TurnCheckVisit, 1, LinkAt(triangles, Turn(it, 1)), end, fuel - steps - 1));
          it := it.(side := (it.side + 1) % 3);
          if LinkEq(it, end) {
            assert visited + [] == visited;
            return Some(Walk(true, visited));
          }
          visited := visited + [it];
          it := triangles[it.index].link[it.side];
          steps := steps + 1;
        }
      }
      ExtendEmpty(visited, None);
      var back: seq<Link> := [];
      it := end;
      steps := 0;
      ExtendEmpty(back, Backfill(triangles, false, 2, end, fuel));
      while LinkNe(it, InvalidLink)
        invariant steps <= fuel && Cursor(triangles, it)
        invariant Backfill(triangles, false, 2, end, fuel) == Extend(back, Backfill(triangles, false, 2, it, fuel - steps))
        decreases fuel - steps
      {
        if steps == fuel {
          return None;
        }
        ExtendAppend(back, [Turn(it, 2)], Backfill(triangles, false, 2, LinkAt(triangles, Turn(it, 2)), fuel - steps - 1));
        it := it.(side := (it.side + 2) % 3);
        back := back + [it];
        it := triangles[it.index].link[it.side];
        steps := steps + 1;
      }
      ExtendEmpty(back, None);
      return Some(Walk(false, visited + back));
    }
  }
}
