// Meshes given by a table of their directed edges: for such a mesh the
// builder's link table is determined, edge by edge.

module MeshTables {
  import opened Mesh
  import opened Manifolds

  /** `edge(u, w)` names the half-edge from u to w of tris, or InvalidLink when
      there is none: it finds every half-edge, and whatever it names runs from
      u to w. */
  ghost predicate EdgeTable(tris: seq<Triangle>, edge: (nat, nat) -> Link)
  {
    && (forall g :: IsHalfEdge(|tris|, g) ==> edge(Origin(tris, g), Target(tris, g)) == g)
    && (forall u, w :: edge(u, w) == InvalidLink ||
          (IsHalfEdge(|tris|, edge(u, w)) && Origin(tris, edge(u, w)) == u && Target(tris, edge(u, w)) == w))
  }

  /** A mesh whose directed edges are each used once has no edge with two
      opposites. */
  lemma TabulatedManifold(tris: seq<Triangle>, edge: (nat, nat) -> Link)
    requires EdgeTable(tris, edge)
    ensures !NonManifold(tris)
  {
    forall h, g1, g2 | Opposite(tris, h, g1) && Opposite(tris, h, g2)
      ensures g1 == g2
    {
      assert edge(Origin(tris, g1), Target(tris, g1)) == g1;
      assert edge(Origin(tris, g2), Target(tris, g2)) == g2;
    }
  }

  /** In a well-formed, complete link table of such a mesh, every half-edge is
      linked to the reverse edge, or to InvalidLink when the reverse edge is
      not in the mesh. */
  lemma TabulatedLinks(tris: seq<Triangle>, edge: (nat, nat) -> Link)
    requires EdgeTable(tris, edge) && NonDegenerate(tris)
    requires WellFormed(tris) && Complete(tris)
    ensures LinksInRange(tris)
    ensures forall h :: IsHalfEdge(|tris|, h) ==> LinkAt(tris, h) == edge(Target(tris, h), Origin(tris, h))
  {
    forall h | IsHalfEdge(|tris|, h)
      ensures LinkAt(tris, h) == edge(Target(tris, h), Origin(tris, h))
    {
      var g := edge(Target(tris, h), Origin(tris, h));
      if g != InvalidLink {
        assert Opposite(tris, h, g);
      }
    }
  }

  /** Triangle t of the loaded buffer has the vertices of triple t. */
  lemma LoadedVertices(indices: seq<nat>, tris: seq<Triangle>, t: nat)
    requires SameVertices(tris, Loaded(indices, |indices|)) && 3 * t + 3 <= |indices|
    ensures tris[t].vertex == [indices[3 * t], indices[3 * t + 1], indices[3 * t + 2]]
  {
    assert Loaded(indices, |indices|)[t] == LoadTriangle(indices, t);
  }
}
