// Small meshes and the outcome the builder promises for each: an isolated
// triangle, two triangles sharing an edge, and three triangles on one edge.

module Examples {
  import opened Mesh
  import opened Manifolds

  /** A lone triangle has no opposite pairs, so a well-formed link table for
      it is all boundary. */
  lemma SingleTriangleLinks(tris: seq<Triangle>)
    requires |tris| == 1 && WellFormed(tris)
    ensures !NonManifold(tris)
    ensures tris[0].link == [InvalidLink, InvalidLink, InvalidLink]
  {
    forall s | 0 <= s < 3
      ensures tris[0].link[s] == InvalidLink
    {
      assert LinkAt(tris, Link(0, s)) == tris[0].link[s];
    }
  }

  /** The two triangles 0-1-2 and 1-0-3 share the edge between vertices 0
      and 1, wound oppositely; that is their only opposite pair. */
  lemma SharedEdgeOpposites(tris: seq<Triangle>)
    requires |tris| == 2 && tris[0].vertex == [0, 1, 2] && tris[1].vertex == [1, 0, 3]
    ensures forall h, g :: Opposite(tris, h, g) <==>
      (h, g) == (Link(0, 0), Link(1, 0)) || (h, g) == (Link(1, 0), Link(0, 0))
    ensures !NonManifold(tris)
  {
    forall h, g | Opposite(tris, h, g)
      ensures (h, g) == (Link(0, 0), Link(1, 0)) || (h, g) == (Link(1, 0), Link(0, 0))
    {
      assert h.index == 0 || h.index == 1;
      assert h.side == 0 || h.side == 1 || h.side == 2;
      assert g.side == 0 || g.side == 1 || g.side == 2;
    }
    assert Opposite(tris, Link(0, 0), Link(1, 0));
    assert Opposite(tris, Link(1, 0), Link(0, 0));
  }

  /** The loader's triangles for the index buffer of SharedEdge below. */
  lemma LoadedShared()
    ensures var L := Loaded([0, 1, 2, 1, 0, 3], 6);
      |L| == 2 && L[0].vertex == [0, 1, 2] && L[1].vertex == [1, 0, 3]
  {
  }

  /** A well-formed, complete link table for those two triangles links side
      0 of each to side 0 of the other and leaves the rest boundary. */
  lemma SharedEdgeLinks(tris: seq<Triangle>)
    requires |tris| == 2 && tris[0].vertex == [0, 1, 2] && tris[1].vertex == [1, 0, 3]
    requires WellFormed(tris) && Complete(tris)
    ensures tris[0].link == [Link(1, 0), InvalidLink, InvalidLink]
    ensures tris[1].link == [Link(0, 0), InvalidLink, InvalidLink]
  {
    SharedEdgeOpposites(tris);
    assert Opposite(tris, Link(0, 0), Link(1, 0));
    assert LinkAt(tris, Link(0, 0)) == Link(1, 0);
    assert LinkAt(tris, Link(1, 0)) == Link(0, 0);
    forall s | 1 <= s < 3
      ensures tris[0].link[s] == InvalidLink && tris[1].link[s] == InvalidLink
    {
      assert LinkAt(tris, Link(0, s)) == tris[0].link[s];
      assert LinkAt(tris, Link(1, s)) == tris[1].link[s];
    }
  }

  /** Three triangles 0-1-2, 1-0-3 and 1-0-4: side 0 of the first has two
      opposites. */
  lemma ThreeOnOneEdgeNonManifold(tris: seq<Triangle>)
    requires |tris| == 3 && tris[0].vertex == [0, 1, 2]
    requires tris[1].vertex == [1, 0, 3] && tris[2].vertex == [1, 0, 4]
    ensures NonManifold(tris)
  {
    assert Opposite(tris, Link(0, 0), Link(1, 0)) && Opposite(tris, Link(0, 0), Link(2, 0));
  }

  /** The loader's triangles for the index buffer of ThreeOnOneEdge below. */
  lemma LoadedThree()
    ensures var L := Loaded([0, 1, 2, 1, 0, 3, 1, 0, 4], 9);
      |L| == 3 && L[0].vertex == [0, 1, 2] && L[1].vertex == [1, 0, 3] && L[2].vertex == [1, 0, 4]
  {
  }

  /** The loader's triangles for the index buffer of SingleTriangle below. */
  lemma LoadedSingle()
    ensures var L := Loaded([0, 1, 2], 3);
      |L| == 1 && L[0].vertex == [0, 1, 2]
  {
  }

  /** An isolated triangle builds, and all three of its sides are boundary. */
  method SingleTriangle() returns (ok: bool, links: Links3)
    ensures ok && links == [InvalidLink, InvalidLink, InvalidLink]
  {
    var wks := new BuildWorkspace();
    var m := new Manifold();
    ok := m.BuildFromVector(wks, [0, 1, 2]);
    LoadedSingle();
    SingleTriangleLinks(m.triangles);
    links := m.triangles[0].link;
  }

  /** The two triangles of SharedEdgeOpposites build, linking side 0 of each
      to side 0 of the other; every other side is boundary. */
  method SharedEdge() returns (ok: bool, first: Links3, second: Links3)
    ensures ok
    ensures first == [Link(1, 0), InvalidLink, InvalidLink]
    ensures second == [Link(0, 0), InvalidLink, InvalidLink]
  {
    var wks := new BuildWorkspace();
    var m := new Manifold();
    ok := m.BuildFromVector(wks, [0, 1, 2, 1, 0, 3]);
    var tris := m.triangles;
    LoadedShared();
    SharedEdgeOpposites(tris);
    SharedEdgeLinks(tris);
    first, second := tris[0].link, tris[1].link;
  }

  /** Three triangles on the edge between vertices 0 and 1: the build
      rejects the mesh. */
  method ThreeOnOneEdge() returns (ok: bool)
    ensures !ok
  {
    var wks := new BuildWorkspace();
    var m := new Manifold();
    ok := m.BuildFromVector(wks, [0, 1, 2, 1, 0, 3, 1, 0, 4]);
    LoadedThree();
    ThreeOnOneEdgeNonManifold(m.triangles);
  }
}
