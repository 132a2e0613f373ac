// The walks of the strip of twelve triangles on three rows of vertices, 0-1-2-10, 3-4-5-6 and 7-8-9-11 around its
// vertices, on the link table the builder produces for it.

module GridWalks {
  import opened Mesh
  import opened Walks

  /** Every cursor of `s` is a corner at vertex v. */
  ghost predicate CornersAt(tris: seq<Triangle>, v: nat, s: seq<Link>)
  {
    forall i :: 0 <= i < |s| ==> CornerAt(tris, v, s[i])
  }

  /** Its link table, half-edge by half-edge. */
  ghost predicate GridLinked(tris: seq<Triangle>)
  {
    |tris| == 12 && LinksInRange(tris) &&
    LinkAt(tris, Link(0, 0)) == Link(1, 2) &&
    LinkAt(tris, Link(0, 1)) == Link(5, 0) &&
    LinkAt(tris, Link(0, 2)) == InvalidLink &&
    LinkAt(tris, Link(1, 0)) == InvalidLink &&
    LinkAt(tris, Link(1, 1)) == Link(2, 2) &&
    LinkAt(tris, Link(1, 2)) == Link(0, 0) &&
    LinkAt(tris, Link(2, 0)) == Link(3, 2) &&
    LinkAt(tris, Link(2, 1)) == Link(7, 0) &&
    LinkAt(tris, Link(2, 2)) == Link(1, 1) &&
    LinkAt(tris, Link(3, 0)) == InvalidLink &&
    LinkAt(tris, Link(3, 1)) == Link(4, 2) &&
    LinkAt(tris, Link(3, 2)) == Link(2, 0) &&
    LinkAt(tris, Link(4, 0)) == Link(10, 2) &&
    LinkAt(tris, Link(4, 1)) == Link(9, 0) &&
    LinkAt(tris, Link(4, 2)) == Link(3, 1) &&
    LinkAt(tris, Link(5, 0)) == Link(0, 1) &&
    LinkAt(tris, Link(5, 1)) == Link(6, 2) &&
    LinkAt(tris, Link(5, 2)) == InvalidLink &&
    LinkAt(tris, Link(6, 0)) == Link(7, 2) &&
    LinkAt(tris, Link(6, 1)) == InvalidLink &&
    LinkAt(tris, Link(6, 2)) == Link(5, 1) &&
    LinkAt(tris, Link(7, 0)) == Link(2, 1) &&
    LinkAt(tris, Link(7, 1)) == Link(8, 2) &&
    LinkAt(tris, Link(7, 2)) == Link(6, 0) &&
    LinkAt(tris, Link(8, 0)) == Link(9, 2) &&
    LinkAt(tris, Link(8, 1)) == InvalidLink &&
    LinkAt(tris, Link(8, 2)) == Link(7, 1) &&
    LinkAt(tris, Link(9, 0)) == Link(4, 1) &&
    LinkAt(tris, Link(9, 1)) == Link(11, 2) &&
    LinkAt(tris, Link(9, 2)) == Link(8, 0) &&
    LinkAt(tris, Link(10, 0)) == InvalidLink &&
    LinkAt(tris, Link(10, 1)) == InvalidLink &&
    LinkAt(tris, Link(10, 2)) == Link(4, 0) &&
    LinkAt(tris, Link(11, 0)) == InvalidLink &&
    LinkAt(tris, Link(11, 1)) == InvalidLink &&
    LinkAt(tris, Link(11, 2)) == Link(9, 1)
  }

  /** Its corners, by the vertex each one is at. */
  ghost predicate GridCorners(tris: seq<Triangle>)
  {
    |tris| == 12 &&
    Origin(tris, Link(0, 0)) == 0 &&
    Origin(tris, Link(0, 1)) == 4 &&
    Origin(tris, Link(0, 2)) == 3 &&
    Origin(tris, Link(1, 0)) == 0 &&
    Origin(tris, Link(1, 1)) == 1 &&
    Origin(tris, Link(1, 2)) == 4 &&
    Origin(tris, Link(2, 0)) == 1 &&
    Origin(tris, Link(2, 1)) == 5 &&
    Origin(tris, Link(2, 2)) == 4 &&
    Origin(tris, Link(3, 0)) == 1 &&
    Origin(tris, Link(3, 1)) == 2 &&
    Origin(tris, Link(3, 2)) == 5 &&
    Origin(tris, Link(4, 0)) == 2 &&
    Origin(tris, Link(4, 1)) == 6 &&
    Origin(tris, Link(4, 2)) == 5 &&
    Origin(tris, Link(5, 0)) == 3 &&
    Origin(tris, Link(5, 1)) == 4 &&
    Origin(tris, Link(5, 2)) == 7 &&
    Origin(tris, Link(6, 0)) == 4 &&
    Origin(tris, Link(6, 1)) == 8 &&
    Origin(tris, Link(6, 2)) == 7 &&
    Origin(tris, Link(7, 0)) == 4 &&
    Origin(tris, Link(7, 1)) == 5 &&
    Origin(tris, Link(7, 2)) == 8 &&
    Origin(tris, Link(8, 0)) == 5 &&
    Origin(tris, Link(8, 1)) == 9 &&
    Origin(tris, Link(8, 2)) == 8 &&
    Origin(tris, Link(9, 0)) == 5 &&
    Origin(tris, Link(9, 1)) == 6 &&
    Origin(tris, Link(9, 2)) == 9 &&
    Origin(tris, Link(10, 0)) == 2 &&
    Origin(tris, Link(10, 1)) == 10 &&
    Origin(tris, Link(10, 2)) == 6 &&
    Origin(tris, Link(11, 0)) == 6 &&
    Origin(tris, Link(11, 1)) == 11 &&
    Origin(tris, Link(11, 2)) == 9
  }

  /** Clockwise around the closed ring of vertex 4: the six corners, until the turn meets `end`. */
  lemma GridClockwiseAroundFour(tris: seq<Triangle>)
    requires GridLinked(tris) && GridCorners(tris)
    ensures TrianglesClockwise(tris, Link(7, 0), Link(2, 1), 20) == Some(Walk(true, [Link(7, 0), Link(6, 0), Link(5, 1), Link(0, 1), Link(1, 2), Link(2, 2)]))
    ensures CornersAt(tris, 4, [Link(7, 0), Link(6, 0), Link(5, 1), Link(0, 1), Link(1, 2), Link(2, 2)])
  {
    ForwardReaches(tris, VisitTurnCheck, 2, [Link(7, 0), Link(6, 0), Link(5, 1), Link(0, 1), Link(1, 2)], Link(2, 2), Link(2, 1), 20);
    assert Visits(false, 2, [Link(7, 0), Link(6, 0), Link(5, 1), Link(0, 1), Link(1, 2)] + [Link(2, 2)]) == [Link(7, 0), Link(6, 0), Link(5, 1), Link(0, 1), Link(1, 2), Link(2, 2)];
  }

  /** Anticlockwise around the closed ring of vertex 5: six corners. */
  lemma GridAnticlockwiseAroundFive(tris: seq<Triangle>)
    requires GridLinked(tris) && GridCorners(tris)
    ensures TrianglesAnticlockwise(tris, Link(7, 0), Link(2, 1), 20) == Some(Walk(true, [Link(7, 1), Link(8, 0), Link(9, 0), Link(4, 2), Link(3, 2), Link(2, 1)]))
    ensures CornersAt(tris, 5, [Link(7, 1), Link(8, 0), Link(9, 0), Link(4, 2), Link(3, 2), Link(2, 1)])
  {
    ForwardReaches(tris, TurnVisitCheck, 1, [Link(7, 0), Link(8, 2), Link(9, 2), Link(4, 1), Link(3, 1)], Link(2, 0), Link(2, 1), 20);
    assert Visits(true, 1, [Link(7, 0), Link(8, 2), Link(9, 2), Link(4, 1), Link(3, 1)] + [Link(2, 0)]) == [Link(7, 1), Link(8, 0), Link(9, 0), Link(4, 2), Link(3, 2), Link(2, 1)];
  }

  /** Anticlockwise around the open fan of vertex 6: the first loop meets the boundary after two corners and the second loop, seeded at `end`, visits the other two. */
  lemma GridAnticlockwiseAroundSix(tris: seq<Triangle>)
    requires GridLinked(tris) && GridCorners(tris)
    ensures TrianglesAnticlockwise(tris, Link(9, 0), Link(4, 1), 20) == Some(Walk(false, [Link(9, 1), Link(11, 0), Link(4, 1), Link(10, 2)]))
    ensures CornersAt(tris, 6, [Link(9, 1), Link(11, 0), Link(4, 1), Link(10, 2)])
  {
    ForwardBoundary(tris, TurnVisitCheck, 1, [Link(9, 0), Link(11, 2)], Link(4, 1), 20);
    assert Visits(true, 1, [Link(9, 0), Link(11, 2)]) == [Link(9, 1), Link(11, 0)];
    BackfillBoundary(tris, true, 2, [Link(4, 1), Link(10, 2)], 20);
    assert Visits(false, 2, [Link(4, 1), Link(10, 2)]) == [Link(4, 1), Link(10, 2)];
    assert [Link(9, 1), Link(11, 0)] + [Link(4, 1), Link(10, 2)] == [Link(9, 1), Link(11, 0), Link(4, 1), Link(10, 2)];
  }

  /** Clockwise around the open fan of vertex 3 from one of its corners to the other. */
  lemma GridClockwiseAroundThree(tris: seq<Triangle>)
    requires GridLinked(tris) && GridCorners(tris)
    ensures TrianglesClockwise(tris, Link(5, 0), Link(0, 1), 20) == Some(Walk(false, [Link(5, 0), Link(0, 2)]))
    ensures CornersAt(tris, 3, [Link(5, 0), Link(0, 2)])
  {
    ForwardBoundary(tris, VisitTurnCheck, 2, [Link(5, 0)], Link(0, 1), 20);
    assert Visits(false, 2, [Link(5, 0)]) == [Link(5, 0)];
    BackfillBoundary(tris, false, 1, [Link(0, 1)], 20);
    assert Visits(true, 1, [Link(0, 1)]) == [Link(0, 2)];
    assert [Link(5, 0)] + [Link(0, 2)] == [Link(5, 0), Link(0, 2)];
  }

  /** Clockwise around vertex 3 from a corner to the boundary. */
  lemma GridClockwiseFromThree(tris: seq<Triangle>)
    requires GridLinked(tris) && GridCorners(tris)
    ensures TrianglesClockwise(tris, Link(0, 2), InvalidLink, 20) == Some(Walk(false, [Link(0, 2), Link(5, 0)]))
    ensures CornersAt(tris, 3, [Link(0, 2), Link(5, 0)])
  {
    ForwardBoundary(tris, VisitTurnCheck, 2, [Link(0, 2), Link(5, 0)], InvalidLink, 20);
    assert Visits(false, 2, [Link(0, 2), Link(5, 0)]) == [Link(0, 2), Link(5, 0)];
    assert Backfill(tris, false, 1, InvalidLink, 20) == Some([]);
    assert [Link(0, 2), Link(5, 0)] + [] == [Link(0, 2), Link(5, 0)];
  }

  /** Clockwise around vertex 3 from the boundary: only the second loop runs. */
  lemma GridClockwiseToThree(tris: seq<Triangle>)
    requires GridLinked(tris) && GridCorners(tris)
    ensures TrianglesClockwise(tris, InvalidLink, Link(5, 2), 20) == Some(Walk(false, [Link(5, 0), Link(0, 2)]))
    ensures CornersAt(tris, 3, [Link(5, 0), Link(0, 2)])
  {
    assert Forward(tris, VisitTurnCheck, 2, InvalidLink, Link(5, 2), 20) == Boundary([]);
    BackfillBoundary(tris, false, 1, [Link(5, 2), Link(0, 1)], 20);
    assert Visits(true, 1, [Link(5, 2), Link(0, 1)]) == [Link(5, 0), Link(0, 2)];
    assert [] + [Link(5, 0), Link(0, 2)] == [Link(5, 0), Link(0, 2)];
  }

  /** Anticlockwise around vertex 3 from a corner to the boundary. */
  lemma GridAnticlockwiseFromThree(tris: seq<Triangle>)
    requires GridLinked(tris) && GridCorners(tris)
    ensures TrianglesAnticlockwise(tris, Link(5, 2), InvalidLink, 20) == Some(Walk(false, [Link(5, 0), Link(0, 2)]))
    ensures CornersAt(tris, 3, [Link(5, 0), Link(0, 2)])
  {
    ForwardBoundary(tris, TurnVisitCheck, 1, [Link(5, 2), Link(0, 1)], InvalidLink, 20);
    assert Visits(true, 1, [Link(5, 2), Link(0, 1)]) == [Link(5, 0), Link(0, 2)];
    assert Backfill(tris, true, 2, InvalidLink, 20) == Some([]);
    assert [Link(5, 0), Link(0, 2)] + [] == [Link(5, 0), Link(0, 2)];
  }

  /** Anticlockwise around vertex 3 from the boundary: only the second loop runs. */
  lemma GridAnticlockwiseToThree(tris: seq<Triangle>)
    requires GridLinked(tris) && GridCorners(tris)
    ensures TrianglesAnticlockwise(tris, InvalidLink, Link(0, 2), 20) == Some(Walk(false, [Link(0, 2), Link(5, 0)]))
    ensures CornersAt(tris, 3, [Link(0, 2), Link(5, 0)])
  {
    assert Forward(tris, TurnVisitCheck, 1, InvalidLink, Link(0, 2), 20) == Boundary([]);
    BackfillBoundary(tris, true, 2, [Link(0, 2), Link(5, 0)], 20);
    assert Visits(false, 2, [Link(0, 2), Link(5, 0)]) == [Link(0, 2), Link(5, 0)];
    assert [] + [Link(0, 2), Link(5, 0)] == [Link(0, 2), Link(5, 0)];
  }
}
