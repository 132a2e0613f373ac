// The edge walks of two fans of triangles around vertex 6, 5-0-1-2-3-4-7 above and 8-9-10-11-12-7 below, sharing the single edge 6-7,
// on the link table the builder produces for it.

module FanWalks {
  import opened Mesh
  import opened Walks

  /** Its link table, half-edge by half-edge. */
  ghost predicate FanLinked(tris: seq<Triangle>)
  {
    |tris| == 11 && LinksInRange(tris) &&
    LinkAt(tris, Link(0, 0)) == Link(1, 2) &&
    LinkAt(tris, Link(0, 1)) == InvalidLink &&
    LinkAt(tris, Link(0, 2)) == InvalidLink &&
    LinkAt(tris, Link(1, 0)) == InvalidLink &&
    LinkAt(tris, Link(1, 1)) == Link(2, 2) &&
    LinkAt(tris, Link(1, 2)) == Link(0, 0) &&
    LinkAt(tris, Link(2, 0)) == InvalidLink &&
    LinkAt(tris, Link(2, 1)) == Link(3, 2) &&
    LinkAt(tris, Link(2, 2)) == Link(1, 1) &&
    LinkAt(tris, Link(3, 0)) == InvalidLink &&
    LinkAt(tris, Link(3, 1)) == Link(4, 2) &&
    LinkAt(tris, Link(3, 2)) == Link(2, 1) &&
    LinkAt(tris, Link(4, 0)) == InvalidLink &&
    LinkAt(tris, Link(4, 1)) == Link(5, 2) &&
    LinkAt(tris, Link(4, 2)) == Link(3, 1) &&
    LinkAt(tris, Link(5, 0)) == InvalidLink &&
    LinkAt(tris, Link(5, 1)) == Link(10, 0) &&
    LinkAt(tris, Link(5, 2)) == Link(4, 1) &&
    LinkAt(tris, Link(6, 0)) == Link(7, 2) &&
    LinkAt(tris, Link(6, 1)) == InvalidLink &&
    LinkAt(tris, Link(6, 2)) == InvalidLink &&
    LinkAt(tris, Link(7, 0)) == Link(8, 2) &&
    LinkAt(tris, Link(7, 1)) == InvalidLink &&
    LinkAt(tris, Link(7, 2)) == Link(6, 0) &&
    LinkAt(tris, Link(8, 0)) == Link(9, 2) &&
    LinkAt(tris, Link(8, 1)) == InvalidLink &&
    LinkAt(tris, Link(8, 2)) == Link(7, 0) &&
    LinkAt(tris, Link(9, 0)) == Link(10, 2) &&
    LinkAt(tris, Link(9, 1)) == InvalidLink &&
    LinkAt(tris, Link(9, 2)) == Link(8, 0) &&
    LinkAt(tris, Link(10, 0)) == Link(5, 1) &&
    LinkAt(tris, Link(10, 1)) == InvalidLink &&
    LinkAt(tris, Link(10, 2)) == Link(9, 0)
  }

  /** Clockwise from the lower fan towards the upper fan: the first loop meets the boundary after three half-edges and the second loop walks back from `end`. */
  lemma FanClockwiseAcross(tris: seq<Triangle>)
    requires FanLinked(tris)
    ensures EdgesClockwise(tris, Link(7, 0), Link(2, 1), 20) == Some(Walk(false, [Link(7, 0), Link(7, 2), Link(6, 2), Link(2, 2), Link(1, 2), Link(0, 1)]))
  {
    ForwardBoundary(tris, TurnCheckVisit, 2, [Link(7, 0), Link(6, 0)], Link(2, 1), 20);
    assert Visits(true, 2, [Link(7, 0), Link(6, 0)]) == [Link(7, 2), Link(6, 2)];
    assert [Link(7, 0)] + [Link(7, 2), Link(6, 2)] == [Link(7, 0), Link(7, 2), Link(6, 2)];
    BackfillBoundary(tris, false, 1, [Link(2, 1), Link(1, 1), Link(0, 0)], 20);
    assert Visits(true, 1, [Link(2, 1), Link(1, 1), Link(0, 0)]) == [Link(2, 2), Link(1, 2), Link(0, 1)];
    assert [Link(7, 0), Link(7, 2), Link(6, 2)] + [Link(2, 2), Link(1, 2), Link(0, 1)] == [Link(7, 0), Link(7, 2), Link(6, 2), Link(2, 2), Link(1, 2), Link(0, 1)];
  }

  /** Clockwise from a half-edge of the lower fan to the boundary. */
  lemma FanClockwiseFromLower(tris: seq<Triangle>)
    requires FanLinked(tris)
    ensures EdgesClockwise(tris, Link(7, 0), InvalidLink, 20) == Some(Walk(false, [Link(7, 0), Link(7, 2), Link(6, 2)]))
  {
    ForwardBoundary(tris, TurnCheckVisit, 2, [Link(7, 0), Link(6, 0)], InvalidLink, 20);
    assert Visits(true, 2, [Link(7, 0), Link(6, 0)]) == [Link(7, 2), Link(6, 2)];
    assert [Link(7, 0)] + [Link(7, 2), Link(6, 2)] == [Link(7, 0), Link(7, 2), Link(6, 2)];
    assert Backfill(tris, false, 1, InvalidLink, 20) == Some([]);
    assert [Link(7, 0), Link(7, 2), Link(6, 2)] + [] == [Link(7, 0), Link(7, 2), Link(6, 2)];
  }

  /** Clockwise from the boundary: only the second loop runs. */
  lemma FanClockwiseToUpper(tris: seq<Triangle>)
    requires FanLinked(tris)
    ensures EdgesClockwise(tris, InvalidLink, Link(2, 1), 20) == Some(Walk(false, [Link(2, 2), Link(1, 2), Link(0, 1)]))
  {
    assert Forward(tris, TurnCheckVisit, 2, InvalidLink, Link(2, 1), 20) == Boundary([]);
    BackfillBoundary(tris, false, 1, [Link(2, 1), Link(1, 1), Link(0, 0)], 20);
    assert Visits(true, 1, [Link(2, 1), Link(1, 1), Link(0, 0)]) == [Link(2, 2), Link(1, 2), Link(0, 1)];
    assert [] + [Link(2, 2), Link(1, 2), Link(0, 1)] == [Link(2, 2), Link(1, 2), Link(0, 1)];
  }

  /** Anticlockwise from the upper fan towards the lower fan. */
  lemma FanAnticlockwiseAcross(tris: seq<Triangle>)
    requires FanLinked(tris)
    ensures EdgesAnticlockwise(tris, Link(2, 1), Link(7, 0), 20) == Some(Walk(false, [Link(2, 1), Link(2, 2), Link(1, 2), Link(0, 1), Link(7, 2), Link(6, 2)]))
  {
    ForwardBoundary(tris, TurnCheckVisit, 1, [Link(2, 1), Link(1, 1), Link(0, 0)], Link(7, 0), 20);
    assert Visits(true, 1, [Link(2, 1), Link(1, 1), Link(0, 0)]) == [Link(2, 2), Link(1, 2), Link(0, 1)];
    assert [Link(2, 1)] + [Link(2, 2), Link(1, 2), Link(0, 1)] == [Link(2, 1), Link(2, 2), Link(1, 2), Link(0, 1)];
    BackfillBoundary(tris, false, 2, [Link(7, 0), Link(6, 0)], 20);
    assert Visits(true, 2, [Link(7, 0), Link(6, 0)]) == [Link(7, 2), Link(6, 2)];
    assert [Link(2, 1), Link(2, 2), Link(1, 2), Link(0, 1)] + [Link(7, 2), Link(6, 2)] == [Link(2, 1), Link(2, 2), Link(1, 2), Link(0, 1), Link(7, 2), Link(6, 2)];
  }

  /** Clockwise across the edge 6-7 where the two fans join: the first loop reaches `end`. */
  lemma FanClockwiseJoined(tris: seq<Triangle>)
    requires FanLinked(tris)
    ensures EdgesClockwise(tris, Link(3, 2), Link(8, 2), 20) == Some(Walk(true, [Link(3, 2), Link(3, 1), Link(4, 1), Link(5, 1), Link(10, 2), Link(9, 2)]))
  {
    ForwardReaches(tris, TurnCheckVisit, 2, [Link(3, 2), Link(4, 2), Link(5, 2), Link(10, 0), Link(9, 0)], Link(8, 0), Link(8, 2), 20);
    assert Visits(true, 2, [Link(3, 2), Link(4, 2), Link(5, 2), Link(10, 0), Link(9, 0)] + []) == [Link(3, 1), Link(4, 1), Link(5, 1), Link(10, 2), Link(9, 2)];
    assert [Link(3, 2)] + [Link(3, 1), Link(4, 1), Link(5, 1), Link(10, 2), Link(9, 2)] == [Link(3, 2), Link(3, 1), Link(4, 1), Link(5, 1), Link(10, 2), Link(9, 2)];
  }

  /** Anticlockwise through the same joints. */
  lemma FanAnticlockwiseJoined(tris: seq<Triangle>)
    requires FanLinked(tris)
    ensures EdgesAnticlockwise(tris, Link(8, 2), Link(3, 2), 20) == Some(Walk(true, [Link(8, 2), Link(8, 0), Link(9, 0), Link(10, 0), Link(5, 2), Link(4, 2)]))
  {
    ForwardReaches(tris, TurnCheckVisit, 1, [Link(8, 2), Link(9, 2), Link(10, 2), Link(5, 1), Link(4, 1)], Link(3, 1), Link(3, 2), 20);
    assert Visits(true, 1, [Link(8, 2), Link(9, 2), Link(10, 2), Link(5, 1), Link(4, 1)] + []) == [Link(8, 0), Link(9, 0), Link(10, 0), Link(5, 2), Link(4, 2)];
    assert [Link(8, 2)] + [Link(8, 0), Link(9, 0), Link(10, 0), Link(5, 2), Link(4, 2)] == [Link(8, 2), Link(8, 0), Link(9, 0), Link(10, 0), Link(5, 2), Link(4, 2)];
  }
}
