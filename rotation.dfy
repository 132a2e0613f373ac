// Single-step queries of a built manifold: the canonical edge key and the
// one-step rotations around a vertex (include/manifold.h, getEdgeKey,
// nextClockwise, nextAnticlockwise).

module Rotation {
  import opened Mesh

  /** getEdgeKey: the position code of whichever half-edge of the edge lives
      in the lower-numbered triangle (the half-edge itself on a boundary). */
  function EdgeKey(tris: seq<Triangle>, l: Link): (key: nat)
    requires IsHalfEdge(|tris|, l) && LinksInRange(tris)
    ensures key < 3 * |tris|
    ensures key == Code(l) || key == Code(LinkAt(tris, l))
    ensures LinkAt(tris, l) == InvalidLink ==> key == Code(l)
  {
    var otlink := LinkAt(tris, l);
    if otlink == InvalidLink || otlink.index > l.index then
      l.index * 3 + l.side
    else
      otlink.index * 3 + otlink.side
  }

  /** nextAnticlockwise: the link of the next side, `link[(side + 1) % 3]`.
      In a well-formed table it is InvalidLink or a half-edge of another
      triangle that links back to that side. */
  function NextAnticlockwise(tris: seq<Triangle>, l: Link): (r: Link)
    requires l.index < |tris|
    ensures LinksInRange(tris) ==> r == InvalidLink || IsHalfEdge(|tris|, r)
    ensures WellFormed(tris) && r != InvalidLink ==>
              IsHalfEdge(|tris|, r) && r.index != l.index && LinkAt(tris, r) == Turn(l, 1)
  {
    LinkAt(tris, Turn(l, 1))
  }

  /** nextClockwise: `link[(side + 2) % 3]` of the link's triangle. In a
      well-formed table it is InvalidLink or a half-edge of another triangle
      that links back to that side. */
  function NextClockwise(tris: seq<Triangle>, l: Link): (r: Link)
    requires l.index < |tris|
    ensures LinksInRange(tris) ==> r == InvalidLink || IsHalfEdge(|tris|, r)
    ensures WellFormed(tris) && r != InvalidLink ==>
              IsHalfEdge(|tris|, r) && r.index != l.index && LinkAt(tris, r) == Turn(l, 2)
  {
    LinkAt(tris, Turn(l, 2))
  }

  /** Both half-edges of an interior edge get the same key, a boundary
      half-edge keeps its own, and no two different edges share a key. */
  lemma EdgeKeyCanonical(tris: seq<Triangle>, h: Link, g: Link)
    requires WellFormed(tris)
    requires IsHalfEdge(|tris|, h) && IsHalfEdge(|tris|, g)
    ensures LinksInRange(tris)
    ensures EdgeKey(tris, h) == EdgeKey(tris, g) <==> (g == h || g == LinkAt(tris, h))
  {
    WellFormedInRange(tris);
    var lh, lg := LinkAt(tris, h), LinkAt(tris, g);
    // the key is the code of a canonical representative of each edge
    var rh := if lh == InvalidLink || lh.index > h.index then h else lh;
    var rg := if lg == InvalidLink || lg.index > g.index then g else lg;
    assert EdgeKey(tris, h) == Code(rh) && EdgeKey(tris, g) == Code(rg);
    assert rh.side < 3 && rg.side < 3;
    CodeInjective(rh, rg);
    if g == LinkAt(tris, h) && g != InvalidLink {
      assert LinkAt(tris, g) == h;
    }
    if rh == rg {
      if rh == h && rg == lg {
        assert LinkAt(tris, lg) == g;
      } else if rh == lh && rg == g {
        assert g == lh;
      } else if rh == lh && rg == lg {
        assert LinkAt(tris, lh) == h && LinkAt(tris, lg) == g;
      }
    }
  }

  /** Rotating clockwise from a corner at v gives InvalidLink or a corner at v
      of another triangle. */
  lemma NextClockwiseStaysAtVertex(tris: seq<Triangle>, v: nat, l: Link)
    requires WellFormed(tris) && CornerAt(tris, v, l)
    ensures NextClockwise(tris, l) == InvalidLink ||
            (CornerAt(tris, v, NextClockwise(tris, l)) && NextClockwise(tris, l).index != l.index)
  {
    var q := Turn(l, 2);
    assert Target(tris, q) == v by {
      assert (q.side + 1) % 3 == l.side;
    }
  }

  /** Rotating anticlockwise from a half-edge that ends at v gives InvalidLink
      or a half-edge of another triangle that ends at v. */
  lemma NextAnticlockwiseStaysAtVertex(tris: seq<Triangle>, v: nat, l: Link)
    requires WellFormed(tris) && EndsAt(tris, v, l)
    ensures NextAnticlockwise(tris, l) == InvalidLink ||
            (EndsAt(tris, v, NextAnticlockwise(tris, l)) && NextAnticlockwise(tris, l).index != l.index)
  {
    var q := Turn(l, 1);
    assert Origin(tris, q) == v;
  }

  /** The two rotations undo each other where both links exist: a clockwise
      step from corner l, seen as the half-edge ending at the same vertex, is
      undone by an anticlockwise step. */
  lemma ClockwiseThenAnticlockwise(tris: seq<Triangle>, l: Link)
    requires WellFormed(tris) && IsHalfEdge(|tris|, l)
    requires NextClockwise(tris, l) != InvalidLink
    ensures NextClockwise(tris, l).index < |tris|
    ensures NextAnticlockwise(tris, Turn(NextClockwise(tris, l), 2)) == Turn(l, 2)
  {
    var c := NextClockwise(tris, l);
    assert LinkAt(tris, c) == Turn(l, 2);
    assert Turn(Turn(c, 2), 1) == c;
  }

  /** The mirror statement: an anticlockwise step undone by a clockwise one. */
  lemma AnticlockwiseThenClockwise(tris: seq<Triangle>, l: Link)
    requires WellFormed(tris) && IsHalfEdge(|tris|, l)
    requires NextAnticlockwise(tris, l) != InvalidLink
    ensures NextAnticlockwise(tris, l).index < |tris|
    ensures NextClockwise(tris, Turn(NextAnticlockwise(tris, l), 1)) == Turn(l, 1)
  {
    var c := NextAnticlockwise(tris, l);
    assert LinkAt(tris, c) == Turn(l, 1);
    assert Turn(Turn(c, 1), 2) == c;
  }
}
