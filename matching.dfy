// Progress invariants of the pairwise matching loops of the builder
// (src/manifold.cpp, "Match all combinations"). For every vertex v, the loops
// run over ordered pairs (k1, k2) of positions of the corner list adj of v;
// corner adj[k1] proposes its half-edge h1 = adj[k1] and corner adj[k2] its
// half-edge h2 = Turn(adj[k2], 2), the one that ends at v.

module Matching {
  import opened Mesh
  import opened Rings

  /** An opposite pair in the orientation the builder matches it: from the
      lower-numbered triangle h1, at the vertex where h1 starts. */
  ghost predicate Pair(V: seq<Triangle>, h1: Link, h2: Link)
  {
    Opposite(V, h1, h2) && h1.index < h2.index
  }

  /** The pair (h1, h2) has been examined once the loops are at vertex v and
      positions (k1, k2) of adj: its vertex comes earlier, or it is the vertex
      of adj and h1's corner comes earlier in adj, or h1's corner is adj[k1] and
      the corner of h2 at v (Turn(h2, 1)) comes before adj[k2]. */
  ghost predicate Done(V: seq<Triangle>, v: nat, adj: seq<Link>, k1: nat, k2: nat, h1: Link, h2: Link)
    requires IsHalfEdge(|V|, h1) && IsHalfEdge(|V|, h2) && k1 <= |adj| && k2 <= |adj|
  {
    var a := Origin(V, h1);
    a < v || (a == v && (h1 in adj[..k1] || (k1 < |adj| && adj[k1] == h1 && Turn(h2, 1) in adj[..k2])))
  }

  /** Every pair examined so far is linked both ways. */
  ghost predicate Matched(V: seq<Triangle>, tris: seq<Triangle>, v: nat, adj: seq<Link>, k1: nat, k2: nat)
    requires |tris| == |V| && k1 <= |adj| && k2 <= |adj|
  {
    forall h1, h2 :: Pair(V, h1, h2) && Done(V, v, adj, k1, k2, h1, h2) ==>
      LinkAt(tris, h1) == h2 && LinkAt(tris, h2) == h1
  }

  /** Every link written so far belongs to a pair examined so far. */
  ghost predicate Claimed(V: seq<Triangle>, tris: seq<Triangle>, v: nat, adj: seq<Link>, k1: nat, k2: nat)
    requires |tris| == |V| && k1 <= |adj| && k2 <= |adj|
  {
    forall h :: IsHalfEdge(|tris|, h) && LinkAt(tris, h) != InvalidLink ==>
      IsHalfEdge(|V|, LinkAt(tris, h)) &&
      if h.index < LinkAt(tris, h).index then Done(V, v, adj, k1, k2, h, LinkAt(tris, h))
      else Done(V, v, adj, k1, k2, LinkAt(tris, h), h)
  }

  /** The link state the matching loops keep, at vertex v, positions (k1, k2). */
  ghost predicate Progress(V: seq<Triangle>, tris: seq<Triangle>, v: nat, adj: seq<Link>, k1: nat, k2: nat)
  {
    SameVertices(tris, V) && k1 <= |adj| && k2 <= |adj| &&
    LinksMatch(V, tris) && Matched(V, tris, v, adj, k1, k2) && Claimed(V, tris, v, adj, k1, k2)
  }

  /** Before any vertex has been examined nothing is linked. */
  lemma ProgressStart(V: seq<Triangle>, tris: seq<Triangle>)
    requires SameVertices(tris, V)
    requires forall h :: IsHalfEdge(|tris|, h) ==> LinkAt(tris, h) == InvalidLink
    ensures Progress(V, tris, 0, [], 0, 0)
  {
  }

  /** Entering the list of vertex v changes nothing about what has been done. */
  lemma ProgressEnterRing(V: seq<Triangle>, tris: seq<Triangle>, v: nat, adj: seq<Link>)
    requires Progress(V, tris, v, [], 0, 0)
    ensures Progress(V, tris, v, adj, 0, 0)
  {
    forall h1, h2 | IsHalfEdge(|V|, h1) && IsHalfEdge(|V|, h2)
      ensures Done(V, v, adj, 0, 0, h1, h2) == Done(V, v, [], 0, 0, h1, h2)
    {
    }
  }

  /** Leaving the list of vertex v once every position has been examined: every
      pair matched at v is done, so the next vertex starts afresh. */
  lemma ProgressLeaveRing(V: seq<Triangle>, tris: seq<Triangle>, v: nat, adj: seq<Link>)
    requires adj == Ring(V, v)
    requires Progress(V, tris, v, adj, |adj|, 0)
    ensures Progress(V, tris, v + 1, [], 0, 0)
  {
    CornersBelowContents(V, v, 3 * |V|);
    forall h1, h2 | Pair(V, h1, h2)
      ensures Done(V, v, adj, |adj|, 0, h1, h2) == Done(V, v + 1, [], 0, 0, h1, h2)
    {
      if Origin(V, h1) == v {
        assert CornerAt(V, v, h1);
        assert adj[..|adj|] == adj;
      }
    }
    forall h1, h2 | IsHalfEdge(|V|, h1) && IsHalfEdge(|V|, h2)
      ensures Done(V, v, adj, |adj|, 0, h1, h2) ==> Done(V, v + 1, [], 0, 0, h1, h2)
    {
    }
  }

  /** Moving from corner k1 to corner k1 + 1 of the list of v. */
  lemma ProgressNextCorner(V: seq<Triangle>, tris: seq<Triangle>, v: nat, adj: seq<Link>, k1: nat)
    requires adj == Ring(V, v) && k1 < |adj|
    requires Progress(V, tris, v, adj, k1, |adj|)
    ensures Progress(V, tris, v, adj, k1 + 1, 0)
  {
    CornersBelowContents(V, v, 3 * |V|);
    assert adj[..k1 + 1] == adj[..k1] + [adj[k1]];
    assert adj[..|adj|] == adj;
    forall h1, h2 | Pair(V, h1, h2)
      ensures Done(V, v, adj, k1, |adj|, h1, h2) == Done(V, v, adj, k1 + 1, 0, h1, h2)
    {
      if Origin(V, h1) == v && adj[k1] == h1 {
        var c := Turn(h2, 1);
        assert CornerAt(V, v, c);
      }
    }
    forall h1, h2 | IsHalfEdge(|V|, h1) && IsHalfEdge(|V|, h2)
      ensures Done(V, v, adj, k1, |adj|, h1, h2) ==> Done(V, v, adj, k1 + 1, 0, h1, h2)
    {
    }
  }

  /** The pair proposed at positions (k1, k2). */
  function Proposed(adj: seq<Link>, k1: nat, k2: nat): (Link, Link)
    requires k1 < |adj| && k2 < |adj|
  {
    (adj[k1], Turn(adj[k2], 2))
  }

  /** Only the proposed pair becomes done when k2 advances. */
  lemma DoneStep(V: seq<Triangle>, v: nat, adj: seq<Link>, k1: nat, k2: nat, h1: Link, h2: Link)
    requires k1 < |adj| && k2 < |adj|
    requires IsHalfEdge(|V|, h1) && IsHalfEdge(|V|, h2)
    ensures Done(V, v, adj, k1, k2, h1, h2) ==> Done(V, v, adj, k1, k2 + 1, h1, h2)
    ensures Done(V, v, adj, k1, k2 + 1, h1, h2) && !Done(V, v, adj, k1, k2, h1, h2) ==>
      (h1, h2) == Proposed(adj, k1, k2)
  {
    assert adj[..k2 + 1] == adj[..k2] + [adj[k2]];
    if Done(V, v, adj, k1, k2 + 1, h1, h2) && !Done(V, v, adj, k1, k2, h1, h2) {
      assert Turn(h2, 1) == adj[k2];
      assert Turn(Turn(h2, 1), 2) == h2;
    }
  }

  /** Advancing k2 past a position that proposes no pair. */
  lemma ProgressSkip(V: seq<Triangle>, tris: seq<Triangle>, v: nat, adj: seq<Link>, k1: nat, k2: nat)
    requires k1 < |adj| && k2 < |adj|
    requires Progress(V, tris, v, adj, k1, k2)
    requires !Pair(V, adj[k1], Turn(adj[k2], 2))
    ensures Progress(V, tris, v, adj, k1, k2 + 1)
  {
    forall h1, h2 | IsHalfEdge(|V|, h1) && IsHalfEdge(|V|, h2)
      ensures Done(V, v, adj, k1, k2, h1, h2) ==> Done(V, v, adj, k1, k2 + 1, h1, h2)
      ensures Pair(V, h1, h2) && Done(V, v, adj, k1, k2 + 1, h1, h2) ==> Done(V, v, adj, k1, k2, h1, h2)
    {
      DoneStep(V, v, adj, k1, k2, h1, h2);
    }
  }

  /** The builder's tests on a proposal (different positions, first triangle
      not above the second, the far ends meet) select exactly the pairs. */
  lemma ProposalTest(V: seq<Triangle>, v: nat, adj: seq<Link>, k1: nat, k2: nat)
    requires adj == Ring(V, v) && k1 < |adj| && k2 < |adj| && NonDegenerate(V)
    ensures CornerAt(V, v, adj[k1]) && CornerAt(V, v, adj[k2])
    ensures (k1 != k2 && adj[k1].index <= adj[k2].index &&
             Target(V, adj[k1]) == Origin(V, Turn(adj[k2], 2))) <==> Pair(V, adj[k1], Turn(adj[k2], 2))
  {
    CornersBelowContents(V, v, 3 * |V|);
    assert CornerAt(V, v, adj[k1]) && CornerAt(V, v, adj[k2]);
    if k1 != k2 {
      RingTrianglesDistinct(V, v, adj, k1, k2);
    }
  }

  /** Two positions of a vertex ring hold corners of two different triangles:
      a non-degenerate triangle has one corner at each of its vertices. */
  lemma RingTrianglesDistinct(V: seq<Triangle>, v: nat, adj: seq<Link>, k1: nat, k2: nat)
    requires adj == Ring(V, v) && k1 < |adj| && k2 < |adj| && k1 != k2 && NonDegenerate(V)
    ensures adj[k1].index != adj[k2].index
  {
    CornersBelowContents(V, v, 3 * |V|);
    assert CornerAt(V, v, adj[k1]) && CornerAt(V, v, adj[k2]);
    assert Code(adj[k1]) != Code(adj[k2]);
  }

  /** Linking the proposed pair when both slots are free. */
  lemma ProgressJoin(V: seq<Triangle>, tris: seq<Triangle>, v: nat, adj: seq<Link>, k1: nat, k2: nat)
    requires adj == Ring(V, v) && k1 < |adj| && k2 < |adj|
    requires Progress(V, tris, v, adj, k1, k2)
    requires Pair(V, adj[k1], Turn(adj[k2], 2))
    requires LinkAt(tris, adj[k1]) == InvalidLink && LinkAt(tris, Turn(adj[k2], 2)) == InvalidLink
    ensures var h1, h2 := adj[k1], Turn(adj[k2], 2);
      Progress(V, SetLink(SetLink(tris, h1, h2), h2, h1), v, adj, k1, k2 + 1)
  {
    var h1, h2 := adj[k1], Turn(adj[k2], 2);
    CornersBelowContents(V, v, 3 * |V|);
    assert CornerAt(V, v, adj[k1]) && CornerAt(V, v, adj[k2]);
    assert Turn(h2, 1) == adj[k2];
    assert adj[..k2 + 1] == adj[..k2] + [adj[k2]];
    assert Done(V, v, adj, k1, k2 + 1, h1, h2);
    var t1 := SetLink(tris, h1, h2);
    var t2 := SetLink(t1, h2, h1);
    assert LinkAt(t2, h1) == h2 && LinkAt(t2, h2) == h1;
    forall g | IsHalfEdge(|t2|, g) && g != h1 && g != h2
      ensures LinkAt(t2, g) == LinkAt(tris, g)
    {
    }
    forall g1, g2 | IsHalfEdge(|V|, g1) && IsHalfEdge(|V|, g2)
      ensures Done(V, v, adj, k1, k2, g1, g2) ==> Done(V, v, adj, k1, k2 + 1, g1, g2)
      ensures Pair(V, g1, g2) && Done(V, v, adj, k1, k2 + 1, g1, g2) && (g1, g2) != (h1, h2) ==>
        Done(V, v, adj, k1, k2, g1, g2)
    {
      DoneStep(V, v, adj, k1, k2, g1, g2);
    }
    forall g1, g2 | Pair(V, g1, g2) && Done(V, v, adj, k1, k2 + 1, g1, g2)
      ensures LinkAt(t2, g1) == g2 && LinkAt(t2, g2) == g1
    {
      if (g1, g2) != (h1, h2) {
        assert LinkAt(tris, g1) == g2 && LinkAt(tris, g2) == g1;
        assert g1 != h1 && g1 != h2 && g2 != h1 && g2 != h2;
      }
    }
    assert LinksMatch(V, t2);
    assert Matched(V, t2, v, adj, k1, k2 + 1);
  }

  /** The pair proposed at positions (k1, k2) has not been examined before. */
  lemma ProposedNotDone(V: seq<Triangle>, v: nat, adj: seq<Link>, k1: nat, k2: nat)
    requires adj == Ring(V, v) && k1 < |adj| && k2 < |adj|
    requires Pair(V, adj[k1], Turn(adj[k2], 2))
    ensures !Done(V, v, adj, k1, k2, adj[k1], Turn(adj[k2], 2))
  {
    var h1, h2 := adj[k1], Turn(adj[k2], 2);
    CornersBelowContents(V, v, 3 * |V|);
    assert CornerAt(V, v, adj[k1]) && CornerAt(V, v, adj[k2]);
    assert Turn(h2, 1) == adj[k2];
    DecreasingDistinct(adj, k1);
    DecreasingDistinct(adj, k2);
  }

  /** A proposed pair that finds one of its slots taken proves a third
      triangle on the edge: the slot was written by a different pair, examined
      earlier. */
  lemma ClashIsNonManifold(V: seq<Triangle>, tris: seq<Triangle>, v: nat, adj: seq<Link>, k1: nat, k2: nat)
    requires adj == Ring(V, v) && k1 < |adj| && k2 < |adj|
    requires Progress(V, tris, v, adj, k1, k2)
    requires Pair(V, adj[k1], Turn(adj[k2], 2))
    requires LinkAt(tris, adj[k1]) != InvalidLink || LinkAt(tris, Turn(adj[k2], 2)) != InvalidLink
    ensures NonManifold(V)
  {
    var h1, h2 := adj[k1], Turn(adj[k2], 2);
    ProposedNotDone(V, v, adj, k1, k2);
    if LinkAt(tris, h1) != InvalidLink {
      var g := LinkAt(tris, h1);
      assert Opposite(V, h1, g);
      assert g != h2;
      assert Opposite(V, h1, h2);
    } else {
      var g := LinkAt(tris, h2);
      assert Opposite(V, h2, g);
      assert g != h1;
      assert Opposite(V, h2, h1);
    }
  }

  /** Once every vertex below m has been examined and every vertex id is below
      m, the links are well formed and complete. */
  lemma ProgressFinish(V: seq<Triangle>, tris: seq<Triangle>, m: nat)
    requires Progress(V, tris, m, [], 0, 0)
    requires forall t, j :: 0 <= t < |V| && 0 <= j < 3 ==> V[t].vertex[j] < m
    ensures WellFormed(tris) && Complete(tris)
  {
    LinksMatchSameVertices(V, tris, tris);
    forall h1, h2 | Opposite(tris, h1, h2)
      ensures LinkAt(tris, h1) == h2
    {
      assert tris[h1.index].vertex == V[h1.index].vertex;
      assert tris[h2.index].vertex == V[h2.index].vertex;
      assert Opposite(V, h1, h2) && Opposite(V, h2, h1);
      if h1.index < h2.index {
        assert Done(V, m, [], 0, 0, h1, h2);
      } else {
        assert Done(V, m, [], 0, 0, h2, h1);
      }
    }
  }
}
