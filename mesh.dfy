// Connectivity model of the triangle manifold: half-edge references (Link),
// triangles, and the predicates that say when a link table is consistent.

module Mesh {

  /** 2^32: the range of the source's `uint32_t` vertex ids and counters. */
  const U32: nat := 0x1_0000_0000

  /** 2^30: `Link::index` is a 30-bit field, so at most this many triangles. */
  const INDEX_LIMIT: nat := 0x4000_0000

  datatype Option<T> = None | Some(value: T)

  /** The 2-bit `Link::side` field. Sides 0..2 name an edge of a triangle;
      3 occurs in InvalidLink. */
  type Side = s: nat | s < 4

  /** A directed half-edge: side `side` of triangle `index`, i.e. the edge that
      runs from `vertex[side]` to `vertex[(side + 1) % 3]`. The same pair also
      names a triangle corner: the corner at `vertex[side]`. */
  datatype Link = Link(index: nat, side: Side)

  /** The sentinel "no link" value. */
  const InvalidLink: Link := Link(0, 3)

  /** `Link::operator==`: field-wise comparison. */
  function LinkEq(a: Link, b: Link): (r: bool)
    ensures r <==> a == b
  {
    a.index == b.index && a.side == b.side
  }

  /** `Link::operator!=`: field-wise comparison. */
  function LinkNe(a: Link, b: Link): (r: bool)
    ensures r <==> a != b
    ensures r == !LinkEq(a, b)
  {
    a.index != b.index || a.side != b.side
  }

  type Corners = s: seq<nat> | |s| == 3 witness [0, 0, 0]
  type Links3 = s: seq<Link> | |s| == 3 witness [Link(0, 3), Link(0, 3), Link(0, 3)]

  /** A triangle: three vertex ids in winding order and one link per side. */
  datatype Triangle = Triangle(vertex: Corners, link: Links3)

  /** Position code `index * 3 + side` of a link, as used by getEdgeKey and by
      the order in which the builder threads corners. */
  function Code(l: Link): nat
  {
    l.index * 3 + l.side
  }

  /** Distinct real links have distinct position codes. */
  lemma CodeInjective(a: Link, b: Link)
    requires a.side < 3 && b.side < 3
    ensures Code(a) == Code(b) <==> a == b
  {
  }

  /** `l` is a real half-edge (not a sentinel) of an n-triangle mesh. */
  predicate IsHalfEdge(n: nat, l: Link)
  {
    l.index < n && l.side < 3
  }

  /** The side reached from `l` by the source's `side = (side + k) % 3`. */
  function Turn(l: Link, k: nat): Link
  {
    Link(l.index, (l.side + k) % 3)
  }

  /** `m_triangles[h.index].link[h.side]` */
  function LinkAt(tris: seq<Triangle>, h: Link): Link
    requires IsHalfEdge(|tris|, h)
  {
    tris[h.index].link[h.side]
  }

  /** The vertex a half-edge starts at (the vertex of the corner `h`). */
  function Origin(tris: seq<Triangle>, h: Link): nat
    requires IsHalfEdge(|tris|, h)
  {
    tris[h.index].vertex[h.side]
  }

  /** The vertex a half-edge ends at. */
  function Target(tris: seq<Triangle>, h: Link): nat
    requires IsHalfEdge(|tris|, h)
  {
    tris[h.index].vertex[(h.side + 1) % 3]
  }

  /** Both tables hold the same triangles with the same vertex data. */
  ghost predicate SameVertices(a: seq<Triangle>, b: seq<Triangle>)
  {
    |a| == |b| && forall t :: 0 <= t < |a| ==> a[t].vertex == b[t].vertex
  }

  /** Writes one link slot (`t.link[s] = l`). */
  function SetLink(tris: seq<Triangle>, h: Link, l: Link): (r: seq<Triangle>)
    requires IsHalfEdge(|tris|, h)
    ensures SameVertices(r, tris)
    ensures LinkAt(r, h) == l
    ensures forall g :: IsHalfEdge(|tris|, g) && g != h ==> LinkAt(r, g) == LinkAt(tris, g)
  {
    tris[h.index := tris[h.index].(link := tris[h.index].link[h.side := l])]
  }

  /** No triangle repeats a vertex. */
  predicate NonDegenerate(tris: seq<Triangle>)
  {
    forall t :: 0 <= t < |tris| ==>
      tris[t].vertex[0] != tris[t].vertex[1] &&
      tris[t].vertex[1] != tris[t].vertex[2] &&
      tris[t].vertex[2] != tris[t].vertex[0]
  }

  /** h1 and h2 are the same mesh edge traversed in opposite directions by two
      different triangles (a->b in one, b->a in the other). */
  ghost predicate Opposite(V: seq<Triangle>, h1: Link, h2: Link)
  {
    IsHalfEdge(|V|, h1) && IsHalfEdge(|V|, h2) && h1.index != h2.index &&
    Origin(V, h1) == Target(V, h2) && Target(V, h1) == Origin(V, h2)
  }

  /** Every link of `tris` is InvalidLink or a real half-edge. */
  ghost predicate LinksInRange(tris: seq<Triangle>)
  {
    forall h :: IsHalfEdge(|tris|, h) ==>
      LinkAt(tris, h) == InvalidLink || IsHalfEdge(|tris|, LinkAt(tris, h))
  }

  /** Every link of `tris` is InvalidLink or points at an opposite half-edge
      (with respect to the vertex data of V) that points back. */
  ghost predicate LinksMatch(V: seq<Triangle>, tris: seq<Triangle>)
  {
    |V| == |tris| &&
    forall h :: IsHalfEdge(|tris|, h) && LinkAt(tris, h) != InvalidLink ==>
      Opposite(V, h, LinkAt(tris, h)) && LinkAt(tris, LinkAt(tris, h)) == h
  }

  /** The built-manifold invariant: links in range, reciprocal, and joining
      oppositely wound edges. */
  ghost predicate WellFormed(tris: seq<Triangle>)
  {
    LinksMatch(tris, tris)
  }

  /** Every pair of opposite half-edges is linked. */
  ghost predicate Complete(tris: seq<Triangle>)
  {
    forall h1, h2 :: Opposite(tris, h1, h2) ==> LinkAt(tris, h1) == h2
  }

  /** Some half-edge has two different opposite half-edges: a third triangle
      on one edge. */
  ghost predicate NonManifold(V: seq<Triangle>)
  {
    exists h, g1, g2 :: Opposite(V, h, g1) && Opposite(V, h, g2) && g1 != g2
  }

  /** `l` is a corner at vertex v (`vertex[side] == v`). */
  ghost predicate CornerAt(tris: seq<Triangle>, v: nat, l: Link)
  {
    IsHalfEdge(|tris|, l) && Origin(tris, l) == v
  }

  /** `l` is a half-edge ending at vertex v (`vertex[(side + 1) % 3] == v`). */
  ghost predicate EndsAt(tris: seq<Triangle>, v: nat, l: Link)
  {
    IsHalfEdge(|tris|, l) && Target(tris, l) == v
  }

  lemma WellFormedInRange(tris: seq<Triangle>)
    requires WellFormed(tris)
    ensures LinksInRange(tris)
  {
  }

  lemma LinksMatchSameVertices(V: seq<Triangle>, W: seq<Triangle>, tris: seq<Triangle>)
    requires LinksMatch(V, tris) && SameVertices(V, W)
    ensures LinksMatch(W, tris)
  {
    forall h | IsHalfEdge(|tris|, h) && LinkAt(tris, h) != InvalidLink
      ensures Opposite(W, h, LinkAt(tris, h))
    {
      var g := LinkAt(tris, h);
      assert V[h.index].vertex == W[h.index].vertex;
      assert V[g.index].vertex == W[g.index].vertex;
    }
  }

  lemma NonManifoldSameVertices(V: seq<Triangle>, W: seq<Triangle>)
    requires SameVertices(V, W)
    ensures NonManifold(V) <==> NonManifold(W)
  {
    forall h, g | IsHalfEdge(|V|, h) && IsHalfEdge(|V|, g)
      ensures Opposite(V, h, g) <==> Opposite(W, h, g)
    {
      assert V[h.index].vertex == W[h.index].vertex;
      assert V[g.index].vertex == W[g.index].vertex;
    }
  }

  /** A table that is well formed and complete has no edge with a third
      triangle: such a half-edge would have to link to two places at once. */
  lemma CompleteIsManifold(tris: seq<Triangle>)
    requires WellFormed(tris) && Complete(tris)
    ensures !NonManifold(tris)
  {
    forall h, g1, g2 | Opposite(tris, h, g1) && Opposite(tris, h, g2)
      ensures g1 == g2
    {
      assert LinkAt(tris, h) == g1 && LinkAt(tris, h) == g2;
    }
  }

  /** Opposite half-edges are determined by the vertex data alone, so two well
      formed, complete link tables over the same triangles are identical. */
  lemma LinkTableUnique(a: seq<Triangle>, b: seq<Triangle>)
    requires SameVertices(a, b)
    requires WellFormed(a) && Complete(a)
    requires WellFormed(b) && Complete(b)
    ensures a == b
  {
    forall h | IsHalfEdge(|a|, h)
      ensures LinkAt(a, h) == LinkAt(b, h)
    {
      SameLinkSlot(a, b, h);
    }
    forall t | 0 <= t < |a|
      ensures a[t] == b[t]
    {
      forall s | 0 <= s < 3
        ensures a[t].link[s] == b[t].link[s]
      {
        assert LinkAt(a, Link(t, s)) == LinkAt(b, Link(t, s));
      }
      assert a[t].link == b[t].link;
    }
  }

  lemma SameLinkSlot(a: seq<Triangle>, b: seq<Triangle>, h: Link)
    requires SameVertices(a, b)
    requires WellFormed(a) && Complete(a)
    requires WellFormed(b) && Complete(b)
    requires IsHalfEdge(|a|, h)
    ensures LinkAt(a, h) == LinkAt(b, h)
  {
    forall g | IsHalfEdge(|a|, g)
      ensures Opposite(a, h, g) <==> Opposite(b, h, g)
    {
      assert a[h.index].vertex == b[h.index].vertex;
      assert a[g.index].vertex == b[g.index].vertex;
    }
    var la, lb := LinkAt(a, h), LinkAt(b, h);
    if la != InvalidLink {
      assert Opposite(b, h, la);
    } else if lb != InvalidLink {
      assert Opposite(a, h, lb);
    }
  }
}
