// The per-vertex corner lists that the builder threads through its workspace
// (src/manifold.cpp, the ring-threading loop and the list walk that fills
// adjList). Corners are numbered by their position code `index * 3 + side`.

module Rings {
  import opened Mesh

  /** The corner with position code c. */
  function CornerOf(c: nat): (l: Link)
    ensures l.side < 3 && Code(l) == c
  {
    Link(c / 3, c % 3)
  }

  /** The corners at vertex v whose code is below c, highest code first: what
      the ring of v holds once the corners with codes 0 .. c-1 are threaded. */
  function CornersBelow(V: seq<Triangle>, v: nat, c: nat): seq<Link>
    requires c <= 3 * |V|
  {
    if c == 0 then []
    else if V[(c - 1) / 3].vertex[(c - 1) % 3] == v then [CornerOf(c - 1)] + CornersBelow(V, v, c - 1)
    else CornersBelow(V, v, c - 1)
  }

  /** All corners at vertex v, highest code first. */
  function Ring(V: seq<Triangle>, v: nat): seq<Link>
  {
    CornersBelow(V, v, 3 * |V|)
  }

  /** The head of a threaded list: its first corner, or InvalidLink. */
  function Head(s: seq<Link>): Link
  {
    if s == [] then InvalidLink else s[0]
  }

  /** Codes strictly decrease along the list. */
  ghost predicate Decreasing(s: seq<Link>)
  {
    forall i, j :: 0 <= i < j < |s| ==> Code(s[i]) > Code(s[j])
  }

  /** CornersBelow holds exactly the corners at v with code below c, each once, in
      strictly decreasing code order. */
  lemma {:induction false} CornersBelowContents(V: seq<Triangle>, v: nat, c: nat)
    requires c <= 3 * |V|
    ensures forall l :: l in CornersBelow(V, v, c) <==> CornerAt(V, v, l) && Code(l) < c
    ensures Decreasing(CornersBelow(V, v, c))
  {
    if c > 0 {
      CornersBelowContents(V, v, c - 1);
      var l := CornerOf(c - 1);
      forall g | CornerAt(V, v, g) && Code(g) == c - 1
        ensures g == l
      {
      }
    }
  }

  /** A list whose codes strictly decrease holds no corner twice. */
  lemma DecreasingDistinct(s: seq<Link>, k: nat)
    requires Decreasing(s) && k < |s|
    ensures s[k] !in s[..k]
  {
    forall j | 0 <= j < k
      ensures s[..k][j] != s[k]
    {
      assert Code(s[j]) > Code(s[k]);
    }
  }

  /** Following the list from its head: the head's code is below c and the
      rest of the list is the list below the head's code. */
  lemma {:induction false} CornersBelowSplit(V: seq<Triangle>, v: nat, c: nat)
    requires c <= 3 * |V| && CornersBelow(V, v, c) != []
    ensures var s := CornersBelow(V, v, c);
      Code(s[0]) < c && CornerAt(V, v, s[0]) && s == [s[0]] + CornersBelow(V, v, Code(s[0]))
  {
    var x := V[(c - 1) / 3].vertex[(c - 1) % 3];
    if x != v {
      CornersBelowSplit(V, v, c - 1);
    }
  }

  /** A threaded list is empty exactly when its head is the sentinel. */
  lemma HeadInvalidIffEmpty(V: seq<Triangle>, v: nat, c: nat)
    requires c <= 3 * |V|
    ensures CornersBelow(V, v, c) == [] <==> Head(CornersBelow(V, v, c)) == InvalidLink
  {
    if CornersBelow(V, v, c) != [] {
      CornersBelowSplit(V, v, c);
    }
  }

  /** Threading one more corner (code c) onto the lists: only the list of its
      own vertex grows, by that corner at the front. */
  lemma CornersBelowNext(V: seq<Triangle>, v: nat, i: nat, j: nat)
    requires i < |V| && j < 3
    ensures CornerOf(3 * i + j) == Link(i, j)
    ensures CornersBelow(V, v, 3 * i + j + 1) ==
      if V[i].vertex[j] == v then [Link(i, j)] + CornersBelow(V, v, 3 * i + j)
      else CornersBelow(V, v, 3 * i + j)
  {
    var c := 3 * i + j;
    assert c / 3 == i && c % 3 == j;
  }

  /** The workspace lists once the corners with codes below c are threaded:
      the head of each vertex's list (`vertexRings`) is its highest such
      corner, and each threaded corner's successor (`triangleVertexRings`)
      is the next lower corner at the same vertex. */
  ghost predicate ThreadedBelow(V: seq<Triangle>, rings: seq<Link>, next: seq<Links3>, c: nat)
    requires c <= 3 * |V|
  {
    |next| == |V| &&
    (forall w {:trigger rings[w]} :: 0 <= w < |rings| ==> rings[w] == Head(CornersBelow(V, w, c))) &&
    (forall h {:trigger next[h.index][h.side]} :: IsHalfEdge(|V|, h) && Code(h) < c ==>
      next[h.index][h.side] == Head(CornersBelow(V, Origin(V, h), Code(h))))
  }

  /** Before any corner is threaded every list is empty. */
  lemma ThreadStart(V: seq<Triangle>, rings: seq<Link>, next: seq<Links3>)
    requires |next| == |V| && forall w :: 0 <= w < |rings| ==> rings[w] == InvalidLink
    ensures ThreadedBelow(V, rings, next, 0)
  {
  }

  /** Threading corner (i, j): it becomes the head of the list of its vertex
      and its successor is the previous head. */
  lemma ThreadStep(V: seq<Triangle>, rings: seq<Link>, next: seq<Links3>, i: nat, j: nat, c: nat)
    requires i < |V| && j < 3 && c == 3 * i + j && V[i].vertex[j] < |rings|
    requires ThreadedBelow(V, rings, next, c)
    ensures var vi := V[i].vertex[j];
      ThreadedBelow(V, rings[vi := Link(i, j)], next[i := next[i][j := rings[vi]]], c + 1)
  {
    var vi := V[i].vertex[j];
    var rings', next' := rings[vi := Link(i, j)], next[i := next[i][j := rings[vi]]];
    forall w | 0 <= w < |rings'|
      ensures rings'[w] == Head(CornersBelow(V, w, c + 1))
    {
      CornersBelowNext(V, w, i, j);
    }
    forall h | IsHalfEdge(|V|, h) && Code(h) < c + 1
      ensures next'[h.index][h.side] == Head(CornersBelow(V, Origin(V, h), Code(h)))
    {
      CodeInjective(h, Link(i, j));
    }
  }
}
