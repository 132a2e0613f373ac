// Meaning of the four ring walks of include/manifold.h
// (visitTrianglesClockwise, visitTrianglesAnticlockwise, visitEdgesClockwise,
// visitEdgesAnticlockwise). The visitor callback is replaced by the sequence of
// links it is handed. The source loops need not stop (a closed ring that does
// not contain `end`), so every loop here runs at most `fuel` iterations; a walk
// that has not returned by then yields None.

module Walks {
  import opened Mesh
  import opened Rotation

  /** A walk that returned: its bool result and the links it visited, in order. */
  datatype Walk = Walk(connected: bool, visited: seq<Link>)

  /** Where the visitor call sits in the body of a start-seeded loop. */
  datatype Order =
    | VisitTurnCheck   // visit; turn; compare with end; step (visitTrianglesClockwise)
    | TurnVisitCheck   // turn; visit; compare with end; step (visitTrianglesAnticlockwise)
    | TurnCheckVisit   // turn; compare with end; visit; step (both visitEdges walks)

  /** How a start-seeded loop ends: it met `end`, it fell off the ring at a
      boundary, or it ran out of fuel. */
  datatype Outcome = Reached(visited: seq<Link>) | Boundary(visited: seq<Link>) | Unfinished

  /** A value the walk cursor may hold: InvalidLink or a link into an existing
      triangle. */
  predicate Cursor(tris: seq<Triangle>, l: Link)
  {
    l == InvalidLink || l.index < |tris|
  }

  function Prefix(p: seq<Link>, f: Outcome): Outcome
  {
    match f
    case Reached(s) => Reached(p + s)
    case Boundary(s) => Boundary(p + s)
    case Unfinished => Unfinished
  }

  /** The start-seeded loop of a walk, from cursor `it`, turning by k each
      iteration and stepping to the neighbour across the turned side. */
  function Forward(tris: seq<Triangle>, order: Order, k: nat, it: Link, end: Link, fuel: nat): Outcome
    requires LinksInRange(tris) && Cursor(tris, it)
    decreases fuel
  {
    if it == InvalidLink then Boundary([])
    else if fuel == 0 then Unfinished
    else
      var q := Turn(it, k);
      var item := if order == VisitTurnCheck then it else q;
      if q == end then Reached(if order == TurnCheckVisit then [] else [item])
      else Prefix([item], Forward(tris, order, k, LinkAt(tris, q), end, fuel - 1))
  }

  /** The end-seeded loop of a walk, from cursor `it` until the boundary;
      `visitFirst` says whether the visitor sees the cursor before the turn. */
  function Backfill(tris: seq<Triangle>, visitFirst: bool, k: nat, it: Link, fuel: nat): Option<seq<Link>>
    requires LinksInRange(tris) && Cursor(tris, it)
    decreases fuel
  {
    if it == InvalidLink then Some([])
    else if fuel == 0 then None
    else
      var q := Turn(it, k);
      var item := if visitFirst then it else q;
      match Backfill(tris, visitFirst, k, LinkAt(tris, q), fuel - 1)
      case None => None
      case Some(rest) => Some([item] + rest)
  }

  /** The end-seeded loop's result once `p` has been visited. */
  function Extend(p: seq<Link>, o: Option<seq<Link>>): Option<seq<Link>>
  {
    if o.Some? then Some(p + o.value) else None
  }

  lemma PrefixAppend(p: seq<Link>, q: seq<Link>, f: Outcome)
    ensures Prefix(p, Prefix(q, f)) == Prefix(p + q, f)
  {
    if !f.Unfinished? {
      assert p + (q + f.visited) == (p + q) + f.visited;
    }
  }

  lemma ExtendEmpty(p: seq<Link>, o: Option<seq<Link>>)
    ensures Extend([], o) == o
    ensures Extend(p, Some([])) == Some(p)
    ensures Prefix(p, Boundary([])) == Boundary(p)
  {
    assert p + [] == p;
    if o.Some? {
      assert [] + o.value == o.value;
    }
  }

  lemma ExtendAppend(p: seq<Link>, q: seq<Link>, o: Option<seq<Link>>)
    ensures Extend(p, Extend(q, o)) == Extend(p + q, o)
  {
    if o.Some? {
      assert p + (q + o.value) == (p + q) + o.value;
    }
  }

  /** The edge walks visit `start` itself before their loop. */
  function Seed(start: Link, f: Outcome): Outcome
  {
    if start == InvalidLink then f else Prefix([start], f)
  }

  /** A walk returns true from its first loop, or else runs its second loop and
      returns false. */
  function Combine(first: Outcome, second: Option<seq<Link>>): Option<Walk>
  {
    match first
    case Reached(p) => Some(Walk(true, p))
    case Boundary(p) => if second.Some? then Some(Walk(false, p + second.value)) else None
    case Unfinished => None
  }

  function TrianglesClockwise(tris: seq<Triangle>, start: Link, end: Link, fuel: nat): Option<Walk>
    requires LinksInRange(tris) && Cursor(tris, start) && Cursor(tris, end)
  {
    Combine(Forward(tris, VisitTurnCheck, 2, start, end, fuel), Backfill(tris, false, 1, end, fuel))
  }

  function TrianglesAnticlockwise(tris: seq<Triangle>, start: Link, end: Link, fuel: nat): Option<Walk>
    requires LinksInRange(tris) && Cursor(tris, start) && Cursor(tris, end)
  {
    Combine(Forward(tris, TurnVisitCheck, 1, start, end, fuel), Backfill(tris, true, 2, end, fuel))
  }

  function EdgesClockwise(tris: seq<Triangle>, start: Link, end: Link, fuel: nat): Option<Walk>
    requires LinksInRange(tris) && Cursor(tris, start) && Cursor(tris, end)
  {
    Combine(Seed(start, Forward(tris, TurnCheckVisit, 2, start, end, fuel)), Backfill(tris, false, 1, end, fuel))
  }

  function EdgesAnticlockwise(tris: seq<Triangle>, start: Link, end: Link, fuel: nat): Option<Walk>
    requires LinksInRange(tris) && Cursor(tris, start) && Cursor(tris, end)
  {
    Combine(Seed(start, Forward(tris, TurnCheckVisit, 1, start, end, fuel)), Backfill(tris, false, 2, end, fuel))
  }

  // ---------------------------------------------------------------------------
  // An independent description of where a walk goes: repeated rotation.

  /** One rotation step in the walk's direction. */
  function Next(tris: seq<Triangle>, clockwise: bool, l: Link): Link
    requires l.index < |tris|
  {
    if clockwise then NextClockwise(tris, l) else NextAnticlockwise(tris, l)
  }

  /** The link reached from l by j rotation steps; InvalidLink once a
      boundary has been crossed. */
  function Orbit(tris: seq<Triangle>, clockwise: bool, l: Link, j: nat): (r: Link)
    requires LinksInRange(tris) && Cursor(tris, l)
    ensures Cursor(tris, r)
    ensures j > 0 ==> r == InvalidLink || IsHalfEdge(|tris|, r)
    decreases j
  {
    if j == 0 then l
    else if l == InvalidLink then InvalidLink
    else Orbit(tris, clockwise, Next(tris, clockwise, l), j - 1)
  }

  /** The orbit point j, turned by k, is `end`. */
  ghost predicate MeetsEnd(tris: seq<Triangle>, cw: bool, k: nat, it: Link, end: Link, j: nat)
    requires LinksInRange(tris) && Cursor(tris, it)
  {
    Orbit(tris, cw, it, j) != InvalidLink && Turn(Orbit(tris, cw, it, j), k) == end
  }

  /** If the first loop meets `end`, it does so at a point of the orbit. */
  lemma {:induction false} ReachedOnOrbit(tris: seq<Triangle>, order: Order, cw: bool, k: nat, it: Link, end: Link, fuel: nat)
    returns (j: nat)
    requires LinksInRange(tris) && Cursor(tris, it) && k == (if cw then 2 else 1)
    requires Forward(tris, order, k, it, end, fuel).Reached?
    ensures j < fuel && MeetsEnd(tris, cw, k, it, end, j)
    decreases fuel
  {
    var q := Turn(it, k);
    if q == end {
      j := 0;
    } else {
      var nx := LinkAt(tris, q);
      assert nx == Next(tris, cw, it);
      var j' := ReachedOnOrbit(tris, order, cw, k, nx, end, fuel - 1);
      j := j' + 1;
      assert Orbit(tris, cw, it, j) == Orbit(tris, cw, nx, j');
    }
  }

  /** If a point of the orbit within the fuel meets `end`, the first loop
      returns having met it. */
  lemma {:induction false} OnOrbitReached(tris: seq<Triangle>, order: Order, cw: bool, k: nat, it: Link, end: Link, fuel: nat, j: nat)
    requires LinksInRange(tris) && Cursor(tris, it) && k == (if cw then 2 else 1)
    requires j < fuel && MeetsEnd(tris, cw, k, it, end, j)
    ensures Forward(tris, order, k, it, end, fuel).Reached?
    decreases fuel
  {
    var q := Turn(it, k);
    if q != end {
      var nx := LinkAt(tris, q);
      assert nx == Next(tris, cw, it);
      assert Orbit(tris, cw, it, j) == Orbit(tris, cw, nx, j - 1);
      OnOrbitReached(tris, order, cw, k, nx, end, fuel - 1, j - 1);
    }
  }

  /** The first loop meets `end` within its fuel exactly when some point of
      the forward orbit, turned by k, is `end`. */
  lemma ForwardReachesEnd(tris: seq<Triangle>, order: Order, cw: bool, k: nat, it: Link, end: Link, fuel: nat)
    requires LinksInRange(tris) && Cursor(tris, it) && k == (if cw then 2 else 1)
    ensures Forward(tris, order, k, it, end, fuel).Reached? <==>
      exists j :: 0 <= j < fuel && MeetsEnd(tris, cw, k, it, end, j)
  {
    if Forward(tris, order, k, it, end, fuel).Reached? {
      var j := ReachedOnOrbit(tris, order, cw, k, it, end, fuel);
    }
    forall j | 0 <= j < fuel && MeetsEnd(tris, cw, k, it, end, j)
      ensures Forward(tris, order, k, it, end, fuel).Reached?
    {
      OnOrbitReached(tris, order, cw, k, it, end, fuel, j);
    }
  }

  /** `true` from any of the four walks means `end` lies on the forward orbit of
      `start` (turned by the walk's offset), and conversely. */
  lemma ConnectedIffOnOrbit(tris: seq<Triangle>, start: Link, end: Link, fuel: nat)
    requires LinksInRange(tris) && Cursor(tris, start) && Cursor(tris, end)
    ensures TrianglesClockwise(tris, start, end, fuel).Some? && TrianglesClockwise(tris, start, end, fuel).value.connected <==>
      exists j :: 0 <= j < fuel && MeetsEnd(tris, true, 2, start, end, j)
    ensures EdgesClockwise(tris, start, end, fuel).Some? && EdgesClockwise(tris, start, end, fuel).value.connected <==>
      exists j :: 0 <= j < fuel && MeetsEnd(tris, true, 2, start, end, j)
    ensures TrianglesAnticlockwise(tris, start, end, fuel).Some? && TrianglesAnticlockwise(tris, start, end, fuel).value.connected <==>
      exists j :: 0 <= j < fuel && MeetsEnd(tris, false, 1, start, end, j)
    ensures EdgesAnticlockwise(tris, start, end, fuel).Some? && EdgesAnticlockwise(tris, start, end, fuel).value.connected <==>
      exists j :: 0 <= j < fuel && MeetsEnd(tris, false, 1, start, end, j)
  {
    ForwardReachesEnd(tris, VisitTurnCheck, true, 2, start, end, fuel);
    ForwardReachesEnd(tris, TurnCheckVisit, true, 2, start, end, fuel);
    ForwardReachesEnd(tris, TurnVisitCheck, false, 1, start, end, fuel);
    ForwardReachesEnd(tris, TurnCheckVisit, false, 1, start, end, fuel);
  }

  // ---------------------------------------------------------------------------
  // One rotation step per iteration: what a loop emits, position by position.

  /** What the i-th iteration of a loop walking the orbit of `it` hands the
      visitor: the orbit point itself, or that point turned by k. */
  function OrbitItem(tris: seq<Triangle>, cw: bool, k: nat, turned: bool, it: Link, i: nat): Link
    requires LinksInRange(tris) && Cursor(tris, it)
  {
    if turned then Turn(Orbit(tris, cw, it, i), k) else Orbit(tris, cw, it, i)
  }

  /** The first |s| orbit points are real links and s lists their items in
      order: nothing skipped, nothing out of order. */
  ghost predicate OnOrbit(tris: seq<Triangle>, cw: bool, k: nat, turned: bool, it: Link, s: seq<Link>)
    requires LinksInRange(tris) && Cursor(tris, it)
  {
    forall i :: 0 <= i < |s| ==>
      Orbit(tris, cw, it, i) != InvalidLink && s[i] == OrbitItem(tris, cw, k, turned, it, i)
  }

  /** None of the first n orbit points meets `end`. */
  ghost predicate MissesEnd(tris: seq<Triangle>, cw: bool, k: nat, it: Link, end: Link, n: nat)
    requires LinksInRange(tris) && Cursor(tris, it)
  {
    forall i :: 0 <= i < n ==> !MeetsEnd(tris, cw, k, it, end, i)
  }

  /** The first n orbit points are real links (no boundary crossed yet). */
  ghost predicate RealFor(tris: seq<Triangle>, cw: bool, it: Link, n: nat)
    requires LinksInRange(tris) && Cursor(tris, it)
  {
    forall i :: 0 <= i < n ==> Orbit(tris, cw, it, i) != InvalidLink
  }

  /** The outcome of a first loop described by the orbit alone: the loop emits
      the items of successive orbit points; it returns true at the first point
      that meets `end` (emitting that point's item unless it compares before it
      visits), false at the first boundary crossing, and runs out of fuel only
      when the first `fuel` points are real links that all miss `end`. */
  ghost predicate ForwardOnOrbit(tris: seq<Triangle>, order: Order, cw: bool, k: nat, it: Link, end: Link, fuel: nat, f: Outcome)
    requires LinksInRange(tris) && Cursor(tris, it)
  {
    match f
    case Reached(s) =>
      OnOrbit(tris, cw, k, order != VisitTurnCheck, it, s) &&
      if order == TurnCheckVisit then
        |s| < fuel && MissesEnd(tris, cw, k, it, end, |s|) && MeetsEnd(tris, cw, k, it, end, |s|)
      else
        0 < |s| <= fuel && MissesEnd(tris, cw, k, it, end, |s| - 1) && MeetsEnd(tris, cw, k, it, end, |s| - 1)
    case Boundary(s) =>
      |s| <= fuel && OnOrbit(tris, cw, k, order != VisitTurnCheck, it, s) &&
      MissesEnd(tris, cw, k, it, end, |s|) && Orbit(tris, cw, it, |s|) == InvalidLink
    case Unfinished =>
      MissesEnd(tris, cw, k, it, end, fuel) && RealFor(tris, cw, it, fuel)
  }

  /** The end-seeded loop described by the orbit alone: it emits the items of
      successive orbit points of `end` up to the first boundary crossing, and
      runs out of fuel only when the first `fuel` points are real links. */
  ghost predicate BackfillOnOrbit(tris: seq<Triangle>, visitFirst: bool, k: nat, it: Link, fuel: nat, o: Option<seq<Link>>)
    requires LinksInRange(tris) && Cursor(tris, it)
  {
    match o
    case Some(s) =>
      |s| <= fuel && OnOrbit(tris, k == 2, k, !visitFirst, it, s) && Orbit(tris, k == 2, it, |s|) == InvalidLink
    case None => RealFor(tris, k == 2, it, fuel)
  }

  /** Past its first point, the orbit of a real link is the orbit of the next
      point, one step behind. */
  lemma OrbitStep(tris: seq<Triangle>, cw: bool, k: nat, turned: bool, it: Link, end: Link, i: nat)
    requires LinksInRange(tris) && Cursor(tris, it) && it != InvalidLink && 0 < i
    ensures Cursor(tris, Next(tris, cw, it))
    ensures Orbit(tris, cw, it, i) == Orbit(tris, cw, Next(tris, cw, it), i - 1)
    ensures OrbitItem(tris, cw, k, turned, it, i) == OrbitItem(tris, cw, k, turned, Next(tris, cw, it), i - 1)
    ensures MeetsEnd(tris, cw, k, it, end, i) == MeetsEnd(tris, cw, k, Next(tris, cw, it), end, i - 1)
  {
  }

  /** Putting the first point's item in front of what the loop emits from the
      next point. */
  lemma ConsOnOrbit(tris: seq<Triangle>, cw: bool, k: nat, turned: bool, it: Link, end: Link, s: seq<Link>, n: nat)
    requires LinksInRange(tris) && Cursor(tris, it) && it != InvalidLink
    ensures Cursor(tris, Next(tris, cw, it))
    ensures OnOrbit(tris, cw, k, turned, Next(tris, cw, it), s) ==>
      OnOrbit(tris, cw, k, turned, it, [OrbitItem(tris, cw, k, turned, it, 0)] + s)
    ensures !MeetsEnd(tris, cw, k, it, end, 0) && MissesEnd(tris, cw, k, Next(tris, cw, it), end, n) ==>
      MissesEnd(tris, cw, k, it, end, n + 1)
    ensures RealFor(tris, cw, Next(tris, cw, it), n) ==> RealFor(tris, cw, it, n + 1)
  {
    var nx := Next(tris, cw, it);
    forall i: nat | 0 < i
      ensures Orbit(tris, cw, it, i) == Orbit(tris, cw, nx, i - 1)
      ensures OrbitItem(tris, cw, k, turned, it, i) == OrbitItem(tris, cw, k, turned, nx, i - 1)
      ensures MeetsEnd(tris, cw, k, it, end, i) == MeetsEnd(tris, cw, k, nx, end, i - 1)
    {
      OrbitStep(tris, cw, k, turned, it, end, i);
    }
    if OnOrbit(tris, cw, k, turned, nx, s) {
      var t := [OrbitItem(tris, cw, k, turned, it, 0)] + s;
      forall i | 0 < i < |t|
        ensures Orbit(tris, cw, it, i) != InvalidLink && t[i] == OrbitItem(tris, cw, k, turned, it, i)
      {
        assert t[i] == s[i - 1];
      }
    }
  }

  /** One iteration of a first loop that does not meet `end` keeps the orbit
      description: the item of the first point goes in front of the rest. */
  lemma ConsForward(tris: seq<Triangle>, order: Order, cw: bool, k: nat, it: Link, end: Link, fuel: nat, rest: Outcome)
    requires LinksInRange(tris) && Cursor(tris, it) && it != InvalidLink && fuel > 0
    requires !MeetsEnd(tris, cw, k, it, end, 0)
    requires Cursor(tris, Next(tris, cw, it))
    requires ForwardOnOrbit(tris, order, cw, k, Next(tris, cw, it), end, fuel - 1, rest)
    ensures ForwardOnOrbit(tris, order, cw, k, it, end, fuel,
                           Prefix([OrbitItem(tris, cw, k, order != VisitTurnCheck, it, 0)], rest))
  {
    var turned := order != VisitTurnCheck;
    var nx := Next(tris, cw, it);
    match rest
    case Unfinished =>
      ConsOnOrbit(tris, cw, k, turned, it, end, [], fuel - 1);
    case Boundary(s) =>
      ConsOnOrbit(tris, cw, k, turned, it, end, s, |s|);
      OrbitStep(tris, cw, k, turned, it, end, |s| + 1);
    case Reached(s) =>
      var n := if order == TurnCheckVisit then |s| else |s| - 1;
      ConsOnOrbit(tris, cw, k, turned, it, end, s, n);
      OrbitStep(tris, cw, k, turned, it, end, n + 1);
  }

  /** The first loop follows the orbit of its cursor exactly. */
  lemma {:induction false} ForwardAlongOrbit(tris: seq<Triangle>, order: Order, cw: bool, k: nat, it: Link, end: Link, fuel: nat)
    requires LinksInRange(tris) && Cursor(tris, it) && k == (if cw then 2 else 1)
    ensures ForwardOnOrbit(tris, order, cw, k, it, end, fuel, Forward(tris, order, k, it, end, fuel))
    decreases fuel
  {
    if it != InvalidLink && fuel > 0 {
      var q := Turn(it, k);
      var nx := LinkAt(tris, q);
      assert nx == Next(tris, cw, it);
      if q != end {
        ForwardAlongOrbit(tris, order, cw, k, nx, end, fuel - 1);
        ConsForward(tris, order, cw, k, it, end, fuel, Forward(tris, order, k, nx, end, fuel - 1));
      }
    }
  }

  /** The end-seeded loop follows the orbit of `end` exactly. */
  lemma {:induction false} BackfillAlongOrbit(tris: seq<Triangle>, visitFirst: bool, k: nat, it: Link, fuel: nat)
    requires LinksInRange(tris) && Cursor(tris, it) && (k == 1 || k == 2)
    ensures BackfillOnOrbit(tris, visitFirst, k, it, fuel, Backfill(tris, visitFirst, k, it, fuel))
    decreases fuel
  {
    if it != InvalidLink && fuel > 0 {
      var nx := LinkAt(tris, Turn(it, k));
      assert nx == Next(tris, k == 2, it);
      BackfillAlongOrbit(tris, visitFirst, k, nx, fuel - 1);
      var rest := Backfill(tris, visitFirst, k, nx, fuel - 1);
      var n := if rest.Some? then |rest.value| else fuel - 1;
      ConsOnOrbit(tris, k == 2, k, !visitFirst, it, it, if rest.Some? then rest.value else [], n);
      if rest.Some? {
        OrbitStep(tris, k == 2, k, !visitFirst, it, it, n + 1);
      }
    }
  }

  /** Following the orbit for i steps and then j more is following it for
      i + j steps. */
  lemma {:induction false} OrbitAdd(tris: seq<Triangle>, cw: bool, l: Link, i: nat, j: nat)
    requires LinksInRange(tris) && Cursor(tris, l)
    ensures Orbit(tris, cw, l, i + j) == Orbit(tris, cw, Orbit(tris, cw, l, i), j)
    decreases i
  {
    if i > 0 && l != InvalidLink {
      OrbitAdd(tris, cw, Next(tris, cw, l), i - 1, j);
    }
  }

  /** Once the orbit returns to a point it repeats from there on. */
  lemma OrbitRecurs(tris: seq<Triangle>, cw: bool, l: Link, i: nat, d: nat, m: nat)
    requires LinksInRange(tris) && Cursor(tris, l) && i <= m
    requires Orbit(tris, cw, l, i) == Orbit(tris, cw, l, i + d)
    ensures Orbit(tris, cw, l, m + d) == Orbit(tris, cw, l, m)
  {
    OrbitAdd(tris, cw, l, i + d, m - i);
    OrbitAdd(tris, cw, l, i, m - i);
    assert m + d == (i + d) + (m - i);
  }

  /** Every orbit point of a real link or the sentinel is itself one. */
  lemma OrbitReal(tris: seq<Triangle>, cw: bool, l: Link, i: nat)
    requires LinksInRange(tris) && (l == InvalidLink || IsHalfEdge(|tris|, l))
    ensures Orbit(tris, cw, l, i) == InvalidLink || IsHalfEdge(|tris|, Orbit(tris, cw, l, i))
  {
  }

  /** Two items of a loop are equal only if their orbit points are. */
  lemma ItemsDiffer(tris: seq<Triangle>, cw: bool, k: nat, turned: bool, l: Link, i: nat, j: nat)
    requires LinksInRange(tris) && (l == InvalidLink || IsHalfEdge(|tris|, l))
    requires Orbit(tris, cw, l, i) != InvalidLink && Orbit(tris, cw, l, j) != InvalidLink
    requires OrbitItem(tris, cw, k, turned, l, i) == OrbitItem(tris, cw, k, turned, l, j)
    ensures Orbit(tris, cw, l, i) == Orbit(tris, cw, l, j)
  {
    OrbitReal(tris, cw, l, i);
    OrbitReal(tris, cw, l, j);
  }

  /** A first loop that returns emits no link twice: a repeated orbit point
      would make the orbit cycle before it meets `end` or a boundary. */
  lemma ForwardDistinct(tris: seq<Triangle>, order: Order, cw: bool, k: nat, it: Link, end: Link, fuel: nat)
    requires LinksInRange(tris) && (it == InvalidLink || IsHalfEdge(|tris|, it)) && k == (if cw then 2 else 1)
    ensures Cursor(tris, it)
    ensures !Forward(tris, order, k, it, end, fuel).Unfinished? ==>
      forall i, j :: 0 <= i < j < |Forward(tris, order, k, it, end, fuel).visited| ==>
        Forward(tris, order, k, it, end, fuel).visited[i] != Forward(tris, order, k, it, end, fuel).visited[j]
  {
    ForwardAlongOrbit(tris, order, cw, k, it, end, fuel);
    var f := Forward(tris, order, k, it, end, fuel);
    forall i, j | !f.Unfinished? && 0 <= i < j < |f.visited|
      ensures f.visited[i] != f.visited[j]
    {
      OrbitItemsDiffer(tris, order, cw, k, it, end, fuel, f, i, j);
    }
  }

  /** Two given items of a finished outcome that follows the orbit differ. */
  lemma OrbitItemsDiffer(tris: seq<Triangle>, order: Order, cw: bool, k: nat, it: Link, end: Link, fuel: nat, f: Outcome, i: nat, j: nat)
    requires LinksInRange(tris) && (it == InvalidLink || IsHalfEdge(|tris|, it)) && k == (if cw then 2 else 1)
    requires ForwardOnOrbit(tris, order, cw, k, it, end, fuel, f)
    requires !f.Unfinished? && i < j < |f.visited|
    ensures f.visited[i] != f.visited[j]
  {
    var turned := order != VisitTurnCheck;
    if f.visited[i] == f.visited[j] {
      ItemsDiffer(tris, cw, k, turned, it, i, j);
      var n := if f.Reached? && order != TurnCheckVisit then |f.visited| - 1 else |f.visited|;
      OrbitRecurs(tris, cw, it, i, j - i, n - (j - i));
      assert Orbit(tris, cw, it, n - (j - i)) == Orbit(tris, cw, it, n);
      if f.Reached? {
        assert MeetsEnd(tris, cw, k, it, end, n - (j - i));
      }
      assert false;
    }
  }

  /** The end-seeded loop emits no link twice either. */
  lemma BackfillDistinct(tris: seq<Triangle>, visitFirst: bool, k: nat, it: Link, fuel: nat)
    requires LinksInRange(tris) && (it == InvalidLink || IsHalfEdge(|tris|, it)) && (k == 1 || k == 2)
    ensures Cursor(tris, it)
    ensures Backfill(tris, visitFirst, k, it, fuel).Some? ==>
      forall i, j :: 0 <= i < j < |Backfill(tris, visitFirst, k, it, fuel).value| ==>
        Backfill(tris, visitFirst, k, it, fuel).value[i] != Backfill(tris, visitFirst, k, it, fuel).value[j]
  {
    BackfillAlongOrbit(tris, visitFirst, k, it, fuel);
    var o := Backfill(tris, visitFirst, k, it, fuel);
    forall i, j | o.Some? && 0 <= i < j < |o.value|
      ensures o.value[i] != o.value[j]
    {
      if o.value[i] == o.value[j] {
        ItemsDiffer(tris, k == 2, k, !visitFirst, it, i, j);
        var n := |o.value|;
        OrbitRecurs(tris, k == 2, it, i, j - i, n - (j - i));
        assert false;
      }
    }
  }

  // ---------------------------------------------------------------------------
  // The sentinel as an argument.

  /** The comparison with `end` is made after the side is reduced mod 3, so
      it never matches InvalidLink (side 3). */
  lemma {:induction false} ForwardMissesInvalid(tris: seq<Triangle>, order: Order, k: nat, it: Link, fuel: nat)
    requires LinksInRange(tris) && Cursor(tris, it)
    ensures !Forward(tris, order, k, it, InvalidLink, fuel).Reached?
    decreases fuel
  {
    if it != InvalidLink && fuel > 0 {
      ForwardMissesInvalid(tris, order, k, LinkAt(tris, Turn(it, k)), fuel - 1);
    }
  }

  /** With `end` the sentinel no walk reports a connection. */
  lemma InvalidEndNeverConnected(tris: seq<Triangle>, start: Link, fuel: nat)
    requires LinksInRange(tris) && Cursor(tris, start)
    ensures TrianglesClockwise(tris, start, InvalidLink, fuel).Some? ==> !TrianglesClockwise(tris, start, InvalidLink, fuel).value.connected
    ensures TrianglesAnticlockwise(tris, start, InvalidLink, fuel).Some? ==> !TrianglesAnticlockwise(tris, start, InvalidLink, fuel).value.connected
    ensures EdgesClockwise(tris, start, InvalidLink, fuel).Some? ==> !EdgesClockwise(tris, start, InvalidLink, fuel).value.connected
    ensures EdgesAnticlockwise(tris, start, InvalidLink, fuel).Some? ==> !EdgesAnticlockwise(tris, start, InvalidLink, fuel).value.connected
  {
    ForwardMissesInvalid(tris, VisitTurnCheck, 2, start, fuel);
    ForwardMissesInvalid(tris, TurnVisitCheck, 1, start, fuel);
    ForwardMissesInvalid(tris, TurnCheckVisit, 2, start, fuel);
    ForwardMissesInvalid(tris, TurnCheckVisit, 1, start, fuel);
  }

  /** With both arguments the sentinel nothing is visited. */
  lemma BothInvalidVisitNothing(tris: seq<Triangle>, fuel: nat)
    requires LinksInRange(tris)
    ensures TrianglesClockwise(tris, InvalidLink, InvalidLink, fuel) == Some(Walk(false, []))
    ensures TrianglesAnticlockwise(tris, InvalidLink, InvalidLink, fuel) == Some(Walk(false, []))
    ensures EdgesClockwise(tris, InvalidLink, InvalidLink, fuel) == Some(Walk(false, []))
    ensures EdgesAnticlockwise(tris, InvalidLink, InvalidLink, fuel) == Some(Walk(false, []))
  {
    var e: seq<Link> := [];
    assert e + e == e;
  }

  /** A finished walk emits x first when its seed is x, or, without a seed,
      when its first phase emits x first. */
  lemma CombineFirst(start: Link, seeded: bool, first: Outcome, second: Option<seq<Link>>, x: Link)
    requires Combine(if seeded then Seed(start, first) else first, second).Some?
    requires seeded ==> start != InvalidLink && x == start
    requires !seeded && !first.Unfinished? ==> |first.visited| > 0 && first.visited[0] == x
    ensures |Combine(if seeded then Seed(start, first) else first, second).value.visited| > 0
    ensures Combine(if seeded then Seed(start, first) else first, second).value.visited[0] == x
  {
    assert !first.Unfinished?;
  }

  /** A first phase entered from a real link emits something first: the
      cursor itself, or the cursor turned by k. */
  lemma ForwardFirst(tris: seq<Triangle>, order: Order, k: nat, it: Link, end: Link, fuel: nat)
    requires LinksInRange(tris) && Cursor(tris, it)
    requires it != InvalidLink && fuel > 0 && order != TurnCheckVisit
    ensures !Forward(tris, order, k, it, end, fuel).Unfinished? ==>
      |Forward(tris, order, k, it, end, fuel).visited| > 0 &&
      Forward(tris, order, k, it, end, fuel).visited[0] == (if order == VisitTurnCheck then it else Turn(it, k))
  {
  }

  /** What the visitor sees first when `start` is a real link: `start` itself,
      except for visitTrianglesAnticlockwise, which turns first. */
  lemma SeedVisitedFirst(tris: seq<Triangle>, start: Link, end: Link, fuel: nat)
    requires LinksInRange(tris) && Cursor(tris, start) && Cursor(tris, end)
    requires start != InvalidLink && fuel > 0
    ensures TrianglesClockwise(tris, start, end, fuel).Some? ==>
      |TrianglesClockwise(tris, start, end, fuel).value.visited| > 0 &&
      TrianglesClockwise(tris, start, end, fuel).value.visited[0] == start
    ensures TrianglesAnticlockwise(tris, start, end, fuel).Some? ==>
      |TrianglesAnticlockwise(tris, start, end, fuel).value.visited| > 0 &&
      TrianglesAnticlockwise(tris, start, end, fuel).value.visited[0] == Link(start.index, (start.side + 1) % 3)
    ensures EdgesClockwise(tris, start, end, fuel).Some? ==>
      |EdgesClockwise(tris, start, end, fuel).value.visited| > 0 &&
      EdgesClockwise(tris, start, end, fuel).value.visited[0] == start
    ensures EdgesAnticlockwise(tris, start, end, fuel).Some? ==>
      |EdgesAnticlockwise(tris, start, end, fuel).value.visited| > 0 &&
      EdgesAnticlockwise(tris, start, end, fuel).value.visited[0] == start
  {
    var f1, b1 := Forward(tris, VisitTurnCheck, 2, start, end, fuel), Backfill(tris, false, 1, end, fuel);
    if Combine(f1, b1).Some? {
      ForwardFirst(tris, VisitTurnCheck, 2, start, end, fuel);
      CombineFirst(start, false, f1, b1, start);
    }
    var f2, b2 := Forward(tris, TurnVisitCheck, 1, start, end, fuel), Backfill(tris, true, 2, end, fuel);
    if Combine(f2, b2).Some? {
      ForwardFirst(tris, TurnVisitCheck, 1, start, end, fuel);
      CombineFirst(start, false, f2, b2, Turn(start, 1));
    }
    var f3, b3 := Forward(tris, TurnCheckVisit, 2, start, end, fuel), Backfill(tris, false, 1, end, fuel);
    if Combine(Seed(start, f3), b3).Some? {
      CombineFirst(start, true, f3, b3, start);
    }
    var f4, b4 := Forward(tris, TurnCheckVisit, 1, start, end, fuel), Backfill(tris, false, 2, end, fuel);
    if Combine(Seed(start, f4), b4).Some? {
      CombineFirst(start, true, f4, b4, start);
    }
  }

  // ---------------------------------------------------------------------------
  // Triangle walks against edge walks.

  function TurnAll(s: seq<Link>, k: nat): (r: seq<Link>)
    ensures |r| == |s| && forall i :: 0 <= i < |s| ==> r[i] == Turn(s[i], k)
  {
    seq(|s|, i requires 0 <= i < |s| => Turn(s[i], k))
  }

  function DropLast(s: seq<Link>): seq<Link>
  {
    if s == [] then [] else s[..|s| - 1]
  }

  /** The outcomes a, b, c of the first-phase loop in the orders VisitTurnCheck,
      TurnVisitCheck and TurnCheckVisit end the same way; b emits a's links
      turned by k, and c emits b's links except the last on reaching `end`. */
  ghost predicate OrdersAgree(a: Outcome, b: Outcome, c: Outcome, k: nat, it: Link)
  {
    && (a.Reached? <==> b.Reached?) && (a.Reached? <==> c.Reached?)
    && (a.Boundary? <==> b.Boundary?) && (a.Boundary? <==> c.Boundary?)
    && (!a.Unfinished? ==> b.visited == TurnAll(a.visited, k))
    && (a.Reached? ==> |a.visited| > 0 && c.visited == DropLast(b.visited))
    && (a.Boundary? ==> c.visited == b.visited && (it != InvalidLink ==> |a.visited| > 0))
  }

  lemma {:induction false} ForwardOrders(tris: seq<Triangle>, k: nat, it: Link, end: Link, fuel: nat)
    requires LinksInRange(tris) && Cursor(tris, it)
    ensures OrdersAgree(Forward(tris, VisitTurnCheck, k, it, end, fuel), Forward(tris, TurnVisitCheck, k, it, end, fuel),
                        Forward(tris, TurnCheckVisit, k, it, end, fuel), k, it)
    decreases fuel
  {
    if it != InvalidLink && fuel > 0 {
      var q := Turn(it, k);
      if q != end {
        var nx := LinkAt(tris, q);
        ForwardOrders(tris, k, nx, end, fuel - 1);
        var a := Forward(tris, VisitTurnCheck, k, nx, end, fuel - 1);
        var b := Forward(tris, TurnVisitCheck, k, nx, end, fuel - 1);
        if !a.Unfinished? {
          assert TurnAll([it] + a.visited, k) == [q] + TurnAll(a.visited, k);
        }
        if a.Reached? {
          assert DropLast([q] + b.visited) == [q] + DropLast(b.visited);
        }
      }
    }
  }

  /** Visiting before or after the turn in the end-seeded loop. */
  lemma {:induction false} BackfillOrders(tris: seq<Triangle>, k: nat, it: Link, fuel: nat)
    requires LinksInRange(tris) && Cursor(tris, it)
    ensures Backfill(tris, true, k, it, fuel).Some? <==> Backfill(tris, false, k, it, fuel).Some?
    ensures Backfill(tris, true, k, it, fuel).Some? ==>
      Backfill(tris, false, k, it, fuel).value == TurnAll(Backfill(tris, true, k, it, fuel).value, k)
    decreases fuel
  {
    if it != InvalidLink && fuel > 0 {
      var nx := LinkAt(tris, Turn(it, k));
      BackfillOrders(tris, k, nx, fuel - 1);
      var r := Backfill(tris, true, k, nx, fuel - 1);
      if r.Some? {
        assert TurnAll([it] + r.value, k) == [Turn(it, k)] + TurnAll(r.value, k);
      }
    }
  }

  /** visitEdgesClockwise and visitTrianglesClockwise return in the same cases
      with the same result; the edge walk sees `start` and then the turned
      positions of the triangle walk's first loop (all but the last when `end`
      was met), and its end-seeded loop is the same loop. */
  lemma EdgesClockwiseFollowTriangles(tris: seq<Triangle>, start: Link, end: Link, fuel: nat)
    requires LinksInRange(tris) && Cursor(tris, start) && Cursor(tris, end)
    ensures var t := TrianglesClockwise(tris, start, end, fuel);
      var e := EdgesClockwise(tris, start, end, fuel);
      && (t.Some? <==> e.Some?)
      && (t.Some? ==> e.value.connected == t.value.connected)
      && (t.Some? && start == InvalidLink ==> e.value.visited == t.value.visited)
      && (t.Some? && start != InvalidLink && t.value.connected ==>
            e.value.visited == [start] + TurnAll(DropLast(t.value.visited), 2))
      && (t.Some? && start != InvalidLink && !t.value.connected ==>
            0 < |Forward(tris, VisitTurnCheck, 2, start, end, fuel).visited| <= |t.value.visited| &&
            e.value.visited == [start] + TurnAll(t.value.visited[..|Forward(tris, VisitTurnCheck, 2, start, end, fuel).visited|], 2)
                                       + t.value.visited[|Forward(tris, VisitTurnCheck, 2, start, end, fuel).visited|..])
  {
    ForwardOrders(tris, 2, start, end, fuel);
    var a := Forward(tris, VisitTurnCheck, 2, start, end, fuel);
    var back := Backfill(tris, false, 1, end, fuel);
    if a.Boundary? && back.Some? && start != InvalidLink {
      var tv := a.visited + back.value;
      var p := |a.visited|;
      assert tv[..p] == a.visited && tv[p..] == back.value;
    }
    if a.Reached? && start != InvalidLink {
      assert TurnAll(DropLast(a.visited), 2) == DropLast(TurnAll(a.visited, 2));
    }
  }

  /** The same for the anticlockwise pair: the edge walk sees `start` and then
      what the triangle walk's first loop sees (all but the last when `end` was
      met); its end-seeded loop sees the triangle walk's positions turned by 2. */
  lemma EdgesAnticlockwiseFollowTriangles(tris: seq<Triangle>, start: Link, end: Link, fuel: nat)
    requires LinksInRange(tris) && Cursor(tris, start) && Cursor(tris, end)
    ensures var t := TrianglesAnticlockwise(tris, start, end, fuel);
      var e := EdgesAnticlockwise(tris, start, end, fuel);
      && (t.Some? <==> e.Some?)
      && (t.Some? ==> e.value.connected == t.value.connected)
      && (t.Some? && start == InvalidLink ==> e.value.visited == TurnAll(t.value.visited, 2))
      && (t.Some? && start != InvalidLink && t.value.connected ==>
            e.value.visited == [start] + DropLast(t.value.visited))
      && (t.Some? && start != InvalidLink && !t.value.connected ==>
            0 < |Forward(tris, TurnVisitCheck, 1, start, end, fuel).visited| <= |t.value.visited| &&
            e.value.visited == [start] + t.value.visited[..|Forward(tris, TurnVisitCheck, 1, start, end, fuel).visited|]
                                       + TurnAll(t.value.visited[|Forward(tris, TurnVisitCheck, 1, start, end, fuel).visited|..], 2))
  {
    ForwardOrders(tris, 1, start, end, fuel);
    BackfillOrders(tris, 2, end, fuel);
    var b := Forward(tris, TurnVisitCheck, 1, start, end, fuel);
    var back := Backfill(tris, true, 2, end, fuel);
    if b.Boundary? && back.Some? {
      var tv := b.visited + back.value;
      var p := |b.visited|;
      assert tv[..p] == b.visited && tv[p..] == back.value;
      if start == InvalidLink {
        assert b.visited == [];
        assert tv == back.value;
      }
    }
  }

  // ---------------------------------------------------------------------------
  // Clockwise and anticlockwise walks mirror each other.

  function Reverse(s: seq<Link>): (r: seq<Link>)
    ensures |r| == |s| && forall i :: 0 <= i < |s| ==> r[i] == s[|s| - 1 - i]
  {
    seq(|s|, i requires 0 <= i < |s| => s[|s| - 1 - i])
  }

  /** The other half-edge of the same edge (InvalidLink on a boundary and for
      anything that is not a half-edge). */
  function Twin(tris: seq<Triangle>, l: Link): Link
  {
    if IsHalfEdge(|tris|, l) then LinkAt(tris, l) else InvalidLink
  }

  function Twins(tris: seq<Triangle>, s: seq<Link>): (r: seq<Link>)
    ensures |r| == |s| && forall i :: 0 <= i < |s| ==> r[i] == Twin(tris, s[i])
  {
    seq(|s|, i requires 0 <= i < |s| => Twin(tris, s[i]))
  }

  /** s is a run of corners of a clockwise triangle walk: real half-edges,
      each the clockwise neighbour of the one before, none returning to the
      first. */
  ghost predicate ClockwiseRun(tris: seq<Triangle>, s: seq<Link>)
  {
    && (forall i :: 0 <= i < |s| ==> IsHalfEdge(|tris|, s[i]))
    && (forall i :: 0 <= i < |s| - 1 ==> s[i + 1] == LinkAt(tris, Turn(s[i], 2)))
    && (forall i :: 0 < i < |s| ==> s[i] != s[0])
  }

  /** t is a run of corners of an anticlockwise triangle walk: real
      half-edges, the half-edge ending at each one's corner being the twin of
      the one before, none of those half-edges returning to the first. */
  ghost predicate AnticlockwiseRun(tris: seq<Triangle>, t: seq<Link>)
  {
    && (forall i :: 0 <= i < |t| ==> IsHalfEdge(|tris|, t[i]))
    && (forall i :: 0 < i < |t| ==> Turn(t[i], 2) == LinkAt(tris, t[i - 1]))
    && (forall i :: 0 < i < |t| ==> Turn(t[i], 2) != Turn(t[0], 2))
  }

  lemma ReverseSnoc(s: seq<Link>, j: nat)
    requires j < |s|
    ensures Reverse(s[..j + 1]) == [s[j]] + Reverse(s[..j])
  {
  }

  /** A clockwise run read backwards is what the anticlockwise triangle loop
      emits from the half-edge ending at its last corner towards its first. */
  lemma {:induction false} ClockwiseRunBackwards(tris: seq<Triangle>, s: seq<Link>, j: nat, fuel: nat)
    requires WellFormed(tris) && ClockwiseRun(tris, s) && j < |s| && j < fuel
    ensures LinksInRange(tris) && Cursor(tris, Turn(s[j], 2))
    ensures Forward(tris, TurnVisitCheck, 1, Turn(s[j], 2), s[0], fuel) == Reached(Reverse(s[..j + 1]))
    decreases j
  {
    WellFormedInRange(tris);
    var x := Turn(s[j], 2);
    assert Turn(x, 1) == s[j];
    if j > 0 {
      assert s[j] != s[0];
      assert s[j] == LinkAt(tris, Turn(s[j - 1], 2));
      assert LinkAt(tris, s[j]) == Turn(s[j - 1], 2);
      ForwardStep(tris, TurnVisitCheck, 1, x, s[0], fuel);
      ClockwiseRunBackwards(tris, s, j - 1, fuel - 1);
      ReverseSnoc(s, j);
      assert Visits(true, 1, [x]) == [s[j]];
    }
  }

  /** An anticlockwise run read backwards is what the clockwise triangle loop
      emits from its last corner towards the half-edge ending at its first. */
  lemma {:induction false} AnticlockwiseRunBackwards(tris: seq<Triangle>, t: seq<Link>, j: nat, fuel: nat)
    requires WellFormed(tris) && AnticlockwiseRun(tris, t) && j < |t| && j < fuel
    ensures LinksInRange(tris) && Cursor(tris, t[j])
    ensures Forward(tris, VisitTurnCheck, 2, t[j], Turn(t[0], 2), fuel) == Reached(Reverse(t[..j + 1]))
    decreases j
  {
    WellFormedInRange(tris);
    if j > 0 {
      assert Turn(t[j], 2) != Turn(t[0], 2);
      assert LinkAt(tris, Turn(t[j], 2)) == t[j - 1];
      ForwardStep(tris, VisitTurnCheck, 2, t[j], Turn(t[0], 2), fuel);
      AnticlockwiseRunBackwards(tris, t, j - 1, fuel - 1);
      ReverseSnoc(t, j);
      assert Visits(false, 2, [t[j]]) == [t[j]];
    }
  }

  /** What visitTrianglesClockwise emits when it returns true is a clockwise
      run ending at the corner whose turned side is `end`. */
  lemma ClockwiseWalkRun(tris: seq<Triangle>, b: Link, a: Link, fuel: nat)
    requires WellFormed(tris) && IsHalfEdge(|tris|, b) && Cursor(tris, a)
    ensures LinksInRange(tris)
    ensures Forward(tris, VisitTurnCheck, 2, b, a, fuel).Reached? ==>
      0 < |Forward(tris, VisitTurnCheck, 2, b, a, fuel).visited| <= fuel &&
      ClockwiseRun(tris, Forward(tris, VisitTurnCheck, 2, b, a, fuel).visited) &&
      Forward(tris, VisitTurnCheck, 2, b, a, fuel).visited[0] == b &&
      Turn(Forward(tris, VisitTurnCheck, 2, b, a, fuel).visited[|Forward(tris, VisitTurnCheck, 2, b, a, fuel).visited| - 1], 2) == a
  {
    WellFormedInRange(tris);
    ForwardAlongOrbit(tris, VisitTurnCheck, true, 2, b, a, fuel);
    ForwardDistinct(tris, VisitTurnCheck, true, 2, b, a, fuel);
    var f := Forward(tris, VisitTurnCheck, 2, b, a, fuel);
    if f.Reached? {
      ClockwiseOrbitRun(tris, b, f.visited);
    }
  }

  /** Distinct items of the clockwise orbit of b, seen before the turn, form a
      clockwise run from b. */
  lemma ClockwiseOrbitRun(tris: seq<Triangle>, b: Link, s: seq<Link>)
    requires LinksInRange(tris) && IsHalfEdge(|tris|, b)
    requires OnOrbit(tris, true, 2, false, b, s)
    requires forall i, j :: 0 <= i < j < |s| ==> s[i] != s[j]
    ensures ClockwiseRun(tris, s)
    ensures 0 < |s| ==> s[0] == b
  {
    forall i | 0 <= i < |s|
      ensures IsHalfEdge(|tris|, s[i])
    {
      OrbitReal(tris, true, b, i);
    }
    forall i | 0 <= i < |s| - 1
      ensures s[i + 1] == LinkAt(tris, Turn(s[i], 2))
    {
      OrbitAdd(tris, true, b, i, 1);
      assert s[i] == Orbit(tris, true, b, i);
    }
    if 0 < |s| {
      assert s[0] == Orbit(tris, true, b, 0);
    }
  }

  /** What visitTrianglesAnticlockwise emits when it returns true is an
      anticlockwise run from the corner of `start` to `end`. */
  lemma AnticlockwiseWalkRun(tris: seq<Triangle>, a: Link, b: Link, fuel: nat)
    requires WellFormed(tris) && IsHalfEdge(|tris|, a) && Cursor(tris, b)
    ensures LinksInRange(tris)
    ensures Forward(tris, TurnVisitCheck, 1, a, b, fuel).Reached? ==>
      0 < |Forward(tris, TurnVisitCheck, 1, a, b, fuel).visited| <= fuel &&
      AnticlockwiseRun(tris, Forward(tris, TurnVisitCheck, 1, a, b, fuel).visited) &&
      Turn(Forward(tris, TurnVisitCheck, 1, a, b, fuel).visited[0], 2) == a &&
      Forward(tris, TurnVisitCheck, 1, a, b, fuel).visited[|Forward(tris, TurnVisitCheck, 1, a, b, fuel).visited| - 1] == b
  {
    WellFormedInRange(tris);
    ForwardAlongOrbit(tris, TurnVisitCheck, false, 1, a, b, fuel);
    ForwardDistinct(tris, TurnVisitCheck, false, 1, a, b, fuel);
    var f := Forward(tris, TurnVisitCheck, 1, a, b, fuel);
    if f.Reached? {
      AnticlockwiseOrbitRun(tris, a, f.visited);
    }
  }

  /** Distinct items of the anticlockwise orbit of a, seen after the turn,
      form an anticlockwise run from the corner of a. */
  lemma AnticlockwiseOrbitRun(tris: seq<Triangle>, a: Link, t: seq<Link>)
    requires LinksInRange(tris) && IsHalfEdge(|tris|, a)
    requires OnOrbit(tris, false, 1, true, a, t)
    requires forall i, j :: 0 <= i < j < |t| ==> t[i] != t[j]
    ensures AnticlockwiseRun(tris, t)
    ensures 0 < |t| ==> Turn(t[0], 2) == a
  {
    forall i | 0 <= i < |t|
      ensures IsHalfEdge(|tris|, t[i]) && Turn(t[i], 2) == Orbit(tris, false, a, i)
    {
      OrbitReal(tris, false, a, i);
    }
    forall i | 0 < i < |t|
      ensures Turn(t[i], 2) == LinkAt(tris, t[i - 1])
    {
      OrbitAdd(tris, false, a, i - 1, 1);
    }
    forall i | 0 < i < |t|
      ensures Turn(t[i], 2) != Turn(t[0], 2)
    {
      assert t[i] != t[0];
    }
  }

  /** The triangle walks are mirror images: when one returns true, the other
      walk between the same two links, in the other direction, returns true
      and emits the same links in reverse order. */
  ghost predicate Mirrored(x: Option<Walk>, y: Option<Walk>)
  {
    x.Some? && x.value.connected ==> y == Some(Walk(true, Reverse(x.value.visited)))
  }

  lemma TrianglesMirror(tris: seq<Triangle>, a: Link, b: Link, fuel: nat)
    requires WellFormed(tris) && IsHalfEdge(|tris|, a) && IsHalfEdge(|tris|, b)
    ensures LinksInRange(tris)
    ensures Mirrored(TrianglesClockwise(tris, b, a, fuel), TrianglesAnticlockwise(tris, a, b, fuel))
    ensures Mirrored(TrianglesAnticlockwise(tris, a, b, fuel), TrianglesClockwise(tris, b, a, fuel))
  {
    WellFormedInRange(tris);
    ClockwiseMirrored(tris, a, b, fuel);
    AnticlockwiseMirrored(tris, a, b, fuel);
  }

  lemma ClockwiseMirrored(tris: seq<Triangle>, a: Link, b: Link, fuel: nat)
    requires WellFormed(tris) && IsHalfEdge(|tris|, a) && IsHalfEdge(|tris|, b)
    ensures LinksInRange(tris)
    ensures Mirrored(TrianglesClockwise(tris, b, a, fuel), TrianglesAnticlockwise(tris, a, b, fuel))
  {
    WellFormedInRange(tris);
    var f := Forward(tris, VisitTurnCheck, 2, b, a, fuel);
    if f.Reached? {
      var s := f.visited;
      assert Forward(tris, TurnVisitCheck, 1, a, b, fuel) == Reached(Reverse(s)) by {
        ClockwiseWalkRun(tris, b, a, fuel);
        ClockwiseRunBackwards(tris, s, |s| - 1, fuel);
        assert s[..|s|] == s;
      }
    }
  }

  lemma AnticlockwiseMirrored(tris: seq<Triangle>, a: Link, b: Link, fuel: nat)
    requires WellFormed(tris) && IsHalfEdge(|tris|, a) && IsHalfEdge(|tris|, b)
    ensures LinksInRange(tris)
    ensures Mirrored(TrianglesAnticlockwise(tris, a, b, fuel), TrianglesClockwise(tris, b, a, fuel))
  {
    WellFormedInRange(tris);
    var g := Forward(tris, TurnVisitCheck, 1, a, b, fuel);
    if g.Reached? {
      var t := g.visited;
      assert Forward(tris, VisitTurnCheck, 2, b, a, fuel) == Reached(Reverse(t)) by {
        AnticlockwiseWalkRun(tris, a, b, fuel);
        AnticlockwiseRunBackwards(tris, t, |t| - 1, fuel);
        assert t[..|t|] == t;
      }
    }
  }

  /** The edge walks are not exact mirrors, since each emits its own `start`
      and never its `end`: when one returns true, the other returns true, emits
      its own start first and then the edges the first one crossed after its
      start, in reverse order, each as its twin half-edge. */
  ghost predicate EdgesMirrored(tris: seq<Triangle>, x: Option<Walk>, y: Option<Walk>, ystart: Link)
  {
    x.Some? && x.value.connected && |x.value.visited| > 0 ==>
      y == Some(Walk(true, [ystart] + Reverse(Twins(tris, x.value.visited[1..]))))
  }

  /** The edges a clockwise run crosses after its first corner, read
      backwards as twins, are the run's corners backwards without its first. */
  lemma ClockwiseRunEdges(tris: seq<Triangle>, s: seq<Link>)
    requires ClockwiseRun(tris, s) && |s| > 0
    ensures DropLast(Reverse(s)) == Reverse(Twins(tris, TurnAll(DropLast(s), 2)))
  {
    var n := |s| - 1;
    forall i | 0 <= i < n
      ensures DropLast(Reverse(s))[i] == Reverse(Twins(tris, TurnAll(DropLast(s), 2)))[i]
    {
      assert s[(n - i - 1) + 1] == LinkAt(tris, Turn(s[n - i - 1], 2));
    }
  }

  /** The same for an anticlockwise run, whose crossed edges are the
      half-edges ending at its corners. */
  lemma AnticlockwiseRunEdges(tris: seq<Triangle>, t: seq<Link>)
    requires AnticlockwiseRun(tris, t) && |t| > 0
    ensures TurnAll(DropLast(Reverse(t)), 2) == Reverse(Twins(tris, DropLast(t)))
  {
    var m := |t| - 1;
    forall i | 0 <= i < m
      ensures TurnAll(DropLast(Reverse(t)), 2)[i] == Reverse(Twins(tris, DropLast(t)))[i]
    {
      assert Turn(t[m - i], 2) == LinkAt(tris, t[m - i - 1]);
    }
  }

  lemma EdgesClockwiseMirror(tris: seq<Triangle>, a: Link, b: Link, fuel: nat)
    requires WellFormed(tris) && IsHalfEdge(|tris|, a) && IsHalfEdge(|tris|, b)
    ensures LinksInRange(tris)
    ensures EdgesMirrored(tris, EdgesClockwise(tris, b, a, fuel), EdgesAnticlockwise(tris, a, b, fuel), a)
  {
    WellFormedInRange(tris);
    TrianglesMirror(tris, a, b, fuel);
    EdgesClockwiseFollowTriangles(tris, b, a, fuel);
    EdgesAnticlockwiseFollowTriangles(tris, a, b, fuel);
    ClockwiseWalkRun(tris, b, a, fuel);
    var f := Forward(tris, VisitTurnCheck, 2, b, a, fuel);
    if f.Reached? {
      ClockwiseRunEdges(tris, f.visited);
      assert ([b] + TurnAll(DropLast(f.visited), 2))[1..] == TurnAll(DropLast(f.visited), 2);
    }
  }

  lemma EdgesAnticlockwiseMirror(tris: seq<Triangle>, a: Link, b: Link, fuel: nat)
    requires WellFormed(tris) && IsHalfEdge(|tris|, a) && IsHalfEdge(|tris|, b)
    ensures LinksInRange(tris)
    ensures EdgesMirrored(tris, EdgesAnticlockwise(tris, a, b, fuel), EdgesClockwise(tris, b, a, fuel), b)
  {
    WellFormedInRange(tris);
    TrianglesMirror(tris, a, b, fuel);
    EdgesClockwiseFollowTriangles(tris, b, a, fuel);
    EdgesAnticlockwiseFollowTriangles(tris, a, b, fuel);
    AnticlockwiseWalkRun(tris, a, b, fuel);
    var g := Forward(tris, TurnVisitCheck, 1, a, b, fuel);
    if g.Reached? {
      AnticlockwiseRunEdges(tris, g.visited);
      assert ([a] + DropLast(g.visited))[1..] == DropLast(g.visited);
    }
  }

  // ---------------------------------------------------------------------------
  // Walks stay around one vertex.

  /** `l` touches vertex v as a corner (`vertex[side] == v`) or as a half-edge
      ending there. */
  ghost predicate AtVertex(tris: seq<Triangle>, v: nat, corner: bool, l: Link)
  {
    if corner then CornerAt(tris, v, l) else EndsAt(tris, v, l)
  }

  /** One step of a walk around v: a clockwise turn from a corner gives the
      half-edge ending at v, an anticlockwise turn from a half-edge ending at v
      gives the corner at v, and the neighbour across is of the cursor's kind. */
  lemma StepAroundVertex(tris: seq<Triangle>, v: nat, k: nat, it: Link)
    requires WellFormed(tris) && (k == 1 || k == 2)
    requires AtVertex(tris, v, k == 2, it)
    ensures AtVertex(tris, v, k == 1, Turn(it, k))
    ensures LinkAt(tris, Turn(it, k)) == InvalidLink || AtVertex(tris, v, k == 2, LinkAt(tris, Turn(it, k)))
  {
    var q := Turn(it, k);
    if k == 2 {
      assert (q.side + 1) % 3 == it.side;
    }
  }

  lemma {:induction false} ForwardAroundVertex(tris: seq<Triangle>, v: nat, order: Order, k: nat, it: Link, end: Link, fuel: nat)
    requires WellFormed(tris) && (k == 1 || k == 2)
    requires it == InvalidLink || AtVertex(tris, v, k == 2, it)
    ensures LinksInRange(tris) && Cursor(tris, it)
    ensures !Forward(tris, order, k, it, end, fuel).Unfinished? ==>
      forall i :: 0 <= i < |Forward(tris, order, k, it, end, fuel).visited| ==>
        AtVertex(tris, v, (order == VisitTurnCheck) == (k == 2), Forward(tris, order, k, it, end, fuel).visited[i])
    decreases fuel
  {
    WellFormedInRange(tris);
    if it != InvalidLink && fuel > 0 {
      StepAroundVertex(tris, v, k, it);
      var q := Turn(it, k);
      if q != end {
        ForwardAroundVertex(tris, v, order, k, LinkAt(tris, q), end, fuel - 1);
        var rest := Forward(tris, order, k, LinkAt(tris, q), end, fuel - 1);
        var item := if order == VisitTurnCheck then it else q;
        var f := Forward(tris, order, k, it, end, fuel);
        if !rest.Unfinished? {
          assert f.visited == [item] + rest.visited;
          forall i | 0 <= i < |f.visited|
            ensures AtVertex(tris, v, (order == VisitTurnCheck) == (k == 2), f.visited[i])
          {
            if i > 0 {
              assert f.visited[i] == rest.visited[i - 1];
            }
          }
        }
      }
    }
  }

  lemma {:induction false} BackfillAroundVertex(tris: seq<Triangle>, v: nat, visitFirst: bool, k: nat, it: Link, fuel: nat)
    requires WellFormed(tris) && (k == 1 || k == 2)
    requires it == InvalidLink || AtVertex(tris, v, k == 2, it)
    ensures LinksInRange(tris) && Cursor(tris, it)
    ensures Backfill(tris, visitFirst, k, it, fuel).Some? ==>
      forall i :: 0 <= i < |Backfill(tris, visitFirst, k, it, fuel).value| ==>
        AtVertex(tris, v, visitFirst == (k == 2), Backfill(tris, visitFirst, k, it, fuel).value[i])
    decreases fuel
  {
    WellFormedInRange(tris);
    if it != InvalidLink && fuel > 0 {
      StepAroundVertex(tris, v, k, it);
      var q := Turn(it, k);
      BackfillAroundVertex(tris, v, visitFirst, k, LinkAt(tris, q), fuel - 1);
      var rest := Backfill(tris, visitFirst, k, LinkAt(tris, q), fuel - 1);
      var item := if visitFirst then it else q;
      var b := Backfill(tris, visitFirst, k, it, fuel);
      if rest.Some? {
        assert b.value == [item] + rest.value;
        forall i | 0 <= i < |b.value|
          ensures AtVertex(tris, v, visitFirst == (k == 2), b.value[i])
        {
          if i > 0 {
            assert b.value[i] == rest.value[i - 1];
          }
        }
      }
    }
  }

  /** Every link a finished walk emits comes from its seed, its first phase or
      its second phase; so if the first phase emits only links of kind cf and
      the second only links of kind cs, every emitted link is of one of those
      kinds or is the seed. */
  lemma CombineAtVertex(tris: seq<Triangle>, v: nat, start: Link, seeded: bool,
                        first: Outcome, second: Option<seq<Link>>, cf: bool, cs: bool, i: nat)
    requires Combine(if seeded then Seed(start, first) else first, second).Some?
    requires i < |Combine(if seeded then Seed(start, first) else first, second).value.visited|
    requires !first.Unfinished? ==>
      forall j :: 0 <= j < |first.visited| ==> AtVertex(tris, v, cf, first.visited[j])
    requires second.Some? ==>
      forall j :: 0 <= j < |second.value| ==> AtVertex(tris, v, cs, second.value[j])
    ensures var x := Combine(if seeded then Seed(start, first) else first, second).value.visited[i];
      AtVertex(tris, v, cf, x) || AtVertex(tris, v, cs, x) || (seeded && x == start)
  {
    var pre := if seeded && start != InvalidLink then [start] else [];
    var r := Combine(if seeded then Seed(start, first) else first, second);
    assert !first.Unfinished?;
    assert r.value.visited == pre + first.visited + (if first.Boundary? then second.value else []);
    if i < |pre| {
      assert r.value.visited[i] == start;
    } else if i < |pre| + |first.visited| {
      assert r.value.visited[i] == first.visited[i - |pre|];
    } else {
      assert r.value.visited[i] == second.value[i - |pre| - |first.visited|];
    }
  }

  /** visitTrianglesClockwise from a corner at v towards a half-edge ending at
      v visits only corners at v. */
  lemma TrianglesClockwiseAroundVertex(tris: seq<Triangle>, v: nat, start: Link, end: Link, fuel: nat)
    requires WellFormed(tris)
    requires start == InvalidLink || CornerAt(tris, v, start)
    requires end == InvalidLink || EndsAt(tris, v, end)
    ensures TrianglesClockwise(tris, start, end, fuel).Some? ==>
      forall i :: 0 <= i < |TrianglesClockwise(tris, start, end, fuel).value.visited| ==>
        CornerAt(tris, v, TrianglesClockwise(tris, start, end, fuel).value.visited[i])
  {
    ForwardAroundVertex(tris, v, VisitTurnCheck, 2, start, end, fuel);
    BackfillAroundVertex(tris, v, false, 1, end, fuel);
    var f, b := Forward(tris, VisitTurnCheck, 2, start, end, fuel), Backfill(tris, false, 1, end, fuel);
    forall i | Combine(f, b).Some? && 0 <= i < |Combine(f, b).value.visited|
      ensures CornerAt(tris, v, Combine(f, b).value.visited[i])
    {
      CombineAtVertex(tris, v, start, false, f, b, true, true, i);
    }
  }

  /** visitTrianglesAnticlockwise from a half-edge ending at v towards a corner
      at v visits only corners at v. */
  lemma TrianglesAnticlockwiseAroundVertex(tris: seq<Triangle>, v: nat, start: Link, end: Link, fuel: nat)
    requires WellFormed(tris)
    requires start == InvalidLink || EndsAt(tris, v, start)
    requires end == InvalidLink || CornerAt(tris, v, end)
    ensures TrianglesAnticlockwise(tris, start, end, fuel).Some? ==>
      forall i :: 0 <= i < |TrianglesAnticlockwise(tris, start, end, fuel).value.visited| ==>
        CornerAt(tris, v, TrianglesAnticlockwise(tris, start, end, fuel).value.visited[i])
  {
    ForwardAroundVertex(tris, v, TurnVisitCheck, 1, start, end, fuel);
    BackfillAroundVertex(tris, v, true, 2, end, fuel);
    var f, b := Forward(tris, TurnVisitCheck, 1, start, end, fuel), Backfill(tris, true, 2, end, fuel);
    forall i | Combine(f, b).Some? && 0 <= i < |Combine(f, b).value.visited|
      ensures CornerAt(tris, v, Combine(f, b).value.visited[i])
    {
      CombineAtVertex(tris, v, start, false, f, b, true, true, i);
    }
  }

  /** visitEdgesClockwise visits only half-edges incident to v. */
  lemma EdgesClockwiseAroundVertex(tris: seq<Triangle>, v: nat, start: Link, end: Link, fuel: nat)
    requires WellFormed(tris)
    requires start == InvalidLink || CornerAt(tris, v, start)
    requires end == InvalidLink || EndsAt(tris, v, end)
    ensures EdgesClockwise(tris, start, end, fuel).Some? ==>
      forall i :: 0 <= i < |EdgesClockwise(tris, start, end, fuel).value.visited| ==>
        CornerAt(tris, v, EdgesClockwise(tris, start, end, fuel).value.visited[i]) ||
        EndsAt(tris, v, EdgesClockwise(tris, start, end, fuel).value.visited[i])
  {
    ForwardAroundVertex(tris, v, TurnCheckVisit, 2, start, end, fuel);
    BackfillAroundVertex(tris, v, false, 1, end, fuel);
    var f, b := Forward(tris, TurnCheckVisit, 2, start, end, fuel), Backfill(tris, false, 1, end, fuel);
    var r := Combine(Seed(start, f), b);
    forall i | r.Some? && 0 <= i < |r.value.visited|
      ensures CornerAt(tris, v, r.value.visited[i]) || EndsAt(tris, v, r.value.visited[i])
    {
      CombineAtVertex(tris, v, start, true, f, b, false, true, i);
    }
  }

  /** visitEdgesAnticlockwise visits only half-edges incident to v. */
  lemma EdgesAnticlockwiseAroundVertex(tris: seq<Triangle>, v: nat, start: Link, end: Link, fuel: nat)
    requires WellFormed(tris)
    requires start == InvalidLink || EndsAt(tris, v, start)
    requires end == InvalidLink || CornerAt(tris, v, end)
    ensures EdgesAnticlockwise(tris, start, end, fuel).Some? ==>
      forall i :: 0 <= i < |EdgesAnticlockwise(tris, start, end, fuel).value.visited| ==>
        CornerAt(tris, v, EdgesAnticlockwise(tris, start, end, fuel).value.visited[i]) ||
        EndsAt(tris, v, EdgesAnticlockwise(tris, start, end, fuel).value.visited[i])
  {
    ForwardAroundVertex(tris, v, TurnCheckVisit, 1, start, end, fuel);
    BackfillAroundVertex(tris, v, false, 2, end, fuel);
    var f, b := Forward(tris, TurnCheckVisit, 1, start, end, fuel), Backfill(tris, false, 2, end, fuel);
    var r := Combine(Seed(start, f), b);
    forall i | r.Some? && 0 <= i < |r.value.visited|
      ensures CornerAt(tris, v, r.value.visited[i]) || EndsAt(tris, v, r.value.visited[i])
    {
      CombineAtVertex(tris, v, start, true, f, b, true, false, i);
    }
  }

  // ---------------------------------------------------------------------------
  // The fuel bound does not change a walk that returned.

  lemma {:induction false} ForwardFuel(tris: seq<Triangle>, order: Order, k: nat, it: Link, end: Link, fuel: nat, more: nat)
    requires LinksInRange(tris) && Cursor(tris, it) && fuel <= more
    requires !Forward(tris, order, k, it, end, fuel).Unfinished?
    ensures Forward(tris, order, k, it, end, more) == Forward(tris, order, k, it, end, fuel)
    decreases fuel
  {
    if it != InvalidLink {
      var q := Turn(it, k);
      if q != end {
        ForwardFuel(tris, order, k, LinkAt(tris, q), end, fuel - 1, more - 1);
      }
    }
  }

  lemma {:induction false} BackfillFuel(tris: seq<Triangle>, visitFirst: bool, k: nat, it: Link, fuel: nat, more: nat)
    requires LinksInRange(tris) && Cursor(tris, it) && fuel <= more
    requires Backfill(tris, visitFirst, k, it, fuel).Some?
    ensures Backfill(tris, visitFirst, k, it, more) == Backfill(tris, visitFirst, k, it, fuel)
    decreases fuel
  {
    if it != InvalidLink {
      BackfillFuel(tris, visitFirst, k, LinkAt(tris, Turn(it, k)), fuel - 1, more - 1);
    }
  }

  /** A walk that returns within some fuel returns the same with any more fuel:
      the bound only cuts off walks that would go on. */
  lemma FuelIrrelevant(tris: seq<Triangle>, start: Link, end: Link, fuel: nat, more: nat)
    requires LinksInRange(tris) && Cursor(tris, start) && Cursor(tris, end) && fuel <= more
    ensures TrianglesClockwise(tris, start, end, fuel).Some? ==>
      TrianglesClockwise(tris, start, end, more) == TrianglesClockwise(tris, start, end, fuel)
    ensures TrianglesAnticlockwise(tris, start, end, fuel).Some? ==>
      TrianglesAnticlockwise(tris, start, end, more) == TrianglesAnticlockwise(tris, start, end, fuel)
    ensures EdgesClockwise(tris, start, end, fuel).Some? ==>
      EdgesClockwise(tris, start, end, more) == EdgesClockwise(tris, start, end, fuel)
    ensures EdgesAnticlockwise(tris, start, end, fuel).Some? ==>
      EdgesAnticlockwise(tris, start, end, more) == EdgesAnticlockwise(tris, start, end, fuel)
  {
    forall o: Order, k: nat | 1 <= k <= 2 && !Forward(tris, o, k, start, end, fuel).Unfinished?
      ensures Forward(tris, o, k, start, end, more) == Forward(tris, o, k, start, end, fuel)
    {
      ForwardFuel(tris, o, k, start, end, fuel, more);
    }
    forall b: bool, k: nat | 1 <= k <= 2 && Backfill(tris, b, k, end, fuel).Some?
      ensures Backfill(tris, b, k, end, more) == Backfill(tris, b, k, end, fuel)
    {
      BackfillFuel(tris, b, k, end, fuel, more);
    }
  }

  // ---------------------------------------------------------------------------
  // A loop follows the chain of neighbours across its turned sides.

  /** What a loop hands the visitor for each cursor of `c`: the cursor itself,
      or the cursor turned by k. */
  function Visits(turned: bool, k: nat, c: seq<Link>): (r: seq<Link>)
    ensures |r| == |c|
    ensures forall i :: 0 <= i < |c| ==> r[i] == if turned then Turn(c[i], k) else c[i]
  {
    seq(|c|, i requires 0 <= i < |c| => if turned then Turn(c[i], k) else c[i])
  }

  /** Each cursor of `c` is a half-edge whose turn by k is not `end`, and the
      neighbour across that turned side is the next cursor, or `last` after
      the final one. */
  ghost predicate Chain(tris: seq<Triangle>, k: nat, c: seq<Link>, last: Link, end: Link)
  {
    && (forall i :: 0 <= i < |c| ==> IsHalfEdge(|tris|, c[i]) && Turn(c[i], k) != end)
    && (forall i :: 0 <= i < |c| - 1 ==> LinkAt(tris, Turn(c[i], k)) == c[i + 1])
    && (0 < |c| ==> LinkAt(tris, Turn(c[|c| - 1], k)) == last)
  }

  lemma ChainTail(tris: seq<Triangle>, k: nat, c: seq<Link>, last: Link, end: Link)
    requires 1 < |c| && Chain(tris, k, c, last, end)
    ensures Chain(tris, k, c[1..], last, end)
  {
    assert forall i :: 0 <= i < |c| - 1 ==> c[1..][i] == c[i + 1];
    assert c[1..][|c| - 2] == c[|c| - 1];
  }

  /** One round of the start-seeded loop that does not meet `end`. */
  lemma ForwardStep(tris: seq<Triangle>, order: Order, k: nat, it: Link, end: Link, fuel: nat)
    requires LinksInRange(tris) && IsHalfEdge(|tris|, it) && Turn(it, k) != end && 0 < fuel
    ensures Cursor(tris, LinkAt(tris, Turn(it, k)))
    ensures Forward(tris, order, k, it, end, fuel) ==
      Prefix(Visits(order != VisitTurnCheck, k, [it]), Forward(tris, order, k, LinkAt(tris, Turn(it, k)), end, fuel - 1))
  {
  }

  lemma VisitsCons(turned: bool, k: nat, c: seq<Link>)
    requires 0 < |c|
    ensures Visits(turned, k, c) == Visits(turned, k, [c[0]]) + Visits(turned, k, c[1..])
  {
  }

  /** Along a chain, the start-seeded loop visits one item per cursor and
      carries on from `last` with that much less fuel. */
  lemma {:induction false} ForwardChain(tris: seq<Triangle>, order: Order, k: nat, c: seq<Link>, last: Link, end: Link, fuel: nat)
    requires LinksInRange(tris) && Cursor(tris, last) && 0 < |c| <= fuel
    requires Chain(tris, k, c, last, end)
    ensures Cursor(tris, c[0])
    ensures Forward(tris, order, k, c[0], end, fuel) ==
      Prefix(Visits(order != VisitTurnCheck, k, c), Forward(tris, order, k, last, end, fuel - |c|))
    decreases |c|
  {
    var turned := order != VisitTurnCheck;
    ForwardStep(tris, order, k, c[0], end, fuel);
    if |c| == 1 {
      assert c == [c[0]];
    } else {
      assert LinkAt(tris, Turn(c[0], k)) == c[1];
      ChainTail(tris, k, c, last, end);
      ForwardChain(tris, order, k, c[1..], last, end, fuel - 1);
      PrefixAppend(Visits(turned, k, [c[0]]), Visits(turned, k, c[1..]), Forward(tris, order, k, last, end, fuel - |c|));
      VisitsCons(turned, k, c);
    }
  }

  /** A start-seeded loop along a chain whose `last` cursor turns onto `end`
      returns, having visited one item per cursor of the chain and, unless the
      visitor comes after the check, one for `last`. */
  lemma ForwardReaches(tris: seq<Triangle>, order: Order, k: nat, c: seq<Link>, last: Link, end: Link, fuel: nat)
    requires LinksInRange(tris) && IsHalfEdge(|tris|, last) && Turn(last, k) == end && 0 < |c| < fuel
    requires Chain(tris, k, c, last, end)
    ensures Cursor(tris, c[0])
    ensures Forward(tris, order, k, c[0], end, fuel) ==
      Reached(Visits(order != VisitTurnCheck, k, c + if order == TurnCheckVisit then [] else [last]))
  {
    ForwardChain(tris, order, k, c, last, end, fuel);
    var tail := if order == TurnCheckVisit then [] else [last];
    assert Visits(order != VisitTurnCheck, k, c + tail) == Visits(order != VisitTurnCheck, k, c) + Visits(order != VisitTurnCheck, k, tail);
  }

  /** A start-seeded loop along a chain that ends at the boundary meets it
      having visited one item per cursor of the chain. */
  lemma ForwardBoundary(tris: seq<Triangle>, order: Order, k: nat, c: seq<Link>, end: Link, fuel: nat)
    requires LinksInRange(tris) && 0 < |c| <= fuel
    requires Chain(tris, k, c, InvalidLink, end)
    ensures Cursor(tris, c[0])
    ensures Forward(tris, order, k, c[0], end, fuel) == Boundary(Visits(order != VisitTurnCheck, k, c))
  {
    ForwardChain(tris, order, k, c, InvalidLink, end, fuel);
    ExtendEmpty(Visits(order != VisitTurnCheck, k, c), None);
  }

  /** One round of the end-seeded loop. */
  lemma BackfillStep(tris: seq<Triangle>, visitFirst: bool, k: nat, it: Link, fuel: nat)
    requires LinksInRange(tris) && IsHalfEdge(|tris|, it) && 0 < fuel
    ensures Cursor(tris, LinkAt(tris, Turn(it, k)))
    ensures Backfill(tris, visitFirst, k, it, fuel) ==
      Extend(Visits(!visitFirst, k, [it]), Backfill(tris, visitFirst, k, LinkAt(tris, Turn(it, k)), fuel - 1))
  {
    assert Visits(!visitFirst, k, [it]) == [if visitFirst then it else Turn(it, k)];
  }

  /** The end-seeded loop along a chain that ends at the boundary visits one
      item per cursor of the chain. */
  lemma {:induction false} BackfillBoundary(tris: seq<Triangle>, visitFirst: bool, k: nat, c: seq<Link>, fuel: nat)
    requires LinksInRange(tris) && 0 < |c| <= fuel
    requires Chain(tris, k, c, InvalidLink, InvalidLink)
    ensures Cursor(tris, c[0])
    ensures Backfill(tris, visitFirst, k, c[0], fuel) == Some(Visits(!visitFirst, k, c))
    decreases |c|
  {
    BackfillStep(tris, visitFirst, k, c[0], fuel);
    if |c| == 1 {
      assert LinkAt(tris, Turn(c[0], k)) == InvalidLink;
      assert c == [c[0]];
      ExtendEmpty(Visits(!visitFirst, k, c), None);
    } else {
      assert LinkAt(tris, Turn(c[0], k)) == c[1];
      ChainTail(tris, k, c, InvalidLink, InvalidLink);
      BackfillBoundary(tris, visitFirst, k, c[1..], fuel - 1);
      VisitsCons(!visitFirst, k, c);
    }
  }
}
