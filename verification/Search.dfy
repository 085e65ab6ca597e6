/** The invariant of the breadth-first search of maze.c and what it establishes. */
module Search {
  import opened Lattice
  import opened Reach

  /** Slots of the search queue: one for each node of the largest maze. */
  const QUEUE_SIZE: nat := 1500

  ghost predicate Distinct(pts: seq<Pt>) {
    forall i, j :: 0 <= i < j < |pts| ==> pts[i] != pts[j]
  }

  lemma {:induction false} DistinctSize(pts: seq<Pt>, s: set<Pt>)
    requires Distinct(pts) && forall p :: p in pts ==> p in s
    ensures |pts| <= |s|
    ensures (forall p :: p in s ==> p in pts) ==> |pts| == |s|
  {
    if pts == [] {
      if forall p :: p in s ==> p in pts {
        assert s == {};
      }
    } else {
      var front, last := pts[..|pts| - 1], pts[|pts| - 1];
      assert pts == front + [last];
      assert forall p :: p in front ==> p in s - {last};
      DistinctSize(front, s - {last});
    }
  }

  /** pts is everything found so far by a search of maze m0 from u, and m is m0 with exactly
      these points marked. */
  ghost predicate Searching(m0: Grid, m: Grid, xd: int, yd: int, u: Pt, pts: seq<Pt>) {
    && |m0| == MAZE_SIZE
    && AllNodes(xd, yd, pts)
    && Distinct(pts)
    && 0 < |pts| && pts[0] == u
    && (forall k :: 0 < k < |pts| ==> pts[k] !in Marked(m0, xd, yd))
    && (forall k :: 0 <= k < |pts| ==> Reachable(m0, xd, yd, Marked(m0, xd, yd), u, pts[k]))
    && m == MarkList(m0, xd, pts)
  }

  /** Every open direction from p leads to a marked point. */
  ghost predicate Explored(m: Grid, xd: int, p: Pt) {
    forall d: Dir :: ExploredTo(m, xd, p, d)
  }

  ghost predicate ExploredTo(m: Grid, xd: int, p: Pt, d: Dir) {
    !At(m, xd, Step(p, d)).wall ==> At(m, xd, Jump(p, d)).reach
  }

  ghost predicate AllExplored(m: Grid, xd: int, pts: seq<Pt>, n: int) {
    0 <= n <= |pts| && forall k :: 0 <= k < n ==> Explored(m, xd, pts[k])
  }

  lemma SearchStart(m0: Grid, xd: int, yd: int, u: Pt)
    requires |m0| == MAZE_SIZE && IsNode(xd, yd, u)
    ensures Searching(m0, Put(m0, xd, u, At(m0, xd, u).(reach := true)), xd, yd, u, [u])
  {
    ReachSelf(m0, xd, yd, Marked(m0, xd, yd), u);
    assert MarkList(m0, xd, [u][..0]) == m0;
  }

  /** The points found so far fit into the lattice, hence into the queue. */
  lemma QueueFits(m0: Grid, m: Grid, xd: int, yd: int, u: Pt, pts: seq<Pt>)
    requires ValidDims(xd, yd) && Searching(m0, m, xd, yd, u, pts)
    ensures |pts| <= |Nodes(xd, yd)| <= QUEUE_SIZE
  {
    NodesFit(xd, yd);
    forall p | p in pts ensures p in Nodes(xd, yd) {
      var k :| 0 <= k < |pts| && pts[k] == p;
    }
    DistinctSize(pts, Nodes(xd, yd));
  }

  lemma NodesFit(xd: int, yd: int)
    requires ValidDims(xd, yd)
    ensures |Nodes(xd, yd)| == xd * yd <= QUEUE_SIZE
  {
    NodesSize(xd, yd);
    assert (50 - xd) * yd >= 0;
  }

  /** The walls of a maze under search are those it had. */
  lemma SearchKeepsWalls(m0: Grid, m: Grid, xd: int, yd: int, u: Pt, pts: seq<Pt>, p: Pt)
    requires ValidDims(xd, yd) && Searching(m0, m, xd, yd, u, pts)
    requires 0 <= p.x <= 2 * xd
    ensures At(m, xd, p).wall == At(m0, xd, p).wall
    ensures At(m, xd, p).reach <==> At(m0, xd, p).reach || p in pts
  {
    MarkListAt(m0, xd, yd, pts);
  }

  /** Following an open cell from a found point to an unmarked one extends the search. */
  lemma SearchGrows(m0: Grid, m: Grid, xd: int, yd: int, u: Pt, pts: seq<Pt>, k: nat, d: Dir)
    requires ValidDims(xd, yd) && BoundaryWalls(m0, xd, yd) && Searching(m0, m, xd, yd, u, pts)
    requires k < |pts| && !ExploredTo(m, xd, pts[k], d)
    ensures var q := Jump(pts[k], d);
            IsNode(xd, yd, q) && Searching(m0, Put(m, xd, q, At(m, xd, q).(reach := true)), xd, yd, u, pts + [q])
  {
    var p, q := pts[k], Jump(pts[k], d);
    SearchKeepsWalls(m0, m, xd, yd, u, pts, Step(p, d));
    OpenMeansLink(m0, xd, yd, p, d);
    SearchKeepsWalls(m0, m, xd, yd, u, pts, q);
    ReachStep(m0, xd, yd, Marked(m0, xd, yd), u, p, d);
    assert (pts + [q])[..|pts|] == pts;
  }

  /** Marking one more point keeps everything explored. */
  lemma ExploredKept(m: Grid, xd: int, yd: int, p: Pt, q: Pt, d: Dir)
    requires ValidDims(xd, yd) && |m| == MAZE_SIZE && BoundaryWalls(m, xd, yd)
    requires IsNode(xd, yd, p) && Inside(xd, yd, q) && ExploredTo(m, xd, p, d)
    ensures ExploredTo(Put(m, xd, q, At(m, xd, q).(reach := true)), xd, p, d)
  {
    var c := At(m, xd, q).(reach := true);
    PutChangesOnePoint(m, xd, yd, q, c);
    assert At(Put(m, xd, q, c), xd, Step(p, d)).wall == At(m, xd, Step(p, d)).wall;
    if !At(m, xd, Step(p, d)).wall {
      OpenMeansLink(m, xd, yd, p, d);
    }
  }

  lemma StepOnMap(xd: int, yd: int, p: Pt, d: Dir)
    requires ValidDims(xd, yd) && IsNode(xd, yd, p)
    ensures OnMap(xd, yd, Step(p, d)) && 0 <= Idx(xd, Step(p, d)) < MAZE_SIZE
    ensures 0 <= Idx(xd, p) < MAZE_SIZE
  {
    IdxBounds(xd, yd, Step(p, d));
    IdxBounds(xd, yd, p);
  }

  /** Marking a new point during a search keeps explored what was. */
  lemma ExploredStays(m0: Grid, m: Grid, xd: int, yd: int, u: Pt, pts: seq<Pt>, q: Pt, n: int)
    requires ValidDims(xd, yd) && BoundaryWalls(m0, xd, yd) && Searching(m0, m, xd, yd, u, pts)
    requires IsNode(xd, yd, q) && AllExplored(m, xd, pts, n)
    ensures var m' := Put(m, xd, q, At(m, xd, q).(reach := true));
            && AllExplored(m', xd, pts + [q], n)
            && forall k, e :: 0 <= k < |pts| && ExploredTo(m, xd, pts[k], e) ==> ExploredTo(m', xd, pts[k], e)
  {
    var m' := Put(m, xd, q, At(m, xd, q).(reach := true));
    MarkListAt(m0, xd, yd, pts);
    assert BoundaryWalls(m, xd, yd);
    forall k, e | 0 <= k < |pts| && ExploredTo(m, xd, pts[k], e)
      ensures ExploredTo(m', xd, pts[k], e)
    {
      ExploredKept(m, xd, yd, pts[k], q, e);
    }
    forall k, e | 0 <= k < n
      ensures ExploredTo(m', xd, pts[k], e)
    {
      assert Explored(m, xd, pts[k]) && ExploredTo(m, xd, pts[k], e);
    }
  }

  /** The cells of m are those of m0, with the points of s marked as well. */
  ghost predicate MarksAdded(m0: Grid, m: Grid, xd: int, s: set<Pt>) {
    |m| == |m0| && forall q: Pt :: 0 <= q.x <= 2 * xd ==>
      At(m, xd, q) == if q in s then At(m0, xd, q).(reach := true) else At(m0, xd, q)
  }

  /** A search with nothing left to explore has found exactly what is reachable. */
  lemma SearchDone(m0: Grid, m: Grid, xd: int, yd: int, u: Pt, pts: seq<Pt>)
    requires ValidDims(xd, yd) && Searching(m0, m, xd, yd, u, pts)
    requires AllExplored(m, xd, pts, |pts|)
    ensures MarksAdded(m0, m, xd, ReachSet(m0, xd, yd, u))
    ensures |pts| == |ReachSet(m0, xd, yd, u)|
  {
    var avoid, found := Marked(m0, xd, yd), set p | p in pts;
    forall p, d | p in found && Link(m0, xd, yd, p, d) && Jump(p, d) !in avoid
      ensures Jump(p, d) in found
    {
      SearchKeepsWalls(m0, m, xd, yd, u, pts, Step(p, d));
      SearchKeepsWalls(m0, m, xd, yd, u, pts, Jump(p, d));
      var k :| 0 <= k < |pts| && pts[k] == p;
      assert ExploredTo(m, xd, p, d);
    }
    forall p | p in Nodes(xd, yd) && Reachable(m0, xd, yd, avoid, u, p)
      ensures p in found
    {
      var moves :| IsPath(m0, xd, yd, avoid, u, moves) && End(u, moves) == p;
      assert pts[0] in found;
      PathStaysIn(m0, xd, yd, avoid, found, u, moves);
    }
    assert found == ReachSet(m0, xd, yd, u);
    DistinctSize(pts, found);
    MarkListAt(m0, xd, yd, pts);
  }
}
