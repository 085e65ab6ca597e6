/** Paths through a maze and the effect of marking what they reach. */
module Reach {
  import opened Lattice

  type Grid = seq<Cell>

  /** The cell of a point; a wall off the array. */
  function At(m: Grid, xd: int, p: Pt): Cell {
    var i := Idx(xd, p);
    if 0 <= i < |m| then m[i] else WALL
  }

  function Put(m: Grid, xd: int, p: Pt, c: Cell): Grid {
    var i := Idx(xd, p);
    if 0 <= i < |m| then m[i := c] else m
  }

  /** Writing an inside point changes that point and no other, boundary columns included. */
  lemma PutChangesOnePoint(m: Grid, xd: int, yd: int, p: Pt, c: Cell)
    requires ValidDims(xd, yd) && |m| == MAZE_SIZE && Inside(xd, yd, p)
    ensures |Put(m, xd, p, c)| == |m|
    ensures forall q: Pt :: 0 <= q.x <= 2 * xd ==> At(Put(m, xd, p, c), xd, q) == if q == p then c else At(m, xd, q)
  {
    IdxBounds(xd, yd, p);
    forall q: Pt | 0 <= q.x <= 2 * xd
      ensures At(Put(m, xd, p, c), xd, q) == if q == p then c else At(m, xd, q)
    {
      if Idx(xd, p) == Idx(xd, q) {
        IdxInjective(xd, yd, p, q);
      }
    }
  }

  /** Every boundary point is a wall, so open cells never lead off the lattice. */
  ghost predicate BoundaryWalls(m: Grid, xd: int, yd: int) {
    forall p :: OnMap(xd, yd, p) && !Inside(xd, yd, p) ==> At(m, xd, p).wall
  }

  /** From node p one can walk in direction d through an open cell to the next node. */
  ghost predicate Link(m: Grid, xd: int, yd: int, p: Pt, d: Dir) {
    IsNode(xd, yd, p) && IsNode(xd, yd, Jump(p, d)) && !At(m, xd, Step(p, d)).wall
  }

  lemma OpenMeansLink(m: Grid, xd: int, yd: int, p: Pt, d: Dir)
    requires BoundaryWalls(m, xd, yd) && IsNode(xd, yd, p) && !At(m, xd, Step(p, d)).wall
    ensures Link(m, xd, yd, p, d)
  {
    var i, j := p.x / 2, p.y / 2;
    assert p == Pt(2 * i + 1, 2 * j + 1);
    assert OnMap(xd, yd, Step(p, d));
    assert Inside(xd, yd, Step(p, d));
  }

  lemma LinkBack(m: Grid, xd: int, yd: int, p: Pt, d: Dir)
    requires Link(m, xd, yd, p, d)
    ensures Link(m, xd, yd, Jump(p, d), Opposite(d)) && Jump(Jump(p, d), Opposite(d)) == p
  {
  }

  /** The node a list of moves leads to. */
  ghost function End(u: Pt, moves: seq<Dir>): Pt {
    if moves == [] then u else Jump(End(u, moves[..|moves| - 1]), moves[|moves| - 1])
  }

  /** Every move goes through an open cell to a node outside avoid. */
  ghost predicate IsPath(m: Grid, xd: int, yd: int, avoid: set<Pt>, u: Pt, moves: seq<Dir>) {
    if moves == [] then IsNode(xd, yd, u)
    else
      var front := moves[..|moves| - 1];
      IsPath(m, xd, yd, avoid, u, front)
      && Link(m, xd, yd, End(u, front), moves[|moves| - 1])
      && End(u, moves) !in avoid
  }

  /** There is a path from u to v on which every node after u is outside avoid. */
  ghost predicate Reachable(m: Grid, xd: int, yd: int, avoid: set<Pt>, u: Pt, v: Pt) {
    exists moves :: IsPath(m, xd, yd, avoid, u, moves) && End(u, moves) == v
  }

  lemma ReachSelf(m: Grid, xd: int, yd: int, avoid: set<Pt>, u: Pt)
    requires IsNode(xd, yd, u)
    ensures Reachable(m, xd, yd, avoid, u, u)
  {
    assert IsPath(m, xd, yd, avoid, u, []) && End(u, []) == u;
  }

  lemma ReachStep(m: Grid, xd: int, yd: int, avoid: set<Pt>, u: Pt, v: Pt, d: Dir)
    requires Reachable(m, xd, yd, avoid, u, v) && Link(m, xd, yd, v, d) && Jump(v, d) !in avoid
    ensures Reachable(m, xd, yd, avoid, u, Jump(v, d))
  {
    var moves :| IsPath(m, xd, yd, avoid, u, moves) && End(u, moves) == v;
    var longer := moves + [d];
    assert longer[..|longer| - 1] == moves;
    assert IsPath(m, xd, yd, avoid, u, longer) && End(u, longer) == Jump(v, d);
  }

  /** Opening cells and avoiding less keep every path. */
  lemma {:induction false} PathKept(m: Grid, m': Grid, xd: int, yd: int, avoid: set<Pt>, avoid': set<Pt>, u: Pt, moves: seq<Dir>)
    requires IsPath(m, xd, yd, avoid, u, moves) && avoid' <= avoid
    requires forall p, d :: Link(m, xd, yd, p, d) ==> Link(m', xd, yd, p, d)
    ensures IsPath(m', xd, yd, avoid', u, moves)
  {
    if moves != [] {
      PathKept(m, m', xd, yd, avoid, avoid', u, moves[..|moves| - 1]);
    }
  }

  lemma ReachKept(m: Grid, m': Grid, xd: int, yd: int, avoid: set<Pt>, avoid': set<Pt>, u: Pt, v: Pt)
    requires Reachable(m, xd, yd, avoid, u, v) && avoid' <= avoid
    requires forall p, d :: Link(m, xd, yd, p, d) ==> Link(m', xd, yd, p, d)
    ensures Reachable(m', xd, yd, avoid', u, v)
  {
    var moves :| IsPath(m, xd, yd, avoid, u, moves) && End(u, moves) == v;
    PathKept(m, m', xd, yd, avoid, avoid', u, moves);
  }

  /** A path that ends where another begins extends it. */
  lemma {:induction false} PathJoin(m: Grid, xd: int, yd: int, u: Pt, v: Pt, moves: seq<Dir>)
    requires Reachable(m, xd, yd, {}, u, v) && IsPath(m, xd, yd, {}, v, moves)
    ensures Reachable(m, xd, yd, {}, u, End(v, moves))
  {
    if moves != [] {
      var front := moves[..|moves| - 1];
      PathJoin(m, xd, yd, u, v, front);
      ReachStep(m, xd, yd, {}, u, End(v, front), moves[|moves| - 1]);
    }
  }

  lemma ReachJoin(m: Grid, xd: int, yd: int, u: Pt, v: Pt, w: Pt)
    requires Reachable(m, xd, yd, {}, u, v) && Reachable(m, xd, yd, {}, v, w)
    ensures Reachable(m, xd, yd, {}, u, w)
  {
    var moves :| IsPath(m, xd, yd, {}, v, moves) && End(v, moves) == w;
    PathJoin(m, xd, yd, u, v, moves);
  }

  /** A set that contains u and every allowed successor of its members contains all paths from u. */
  lemma {:induction false} PathStaysIn(m: Grid, xd: int, yd: int, avoid: set<Pt>, closed: set<Pt>, u: Pt, moves: seq<Dir>)
    requires u in closed && IsPath(m, xd, yd, avoid, u, moves)
    requires forall p, d :: p in closed && Link(m, xd, yd, p, d) && Jump(p, d) !in avoid ==> Jump(p, d) in closed
    ensures End(u, moves) in closed
  {
    if moves != [] {
      PathStaysIn(m, xd, yd, avoid, closed, u, moves[..|moves| - 1]);
    }
  }

  /** The nodes that carry the reached mark. */
  ghost function Marked(m: Grid, xd: int, yd: int): set<Pt> {
    set p | p in Nodes(xd, yd) && At(m, xd, p).reach
  }

  /** What a search from u through unmarked nodes can reach. */
  ghost function ReachSet(m: Grid, xd: int, yd: int, u: Pt): set<Pt> {
    set p | p in Nodes(xd, yd) && Reachable(m, xd, yd, Marked(m, xd, yd), u, p)
  }

  /** The maze in which the points of a list have been marked one after the other. */
  ghost function MarkList(m: Grid, xd: int, pts: seq<Pt>): Grid {
    if pts == [] then m
    else
      var m' := MarkList(m, xd, pts[..|pts| - 1]);
      var p := pts[|pts| - 1];
      Put(m', xd, p, At(m', xd, p).(reach := true))
  }

  ghost predicate AllNodes(xd: int, yd: int, pts: seq<Pt>) {
    forall k :: 0 <= k < |pts| ==> IsNode(xd, yd, pts[k])
  }

  lemma {:induction false} MarkListAt(m: Grid, xd: int, yd: int, pts: seq<Pt>)
    requires ValidDims(xd, yd) && |m| == MAZE_SIZE && AllNodes(xd, yd, pts)
    ensures |MarkList(m, xd, pts)| == |m|
    ensures forall q: Pt :: 0 <= q.x <= 2 * xd ==>
              At(MarkList(m, xd, pts), xd, q) == if q in pts then At(m, xd, q).(reach := true) else At(m, xd, q)
  {
    if pts != [] {
      var front, p := pts[..|pts| - 1], pts[|pts| - 1];
      MarkListAt(m, xd, yd, front);
      var m' := MarkList(m, xd, front);
      PutChangesOnePoint(m', xd, yd, p, At(m', xd, p).(reach := true));
      assert forall q :: q in pts <==> q in front || q == p;
    }
  }
}
