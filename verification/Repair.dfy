/** Why the second phase of maze generation connects the maze, and why it ends. */
module Repair {
  import opened Lattice
  import opened Reach
  import opened Search

  const START := Pt(1, 1)

  /** The marked nodes are connected to (1,1) and no open cell leads out of them. */
  ghost predicate Connecting(m: Grid, xd: int, yd: int) {
    && |m| == MAZE_SIZE
    && BoundaryWalls(m, xd, yd)
    && START in Marked(m, xd, yd)
    && (forall p, d :: p in Marked(m, xd, yd) && Link(m, xd, yd, p, d) ==> Jump(p, d) in Marked(m, xd, yd))
    && (forall p :: p in Marked(m, xd, yd) ==> Reachable(m, xd, yd, {}, START, p))
  }

  /** Every node can be reached from (1,1). */
  ghost predicate Connected(m: Grid, xd: int, yd: int) {
    forall p :: IsNode(xd, yd, p) ==> Reachable(m, xd, yd, {}, START, p)
  }

  lemma AllMarkedConnects(m: Grid, xd: int, yd: int)
    requires ValidDims(xd, yd) && Connecting(m, xd, yd)
    requires |Marked(m, xd, yd)| >= xd * yd
    ensures Marked(m, xd, yd) == Nodes(xd, yd)
    ensures Connected(m, xd, yd)
  {
    NodesSize(xd, yd);
    SubsetOfSameSize(Marked(m, xd, yd), Nodes(xd, yd));
    forall p | IsNode(xd, yd, p)
      ensures Reachable(m, xd, yd, {}, START, p)
    {
      assert p in Nodes(xd, yd);
    }
  }

  lemma SubsetOfSameSize(a: set<Pt>, b: set<Pt>)
    requires a <= b && |a| >= |b|
    ensures a == b
  {
    if exists p :: p in b && p !in a {
      var p :| p in b && p !in a;
      SubsetSize(a, b - {p});
    }
  }

  lemma {:induction false} SubsetSize(a: set<Pt>, b: set<Pt>)
    requires a <= b
    ensures |a| <= |b|
  {
    if a != {} {
      var p :| p in a;
      SubsetSize(a - {p}, b - {p});
    }
  }

  lemma SubsetIsSmaller(a: set<Pt>, b: set<Pt>)
    requires a < b
    ensures |a| < |b|
  {
    if |a| >= |b| {
      SubsetOfSameSize(a, b);
    }
  }

  /** Marks added by a search change no link. */
  lemma MarksKeepLinks(m0: Grid, m: Grid, xd: int, yd: int, s: set<Pt>)
    requires MarksAdded(m0, m, xd, s)
    ensures forall p, d :: Link(m0, xd, yd, p, d) <==> Link(m, xd, yd, p, d)
    ensures BoundaryWalls(m0, xd, yd) ==> BoundaryWalls(m, xd, yd)
    ensures Marked(m, xd, yd) == Marked(m0, xd, yd) + (s * Nodes(xd, yd))
  {
    forall p, d
      ensures Link(m0, xd, yd, p, d) <==> Link(m, xd, yd, p, d)
    {
      if IsNode(xd, yd, p) {
        assert 0 <= Step(p, d).x <= 2 * xd;
      }
    }
  }

  lemma StartConnected(m0: Grid, m: Grid, xd: int, yd: int)
    requires ValidDims(xd, yd) && |m0| == MAZE_SIZE && BoundaryWalls(m0, xd, yd)
    requires Marked(m0, xd, yd) == {}
    requires MarksAdded(m0, m, xd, ReachSet(m0, xd, yd, START))
    ensures Connecting(m, xd, yd)
    ensures Marked(m, xd, yd) == ReachSet(m0, xd, yd, START)
  {
    var s := ReachSet(m0, xd, yd, START);
    MarksKeepLinks(m0, m, xd, yd, s);
    assert s * Nodes(xd, yd) == s;
    ReachSelf(m0, xd, yd, {}, START);
    forall p, d | p in s && Link(m, xd, yd, p, d)
      ensures Jump(p, d) in s
    {
      ReachStep(m0, xd, yd, {}, START, p, d);
    }
    forall p | p in s
      ensures Reachable(m, xd, yd, {}, START, p)
    {
      ReachKept(m0, m, xd, yd, {}, {}, START, p);
    }
  }

  lemma BetweenIsNoNode(xd: int, yd: int, p: Pt, d: Dir)
    requires IsNode(xd, yd, p) && IsNode(xd, yd, Jump(p, d))
    ensures Inside(xd, yd, Step(p, d)) && !IsNode(xd, yd, Step(p, d))
  {
  }

  /** The cell between two nodes is no node, so digging it changes no mark. */
  lemma DigBetween(m: Grid, xd: int, yd: int, p: Pt, d: Dir)
    requires ValidDims(xd, yd) && |m| == MAZE_SIZE && BoundaryWalls(m, xd, yd)
    requires IsNode(xd, yd, p) && IsNode(xd, yd, Jump(p, d))
    ensures var m' := Put(m, xd, Step(p, d), NONE);
            && |m'| == MAZE_SIZE
            && BoundaryWalls(m', xd, yd)
            && Marked(m', xd, yd) == Marked(m, xd, yd)
            && Link(m', xd, yd, p, d)
  {
    var m', q := Put(m, xd, Step(p, d), NONE), Step(p, d);
    BetweenIsNoNode(xd, yd, p, d);
    PutChangesOnePoint(m, xd, yd, q, NONE);
    assert At(m', xd, q) == NONE;
    forall u | OnMap(xd, yd, u) && !Inside(xd, yd, u)
      ensures At(m', xd, u).wall
    {
      assert At(m', xd, u) == At(m, xd, u);
    }
    forall u | u in Nodes(xd, yd)
      ensures At(m', xd, u) == At(m, xd, u)
    {
      assert 0 <= u.x <= 2 * xd && u != q;
    }
  }

  lemma DigKeepsLinks(m: Grid, xd: int, yd: int, p: Pt, d: Dir)
    requires ValidDims(xd, yd) && |m| == MAZE_SIZE
    requires IsNode(xd, yd, p) && IsNode(xd, yd, Jump(p, d))
    ensures var m' := Put(m, xd, Step(p, d), NONE);
            forall q, e :: Link(m, xd, yd, q, e) ==> Link(m', xd, yd, q, e)
    ensures var m' := Put(m, xd, Step(p, d), NONE);
            forall q, e :: Link(m', xd, yd, q, e) && q != p && Jump(q, e) != p ==> Link(m, xd, yd, q, e)
  {
    PutChangesOnePoint(m, xd, yd, Step(p, d), NONE);
    var m' := Put(m, xd, Step(p, d), NONE);
    forall q, e | IsNode(xd, yd, q)
      ensures Link(m, xd, yd, q, e) ==> Link(m', xd, yd, q, e)
      ensures Link(m', xd, yd, q, e) && q != p && Jump(q, e) != p ==> Link(m, xd, yd, q, e)
    {
      assert 0 <= Step(q, e).x <= 2 * xd;
      if Step(q, e) == Step(p, d) {
        BetweenTwoNodes(xd, yd, p, d, q, e);
      }
    }
  }

  /** A cell between two nodes belongs to no other pair of nodes. */
  lemma BetweenTwoNodes(xd: int, yd: int, p: Pt, d: Dir, q: Pt, e: Dir)
    requires IsNode(xd, yd, p) && IsNode(xd, yd, q) && Step(p, d) == Step(q, e)
    ensures q == p || q == Jump(p, d)
    ensures q == p || Jump(q, e) == p
  {
  }

  /** Opening the wall between an unmarked node and a marked neighbour, then marking what the
      node reaches, keeps the marked part connected and grows it by the number of new marks. */
  lemma RegionJoined(m: Grid, m2: Grid, xd: int, yd: int, p: Pt, d: Dir)
    requires ValidDims(xd, yd) && Connecting(m, xd, yd)
    requires IsNode(xd, yd, p) && p !in Marked(m, xd, yd) && Jump(p, d) in Marked(m, xd, yd)
    requires var m1 := Put(m, xd, Step(p, d), NONE);
             MarksAdded(m1, m2, xd, ReachSet(m1, xd, yd, p))
    ensures Connecting(m2, xd, yd)
    ensures |Marked(m2, xd, yd)| == |Marked(m, xd, yd)| + |ReachSet(Put(m, xd, Step(p, d), NONE), xd, yd, p)|
    ensures |Marked(m2, xd, yd)| > |Marked(m, xd, yd)|
  {
    var m1 := Put(m, xd, Step(p, d), NONE);
    var before, s := Marked(m, xd, yd), ReachSet(m1, xd, yd, p);
    DigBetween(m, xd, yd, p, d);
    DigKeepsLinks(m, xd, yd, p, d);
    MarksKeepLinks(m1, m2, xd, yd, s);
    assert s * Nodes(xd, yd) == s;
    ReachSelf(m1, xd, yd, before, p);
    assert p in s;
    NewMarksDisjoint(m1, xd, yd, p);
    assert Marked(m2, xd, yd) == before + s && before !! s;
    RegionClosed(m, m2, xd, yd, p, d);
    RegionReached(m, m2, xd, yd, p, d);
  }

  lemma NewMarksDisjoint(m: Grid, xd: int, yd: int, p: Pt)
    requires p !in Marked(m, xd, yd)
    ensures ReachSet(m, xd, yd, p) !! Marked(m, xd, yd)
  {
    forall q | q in ReachSet(m, xd, yd, p)
      ensures q !in Marked(m, xd, yd)
    {
      var moves :| IsPath(m, xd, yd, Marked(m, xd, yd), p, moves) && End(p, moves) == q;
    }
  }

  lemma RegionClosed(m: Grid, m2: Grid, xd: int, yd: int, p: Pt, d: Dir)
    requires ValidDims(xd, yd) && Connecting(m, xd, yd)
    requires IsNode(xd, yd, p) && p !in Marked(m, xd, yd) && Jump(p, d) in Marked(m, xd, yd)
    requires var m1 := Put(m, xd, Step(p, d), NONE);
             && Marked(m1, xd, yd) == Marked(m, xd, yd)
             && p in ReachSet(m1, xd, yd, p)
             && (forall q, e :: Link(m1, xd, yd, q, e) <==> Link(m2, xd, yd, q, e))
             && Marked(m2, xd, yd) == Marked(m, xd, yd) + ReachSet(m1, xd, yd, p)
    ensures forall q, e :: q in Marked(m2, xd, yd) && Link(m2, xd, yd, q, e) ==> Jump(q, e) in Marked(m2, xd, yd)
  {
    var m1 := Put(m, xd, Step(p, d), NONE);
    DigKeepsLinks(m, xd, yd, p, d);
    var s := ReachSet(m1, xd, yd, p);
    forall q, e | q in Marked(m2, xd, yd) && Link(m2, xd, yd, q, e)
      ensures Jump(q, e) in Marked(m2, xd, yd)
    {
      if q in s {
        if Jump(q, e) !in Marked(m, xd, yd) {
          ReachStep(m1, xd, yd, Marked(m1, xd, yd), p, q, e);
        }
      } else if Jump(q, e) != p {
        assert Link(m, xd, yd, q, e);
      }
    }
  }

  lemma RegionReached(m: Grid, m2: Grid, xd: int, yd: int, p: Pt, d: Dir)
    requires ValidDims(xd, yd) && Connecting(m, xd, yd)
    requires IsNode(xd, yd, p) && Jump(p, d) in Marked(m, xd, yd)
    requires var m1 := Put(m, xd, Step(p, d), NONE);
             && Link(m1, xd, yd, p, d)
             && (forall q, e :: Link(m1, xd, yd, q, e) <==> Link(m2, xd, yd, q, e))
             && Marked(m2, xd, yd) == Marked(m, xd, yd) + ReachSet(m1, xd, yd, p)
    ensures forall q :: q in Marked(m2, xd, yd) ==> Reachable(m2, xd, yd, {}, START, q)
  {
    var m1 := Put(m, xd, Step(p, d), NONE);
    DigKeepsLinks(m, xd, yd, p, d);
    ReachKept(m, m2, xd, yd, {}, {}, START, Jump(p, d));
    LinkBack(m2, xd, yd, p, d);
    ReachStep(m2, xd, yd, {}, START, Jump(p, d), Opposite(d));
    forall q | q in Marked(m2, xd, yd)
      ensures Reachable(m2, xd, yd, {}, START, q)
    {
      if q in Marked(m, xd, yd) {
        ReachKept(m, m2, xd, yd, {}, {}, START, q);
      } else {
        ReachKept(m1, m2, xd, yd, Marked(m1, xd, yd), {}, p, q);
        ReachJoin(m2, xd, yd, START, p, q);
      }
    }
  }

  /** The wall of p in direction d has been opened and everything p then reaches has been marked. */
  ghost predicate JoinedAt(m: Grid, m': Grid, xd: int, yd: int, p: Pt, d: Dir) {
    var open := Put(m, xd, Step(p, d), NONE);
    MarksAdded(open, m', xd, ReachSet(open, xd, yd, p))
  }

  /** The neighbour in direction d is the first marked one in the order up, left, right, down. */
  ghost predicate FirstNeighbour(m: Grid, xd: int, yd: int, p: Pt, d: Dir) {
    var marked := Marked(m, xd, yd);
    && Jump(p, d) in marked
    && (d != Up ==> Jump(p, Up) !in marked)
    && (d == Right || d == Down ==> Jump(p, Left) !in marked)
    && (d == Down ==> Jump(p, Right) !in marked)
  }

  /** An unmarked node next to a marked one: the next wall to knock down. */
  ghost predicate Frontier(m: Grid, xd: int, yd: int, p: Pt) {
    IsNode(xd, yd, p) && p !in Marked(m, xd, yd) && exists d :: Jump(p, d) in Marked(m, xd, yd)
  }

  /** While a node is unmarked there is a frontier node: walk from it towards (1,1). */
  lemma {:induction false} FrontierExists(m: Grid, xd: int, yd: int, p: Pt) returns (q: Pt)
    requires ValidDims(xd, yd) && START in Marked(m, xd, yd)
    requires IsNode(xd, yd, p) && p !in Marked(m, xd, yd)
    ensures Frontier(m, xd, yd, q)
    decreases p.x + p.y
  {
    var d := if p.x > 1 then Left else Up;
    if Jump(p, d) in Marked(m, xd, yd) {
      q := p;
    } else {
      q := FrontierExists(m, xd, yd, Jump(p, d));
    }
  }

  lemma FrontierWhileIncomplete(m: Grid, xd: int, yd: int) returns (q: Pt)
    requires ValidDims(xd, yd) && START in Marked(m, xd, yd)
    requires |Marked(m, xd, yd)| < xd * yd
    ensures Frontier(m, xd, yd, q)
  {
    NodesSize(xd, yd);
    if Nodes(xd, yd) <= Marked(m, xd, yd) {
      SubsetSize(Nodes(xd, yd), Marked(m, xd, yd));
    }
    var p :| p in Nodes(xd, yd) && p !in Marked(m, xd, yd);
    q := FrontierExists(m, xd, yd, p);
  }

  /** The scan order of the repair loop: nodes row by row. */
  function Rank(xd: int, p: Pt): int {
    p.x / 2 + (p.y / 2) * xd
  }

  function NextInScan(xd: int, yd: int, p: Pt): Pt {
    if p.x + 2 <= 2 * xd then Pt(p.x + 2, p.y)
    else Pt(p.x + 2 - 2 * xd, if p.y + 2 > 2 * yd then p.y + 2 - 2 * yd else p.y + 2)
  }

  /** Row j of an xd by yd grid and the rows above and below it. */
  lemma GridRows(xd: int, yd: int, j: int)
    requires 0 < xd && 0 <= j < yd
    ensures 0 <= j * xd && (j + 1) * xd == j * xd + xd
    ensures if j + 1 == yd then xd * yd == j * xd + xd else xd * yd >= j * xd + 2 * xd
  {
    var below := yd - j - 1;
    assert xd * yd == xd * (j + 1 + below) == xd * (j + 1) + xd * below;
    if below > 0 {
      assert xd * below == xd * (below - 1) + xd;
      assert xd * (below - 1) >= 0;
    }
  }

  /** Row-by-row numbering of an xd by yd grid. */
  lemma GridRank(xd: int, yd: int, i: int, j: int)
    requires 0 <= i < xd && 0 <= j < yd
    ensures 0 <= i + j * xd < xd * yd
    ensures i + 1 == xd && j + 1 == yd <==> i + j * xd + 1 == xd * yd
    ensures i + 1 == xd ==> i + j * xd + 1 == (j + 1) * xd
  {
    GridRows(xd, yd, j);
    var r, n := j * xd, xd * yd;
    assert if j + 1 == yd then n == r + xd else n >= r + 2 * xd;
  }

  lemma RankOfNode(xd: int, i: int, j: int)
    ensures Rank(xd, Pt(2 * i + 1, 2 * j + 1)) == i + j * xd
  {
  }

  lemma NodeCoordinates(xd: int, yd: int, p: Pt) returns (i: int, j: int)
    requires IsNode(xd, yd, p)
    ensures p == Pt(2 * i + 1, 2 * j + 1) && 0 <= i < xd && 0 <= j < yd
  {
    i, j := p.x / 2, p.y / 2;
  }

  /** The scan visits the nodes cyclically in the order of their ranks. */
  lemma ScanIsCyclic(xd: int, yd: int, p: Pt)
    requires ValidDims(xd, yd) && IsNode(xd, yd, p)
    ensures IsNode(xd, yd, NextInScan(xd, yd, p))
    ensures 0 <= Rank(xd, p) < xd * yd
    ensures Rank(xd, NextInScan(xd, yd, p)) == if Rank(xd, p) + 1 == xd * yd then 0 else Rank(xd, p) + 1
  {
    var i, j := NodeCoordinates(xd, yd, p);
    GridRank(xd, yd, i, j);
    RankOfNode(xd, i, j);
    if i + 1 < xd {
      RankOfNode(xd, i + 1, j);
    } else if j + 1 < yd {
      RankOfNode(xd, 0, j + 1);
    } else {
      RankOfNode(xd, 0, 0);
    }
  }

  lemma RankInjective(xd: int, yd: int, p: Pt, q: Pt)
    requires ValidDims(xd, yd) && IsNode(xd, yd, p) && IsNode(xd, yd, q)
    requires Rank(xd, p) == Rank(xd, q)
    ensures p == q
  {
    var i, j := NodeCoordinates(xd, yd, p);
    var k, l := NodeCoordinates(xd, yd, q);
    RankOfNode(xd, i, j);
    RankOfNode(xd, k, l);
    assert j * xd - l * xd == (j - l) * xd;
    RowsApart(j - l, xd);
  }

  /** How many further scan steps lead from p to the target, given that the next step is made. */
  function ScanDistance(xd: int, yd: int, p: Pt, target: Pt): int {
    var gap := Rank(xd, target) - Rank(xd, p) - 1;
    if gap >= 0 then gap else gap + xd * yd
  }

  /** A scan step that does not land on the target comes closer to it. */
  lemma ScanApproaches(xd: int, yd: int, p: Pt, target: Pt)
    requires ValidDims(xd, yd) && IsNode(xd, yd, p) && IsNode(xd, yd, target)
    requires NextInScan(xd, yd, p) != target
    ensures 0 <= ScanDistance(xd, yd, NextInScan(xd, yd, p), target) < ScanDistance(xd, yd, p, target)
  {
    ScanIsCyclic(xd, yd, p);
    ScanIsCyclic(xd, yd, target);
    if Rank(xd, NextInScan(xd, yd, p)) == Rank(xd, target) {
      RankInjective(xd, yd, NextInScan(xd, yd, p), target);
    }
  }

  /** What the repair loop knows between rounds; target is a frontier node to scan for. */
  ghost predicate Repairing(m: Grid, xd: int, yd: int, p: Pt, remaining: int, target: Pt) {
    && ValidDims(xd, yd)
    && Connecting(m, xd, yd)
    && Opened(m, xd, yd)
    && IsNode(xd, yd, p) && IsNode(xd, yd, target)
    && remaining == xd * yd - |Marked(m, xd, yd)|
    && (remaining > 0 ==> Frontier(m, xd, yd, target))
  }

  function TrialsLeft(trials: nat): nat {
    if trials < 100 then 100 - trials else 0
  }

  /** Shape of the maze during repair: nodes are open, fixed walls stand, only nodes are marked. */
  ghost predicate Opened(m: Grid, xd: int, yd: int) {
    && |m| == MAZE_SIZE
    && (forall p: Pt :: 0 <= p.x <= 2 * xd ==> At(m, xd, p).fruit == 0 && !At(m, xd, p).exit)
    && (forall p: Pt :: 0 <= p.x <= 2 * xd && !Diggable(xd, yd, p) ==> At(m, xd, p) == WALL)
    && (forall p: Pt :: IsNode(xd, yd, p) ==> !At(m, xd, p).wall)
    && (forall p: Pt :: 0 <= p.x <= 2 * xd && !IsNode(xd, yd, p) ==> !At(m, xd, p).reach)
  }

  lemma OpenedMarks(m: Grid, m': Grid, xd: int, yd: int, s: set<Pt>)
    requires Opened(m, xd, yd) && MarksAdded(m, m', xd, s) && s <= Nodes(xd, yd)
    ensures Opened(m', xd, yd)
  {
  }

  lemma OpenedDig(m: Grid, xd: int, yd: int, p: Pt)
    requires ValidDims(xd, yd) && Opened(m, xd, yd) && Diggable(xd, yd, p) && !IsNode(xd, yd, p)
    ensures Opened(Put(m, xd, p, NONE), xd, yd)
  {
    PutChangesOnePoint(m, xd, yd, p, NONE);
  }
}
