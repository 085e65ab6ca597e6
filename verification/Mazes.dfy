/** Maze generation as maze.c performs it, in place on the maze array. */
module Mazes {
  import opened Lattice
  import opened Pictures
  import opened Reach
  import opened Search
  import opened Repair
  import opened Rules
  import opened Worms

  class Maze {
    const cells: array<Cell>
    const blocks: Blocks
    var xd: int
    var yd: int
    var fruits: int
    var exit: Pt
    /** The results of random() still to come. */
    var draws: seq<nat>

    ghost predicate Ready()
      reads this
    {
      cells.Length == MAZE_SIZE && ValidDims(xd, yd)
    }

    ghost function Model(): MazeState
      reads this, cells
    {
      MazeState(cells[..], xd, yd, fruits, exit)
    }

    constructor (blocks: Blocks, draws: seq<nat>)
      ensures cells.Length == MAZE_SIZE && fresh(cells) && this.blocks == blocks && this.draws == draws
    {
      this.blocks := blocks;
      cells := new Cell[MAZE_SIZE](_ => NONE);
      xd, yd, fruits, exit := 0, 0, 0, START;
      this.draws := draws;
    }

    method Random() returns (r: nat)
      requires draws != []
      modifies this`draws
      ensures r == old(draws)[0] && draws == old(draws)[1..]
    {
      r := draws[0];
      draws := draws[1..];
    }

    /** Mark the point t at index far and append it to the queue. */
    method Enqueue(q: array<int>, qEnd: int, far: int, ghost m0: Grid, ghost u: Pt, ghost pts: seq<Pt>, ghost t: Pt) returns (end: int)
      requires Ready() && IsNode(xd, yd, t) && far == Idx(xd, t)
      requires Searching(m0, Put(cells[..], xd, t, At(cells[..], xd, t).(reach := true)), xd, yd, u, pts + [t])
      requires q.Length == QUEUE_SIZE && Holds(q[..], qEnd, xd, pts)
      modifies q, cells
      ensures cells[..] == Put(old(cells[..]), xd, t, At(old(cells[..]), xd, t).(reach := true))
      ensures Holds(q[..], end, xd, pts + [t])
    {
      ghost var m := cells[..];
      IdxBounds(xd, yd, t);
      QueueFits(m0, Put(m, xd, t, At(m, xd, t).(reach := true)), xd, yd, u, pts + [t]);
      cells[far] := cells[far].(reach := true);
      assert cells[..] == Put(m, xd, t, At(m, xd, t).(reach := true));
      q[qEnd] := far;
      end := qEnd + 1;
    }

    /** Look at one direction from the queue entry cur and enqueue what it newly reaches. */
    method Explore(q: array<int>, qEnd: int, cur: int, d: Dir,
                   ghost m0: Grid, ghost u: Pt, ghost pts: seq<Pt>, ghost k: nat)
      returns (end: int, ghost found: seq<Pt>)
      requires Ready() && BoundaryWalls(m0, xd, yd)
      requires Searching(m0, cells[..], xd, yd, u, pts)
      requires q.Length == QUEUE_SIZE && Holds(q[..], qEnd, xd, pts)
      requires k < |pts| && cur == Idx(xd, pts[k]) && AllExplored(cells[..], xd, pts, k)
      modifies q, cells
      ensures Searching(m0, cells[..], xd, yd, u, found) && Holds(q[..], end, xd, found)
      ensures k < |found| && found[k] == pts[k] && AllExplored(cells[..], xd, found, k)
      ensures ExploredTo(cells[..], xd, pts[k], d)
      ensures forall e :: ExploredTo(old(cells[..]), xd, pts[k], e) ==> ExploredTo(cells[..], xd, pts[k], e)
    {
      end, found := qEnd, pts;
      ghost var p, m := pts[k], cells[..];
      OffsetIsStep(xd, p, d);
      StepOnMap(xd, yd, p, d);
      SearchKeepsWalls(m0, m, xd, yd, u, pts, Step(p, d));
      if !cells[cur + Offset(xd, d)].wall {
        OpenMeansLink(m0, xd, yd, p, d);
        ghost var t := Jump(p, d);
        IdxBounds(xd, yd, t);
        var far := cur + 2 * Offset(xd, d);
        if !cells[far].reach {
          SearchGrows(m0, m, xd, yd, u, pts, k, d);
          ExploredStays(m0, m, xd, yd, u, pts, t, k);
          found := pts + [t];
          end := Enqueue(q, qEnd, far, m0, u, pts, t);
        }
      }
    }

    /** Look in all four directions from the queue entry cur. */
    method ExploreAround(q: array<int>, qEnd: int, cur: int,
                         ghost m0: Grid, ghost u: Pt, ghost pts: seq<Pt>, ghost k: nat)
      returns (end: int, ghost found: seq<Pt>)
      requires Ready() && BoundaryWalls(m0, xd, yd)
      requires Searching(m0, cells[..], xd, yd, u, pts)
      requires q.Length == QUEUE_SIZE && Holds(q[..], qEnd, xd, pts)
      requires k < |pts| && cur == Idx(xd, pts[k]) && AllExplored(cells[..], xd, pts, k)
      modifies q, cells
      ensures Searching(m0, cells[..], xd, yd, u, found) && Holds(q[..], end, xd, found)
      ensures k < |found| && AllExplored(cells[..], xd, found, k + 1)
    {
      end, found := Explore(q, qEnd, cur, Up, m0, u, pts, k);
      end, found := Explore(q, end, cur, Right, m0, u, found, k);
      end, found := Explore(q, end, cur, Down, m0, u, found, k);
      end, found := Explore(q, end, cur, Left, m0, u, found, k);
      ghost var m := cells[..];
      assert Explored(m, xd, pts[k]) by {
        forall e: Dir ensures ExploredTo(m, xd, pts[k], e) {
          match e case Up => case Right => case Down => case Left =>
        }
      }
    }

    /** Mark everything that can be reached from p through unmarked nodes; return how many. */
    method MarkMazeArea(p: Pt) returns (n: int)
      requires Ready() && IsNode(xd, yd, p) && BoundaryWalls(cells[..], xd, yd)
      modifies cells
      ensures MarksAdded(old(cells[..]), cells[..], xd, ReachSet(old(cells[..]), xd, yd, p))
      ensures n == |ReachSet(old(cells[..]), xd, yd, p)|
    {
      ghost var m0 := cells[..];
      var q := new int[QUEUE_SIZE](_ => 0);
      IdxBounds(xd, yd, p);
      SearchStart(m0, xd, yd, p);
      q[0] := Idx(xd, p);
      cells[q[0]] := cells[q[0]].(reach := true);
      ghost var pts := [p];
      assert cells[..] == Put(m0, xd, p, At(m0, xd, p).(reach := true));
      var qStart, qEnd := 0, 1;
      while qStart != qEnd
        invariant 0 <= qStart <= qEnd && Holds(q[..], qEnd, xd, pts)
        invariant Searching(m0, cells[..], xd, yd, p, pts)
        invariant AllExplored(cells[..], xd, pts, qStart)
        decreases QUEUE_SIZE - qStart
      {
        var cur := q[qStart];
        qStart := qStart + 1;
        qEnd, pts := ExploreAround(q, qEnd, cur, m0, p, pts, qStart - 1);
      }
      SearchDone(m0, cells[..], xd, yd, p, pts);
      n := qEnd;
    }

    /** Draw (odd, odd) points until one passes the test, or the random numbers run out. */
    method PickPoint(test: Cell -> bool) returns (found: bool, p: Pt)
      requires Ready()
      modifies this`draws
      ensures IsNode(xd, yd, p)
      ensures if found then test(At(cells[..], xd, p)) else |draws| < 2
      ensures found ==> FirstHit(cells[..], xd, yd, test, old(draws), draws, p)
      ensures |draws| <= |old(draws)|
    {
      ghost var m, k, before := cells[..], 0, draws;
      found, p := false, START;
      while !found && |draws| >= 2
        invariant IsNode(xd, yd, p) && 0 <= k
        invariant if found then HitAt(m, xd, yd, test, before, draws, p, k)
                  else Misses(m, xd, yd, test, before, k) && draws == before[2 * k..]
        decreases !found, |draws|
      {
        found, p := TryPoint(test);
        if !found {
          MissesMore(m, xd, yd, test, before, k);
          k := k + 1;
        }
      }
    }

    /** Draw one (odd, odd) point and test it. */
    method TryPoint(test: Cell -> bool) returns (found: bool, p: Pt)
      requires Ready() && |draws| >= 2
      modifies this`draws
      ensures p == Picked(xd, yd, old(draws)[0], old(draws)[1]) && IsNode(xd, yd, p)
      ensures found <==> test(At(cells[..], xd, p))
      ensures draws == old(draws)[2..]
    {
      var r := Random();
      var s := Random();
      PickedNode(xd, yd, r, s);
      p := Pt(r % xd * 2 + 1, s % yd * 2 + 1);
      IdxBounds(xd, yd, p);
      found := test(cells[Idx(xd, p)]);
    }

    /** The weight of one direction for a worm at p. */
    method DirectionWeight(p: Pt, pref: int, k: int) returns (w: int)
      requires Ready() && IsNode(xd, yd, p) && 0 <= pref < 4 && 0 <= k < 4
      ensures w == Weight(cells[..], xd, yd, p, pref, k)
    {
      w := 0;
      if Allowed(xd, yd, p, DirOf(k)) {
        AllowedStaysOnNodes(xd, yd, p, DirOf(k));
        IdxBounds(xd, yd, Jump(p, DirOf(k)));
        w := TurnWeight((pref + 4 - k) % 4, cells[Idx(xd, Jump(p, DirOf(k)))] == WALL);
      }
    }

    /** Choose a direction for a worm at p: cumulative weights, then the share that holds the pick. */
    method ChooseTurn(p: Pt, pref: int) returns (dir: int)
      requires Ready() && IsNode(xd, yd, p) && 0 <= pref < 4 && draws != []
      modifies this`draws
      ensures draws == old(draws)[1..]
      ensures var total := Cumulative(cells[..], xd, yd, p, pref, 4);
              total > 0 && Chosen(cells[..], xd, yd, p, pref, old(draws)[0] % total, dir)
    {
      ghost var m := cells[..];
      var wt := [0, 0, 0, 0];
      var total := 0;
      for k := 0 to 4
        invariant draws == old(draws) && total == Cumulative(m, xd, yd, p, pref, k)
        invariant |wt| == 4 && forall j :: 0 <= j < k ==> wt[j] == Cumulative(m, xd, yd, p, pref, j + 1)
      {
        var w := DirectionWeight(p, pref, k);
        total := total + w;
        wt := wt[k := total];
      }
      TotalPositive(m, xd, yd, p, pref);
      var r := Random();
      var pick := r % total;
      dir := 0;
      while pick >= wt[dir]
        invariant 0 <= dir < 4 && Cumulative(m, xd, yd, p, pref, dir) <= pick
        decreases 4 - dir
      {
        dir := dir + 1;
      }
    }

    /** Empty a cell that may be dug. */
    method DigAt(p: Pt)
      requires Ready() && Digging(cells[..], xd, yd) && Diggable(xd, yd, p)
      modifies cells
      ensures cells[..] == Put(old(cells[..]), xd, p, NONE)
      ensures Digging(cells[..], xd, yd)
      ensures Solid(cells[..], xd, yd) == Solid(old(cells[..]), xd, yd) - {p}
    {
      ghost var m := cells[..];
      IdxBounds(xd, yd, p);
      Dig(m, xd, yd, p);
      cells[Idx(xd, p)] := NONE;
      assert cells[..] == Put(m, xd, p, NONE);
    }

    /** One move of a worm: through the wall in direction dir, eating the wall of the next node. */
    method MoveWorm(p: Pt, dir: Dir, remaining: int) returns (q: Pt, left: int)
      requires Ready() && Digging(cells[..], xd, yd) && IsNode(xd, yd, p) && Allowed(xd, yd, p, dir)
      requires remaining == |Solid(cells[..], xd, yd)|
      modifies cells
      ensures q == Jump(p, dir) && IsNode(xd, yd, q)
      ensures cells[..] == Put(Put(old(cells[..]), xd, Step(p, dir), NONE), xd, q, NONE)
      ensures Digging(cells[..], xd, yd)
      ensures Solid(cells[..], xd, yd) == Solid(old(cells[..]), xd, yd) - {q}
      ensures left == |Solid(cells[..], xd, yd)|
    {
      AllowedStaysOnNodes(xd, yd, p, dir);
      SolidIff(cells[..], xd, yd, Step(p, dir));
      DigAt(Step(p, dir));
      q, left := Jump(p, dir), remaining;
      IdxBounds(xd, yd, q);
      SolidIff(cells[..], xd, yd, q);
      if cells[Idx(xd, q)] == WALL {
        left := left - 1;
      }
      DigAt(q);
    }

    /** Let a worm choose its next turn. It goes there unless that is straight back, which ends it. */
    method TurnWorm(p: Pt, pref: int, remaining: int, ghost m0: Grid, ghost p0: Pt, ghost d0: seq<nat>, ghost trail: seq<Dir>)
      returns (ended: bool, q: Pt, dir: int, left: int, ghost longer: seq<Dir>)
      requires Ready() && Digging(cells[..], xd, yd) && IsNode(xd, yd, p) && draws != []
      requires Crawling(m0, cells[..], xd, yd, p0, p, d0, draws, trail, pref)
      requires remaining == |Solid(cells[..], xd, yd)|
      modifies this`draws, cells
      ensures if ended then TurnedBack(m0, cells[..], xd, yd, p0, q, d0, draws, longer)
              else Crawling(m0, cells[..], xd, yd, p0, q, d0, draws, longer, dir)
      ensures Digging(cells[..], xd, yd) && IsNode(xd, yd, q) && left == |Solid(cells[..], xd, yd)|
      ensures Solid(cells[..], xd, yd) <= Solid(old(cells[..]), xd, yd) && |draws| < |old(draws)|
    {
      ghost var m, rest := cells[..], draws;
      dir := ChooseTurn(p, pref);
      ghost var total := Cumulative(m, xd, yd, p, pref, 4);
      ChosenIsAllowed(m, xd, yd, p, pref, rest[0] % total, dir);
      Turned(m0, m, xd, yd, p0, p, d0, rest, trail, pref, dir);
      ended, q, left, longer := (dir + 4 - pref) % 4 == 2, p, remaining, trail;
      if !ended {
        longer := trail + [DirOf(dir)];
        q, left := MoveWorm(p, DirOf(dir), remaining);
      }
    }

    /** Drop a worm on solid node p0 and let it dig until it turns back on itself. */
    method DigWorm(p0: Pt, remaining: int) returns (done: bool, p: Pt, left: int, ghost trail: seq<Dir>)
      requires Ready() && Digging(cells[..], xd, yd) && p0 in Solid(cells[..], xd, yd)
      requires remaining == |Solid(cells[..], xd, yd)|
      modifies this`draws, cells
      ensures Digging(cells[..], xd, yd) && IsNode(xd, yd, p)
      ensures Solid(cells[..], xd, yd) < Solid(old(cells[..]), xd, yd)
      ensures left == |Solid(cells[..], xd, yd)|
      ensures if done then TurnedBack(old(cells[..]), cells[..], xd, yd, p0, p, old(draws), draws, trail)
              else draws == []
    {
      ghost var m0, d0, solid := cells[..], draws, Solid(cells[..], xd, yd);
      DigAt(p0);
      done, p, left, trail := false, p0, remaining - 1, [];
      if draws == [] {
        return;
      }
      Born(m0, xd, yd, p0, d0);
      var r := Random();
      var pref := r % 4;
      while !done && draws != []
        invariant Digging(cells[..], xd, yd) && IsNode(xd, yd, p)
        invariant Solid(cells[..], xd, yd) < solid && left == |Solid(cells[..], xd, yd)|
        invariant if done then TurnedBack(m0, cells[..], xd, yd, p0, p, d0, draws, trail)
                  else Crawling(m0, cells[..], xd, yd, p0, p, d0, draws, trail, pref)
        decreases !done, |draws|
      {
        done, p, pref, left, trail := TurnWorm(p, pref, left, m0, p0, d0, trail);
      }
    }

    /** Pick a solid node and let a worm dig from there. */
    method OneWorm(remaining: int) returns (done: bool, p: Pt, left: int)
      requires Ready() && Digging(cells[..], xd, yd) && remaining == |Solid(cells[..], xd, yd)|
      modifies this`draws, cells
      ensures Digging(cells[..], xd, yd) && IsNode(xd, yd, p) && left == |Solid(cells[..], xd, yd)|
      ensures if done then left < remaining else |draws| < 2
    {
      left := remaining;
      done, p := PickPoint((c: Cell) => c.wall);
      if done {
        ghost var solid := Solid(cells[..], xd, yd);
        assert p in solid;
        ghost var trail;
        done, p, left, trail := DigWorm(p, remaining);
        SubsetIsSmaller(Solid(cells[..], xd, yd), solid);
      }
    }

    /** Dig with worms until every node is open. */
    method WormPhase() returns (done: bool, p: Pt)
      requires Ready() && Digging(cells[..], xd, yd) && |Solid(cells[..], xd, yd)| == xd * yd
      modifies this`draws, cells
      ensures IsNode(xd, yd, p)
      ensures done ==> Digging(cells[..], xd, yd) && Solid(cells[..], xd, yd) == {}
      ensures !done ==> |draws| < 2
    {
      var remaining := xd * yd;
      p, done := START, true;
      var again := true;
      assert remaining > 0;
      while again && done
        invariant Digging(cells[..], xd, yd) && IsNode(xd, yd, p)
        invariant remaining == |Solid(cells[..], xd, yd)|
        invariant done ==> (again <==> remaining > 0)
        invariant !done ==> |draws| < 2
        decreases done, remaining
      {
        done, p, remaining := OneWorm(remaining);
        again := remaining > 0;
      }
    }

    /** Knock down the wall between p and its marked neighbour, then mark what p reaches. */
    method JoinRegion(p: Pt, d: Dir) returns (gain: int)
      requires Ready() && Connecting(cells[..], xd, yd) && Opened(cells[..], xd, yd)
      requires IsNode(xd, yd, p) && p !in Marked(cells[..], xd, yd) && Jump(p, d) in Marked(cells[..], xd, yd)
      modifies cells
      ensures Connecting(cells[..], xd, yd) && Opened(cells[..], xd, yd)
      ensures 0 < gain == |Marked(cells[..], xd, yd)| - |Marked(old(cells[..]), xd, yd)|
      ensures JoinedAt(old(cells[..]), cells[..], xd, yd, p, d)
    {
      ghost var m := cells[..];
      OffsetIsStep(xd, p, d);
      StepOnMap(xd, yd, p, d);
      AllowedStaysOnNodes(xd, yd, p, d);
      DigBetween(m, xd, yd, p, d);
      OpenedDig(m, xd, yd, Step(p, d));
      cells[Idx(xd, p) + Offset(xd, d)] := NONE;
      ghost var m1 := cells[..];
      assert m1 == Put(m, xd, Step(p, d), NONE);
      gain := MarkMazeArea(p);
      RegionJoined(m, cells[..], xd, yd, p, d);
      OpenedMarks(m1, cells[..], xd, yd, ReachSet(m1, xd, yd, p));
    }

    /** Whether the node two cells away in direction d exists and is marked. */
    method MarkedNeighbour(p: Pt, d: Dir) returns (marked: bool)
      requires Ready() && IsNode(xd, yd, p)
      ensures marked <==> Jump(p, d) in Marked(cells[..], xd, yd)
    {
      AllowedStaysOnNodes(xd, yd, p, d);
      OffsetIsStep(xd, p, d);
      marked := false;
      if Allowed(xd, yd, p, d) {
        IdxBounds(xd, yd, Jump(p, d));
        marked := cells[Idx(xd, p) + 2 * Offset(xd, d)].reach;
      }
    }

    /** Try to connect unmarked node p to a marked neighbour; gain is the number of new marks. */
    method TryConnect(p: Pt) returns (gain: int, ghost d: Dir)
      requires Ready() && Connecting(cells[..], xd, yd) && Opened(cells[..], xd, yd)
      requires IsNode(xd, yd, p) && p !in Marked(cells[..], xd, yd)
      modifies cells
      ensures Connecting(cells[..], xd, yd) && Opened(cells[..], xd, yd)
      ensures gain == |Marked(cells[..], xd, yd)| - |Marked(old(cells[..]), xd, yd)|
      ensures Frontier(old(cells[..]), xd, yd, p) ==> gain > 0
      ensures !Frontier(old(cells[..]), xd, yd, p) ==> cells[..] == old(cells[..])
      ensures Frontier(old(cells[..]), xd, yd, p) ==>
                FirstNeighbour(old(cells[..]), xd, yd, p, d) && JoinedAt(old(cells[..]), cells[..], xd, yd, p, d)
    {
      var up := MarkedNeighbour(p, Up);
      var left := MarkedNeighbour(p, Left);
      var right := MarkedNeighbour(p, Right);
      var down := MarkedNeighbour(p, Down);
      gain, d := 0, if up then Up else if left then Left else if right then Right else Down;
      if up {
        gain := JoinRegion(p, Up);
      } else if left {
        gain := JoinRegion(p, Left);
      } else if right {
        gain := JoinRegion(p, Right);
      } else if down {
        gain := JoinRegion(p, Down);
      } else {
        forall e: Dir ensures Jump(p, e) !in Marked(cells[..], xd, yd) {
          match e case Up => case Right => case Down => case Left =>
        }
      }
    }

    /** Choose the next node to look at: a random unmarked one while many remain and trials are
        left, otherwise the next one of the scan. */
    method NextCandidate(p: Pt, remaining: int, trials: nat) returns (done: bool, q: Pt, tried: nat, unmarked: bool)
      requires Ready() && IsNode(xd, yd, p)
      modifies this`draws
      ensures IsNode(xd, yd, q)
      ensures !done ==> |draws| < 2
      ensures done ==> (unmarked <==> q !in Marked(cells[..], xd, yd))
      ensures done ==> (TrialsLeft(tried) <= TrialsLeft(trials) && q == NextInScan(xd, yd, p)) || TrialsLeft(tried) < TrialsLeft(trials)
      ensures done && remaining < 20 ==> q == NextInScan(xd, yd, p)
    {
      done, q, tried, unmarked := true, p, trials, true;
      if remaining >= 20 {
        tried := trials + 1;
      }
      if remaining < 20 || tried > 100 {
        q, unmarked := ScanNext(p);
      } else {
        done, q := PickPoint((c: Cell) => !c.reach);
      }
    }

    /** One round of the repair loop. Unless the random numbers run out, the number of unmarked
        nodes, the random trials left or the scan distance to a frontier node goes down. */
    method RepairRound(p: Pt, remaining: int, trials: nat, ghost target: Pt)
      returns (done: bool, q: Pt, left: int, tried: nat, ghost next: Pt)
      requires Ready() && Repairing(cells[..], xd, yd, p, remaining, target)
      modifies this`draws, cells
      ensures Repairing(cells[..], xd, yd, q, left, next)
      ensures !done ==> |draws| < 2
      ensures left <= remaining
      ensures done && 0 < left == remaining ==> next == target && TrialsLeft(tried) <= TrialsLeft(trials)
      ensures done && 0 < left == remaining && TrialsLeft(tried) == TrialsLeft(trials) ==>
                0 <= ScanDistance(xd, yd, q, target) < ScanDistance(xd, yd, p, target)
    {
      var unmarked;
      left, next := remaining, target;
      done, q, tried, unmarked := NextCandidate(p, remaining, trials);
      if done && unmarked {
        var gain, _ := TryConnect(q);
        left := remaining - gain;
        if gain > 0 && left > 0 {
          next := FrontierWhileIncomplete(cells[..], xd, yd);
        }
      }
      if done && 0 < left == remaining && q == NextInScan(xd, yd, p) {
        ScanApproaches(xd, yd, p, target);
      }
    }

    /** Open walls until every node is marked: random picks first, then a cyclic scan. */
    method RepairPhase(p0: Pt, reached: int) returns (done: bool)
      requires Ready() && Connecting(cells[..], xd, yd) && Opened(cells[..], xd, yd)
      requires IsNode(xd, yd, p0) && reached == |Marked(cells[..], xd, yd)|
      modifies this`draws, cells
      ensures Connecting(cells[..], xd, yd) && Opened(cells[..], xd, yd)
      ensures if done then Marked(cells[..], xd, yd) == Nodes(xd, yd) && Connected(cells[..], xd, yd) else |draws| < 2
    {
      var remaining, trials, p := xd * yd - reached, 0, p0;
      ghost var target := START;
      if remaining > 0 {
        target := FrontierWhileIncomplete(cells[..], xd, yd);
      }
      var again := true;
      done := true;
      while again && done
        invariant Repairing(cells[..], xd, yd, p, remaining, target)
        invariant !done ==> |draws| < 2
        invariant done ==> again || remaining <= 0
        decreases again && done, remaining, TrialsLeft(trials), ScanDistance(xd, yd, p, target)
      {
        done, p, remaining, trials, target := RepairRound(p, remaining, trials, target);
        again := remaining > 0;
      }
      if done {
        AllMarkedConnects(cells[..], xd, yd);
      }
    }

    /** Advance to the next node of the scan and see whether it is still unmarked. */
    method ScanNext(p: Pt) returns (q: Pt, unmarked: bool)
      requires Ready() && IsNode(xd, yd, p)
      ensures q == NextInScan(xd, yd, p) && IsNode(xd, yd, q)
      ensures unmarked <==> q !in Marked(cells[..], xd, yd)
    {
      ScanIsCyclic(xd, yd, p);
      var x, y := p.x + 2, p.y;
      if x > xd * 2 {
        x := x - xd * 2;
        y := y + 2;
        if y > 2 * yd {
          y := y - 2 * yd;
        }
      }
      q := Pt(x, y);
      IdxBounds(xd, yd, q);
      unmarked := !cells[Idx(xd, q)].reach;
    }

    /** Both phases: worms dig the maze, then the repair connects it. */
    method DigConnectedMaze() returns (done: bool)
      requires Ready()
      modifies this`draws, cells
      ensures done ==> Opened(cells[..], xd, yd) && Connected(cells[..], xd, yd)
      ensures !done ==> |draws| < 2
    {
      forall i | 0 <= i < cells.Length {
        cells[i] := WALL;
      }
      AllWalls(cells[..], xd, yd);
      var p;
      done, p := WormPhase();
      if done {
        ghost var m0 := cells[..];
        DugMazeOpened(m0, xd, yd);
        var reached := MarkMazeArea(START);
        StartConnected(m0, cells[..], xd, yd);
        OpenedMarks(m0, cells[..], xd, yd, ReachSet(m0, xd, yd, START));
        done := RepairPhase(p, reached);
      }
    }

    /** Clear the mark of one node. */
    method ClearMark(p: Pt)
      requires Ready() && IsNode(xd, yd, p)
      modifies cells
      ensures cells[..] == Put(old(cells[..]), xd, p, At(old(cells[..]), xd, p).(reach := false))
      ensures forall q: Pt :: 0 <= q.x <= 2 * xd ==>
                At(cells[..], xd, q) == if q == p then At(old(cells[..]), xd, q).(reach := false) else At(old(cells[..]), xd, q)
    {
      ghost var m := cells[..];
      IdxBounds(xd, yd, p);
      PutChangesOnePoint(m, xd, yd, p, At(m, xd, p).(reach := false));
      cells[Idx(xd, p)] := cells[Idx(xd, p)].(reach := false);
      assert cells[..] == Put(m, xd, p, At(m, xd, p).(reach := false));
    }

    /** Clear the marks of column x. */
    method ClearColumn(x: int, ghost m: Grid)
      requires Ready() && x % 2 == 1 && 0 < x < 2 * xd && MarksCleared(m, cells[..], xd, yd, x, 1)
      modifies cells
      ensures MarksCleared(m, cells[..], xd, yd, x + 2, 1)
    {
      var y := 1;
      while y < 2 * yd
        invariant y % 2 == 1 && 1 <= y <= 2 * yd + 1
        invariant MarksCleared(m, cells[..], xd, yd, x, y)
      {
        ghost var m1 := cells[..];
        ClearMark(Pt(x, y));
        MarkCleared(m, m1, cells[..], xd, yd, x, y);
        y := y + 2;
      }
      ColumnCleared(m, cells[..], xd, yd, x, y);
    }

    /** Remove the marks of the search. */
    method ClearMarks()
      requires Ready()
      modifies cells
      ensures Unmarked(old(cells[..]), cells[..], xd, yd)
    {
      ghost var m := cells[..];
      ClearingStarts(m, xd, yd);
      var x := 1;
      while x < 2 * xd
        invariant x % 2 == 1 && 1 <= x <= 2 * xd + 1
        invariant MarksCleared(m, cells[..], xd, yd, x, 1)
      {
        ClearColumn(x, m);
        x := x + 2;
      }
      ClearingEnds(m, cells[..], xd, yd, x);
    }

    /** Remove every wall inside the boundary. */
    method RemoveWalls()
      requires Ready()
      modifies cells
      ensures Emptied(old(cells[..]), cells[..], xd, yd)
    {
      ghost var m := cells[..];
      for x := 1 to 2 * xd
        invariant WallsRemoved(m, cells[..], xd, yd, x, 1)
      {
        for y := 1 to 2 * yd
          invariant WallsRemoved(m, cells[..], xd, yd, x, y)
        {
          ghost var m1 := cells[..];
          var p := Pt(x, y);
          IdxBounds(xd, yd, p);
          cells[Idx(xd, p)] := NONE;
          PutChangesOnePoint(m1, xd, yd, p, NONE);
          assert cells[..] == Put(m1, xd, p, NONE);
        }
      }
    }

    /** Put a random fruit on a random node without one. */
    method PlaceFruit() returns (done: bool, p: Pt, fruit: Fruit)
      requires Ready()
      modifies this`draws, this`fruits, cells
      ensures IsNode(xd, yd, p)
      ensures !done ==> |draws| < 2 && cells[..] == old(cells[..]) && fruits == old(fruits)
      ensures done ==> fruit != 0 && At(old(cells[..]), xd, p).fruit == 0 && fruits == old(fruits) + 1
      ensures done ==> exists r :: r in old(draws) && fruit == r % 7 + 1
      ensures done ==> cells[..] == Put(old(cells[..]), xd, p, At(old(cells[..]), xd, p).(fruit := fruit))
    {
      fruit := 0;
      ghost var m, d0 := cells[..], draws;
      var test := (c: Cell) => c.fruit == 0;
      done, p := PickPoint(test);
      if done && draws != [] {
        HitLeavesRest(m, xd, yd, test, d0, draws, p);
        assert draws[0] in draws;
        var r := Random();
        fruit := r % 7 + 1;
        assert r in d0;
        IdxBounds(xd, yd, p);
        cells[Idx(xd, p)] := cells[Idx(xd, p)].(fruit := fruit);
        assert cells[..] == Put(m, xd, p, At(m, xd, p).(fruit := fruit));
        fruits := fruits + 1;
      } else {
        done := false;
      }
    }

    /** Create a maze of the given size with the given number of fruits and an exit. */
    method MakeMaze(xDim: int, yDim: int, startFruits: nat) returns (ret: int, done: bool)
      requires cells.Length == MAZE_SIZE
      modifies this`xd, this`yd, this`fruits, this`exit, this`draws, cells
      ensures ret == -1 <==> !ValidDims(xDim, yDim)
      ensures ret == -1 ==> done && cells[..] == old(cells[..]) && xd == old(xd) && yd == old(yd)
      ensures ret == 0 ==> xd == xDim && yd == yDim
      ensures ret == 0 && done ==> Playing(Model()) && Connected(cells[..], xd, yd) && fruits == startFruits
      ensures ret == 0 && done ==> Unseen(cells[..], xd)
      ensures !done ==> |draws| < 2
      ensures ret == 0 || ret == -1
    {
      if xDim < MIN_X_DIM || xDim > MAX_X_DIM || yDim < MIN_Y_DIM || yDim > MAX_Y_DIM {
        return -1, true;
      }
      ret, xd, yd := 0, xDim, yDim;
      done := DigConnectedMaze();
      if done {
        BareMaze();
        done := StockMaze(startFruits);
      }
    }

    /** Clear the marks, then remove all walls inside the boundary (GOD_MODE is set). */
    method BareMaze()
      requires Ready() && Opened(cells[..], xd, yd) && Connected(cells[..], xd, yd)
      modifies cells
      ensures Stocked(cells[..], xd, yd, 0) && Connected(cells[..], xd, yd)
    {
      ghost var m := cells[..];
      ClearMarks();
      UnmarkedMaze(m, cells[..], xd, yd);
      ghost var m1 := cells[..];
      RemoveWalls();
      EmptiedMaze(m1, cells[..], xd, yd);
    }

    /** Place the fruits one after the other. */
    method PlaceFruits(startFruits: nat) returns (done: bool)
      requires Ready() && Stocked(cells[..], xd, yd, 0)
      modifies this`fruits, this`draws, cells
      ensures if done then Stocked(cells[..], xd, yd, startFruits) && fruits == startFruits else |draws| < 2
      ensures OnlyFruitsChanged(old(cells[..]), cells[..], xd)
    {
      fruits, done := 0, true;
      var i := 0;
      while i < startFruits && done
        invariant 0 <= i <= startFruits && Stocked(cells[..], xd, yd, fruits)
        invariant OnlyFruitsChanged(old(cells[..]), cells[..], xd)
        invariant if done then fruits == i else |draws| < 2
      {
        ghost var m0, n := cells[..], fruits;
        var p, fruit;
        done, p, fruit := PlaceFruit();
        if done {
          StockFruit(m0, xd, yd, n, p, fruit);
        }
        i := i + 1;
      }
    }

    /** Make a node without fruit the exit. */
    method ChooseExit() returns (done: bool)
      requires Ready() && Stocked(cells[..], xd, yd, fruits)
      modifies this`exit, this`draws, cells
      ensures if done then Playing(Model()) && Unseen(cells[..], xd) else |draws| < 2
      ensures OnlyFruitsChanged(old(cells[..]), cells[..], xd)
    {
      var p;
      done, p := PickPoint((c: Cell) => c.fruit == 0);
      if done {
        ghost var m := cells[..];
        PlaceExit(m, xd, yd, fruits, p);
        PutChangesOnePoint(m, xd, yd, p, At(m, xd, p).(exit := true));
        IdxBounds(xd, yd, p);
        cells[Idx(xd, p)] := cells[Idx(xd, p)].(exit := true);
        assert cells[..] == Put(m, xd, p, At(m, xd, p).(exit := true));
        exit := p;
      }
    }

    /** Place the fruits, then the exit on a node without fruit. */
    method StockMaze(startFruits: nat) returns (done: bool)
      requires Ready() && Stocked(cells[..], xd, yd, 0) && Connected(cells[..], xd, yd)
      modifies this`fruits, this`exit, this`draws, cells
      ensures done ==> Playing(Model()) && Connected(cells[..], xd, yd) && fruits == startFruits && Unseen(cells[..], xd)
      ensures !done ==> |draws| < 2
    {
      ghost var m := cells[..];
      done := PlaceFruits(startFruits);
      if done {
        SameWallsConnected(m, cells[..], xd, yd);
        ghost var m1 := cells[..];
        done := ChooseExit();
        SameWallsConnected(m1, cells[..], xd, yd);
      }
    }

    /** The image number for a location; walls are drawn by their neighbours. */
    method FindBlock(p: Pt) returns (n: int)
      requires Ready() && 0 <= p.x <= 2 * xd && 0 <= p.y <= 2 * yd
      ensures n == BlockNo(Model(), p)
      ensures fruits == |FruitCells(cells[..])| ==> Depicts(Model(), p, n)
    {
      if fruits == |FruitCells(cells[..])| {
        BlockDepicts(Model(), p);
      }
      StencilInArray(xd, yd, p, Up);
      StencilInArray(xd, yd, p, Right);
      StencilInArray(xd, yd, p, Down);
      StencilInArray(xd, yd, p, Left);
      var c := cells[Idx(xd, p)];
      if fruits == 0 && c.exit {
        return BLOCK_EXIT;
      }
      if !c.reach {
        return if c.fruit != 0 then BLOCK_FRUIT_SHADOW else BLOCK_SHADOW;
      }
      if c.fruit != 0 {
        return BLOCK_FRUIT_1 + c.fruit - 1;
      }
      if !c.wall {
        return BLOCK_EMPTY;
      }
      n := (if cells[Idx(xd, Step(p, Up))].wall then 1 else 0)
        + (if cells[Idx(xd, Step(p, Right))].wall then 2 else 0)
        + (if cells[Idx(xd, Step(p, Down))].wall then 4 else 0)
        + (if cells[Idx(xd, Step(p, Left))].wall then 8 else 0);
    }

    /** The pixels of a horizontal line that starts at (x, y). */
    method FillHorizBuffer(x: int, y: int, buf: array<byte>)
      requires Ready() && buf.Length == 320
      requires OnPicture(xd, yd, x, y) && OnPicture(xd, yd, x + 319, y)
      modifies buf
      ensures forall i :: 0 <= i < 320 ==> buf[i] == Scenery(blocks, Model())(x + i, y)
    {
      var mapX, mapY := x / 12, y / 12;
      var subX, subY := x - mapX * 12, y - mapY * 12;
      var idx := 0;
      while idx < 320
        invariant 0 <= idx <= 320 && 0 <= subX < 12 && 0 <= subY < 12
        invariant idx < 320 ==> mapX * 12 + subX == x + idx
        invariant forall i :: 0 <= i < idx ==> buf[i] == Scene(blocks, Model(), x + i, y)
      {
        var n := FindBlock(Pt(mapX, mapY));
        var block := subY * 12 + subX;
        while idx < 320 && subX < 12
          invariant idx <= 320 && subX <= 12 && block == subY * 12 + subX
          invariant mapX * 12 + subX == x + idx
          invariant forall i :: 0 <= i < idx ==> buf[i] == Scene(blocks, Model(), x + i, y)
          decreases 320 - idx
        {
          assert (x + idx) / 12 == mapX && (x + idx) % 12 == subX;
          buf[idx] := blocks[n][block];
          block, idx, subX := block + 1, idx + 1, subX + 1;
        }
        mapX, subX := mapX + 1, 0;
      }
    }

    /** The pixels of a vertical line that starts at (x, y). */
    method FillVertBuffer(x: int, y: int, buf: array<byte>)
      requires Ready() && buf.Length == 182
      requires OnPicture(xd, yd, x, y) && OnPicture(xd, yd, x, y + 181)
      modifies buf
      ensures forall i :: 0 <= i < 182 ==> buf[i] == Scenery(blocks, Model())(x, y + i)
    {
      var mapX, mapY := x / 12, y / 12;
      var subX, subY := x - mapX * 12, y - mapY * 12;
      var idx := 0;
      while idx < 182
        invariant 0 <= idx <= 182 && 0 <= subX < 12 && 0 <= subY < 12
        invariant idx < 182 ==> mapY * 12 + subY == y + idx
        invariant forall i :: 0 <= i < idx ==> buf[i] == Scene(blocks, Model(), x, y + i)
      {
        var n := FindBlock(Pt(mapX, mapY));
        var block := subY * 12 + subX;
        while idx < 182 && subY < 12
          invariant idx <= 182 && subY <= 12 && block == subY * 12 + subX
          invariant mapY * 12 + subY == y + idx
          invariant forall i :: 0 <= i < idx ==> buf[i] == Scene(blocks, Model(), x, y + i)
          decreases 182 - idx
        {
          assert (y + idx) / 12 == mapY && (y + idx) % 12 == subY;
          buf[idx] := blocks[n][block];
          block, idx, subY := block + 12, idx + 1, subY + 1;
        }
        mapY, subY := mapY + 1, 0;
      }
    }

    /** Which directions are open to motion from p. */
    method FindOpenDirections(p: Pt, op: array<bool>)
      requires Ready() && Inside(xd, yd, p) && op.Length == 4
      modifies op
      ensures forall d: Dir :: op[DirNo(d)] == !At(cells[..], xd, Step(p, d)).wall
    {
      IdxBounds(xd, yd, Step(p, Up));
      IdxBounds(xd, yd, Step(p, Right));
      IdxBounds(xd, yd, Step(p, Down));
      IdxBounds(xd, yd, Step(p, Left));
      op[0] := !cells[Idx(xd, Step(p, Up))].wall;
      op[1] := !cells[Idx(xd, Step(p, Right))].wall;
      op[2] := !cells[Idx(xd, Step(p, Down))].wall;
      op[3] := !cells[Idx(xd, Step(p, Left))].wall;
    }
  }

  /** No location has been seen. */
  ghost predicate Unseen(m: Grid, xd: int) {
    forall p: Pt :: 0 <= p.x <= 2 * xd ==> !At(m, xd, p).reach
  }

  lemma ClearingStarts(m: Grid, xd: int, yd: int)
    ensures MarksCleared(m, m, xd, yd, 1, 1)
  {
  }

  lemma ClearingEnds(m: Grid, m': Grid, xd: int, yd: int, x: int)
    requires MarksCleared(m, m', xd, yd, x, 1) && x >= 2 * xd
    ensures Unmarked(m, m', xd, yd)
  {
    forall p: Pt | 0 <= p.x <= 2 * xd
      ensures At(m', xd, p) == if IsNode(xd, yd, p) then At(m, xd, p).(reach := false) else At(m, xd, p)
    {
      assert IsNode(xd, yd, p) ==> p.x < x;
    }
  }

  /** One more mark is gone. */
  lemma MarkCleared(m: Grid, m1: Grid, m2: Grid, xd: int, yd: int, x: int, y: int)
    requires MarksCleared(m, m1, xd, yd, x, y) && IsNode(xd, yd, Pt(x, y)) && |m2| == |m1|
    requires forall q: Pt :: 0 <= q.x <= 2 * xd ==>
               At(m2, xd, q) == if q == Pt(x, y) then At(m1, xd, q).(reach := false) else At(m1, xd, q)
    ensures MarksCleared(m, m2, xd, yd, x, y + 2)
  {
    forall p: Pt | 0 <= p.x <= 2 * xd
      ensures At(m2, xd, p) == if IsNode(xd, yd, p) && (p.x < x || (p.x == x && p.y < y + 2))
                               then At(m, xd, p).(reach := false) else At(m, xd, p)
    {
      if p.x == x && p.y == y + 1 {
        assert p.y % 2 == 0;
      }
    }
  }

  /** A column whose marks are gone, and the column to its right, in which there are none. */
  lemma ColumnCleared(m: Grid, m1: Grid, xd: int, yd: int, x: int, y: int)
    requires MarksCleared(m, m1, xd, yd, x, y) && y >= 2 * yd && x % 2 == 1
    ensures MarksCleared(m, m1, xd, yd, x + 2, 1)
  {
    forall p: Pt | 0 <= p.x <= 2 * xd
      ensures At(m1, xd, p) == if IsNode(xd, yd, p) && (p.x < x + 2 || (p.x == x + 2 && p.y < 1))
                               then At(m, xd, p).(reach := false) else At(m, xd, p)
    {
      if p.x == x + 1 {
        assert p.x % 2 == 0;
      }
    }
  }

  /** The first n slots of the queue hold the indices of pts. */
  ghost predicate Holds(q: seq<int>, n: int, xd: int, pts: seq<Pt>) {
    n == |pts| <= |q| && forall k :: 0 <= k < n ==> q[k] == Idx(xd, pts[k])
  }

  /** The marks of the nodes left of column x, and of those above row y in it, are gone. */
  ghost predicate MarksCleared(m: Grid, m': Grid, xd: int, yd: int, x: int, y: int) {
    |m'| == |m| && forall p: Pt :: 0 <= p.x <= 2 * xd ==>
      At(m', xd, p) == if IsNode(xd, yd, p) && (p.x < x || (p.x == x && p.y < y))
                       then At(m, xd, p).(reach := false) else At(m, xd, p)
  }

  /** The inside cells left of column x, and those above row y in it, are empty. */
  ghost predicate WallsRemoved(m: Grid, m': Grid, xd: int, yd: int, x: int, y: int) {
    |m'| == |m| && forall p: Pt :: 0 <= p.x <= 2 * xd ==>
      At(m', xd, p) == if Inside(xd, yd, p) && (p.x < x || (p.x == x && p.y < y)) then NONE else At(m, xd, p)
  }
}
