/** The state of a finished maze during play: fruit count, exit and open cells. */
module Rules {
  import opened Lattice
  import opened Reach
  import opened Search
  import opened Repair
  import opened Worms

  /** Everything maze.c knows of the maze: its array and the static variables beside it. */
  datatype MazeState = MazeState(cells: Grid, xd: int, yd: int, fruits: int, exit: Pt)

  /** The array indices of the cells that hold a fruit. */
  ghost function FruitCells(m: Grid): set<int> {
    set i | 0 <= i < |m| && m[i].fruit != 0
  }

  /** The invariant of a maze in play, apart from the marks, which show what has been seen. */
  ghost predicate Playing(s: MazeState) {
    && ValidDims(s.xd, s.yd)
    && |s.cells| == MAZE_SIZE
    && BoundaryWalls(s.cells, s.xd, s.yd)
    && (forall p :: Inside(s.xd, s.yd, p) ==> !At(s.cells, s.xd, p).wall)
    && (forall p: Pt :: 0 <= p.x <= 2 * s.xd && At(s.cells, s.xd, p).fruit != 0 ==> IsNode(s.xd, s.yd, p))
    && IsNode(s.xd, s.yd, s.exit)
    && (forall p: Pt :: 0 <= p.x <= 2 * s.xd ==> (At(s.cells, s.xd, p).exit <==> p == s.exit))
    && s.fruits == |FruitCells(s.cells)|
  }

  /** Before the exit is placed. */
  ghost predicate Stocked(m: Grid, xd: int, yd: int, fruits: int) {
    && ValidDims(xd, yd)
    && |m| == MAZE_SIZE
    && BoundaryWalls(m, xd, yd)
    && (forall p :: Inside(xd, yd, p) ==> !At(m, xd, p).wall)
    && (forall p: Pt :: 0 <= p.x <= 2 * xd && At(m, xd, p).fruit != 0 ==> IsNode(xd, yd, p))
    && (forall p: Pt :: 0 <= p.x <= 2 * xd ==> !At(m, xd, p).exit && !At(m, xd, p).reach)
    && fruits == |FruitCells(m)|
  }

  /** The maze with the marks of all nodes removed. */
  ghost predicate Unmarked(m: Grid, m': Grid, xd: int, yd: int) {
    |m'| == |m| && forall p: Pt :: 0 <= p.x <= 2 * xd ==>
      At(m', xd, p) == if IsNode(xd, yd, p) then At(m, xd, p).(reach := false) else At(m, xd, p)
  }

  /** Without its marks the repaired maze is again made of plain walls and empty cells, with
      every node open and connected to (1,1). */
  lemma UnmarkedMaze(m: Grid, m': Grid, xd: int, yd: int)
    requires ValidDims(xd, yd) && Opened(m, xd, yd) && Unmarked(m, m', xd, yd)
    ensures Digging(m', xd, yd) && Solid(m', xd, yd) == {}
    ensures Connected(m, xd, yd) ==> Connected(m', xd, yd)
  {
    forall p, d | Link(m, xd, yd, p, d) ensures Link(m', xd, yd, p, d) {
      assert 0 <= Step(p, d).x <= 2 * xd;
    }
    if Connected(m, xd, yd) {
      forall p | IsNode(xd, yd, p) ensures Reachable(m', xd, yd, {}, START, p) {
        ReachKept(m, m', xd, yd, {}, {}, START, p);
      }
    }
  }

  /** A dug maze without solid nodes has the shape the repair works on and no marks. */
  lemma DugMazeOpened(m: Grid, xd: int, yd: int)
    requires ValidDims(xd, yd) && Digging(m, xd, yd) && Solid(m, xd, yd) == {}
    ensures Opened(m, xd, yd) && BoundaryWalls(m, xd, yd) && Marked(m, xd, yd) == {}
  {
    forall p | IsNode(xd, yd, p) ensures !At(m, xd, p).wall {
      assert p in Nodes(xd, yd) && p !in Solid(m, xd, yd);
    }
  }

  /** The maze with every inside cell emptied. */
  ghost predicate Emptied(m: Grid, m': Grid, xd: int, yd: int) {
    |m'| == |m| && forall p: Pt :: 0 <= p.x <= 2 * xd ==>
      At(m', xd, p) == if Inside(xd, yd, p) then NONE else At(m, xd, p)
  }

  /** Removing all walls inside the boundary keeps the maze connected and leaves it bare. */
  lemma EmptiedMaze(m: Grid, m': Grid, xd: int, yd: int)
    requires ValidDims(xd, yd) && Digging(m, xd, yd) && Emptied(m, m', xd, yd)
    ensures Stocked(m', xd, yd, 0)
    ensures Connected(m, xd, yd) ==> Connected(m', xd, yd)
  {
    forall i | 0 <= i < |m'| ensures m'[i].fruit == 0 {
      var p := PointOf(xd, i);
      assert At(m', xd, p).fruit == 0;
    }
    assert FruitCells(m') == {};
    forall p, d | Link(m, xd, yd, p, d) ensures Link(m', xd, yd, p, d) {
      assert 0 <= Step(p, d).x <= 2 * xd;
    }
    if Connected(m, xd, yd) {
      forall p | IsNode(xd, yd, p) ensures Reachable(m', xd, yd, {}, START, p) {
        ReachKept(m, m', xd, yd, {}, {}, START, p);
      }
    }
  }

  /** The walls and marks of all cells are the same. */
  ghost predicate OnlyFruitsChanged(m: Grid, m': Grid, xd: int) {
    |m'| == |m| && forall p: Pt :: 0 <= p.x <= 2 * xd ==>
      At(m', xd, p).wall == At(m, xd, p).wall && At(m', xd, p).reach == At(m, xd, p).reach
  }

  lemma SameWallsConnected(m: Grid, m': Grid, xd: int, yd: int)
    requires OnlyFruitsChanged(m, m', xd) && Connected(m, xd, yd)
    ensures Connected(m', xd, yd)
  {
    forall p, d | Link(m, xd, yd, p, d) ensures Link(m', xd, yd, p, d) {
      assert 0 <= Step(p, d).x <= 2 * xd;
    }
    forall p | IsNode(xd, yd, p) ensures Reachable(m', xd, yd, {}, START, p) {
      ReachKept(m, m', xd, yd, {}, {}, START, p);
    }
  }

  /** Every index of the array is the index of a point. */
  lemma PointOf(xd: int, i: int) returns (p: Pt)
    requires xd > 0
    ensures Idx(xd, p) == i && 0 <= p.x < 2 * xd
  {
    var w := 2 * xd;
    p := Pt(i % w, i / w - 1);
    assert i == w * (i / w) + i % w;
  }

  /** Changing the fruit of one cell changes the set of fruit cells there and nowhere else. */
  lemma FruitChange(m: Grid, xd: int, yd: int, p: Pt, f: Fruit)
    requires ValidDims(xd, yd) && |m| == MAZE_SIZE && Inside(xd, yd, p)
    ensures 0 <= Idx(xd, p) < |m|
    ensures var m' := Put(m, xd, p, At(m, xd, p).(fruit := f));
            FruitCells(m') == if f == 0 then FruitCells(m) - {Idx(xd, p)} else FruitCells(m) + {Idx(xd, p)}
  {
    IdxBounds(xd, yd, p);
  }

  /** Placing a fruit on an open node without one adds one to the count. */
  lemma AddFruit(s: MazeState, p: Pt, f: Fruit)
    requires Playing(s) && IsNode(s.xd, s.yd, p) && At(s.cells, s.xd, p).fruit == 0 && f != 0
    ensures Playing(s.(cells := Put(s.cells, s.xd, p, At(s.cells, s.xd, p).(fruit := f)), fruits := s.fruits + 1))
  {
    PutChangesOnePoint(s.cells, s.xd, s.yd, p, At(s.cells, s.xd, p).(fruit := f));
    FruitChange(s.cells, s.xd, s.yd, p, f);
    assert Idx(s.xd, p) !in FruitCells(s.cells);
  }

  lemma StockFruit(m: Grid, xd: int, yd: int, n: int, p: Pt, f: Fruit)
    requires Stocked(m, xd, yd, n) && IsNode(xd, yd, p) && At(m, xd, p).fruit == 0 && f != 0
    ensures Stocked(Put(m, xd, p, At(m, xd, p).(fruit := f)), xd, yd, n + 1)
    ensures OnlyFruitsChanged(m, Put(m, xd, p, At(m, xd, p).(fruit := f)), xd)
  {
    PutChangesOnePoint(m, xd, yd, p, At(m, xd, p).(fruit := f));
    FruitChange(m, xd, yd, p, f);
    assert Idx(xd, p) !in FruitCells(m);
  }

  lemma PlaceExit(m: Grid, xd: int, yd: int, n: int, p: Pt)
    requires Stocked(m, xd, yd, n) && IsNode(xd, yd, p) && At(m, xd, p).fruit == 0
    ensures Playing(MazeState(Put(m, xd, p, At(m, xd, p).(exit := true)), xd, yd, n, p))
  {
    PutChangesOnePoint(m, xd, yd, p, At(m, xd, p).(exit := true));
    var m' := Put(m, xd, p, At(m, xd, p).(exit := true));
    assert FruitCells(m') == FruitCells(m);
  }

  /** Eating the fruit of a cell takes one from the count, which was positive. */
  lemma EatFruit(s: MazeState, p: Pt)
    requires Playing(s) && Inside(s.xd, s.yd, p) && At(s.cells, s.xd, p).fruit != 0
    ensures s.fruits > 0
    ensures Playing(s.(cells := Put(s.cells, s.xd, p, At(s.cells, s.xd, p).(fruit := 0)), fruits := s.fruits - 1))
  {
    PutChangesOnePoint(s.cells, s.xd, s.yd, p, At(s.cells, s.xd, p).(fruit := 0));
    FruitChange(s.cells, s.xd, s.yd, p, 0);
    assert Idx(s.xd, p) in FruitCells(s.cells);
  }
}
