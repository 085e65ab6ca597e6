/** The functions of maze.c that change the maze and redraw what changed, and why the build
    buffer then still shows the maze. */
module Views {
  import opened Lattice
  import opened Reach
  import opened Rules
  import opened Pictures
  import opened Frames
  import opened Mazes
  import opened Screens
  import opened Worms

  /** Every visible pixel of the build buffer is the one a full redraw would put there. */
  ghost predicate Agrees(f: Frame, blocks: Blocks, s: MazeState) {
    forall x, y :: Shown(f, x, y) ==> Pixel(f, x, y) == Scenery(blocks, s)(x, y)
  }

  /** As Agrees, but the images of the points in stale may be out of date. */
  ghost predicate AgreesBut(f: Frame, blocks: Blocks, s: MazeState, stale: set<Pt>) {
    forall x, y :: Shown(f, x, y) && Pt(x / 12, y / 12) !in stale ==> Pixel(f, x, y) == Scenery(blocks, s)(x, y)
  }

  /** The view lies on the maze and hides at least six pixels of its boundary. */
  predicate OnMaze(sx: int, sy: int, xd: int, yd: int) {
    6 <= sx <= (2 * xd + 1) * 12 - 6 - 320 && 6 <= sy <= (2 * yd + 1) * 12 - 6 - 182
  }

  /** If p lies on one of the two boundary columns, which share their cells, the other is not in view. */
  predicate OtherSideHidden(sx: int, xd: int, p: Pt) {
    (p.x == 0 ==> sx + 320 <= 24 * xd) && (p.x == 2 * xd ==> 12 <= sx)
  }

  ghost function Reveal(s: MazeState, p: Pt): MazeState {
    s.(cells := Put(s.cells, s.xd, p, At(s.cells, s.xd, p).(reach := true)))
  }

  lemma RevealAt(s: MazeState, p: Pt, q: Pt)
    requires Playing(s) && OnMap(s.xd, s.yd, p)
    ensures At(Reveal(s, p).cells, s.xd, q) == if Idx(s.xd, p) == Idx(s.xd, q) then At(s.cells, s.xd, q).(reach := true) else At(s.cells, s.xd, q)
  {
    IdxBounds(s.xd, s.yd, p);
  }

  lemma RevealKeepsRules(s: MazeState, p: Pt)
    requires Playing(s) && OnMap(s.xd, s.yd, p)
    ensures Playing(Reveal(s, p))
  {
    IdxBounds(s.xd, s.yd, p);
    forall q ensures At(Reveal(s, p).cells, s.xd, q).(reach := false) == At(s.cells, s.xd, q).(reach := false) {
      RevealAt(s, p, q);
    }
    assert FruitCells(Reveal(s, p).cells) == FruitCells(s.cells);
  }

  /** Unveiling a point changes the picture there and, across the unified boundary, at its twin. */
  lemma RevealBlock(s: MazeState, p: Pt, q: Pt)
    requires Playing(s) && OnMap(s.xd, s.yd, p) && OnMap(s.xd, s.yd, q)
    requires q != p && !(p.x == 0 && q.x == 2 * s.xd) && !(p.x == 2 * s.xd && q.x == 0)
    ensures BlockNo(Reveal(s, p), q) == BlockNo(s, q)
  {
    IdxAlias(s.xd, s.yd, p, q);
    RevealAt(s, p, q);
    forall d ensures At(Reveal(s, p).cells, s.xd, Step(q, d)).wall == At(s.cells, s.xd, Step(q, d)).wall {
      RevealAt(s, p, Step(q, d));
    }
    SameBlock(s, Reveal(s, p), q);
  }

  lemma BlockOfPixel(x: int, y: int, p: Pt)
    ensures InBlock(p.x * 12, p.y * 12, x, y) <==> Pt(x / 12, y / 12) == p
    ensures InBlock(p.x * 12, p.y * 12, x, y) ==> (y - p.y * 12) * 12 + (x - p.x * 12) == (y % 12) * 12 + x % 12
  {
  }

  lemma ShownOnMap(f: Frame, xd: int, yd: int, x: int, y: int)
    requires OnMaze(f.showX, f.showY, xd, yd) && Shown(f, x, y)
    ensures OnMap(xd, yd, Pt(x / 12, y / 12))
  {
  }

  /** When the maze changes, only the images that change become stale. */
  lemma BecomesStale(f: Frame, blocks: Blocks, s: MazeState, s': MazeState, stale: set<Pt>)
    requires OnMaze(f.showX, f.showY, s.xd, s.yd) && Agrees(f, blocks, s)
    requires forall q :: OnMap(s.xd, s.yd, q) && q !in stale && (exists x, y :: Shown(f, x, y) && q == Pt(x / 12, y / 12)) ==>
               BlockNo(s', q) == BlockNo(s, q)
    ensures AgreesBut(f, blocks, s', stale)
  {
    forall x, y | Shown(f, x, y) && Pt(x / 12, y / 12) !in stale
      ensures Pixel(f, x, y) == Scenery(blocks, s')(x, y)
    {
      ShownOnMap(f, s.xd, s.yd, x, y);
      assert Pixel(f, x, y) == Scenery(blocks, s)(x, y);
    }
  }

  /** Redrawing a point brings its image up to date. */
  lemma Refreshed(f: Frame, f': Frame, blocks: Blocks, s: MazeState, stale: set<Pt>, p: Pt)
    requires AgreesBut(f, blocks, s, stale)
    requires BlockDrawn(f, f', p.x * 12, p.y * 12, FindBlock(blocks, s, p))
    ensures AgreesBut(f', blocks, s, stale - {p})
  {
    forall x, y | Shown(f', x, y) && Pt(x / 12, y / 12) !in stale - {p}
      ensures Pixel(f', x, y) == Scenery(blocks, s)(x, y)
    {
      BlockOfPixel(x, y, p);
      if Pt(x / 12, y / 12) != p {
        assert Pixel(f, x, y) == Scenery(blocks, s)(x, y);
      }
    }
  }

  /** Unveiling a point makes only its own image stale, as its twin is out of view. */
  lemma UnveilStale(f: Frame, blocks: Blocks, s: MazeState, p: Pt)
    requires Playing(s) && OnMap(s.xd, s.yd, p) && Agrees(f, blocks, s)
    requires OnMaze(f.showX, f.showY, s.xd, s.yd) && OtherSideHidden(f.showX, s.xd, p)
    ensures AgreesBut(f, blocks, Reveal(s, p), {p})
  {
    forall q | OnMap(s.xd, s.yd, q) && q !in {p} && (exists x, y :: Shown(f, x, y) && q == Pt(x / 12, y / 12))
      ensures BlockNo(Reveal(s, p), q) == BlockNo(s, q)
    {
      var x, y :| Shown(f, x, y) && q == Pt(x / 12, y / 12);
      assert q.x == 0 ==> f.showX < 12;
      assert q.x == 2 * s.xd ==> f.showX + 320 > 24 * s.xd;
      RevealBlock(s, p, q);
    }
    BecomesStale(f, blocks, s, Reveal(s, p), {p});
  }

  /** The maze after the fruit of an inside cell has been set and the count changed by delta. */
  ghost function SetFruit(s: MazeState, p: Pt, fruit: Fruit, delta: int): MazeState {
    s.(cells := Put(s.cells, s.xd, p, At(s.cells, s.xd, p).(fruit := fruit)), fruits := s.fruits + delta)
  }

  /** Eating or adding a fruit makes the image of its cell stale, and that of the exit when the
      last fruit goes or the first one comes. */
  lemma FruitStale(f: Frame, blocks: Blocks, s: MazeState, p: Pt, fruit: Fruit, delta: int)
    requires Playing(s) && Inside(s.xd, s.yd, p) && Agrees(f, blocks, s)
    requires OnMaze(f.showX, f.showY, s.xd, s.yd)
    ensures var s' := SetFruit(s, p, fruit, delta);
            AgreesBut(f, blocks, s', if (s.fruits == 0) == (s'.fruits == 0) then {p} else {p, s.exit})
  {
    var s' := SetFruit(s, p, fruit, delta);
    PutChangesOnePoint(s.cells, s.xd, s.yd, p, At(s.cells, s.xd, p).(fruit := fruit));
    var stale := if (s.fruits == 0) == (s'.fruits == 0) then {p} else {p, s.exit};
    forall q | OnMap(s.xd, s.yd, q) && q !in stale
      ensures BlockNo(s', q) == BlockNo(s, q)
    {
      IdxBounds(s.xd, s.yd, p);
      forall d ensures At(s'.cells, s.xd, Step(q, d)).wall == At(s.cells, s.xd, Step(q, d)).wall {
      }
      SameBlock(s, s', q);
    }
    BecomesStale(f, blocks, s, s', stale);
  }

  /** The points unveiled around square p, in the order of unveil_around_player. */
  function Around(p: Pt, k: int): Pt {
    if k < 9 then Pt(p.x + k / 3 - 1, p.y + k % 3 - 1)
    else if k == 9 then Pt(p.x, p.y - 2)
    else if k == 10 then Pt(p.x + 2, p.y)
    else if k == 11 then Pt(p.x, p.y + 2)
    else Pt(p.x - 2, p.y)
  }

  predicate OnDrawnMap(xd: int, yd: int, p: Pt) {
    0 <= p.x <= 2 * xd && 0 <= p.y <= 2 * yd
  }

  /** The maze after the first n points around p have been unveiled. */
  ghost function RevealNear(s: MazeState, p: Pt, n: nat): (r: MazeState)
    ensures r == s.(cells := r.cells)
  {
    if n == 0 then s
    else
      var r, q := RevealNear(s, p, n - 1), Around(p, n - 1);
      if OnDrawnMap(s.xd, s.yd, q) then Reveal(r, q) else r
  }

  ghost predicate UnveiledNear(xd: int, yd: int, p: Pt, n: nat, q: Pt) {
    exists k :: 0 <= k < n && OnDrawnMap(xd, yd, Around(p, k)) && Idx(xd, Around(p, k)) == Idx(xd, q)
  }

  lemma UnveiledNext(xd: int, yd: int, p: Pt, n: nat, q: Pt)
    ensures UnveiledNear(xd, yd, p, n + 1, q) <==>
            UnveiledNear(xd, yd, p, n, q) || (OnDrawnMap(xd, yd, Around(p, n)) && Idx(xd, Around(p, n)) == Idx(xd, q))
  {
  }

  ghost predicate RevealedAt(s: MazeState, r: MazeState, p: Pt, n: nat, q: Pt) {
    At(r.cells, s.xd, q) ==
      if UnveiledNear(s.xd, s.yd, p, n, q) then At(s.cells, s.xd, q).(reach := true) else At(s.cells, s.xd, q)
  }

  /** r is s with exactly the first n points around p marked. */
  ghost predicate RevealedNear(s: MazeState, r: MazeState, p: Pt, n: nat) {
    r == s.(cells := r.cells) && forall q :: RevealedAt(s, r, p, n, q)
  }

  /** Unveiling marks exactly the points around p, and changes nothing else of the maze. */
  lemma {:induction false} RevealNearAt(s: MazeState, p: Pt, n: nat)
    requires Playing(s)
    ensures var r := RevealNear(s, p, n);
            Playing(r) && RevealedNear(s, r, p, n)
  {
    if n == 0 {
      forall q ensures RevealedAt(s, s, p, 0, q) {
      }
    } else {
      RevealNearAt(s, p, n - 1);
      RevealOneMore(s, RevealNear(s, p, n - 1), p, n - 1);
    }
  }

  lemma RevealOneMore(s: MazeState, r: MazeState, p: Pt, n: nat)
    requires Playing(r) && RevealedNear(s, r, p, n)
    ensures var r' := if OnDrawnMap(s.xd, s.yd, Around(p, n)) then Reveal(r, Around(p, n)) else r;
            Playing(r') && RevealedNear(s, r', p, n + 1)
  {
    var t, k := Around(p, n), n + 1;
    var r' := if OnDrawnMap(s.xd, s.yd, t) then Reveal(r, t) else r;
    if OnDrawnMap(s.xd, s.yd, t) {
      RevealKeepsRules(r, t);
    }
    forall q ensures RevealedAt(s, r', p, k, q) {
      assert RevealedAt(s, r, p, n, q);
      UnveiledNext(s.xd, s.yd, p, n, q);
      if OnDrawnMap(s.xd, s.yd, t) {
        RevealAt(r, t, q);
      }
    }
  }

  function Distance(p: Pt, q: Pt): int {
    (if p.x <= q.x then q.x - p.x else p.x - q.x) + (if p.y <= q.y then q.y - p.y else p.y - q.y)
  }

  /** Two points of the unified boundary columns that share their cell. */
  predicate Twins(xd: int, p: Pt, q: Pt) {
    (p.x == 0 && q == Pt(2 * xd, p.y - 1)) || (q.x == 0 && p == Pt(2 * xd, q.y - 1))
  }

  /** The player on p sees q: a drawn point at most two steps away, or its twin. */
  ghost predicate SeenFrom(xd: int, yd: int, p: Pt, q: Pt) {
    exists t :: OnDrawnMap(xd, yd, t) && Distance(p, t) <= 2 && (t == q || Twins(xd, t, q))
  }

  /** The pattern is the diamond of the points at most two steps away. */
  lemma PatternIsDiamond(p: Pt, q: Pt)
    ensures Distance(p, q) <= 2 <==> exists k :: 0 <= k < 13 && Around(p, k) == q
  {
    var i, j := q.x - p.x, q.y - p.y;
    if Distance(p, q) <= 2 {
      var k := if -1 <= i <= 1 && -1 <= j <= 1 then 3 * (i + 1) + j + 1
               else if j == -2 then 9 else if i == 2 then 10 else if j == 2 then 11 else 12;
      assert Around(p, k) == q;
    }
    forall k | 0 <= k < 13 && Around(p, k) == q
      ensures Distance(p, q) <= 2
    {
    }
  }

  lemma UnveiledIffSeen(xd: int, yd: int, p: Pt, q: Pt)
    requires ValidDims(xd, yd) && OnMap(xd, yd, q)
    ensures UnveiledNear(xd, yd, p, 13, q) <==> SeenFrom(xd, yd, p, q)
  {
    if UnveiledNear(xd, yd, p, 13, q) {
      var k :| 0 <= k < 13 && OnDrawnMap(xd, yd, Around(p, k)) && Idx(xd, Around(p, k)) == Idx(xd, q);
      var t := Around(p, k);
      PatternIsDiamond(p, t);
      IdxAlias(xd, yd, t, q);
      assert SeenFrom(xd, yd, p, q);
    }
    if SeenFrom(xd, yd, p, q) {
      var t :| OnDrawnMap(xd, yd, t) && Distance(p, t) <= 2 && (t == q || Twins(xd, t, q));
      PatternIsDiamond(p, t);
      var k :| 0 <= k < 13 && Around(p, k) == t;
      IdxAlias(xd, yd, t, q);
      assert OnDrawnMap(xd, yd, Around(p, k)) && Idx(xd, Around(p, k)) == Idx(xd, q);
    }
  }

  /** Exactly the drawn points at most two steps from the player, and their twins, become marked. */
  lemma DiamondMarked(s: MazeState, p: Pt, q: Pt)
    requires Playing(s) && OnMap(s.xd, s.yd, q)
    ensures var r := RevealNear(s, p, 13);
      At(r.cells, s.xd, q) == if SeenFrom(s.xd, s.yd, p, q) then At(s.cells, s.xd, q).(reach := true) else At(s.cells, s.xd, q)
  {
    RevealNearAt(s, p, 13);
    assert RevealedAt(s, RevealNear(s, p, 13), p, 13, q);
    UnveiledIffSeen(s.xd, s.yd, p, q);
  }

  /** After the view has moved by one row, only the new row has to be drawn. */
  lemma PannedRow(f: Frame, f1: Frame, f2: Frame, blocks: Blocks, s: MazeState, row: int)
    requires Agrees(f, blocks, s) && CommonKept(f, f1) && f1.showX == f.showX
    requires (f1.showY == f.showY - 1 && row == f1.showY) || (f1.showY == f.showY + 1 && row == f1.showY + 181)
    requires RowDrawn(f1, f2, Scenery(blocks, s), row)
    ensures Agrees(f2, blocks, s)
  {
    forall x, y | Shown(f2, x, y)
      ensures Pixel(f2, x, y) == Scenery(blocks, s)(x, y)
    {
      if y != row {
        assert Shown(f, x, y) && Shown(f1, x, y);
      }
    }
  }

  /** After the view has moved by one column, only the new column has to be drawn. */
  lemma PannedColumn(f: Frame, f1: Frame, f2: Frame, blocks: Blocks, s: MazeState, column: int)
    requires Agrees(f, blocks, s) && CommonKept(f, f1) && f1.showY == f.showY
    requires (f1.showX == f.showX - 1 && column == f1.showX) || (f1.showX == f.showX + 1 && column == f1.showX + 319)
    requires ColumnDrawn(f1, f2, Scenery(blocks, s), column)
    ensures Agrees(f2, blocks, s)
  {
    forall x, y | Shown(f2, x, y)
      ensures Pixel(f2, x, y) == Scenery(blocks, s)(x, y)
    {
      if x != column {
        assert Shown(f, x, y) && Shown(f1, x, y);
      }
    }
  }

  /** The build buffer shows the maze. */
  ghost predicate Synced(maze: Maze, screen: Screen)
    reads maze, maze.cells, screen, screen.build
  {
    && maze.Ready() && screen.Ready() && screen.HasPages() && Playing(maze.Model())
    && OnMaze(screen.showX, screen.showY, maze.xd, maze.yd)
    && Agrees(screen.Model(), maze.blocks, maze.Model())
  }

  /** Redraw one point. */
  method Redraw(maze: Maze, screen: Screen, p: Pt, ghost stale: set<Pt>)
    requires maze.Ready() && screen.Ready() && OnDrawnMap(maze.xd, maze.yd, p)
    requires AgreesBut(screen.Model(), maze.blocks, maze.Model(), stale)
    modifies screen.build
    ensures screen.Ready() && AgreesBut(screen.Model(), maze.blocks, maze.Model(), stale - {p})
  {
    ghost var f := screen.Model();
    var n := maze.FindBlock(p);
    screen.DrawFullBlock(p.x * 12, p.y * 12, maze.blocks[n]);
    Refreshed(f, screen.Model(), maze.blocks, maze.Model(), stale, p);
  }

  /** Move the view up or down by one row and draw the row that comes into view. */
  method PanRow(maze: Maze, screen: Screen, x: int, y: int, row: int)
    requires Synced(maze, screen) && x == screen.showX && OnMaze(x, y, maze.xd, maze.yd)
    requires (y == screen.showY - 1 && row == 0) || (y == screen.showY + 1 && row == 181)
    modifies screen`off, screen`showX, screen`showY, screen.build
    ensures Synced(maze, screen) && screen.showX == x && screen.showY == y
  {
    ghost var f := screen.Model();
    screen.SetViewWindow(x, y);
    ghost var f1 := screen.Model();
    var _ := screen.DrawHorizLine(maze, row);
    PannedRow(f, f1, screen.Model(), maze.blocks, maze.Model(), y + row);
  }

  /** Move the view left or right by one column and draw the column that comes into view. */
  method PanColumn(maze: Maze, screen: Screen, x: int, y: int, column: int)
    requires Synced(maze, screen) && y == screen.showY && OnMaze(x, y, maze.xd, maze.yd)
    requires (x == screen.showX - 1 && column == 0) || (x == screen.showX + 1 && column == 319)
    modifies screen`off, screen`showX, screen`showY, screen.build
    ensures Synced(maze, screen) && screen.showX == x && screen.showY == y
  {
    ghost var f := screen.Model();
    screen.SetViewWindow(x, y);
    ghost var f1 := screen.Model();
    var _, _ := screen.DrawVertLine(maze, column);
    PannedColumn(f, f1, screen.Model(), maze.blocks, maze.Model(), x + column);
  }

  /** Unveil a location and redraw it if it had not been seen. */
  method UnveilSpace(maze: Maze, screen: Screen, p: Pt)
    requires Synced(maze, screen)
    requires OnDrawnMap(maze.xd, maze.yd, p) ==> OtherSideHidden(screen.showX, maze.xd, p)
    modifies maze.cells, screen.build
    ensures Synced(maze, screen)
    ensures maze.Model() == if OnDrawnMap(maze.xd, maze.yd, p) then Reveal(old(maze.Model()), p) else old(maze.Model())
  {
    if p.x < 0 || p.x > 2 * maze.xd || p.y < 0 || p.y > 2 * maze.yd {
      return;
    }
    ghost var s := maze.Model();
    IdxBounds(maze.xd, maze.yd, p);
    var i := Idx(maze.xd, p);
    if maze.cells[i].reach {
      assert Reveal(s, p).cells == s.cells;
      return;
    }
    UnveilStale(screen.Model(), maze.blocks, s, p);
    RevealKeepsRules(s, p);
    maze.cells[i] := maze.cells[i].(reach := true);
    assert maze.Model() == Reveal(s, p);
    Redraw(maze, screen, p, {p});
    assert {p} - {p} == {};
  }

  /** Eat the fruit at p, if any: returns its number or 0. The exit may appear. */
  method CheckForFruit(maze: Maze, screen: Screen, p: Pt) returns (fnum: Fruit)
    requires Synced(maze, screen)
    modifies maze`fruits, maze.cells, screen.build
    ensures Synced(maze, screen)
    ensures fnum == if 0 <= p.x < 2 * maze.xd && 0 <= p.y < 2 * maze.yd then At(old(maze.cells[..]), maze.xd, p).fruit else 0
    ensures maze.Model() == if fnum != 0 then SetFruit(old(maze.Model()), p, 0, -1) else old(maze.Model())
  {
    if p.x < 0 || p.x >= 2 * maze.xd || p.y < 0 || p.y >= 2 * maze.yd {
      return 0;
    }
    ghost var s := maze.Model();
    IdxBounds(maze.xd, maze.yd, p);
    var i := Idx(maze.xd, p);
    fnum := maze.cells[i].fruit;
    if fnum != 0 {
      EatFruit(s, p);
      FruitStale(screen.Model(), maze.blocks, s, p, 0, -1);
      maze.cells[i] := maze.cells[i].(fruit := 0);
      maze.fruits := maze.fruits - 1;
      assert maze.Model() == SetFruit(s, p, 0, -1);
      ghost var stale := {p};
      if maze.fruits == 0 {
        Redraw(maze, screen, maze.exit, {p, maze.exit});
        stale := {p, maze.exit} - {maze.exit};
      }
      Redraw(maze, screen, p, stale);
      assert stale - {p} == {};
    }
  }

  /** The player has won on reaching the exit with no fruit left. */
  method CheckForWin(maze: Maze, p: Pt) returns (win: bool)
    requires maze.Ready() && Playing(maze.Model())
    ensures win <==> FruitCells(maze.cells[..]) == {} && p == maze.exit
  {
    if p.x < 0 || p.x >= 2 * maze.xd || p.y < 0 || p.y >= 2 * maze.yd {
      return false;
    }
    IdxBounds(maze.xd, maze.yd, p);
    win := maze.fruits == 0 && maze.cells[Idx(maze.xd, p)].exit;
  }

  /** Add a fruit during play and draw it; the exit disappears when it is the first one. */
  method AddAFruit(maze: Maze, screen: Screen) returns (done: bool, count: int)
    requires Synced(maze, screen)
    modifies maze`draws, maze`fruits, maze.cells, screen.build
    ensures Synced(maze, screen)
    ensures done ==> count == maze.fruits == old(maze.fruits) + 1
    ensures done ==> exists p, f: Fruit :: f != 0 && At(old(maze.cells[..]), maze.xd, p).fruit == 0
                                       && maze.Model() == SetFruit(old(maze.Model()), p, f, 1)
    ensures !done ==> maze.Model() == old(maze.Model()) && |maze.draws| < 2
  {
    ghost var s := maze.Model();
    var p, fruit;
    done, p, fruit := maze.PlaceFruit();
    count := maze.fruits;
    if done {
      AddFruit(s, p, fruit);
      FruitStale(screen.Model(), maze.blocks, s, p, fruit, 1);
      assert maze.Model() == SetFruit(s, p, fruit, 1);
      ghost var stale := if s.fruits == 0 then {p, s.exit} else {p};
      Redraw(maze, screen, p, stale);
      if maze.fruits == 1 {
        Redraw(maze, screen, maze.exit, stale - {p});
        assert stale - {p} - {maze.exit} == {};
      } else {
        assert stale - {p} == {};
      }
    }
  }

  lemma RevealNext(s: MazeState, p: Pt, n: nat)
    ensures RevealNear(s, p, n + 1) ==
            if OnDrawnMap(s.xd, s.yd, Around(p, n)) then Reveal(RevealNear(s, p, n), Around(p, n)) else RevealNear(s, p, n)
  {
  }

  /** None of the points around p has its twin on the other side of the maze in view. */
  ghost predicate NearHidden(view: int, xd: int, p: Pt) {
    forall k :: 0 <= k < 13 ==> OtherSideHidden(view, xd, Around(p, k))
  }

  /** Unveil the point with number k around p. */
  method UnveilOne(maze: Maze, screen: Screen, p: Pt, k: nat, ghost s: MazeState)
    requires Synced(maze, screen) && k < 13 && NearHidden(screen.showX, maze.xd, p)
    requires maze.Model() == RevealNear(s, p, k)
    modifies maze.cells, screen.build
    ensures Synced(maze, screen) && maze.Model() == RevealNear(s, p, k + 1)
  {
    RevealNext(s, p, k);
    UnveilSpace(maze, screen, Around(p, k));
  }

  /** Unveil the squares around p. */
  method UnveilAround(maze: Maze, screen: Screen, p: Pt)
    requires Synced(maze, screen) && NearHidden(screen.showX, maze.xd, p)
    modifies maze.cells, screen.build
    ensures Synced(maze, screen) && maze.Model() == RevealNear(old(maze.Model()), p, 13)
  {
    ghost var s := maze.Model();
    for i := 0 to 3
      invariant Synced(maze, screen) && maze.Model() == RevealNear(s, p, 3 * i)
    {
      for j := 0 to 3
        invariant Synced(maze, screen) && maze.Model() == RevealNear(s, p, 3 * i + j)
      {
        UnveilOne(maze, screen, p, 3 * i + j, s);
      }
    }
    UnveilOne(maze, screen, p, 9, s);
    UnveilOne(maze, screen, p, 10, s);
    UnveilOne(maze, screen, p, 11, s);
    UnveilOne(maze, screen, p, 12, s);
  }

  function PlayerImage(blocks: Blocks, d: Dir): Image { blocks[BLOCK_PLAYER_UP + DirNo(d)] }

  function PlayerMask(blocks: Blocks, d: Dir): Image { blocks[BLOCK_PLAYER_MASK_UP + DirNo(d)] }

  /** The player has a picture and a mask of its own for each direction. */
  lemma PlayerPictures(blocks: Blocks)
    ensures PlayerImage(blocks, Up) == blocks[18] && PlayerMask(blocks, Up) == blocks[22]
    ensures PlayerImage(blocks, Right) == blocks[19] && PlayerMask(blocks, Right) == blocks[23]
    ensures PlayerImage(blocks, Down) == blocks[20] && PlayerMask(blocks, Down) == blocks[24]
    ensures PlayerImage(blocks, Left) == blocks[21] && PlayerMask(blocks, Left) == blocks[25]
  {
  }

  /** Pixel (x, y) of picture g with an image laid over it where the mask is 1. */
  ghost function Overlaid(g: (int, int) -> byte, img: Image, msk: Image, px: int, py: int, x: int, y: int): byte {
    if InBlock(px, py, x, y) && msk[(y - py) * 12 + (x - px)] == 1 then img[(y - py) * 12 + (x - px)] else g(x, y)
  }

  /** Value v is the one byte k of plane i must have to show picture g with the player over it. */
  ghost predicate PageShows(sx: int, sy: int, g: (int, int) -> byte, img: Image, msk: Image, px: int, py: int, i: int, k: int, v: byte) {
    v == Overlaid(g, img, msk, px, py, sx + 4 * (k % 80) + i, sy + k / 80)
  }

  ghost predicate ShowsOverlaid(f: Frame, g: (int, int) -> byte, img: Image, msk: Image, px: int, py: int) {
    forall x, y :: Shown(f, x, y) ==> Pixel(f, x, y) == Overlaid(g, img, msk, px, py, x, y)
  }

  /** Masking the player into an up-to-date buffer gives the picture to be shown. */
  lemma MaskedShowsPlayer(f: Frame, f1: Frame, save: seq<byte>, saved: seq<byte>, blocks: Blocks, s: MazeState,
                          img: Image, msk: Image, px: int, py: int)
    requires Agrees(f, blocks, s) && f.showX <= px && f.showY <= py
    requires Masked(f, f1, save, saved, px, py, img, msk)
    ensures ShowsOverlaid(f1, Scenery(blocks, s), img, msk, px, py)
  {
    var g := Scenery(blocks, s);
    forall x, y | Shown(f1, x, y)
      ensures Pixel(f1, x, y) == Overlaid(g, img, msk, px, py, x, y)
    {
      assert Shown(f, x, y) && Pixel(f, x, y) == g(x, y);
      MaskedPixel(f, f1, saved, px, py, img, msk, x, y, g(x, y));
    }
  }

  lemma MaskedPixel(f: Frame, f1: Frame, saved: seq<byte>, px: int, py: int, img: Image, msk: Image, x: int, y: int, v: byte)
    requires Shown(f, x, y) && |saved| == 144 && PixelMasked(f, f1, saved, px, py, img, msk, py + 12, px, x, y)
    requires f.showX <= px && f.showY <= py && Pixel(f, x, y) == v
    ensures Pixel(f1, x, y) == if InBlock(px, py, x, y) && msk[(y - py) * 12 + (x - px)] == 1 then img[(y - py) * 12 + (x - px)] else v
  {
  }

  lemma PageOfFrame(f: Frame, g: (int, int) -> byte, img: Image, msk: Image, px: int, py: int, i: int, k: int)
    requires Valid(f) && ShowsOverlaid(f, g, img, msk, px, py)
    requires 0 <= i < 4 && 0 <= k < 14560
    ensures PageShows(f.showX, f.showY, g, img, msk, px, py, i, k, PlanePixel(f, i, k))
  {
    PlaneShowsPixels(f, i, k);
    assert Shown(f, f.showX + 4 * (k % 80) + i, f.showY + k / 80);
  }

  /** Undoing the mask leaves the buffer up to date. */
  lemma UnmaskedAgrees(f: Frame, f1: Frame, f': Frame, save: seq<byte>, saved: Image, blocks: Blocks, s: MazeState,
                       img: Image, msk: Image, px: int, py: int)
    requires Valid(f) && Agrees(f, blocks, s) && f.showX <= px && f.showY <= py
    requires Masked(f, f1, save, saved, px, py, img, msk) && BlockDrawn(f1, f', px, py, saved)
    ensures SamePicture(f, f') && Agrees(f', blocks, s)
  {
    MaskUndone(f, f1, f', save, saved, px, py, img, msk);
    forall x, y | Shown(f', x, y) ensures Pixel(f', x, y) == Scenery(blocks, s)(x, y) {
      assert Pixel(f, x, y) == Scenery(blocks, s)(x, y);
    }
  }

  /** Put an up-to-date picture with the player in it on display. */
  method ShowPlayer(maze: Maze, screen: Screen, d: Dir, px: int, py: int)
    requires maze.Ready() && screen.Ready() && screen.HasPages()
    requires ShowsOverlaid(screen.Model(), Scenery(maze.blocks, maze.Model()), PlayerImage(maze.blocks, d), PlayerMask(maze.blocks, d), px, py)
    modifies screen.video, screen`target
    ensures screen.HasPages() && screen.target != old(screen.target)
    ensures PlayerShown(maze, screen, d, px, py)
  {
    screen.ShowScreen();
    ghost var f, g := screen.Model(), Scenery(maze.blocks, maze.Model());
    forall i, a | 0 <= i < 4 && screen.target <= a < screen.target + 14560
      ensures PageShows(f.showX, f.showY, g, PlayerImage(maze.blocks, d), PlayerMask(maze.blocks, d), px, py, i, a - screen.target, screen.video[i, a])
    {
      PageOfFrame(f, g, PlayerImage(maze.blocks, d), PlayerMask(maze.blocks, d), px, py, i, a - screen.target);
    }
  }

  /** Draw back what the mask has covered: f, f1 are the frames before and after the mask. */
  method Uncover(maze: Maze, screen: Screen, px: int, py: int, ghost s: MazeState, ghost f: Frame, ghost f1: Frame,
                 ghost save: seq<byte>, ghost saved: Image, ghost img: Image, ghost msk: Image)
    requires screen.Ready() && f1 == screen.Model() && saved == screen.blockMask[..]
    requires Valid(f) && Agrees(f, maze.blocks, s) && f.showX <= px && f.showY <= py
    requires Masked(f, f1, save, saved, px, py, img, msk)
    modifies screen.build
    ensures screen.Ready() && SamePicture(f, screen.Model()) && Agrees(screen.Model(), maze.blocks, s)
  {
    screen.DrawFullBlock(px, py, screen.blockMask[..]);
    UnmaskedAgrees(f, f1, screen.Model(), save, saved, maze.blocks, s, img, msk, px, py);
  }

  /** Lay the player over the picture. */
  method Cover(maze: Maze, screen: Screen, d: Dir, px: int, py: int)
    requires Synced(maze, screen) && screen.showX <= px && screen.showY <= py
    modifies screen.build, screen.blockMask
    ensures screen.Ready()
    ensures Masked(old(screen.Model()), screen.Model(), old(screen.blockMask[..]), screen.blockMask[..], px, py,
                   PlayerImage(maze.blocks, d), PlayerMask(maze.blocks, d))
    ensures ShowsOverlaid(screen.Model(), Scenery(maze.blocks, maze.Model()), PlayerImage(maze.blocks, d), PlayerMask(maze.blocks, d), px, py)
  {
    ghost var f, save := screen.Model(), screen.blockMask[..];
    screen.Mask(px, py, PlayerImage(maze.blocks, d), PlayerMask(maze.blocks, d));
    MaskedShowsPlayer(f, screen.Model(), save, screen.blockMask[..], maze.blocks, maze.Model(),
                      PlayerImage(maze.blocks, d), PlayerMask(maze.blocks, d), px, py);
  }

  /** Show the maze with the player at (px, py), and leave the build buffer as it was. */
  method ShowFrame(maze: Maze, screen: Screen, d: Dir, px: int, py: int)
    requires Synced(maze, screen)
    requires screen.showX <= px && px + 12 <= screen.showX + 320 && screen.showY <= py && py + 12 <= screen.showY + 182
    modifies screen.build, screen.blockMask, screen.video, screen`target
    ensures Synced(maze, screen) && SamePicture(old(screen.Model()), screen.Model()) && screen.target != old(screen.target)
    ensures PlayerShown(maze, screen, d, px, py)
  {
    ghost var f, save, s := screen.Model(), screen.blockMask[..], maze.Model();
    Cover(maze, screen, d, px, py);
    ghost var f1, saved := screen.Model(), screen.blockMask[..];
    ShowPlayer(maze, screen, d, px, py);
    Uncover(maze, screen, px, py, s, f, f1, save, saved, PlayerImage(maze.blocks, d), PlayerMask(maze.blocks, d));
    assert maze.Model() == s;
  }

  /** The page on display shows the view of the maze with the player over it. */
  ghost predicate PlayerShown(maze: Maze, screen: Screen, d: Dir, px: int, py: int)
    requires screen.HasPages()
    reads maze, maze.cells, screen, screen.video
  {
    forall i, a :: 0 <= i < 4 && screen.target <= a < screen.target + 14560 ==>
      PageShows(screen.showX, screen.showY, Scenery(maze.blocks, maze.Model()), PlayerImage(maze.blocks, d), PlayerMask(maze.blocks, d),
                px, py, i, a - screen.target, screen.video[i, a])
  }

  /** The first n rows of the view show the maze. */
  ghost predicate RowsAgree(f: Frame, blocks: Blocks, s: MazeState, n: int) {
    forall x, y :: Shown(f, x, y) && y < f.showY + n ==> Pixel(f, x, y) == Scenery(blocks, s)(x, y)
  }

  lemma RowAdded(f: Frame, f': Frame, blocks: Blocks, s: MazeState, n: int)
    requires RowsAgree(f, blocks, s, n) && RowDrawn(f, f', Scenery(blocks, s), f.showY + n)
    ensures RowsAgree(f', blocks, s, n + 1)
  {
    forall x, y | Shown(f', x, y) && y < f'.showY + n + 1
      ensures Pixel(f', x, y) == Scenery(blocks, s)(x, y)
    {
      assert Shown(f, x, y);
    }
  }

  /** Draw the whole view. */
  method DrawView(maze: Maze, screen: Screen)
    requires maze.Ready() && screen.Ready() && OnMaze(screen.showX, screen.showY, maze.xd, maze.yd)
    modifies screen.build
    ensures screen.Ready() && Agrees(screen.Model(), maze.blocks, maze.Model())
  {
    for i := 0 to 182
      invariant screen.Ready() && RowsAgree(screen.Model(), maze.blocks, maze.Model(), i)
    {
      ghost var f := screen.Model();
      var _ := screen.DrawHorizLine(maze, i);
      RowAdded(f, screen.Model(), maze.blocks, maze.Model(), i);
    }
  }
}
