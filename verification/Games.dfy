/** One level of the game: mazegame.c with the input threads reduced to the directions they write
    between ticks. */
module Games {
  import opened Lattice
  import opened Reach
  import opened Repair
  import opened Rules
  import opened Pictures
  import opened Frames
  import opened Mazes
  import opened Screens
  import opened Views
  import opened Players
  import opened Worms

  class Game {
    const maze: Maze
    const screen: Screen
    /** Upper left pixel of the view. */
    var mapX: int
    var mapY: int
    /** The player. */
    var x: int
    var y: int
    var dir: Course
    var lastDir: Dir
    var next: Course
    var cnt: int

    constructor (maze: Maze, screen: Screen)
      ensures this.maze == maze && this.screen == screen
    {
      this.maze, this.screen := maze, screen;
      mapX, mapY, x, y := 6, 6, 12, 12;
      dir, lastDir, next, cnt := Stop, Up, Stop, 0;
    }

    /** The buffer shows the maze, and the view follows the player. */
    ghost predicate InSync()
      reads this`mapX, this`mapY, this`x, this`y, maze, maze.cells, screen, screen.build
    {
      && Synced(maze, screen)
      && screen.showX == mapX && screen.showY == mapY
      && Panned(mapX, x, maze.xd, 320) && Panned(mapY, y, maze.yd, 182)
    }

    ghost function Pl(): Player
      reads this
    {
      Player(x, y, dir, lastDir, next, cnt)
    }

    ghost function View(): Eye
      reads this`mapX, this`mapY
    {
      Eye(mapX, mapY)
    }

    /** What holds between ticks. */
    ghost predicate Valid()
      reads this, maze, maze.cells, screen, screen.build
    {
      InSync() && OnTrack(Pl(), maze.cells[..], maze.xd, maze.yd)
    }

    method MoveUp()
      requires InSync()
      modifies this`y, this`mapY, screen`off, screen`showX, screen`showY, screen.build
      ensures InSync() && y == old(y) - 1 && mapY == PanBack(old(mapY), y)
    {
      PanKeepsMargins(mapY, y, maze.yd, 182);
      y := y - 1;
      if y < mapY + 60 && mapY > 6 {
        mapY := mapY - 1;
        PanRow(maze, screen, mapX, mapY, 0);
      }
    }

    method MoveDown()
      requires InSync()
      modifies this`y, this`mapY, screen`off, screen`showX, screen`showY, screen.build
      ensures InSync() && y == old(y) + 1 && mapY == PanOn(old(mapY), y, maze.yd, 182)
    {
      PanKeepsMargins(mapY, y, maze.yd, 182);
      y := y + 1;
      if y > mapY + 182 - 72 && mapY + 182 < (2 * maze.yd + 1) * 12 - 6 {
        mapY := mapY + 1;
        PanRow(maze, screen, mapX, mapY, 181);
      }
    }

    method MoveLeft()
      requires InSync()
      modifies this`x, this`mapX, screen`off, screen`showX, screen`showY, screen.build
      ensures InSync() && x == old(x) - 1 && mapX == PanBack(old(mapX), x)
    {
      PanKeepsMargins(mapX, x, maze.xd, 320);
      x := x - 1;
      if x < mapX + 60 && mapX > 6 {
        mapX := mapX - 1;
        PanColumn(maze, screen, mapX, mapY, 0);
      }
    }

    method MoveRight()
      requires InSync()
      modifies this`x, this`mapX, screen`off, screen`showX, screen`showY, screen.build
      ensures InSync() && x == old(x) + 1 && mapX == PanOn(old(mapX), x, maze.xd, 320)
    {
      PanKeepsMargins(mapX, x, maze.xd, 320);
      x := x + 1;
      if x > mapX + 320 - 72 && mapX + 320 < (2 * maze.xd + 1) * 12 - 6 {
        mapX := mapX + 1;
        PanColumn(maze, screen, mapX, mapY, 319);
      }
    }

    /** Eat the fruit on the player's square, unveil the squares around it, and see whether the
        player has won. */
    method UnveilAroundPlayer() returns (win: bool)
      requires InSync() && Inside(maze.xd, maze.yd, Square(Pl())) && x % 12 == 0
      modifies maze`fruits, maze.cells, screen.build
      ensures InSync()
      ensures maze.Model() == Arrival(old(maze.Model()), Square(Pl()))
      ensures win <==> FruitCells(maze.cells[..]) == {} && Square(Pl()) == maze.exit
    {
      var p := Pt(x / 12, y / 12);
      var _ := CheckForFruit(maze, screen, p);
      forall k | 0 <= k < 13 ensures OtherSideHidden(mapX, maze.xd, Around(p, k)) {
        FarSideHidden(mapX, p, Around(p, k), maze.xd, maze.yd);
      }
      UnveilAround(maze, screen, p);
      win := CheckForWin(maze, p);
    }

    /** Take note of the direction asked for; turning back takes effect at once. */
    method Steer(input: Input)
      modifies this`next, this`dir, this`cnt
      ensures Pl() == Steered(old(Pl()), input)
    {
      if input.press.Go? {
        next := input.press;
      }
      if next != dir {
        if (dir == Go(Up) && next == Go(Down)) || (dir == Go(Down) && next == Go(Up))
           || (dir == Go(Left) && next == Go(Right)) || (dir == Go(Right) && next == Go(Left)) {
          if cnt > 0 {
            cnt := 12 - cnt;
          }
          dir := next;
        }
      }
    }

    /** Turn if the wanted direction is open, then start to move or stop. */
    method Depart(junk: bool)
      requires maze.Ready() && Inside(maze.xd, maze.yd, Square(Pl()))
      modifies this`dir, this`cnt
      ensures Pl() == Departed(old(Pl()), maze.cells[..], maze.xd, junk)
    {
      var op := new bool[4](_ => false);
      maze.FindOpenDirections(Pt(x / 12, y / 12), op);
      var turn := if next.Go? then op[DirNo(next.d)] else junk;
      if turn {
        dir := next;
      }
      if dir.Go? {
        if !op[DirNo(dir.d)] {
          dir := Stop;
        } else {
          cnt := 12;
        }
      }
    }

    /** On a square: unveil, check for the win, and choose the direction to leave in. */
    method EnterSquare(junk: bool) returns (won: bool)
      requires Valid() && cnt == 0
      modifies this`dir, this`cnt, maze`fruits, maze.cells, screen.build
      ensures InSync()
      ensures maze.Model() == Arrival(old(maze.Model()), Square(old(Pl())))
      ensures won <==> FruitCells(maze.cells[..]) == {} && Square(old(Pl())) == maze.exit
      ensures Pl() == if won then old(Pl()) else Departed(old(Pl()), maze.cells[..], maze.xd, junk)
    {
      won := UnveilAroundPlayer();
      if !won {
        Depart(junk);
      }
    }

    /** Move one pixel in the current direction, panning the view if necessary. */
    method Move()
      requires InSync()
      modifies this`x, this`y, this`mapX, this`mapY, this`lastDir, this`cnt
      modifies screen`off, screen`showX, screen`showY, screen.build
      ensures InSync() && Pl() == Advanced(old(Pl()))
      ensures View() == Followed(old(View()), Pl(), maze.xd, maze.yd)
    {
      if dir.Go? {
        lastDir := dir.d;
        cnt := cnt - 1;
        match dir.d
        case Up => MoveUp();
        case Right => MoveRight();
        case Down => MoveDown();
        case Left => MoveLeft();
      }
    }

    /** A tick that begins on a square. */
    method TickOnSquare(junk: bool) returns (won: bool)
      requires Valid() && cnt == 0
      modifies this`x, this`y, this`mapX, this`mapY, this`dir, this`lastDir, this`cnt
      modifies maze`fruits, maze.cells, screen`off, screen`showX, screen`showY, screen.build
      ensures Valid()
      ensures maze.Model() == Arrival(old(maze.Model()), Square(old(Pl())))
      ensures won <==> FruitCells(maze.cells[..]) == {} && Square(old(Pl())) == maze.exit
      ensures Pl() == if won then old(Pl()) else Advanced(Departed(old(Pl()), old(maze.cells[..]), maze.xd, junk))
      ensures View() == if won then old(View()) else Followed(old(View()), Pl(), maze.xd, maze.yd)
    {
      ghost var pl, s := Pl(), maze.Model();
      ArrivalKeepsWalls(s, Square(pl));
      won := EnterSquare(junk);
      SquareTick(pl, s.cells, maze.cells[..], s.xd, s.yd, junk);
      if !won {
        Move();
      }
    }

    /** A tick that begins between two squares. */
    method TickBetween()
      requires Valid() && cnt > 0
      modifies this`x, this`y, this`mapX, this`mapY, this`lastDir, this`cnt
      modifies screen`off, screen`showX, screen`showY, screen.build
      ensures Valid() && Pl() == Advanced(old(Pl()))
      ensures View() == Followed(old(View()), Pl(), maze.xd, maze.yd)
    {
      MoveKeepsTrack(Pl(), maze.cells[..], maze.xd, maze.yd);
      Move();
    }

    /** One tick: steer, enter a square if on one, move a pixel. Winning ends the level at once. */
    method Tick(input: Input) returns (won: bool)
      requires Valid()
      modifies this`x, this`y, this`mapX, this`mapY, this`dir, this`lastDir, this`next, this`cnt
      modifies maze`fruits, maze.cells, screen`off, screen`showX, screen`showY, screen.build
      ensures Valid()
      ensures Pl() == if won then Steered(old(Pl()), input) else Ticked(old(Pl()), old(maze.cells[..]), maze.xd, input)
      ensures View() == if won then old(View()) else Followed(old(View()), Pl(), maze.xd, maze.yd)
      ensures maze.Model() == AfterTick(old(maze.Model()), Steered(old(Pl()), input))
      ensures won <==> Steered(old(Pl()), input).cnt == 0 && FruitCells(maze.cells[..]) == {}
                       && Square(Steered(old(Pl()), input)) == maze.exit
    {
      SteerKeepsTrack(Pl(), maze.cells[..], maze.xd, maze.yd, input);
      Steer(input);
      if cnt == 0 {
        won := TickOnSquare(input.junk);
      } else {
        TickBetween();
        won := false;
      }
    }

    /** Make the maze of a level and draw its first view. */
    method PrepareMazeLevel(level: nat) returns (ret: int, ready: bool)
      requires level >= 1 && maze.cells.Length == MAZE_SIZE && screen.Ready() && screen.HasPages()
      modifies this`mapX, this`mapY, maze`xd, maze`yd, maze`fruits, maze`exit, maze`draws, maze.cells
      modifies screen`off, screen`showX, screen`showY, screen.build
      ensures ret == 0
      ensures ready ==> Synced(maze, screen) && screen.showX == mapX == 6 && screen.showY == mapY == 6
      ensures ready ==> Connected(maze.cells[..], maze.xd, maze.yd)
      ensures ready ==> maze.xd == LevelDim(level, 14, 50) && maze.yd == LevelDim(level, 8, 30)
      ensures ready ==> maze.fruits == FruitCount(level)
      ensures !ready ==> |maze.draws| < 2
    {
      var xDim := if MIN_X_DIM + 2 * (level - 1) > MAX_X_DIM then MAX_X_DIM else MIN_X_DIM + 2 * (level - 1);
      var yDim := if MIN_Y_DIM + 2 * (level - 1) > MAX_Y_DIM then MAX_Y_DIM else MIN_Y_DIM + 2 * (level - 1);
      var fruitCount := if 1 + (level - 1) / 2 > 6 then 6 else 1 + (level - 1) / 2;
      mapX, mapY := 6, 6;
      ret, ready := maze.MakeMaze(xDim, yDim, fruitCount);
      if ready {
        screen.SetViewWindow(mapX, mapY);
        DrawView(maze, screen);
      }
    }

    /** Put the player on (1, 1). */
    method ResetPlayer()
      requires Synced(maze, screen) && screen.showX == mapX == 6 && screen.showY == mapY == 6
      modifies this`x, this`y, this`cnt, this`lastDir, this`dir, this`next
      ensures InSync() && Pl() == PLAYER_START
    {
      StartsInView(maze.xd, maze.yd);
      x, y, cnt, lastDir, dir, next := 12, 12, 0, Up, Stop, Stop;
    }

    /** Put the player on (1, 1) and unveil the maze around it. */
    method PlacePlayer()
      requires Synced(maze, screen) && screen.showX == mapX == 6 && screen.showY == mapY == 6
      modifies this`x, this`y, this`cnt, this`lastDir, this`dir, this`next
      modifies maze`fruits, maze.cells, screen.build
      ensures Valid() && Pl() == PLAYER_START && AtRest(Pl(), maze.Model())
      ensures maze.Model() == Arrival(old(maze.Model()), START)
    {
      ResetPlayer();
      ghost var s := maze.Model();
      ArrivalAgain(s, Pt(1, 1));
      ArrivalKeepsWalls(s, Pt(1, 1));
      var _ := UnveilAroundPlayer();
      StartOnTrack(s.cells, maze.cells[..], s.xd, s.yd);
    }

    /** Start a level: prepare it, put the player on (1, 1) and show it. */
    method StartLevel(level: nat) returns (ready: bool, ghost made: MazeState)
      requires level >= 1 && maze.cells.Length == MAZE_SIZE && screen.Ready() && screen.HasPages()
      modifies this, maze`xd, maze`yd, maze`fruits, maze`exit, maze`draws, maze.cells
      modifies screen`off, screen`showX, screen`showY, screen.build, screen.blockMask, screen.video, screen`target
      ensures ready ==> Valid() && Pl() == PLAYER_START && AtRest(Pl(), maze.Model()) && Displayed()
      ensures ready ==> x == 12 && y == 12 && cnt == 0 && dir == Stop && next == Stop && lastDir == Up && mapX == 6 && mapY == 6
      ensures ready ==> MadeFor(made, level) && maze.Model() == Arrival(made, START)
      ensures !ready ==> |maze.draws| < 2
    {
      var ret;
      ret, ready := PrepareMazeLevel(level);
      made := maze.Model();
      if ready {
        PlacePlayer();
        ShowPlayerNow();
      }
    }

    /** The page on display shows the view of the maze with the player in it. */
    ghost predicate Displayed()
      requires screen.HasPages()
      reads this`x, this`y, this`lastDir, maze, maze.cells, screen, screen.video
    {
      PlayerShown(maze, screen, lastDir, x, y)
    }

    /** Put the current state on display. */
    method ShowPlayerNow()
      requires Valid()
      modifies screen.build, screen.blockMask, screen.video, screen`target
      ensures Valid() && Displayed()
      ensures SamePicture(old(screen.Model()), screen.Model())
    {
      InView(Pl(), maze.cells[..], maze.xd, maze.yd, mapX, mapY);
      ShowFrame(maze, screen, lastDir, x, y);
    }

    /** One more tick of a run that began in state pl on maze s and has seen the inputs done. */
    method TickMore(input: Input, ghost pl: Player, ghost s: MazeState, ghost done: seq<Input>) returns (won: bool)
      requires Valid() && SameWalls(s, maze.Model()) && Pl() == AfterTicks(pl, s.cells, s.xd, done)
      modifies this`x, this`y, this`mapX, this`mapY, this`dir, this`lastDir, this`next, this`cnt
      modifies maze`fruits, maze.cells, screen`off, screen`showX, screen`showY, screen.build
      ensures Valid() && SameWalls(s, maze.Model())
      ensures if won then FruitCells(maze.cells[..]) == {} && Square(Pl()) == maze.exit
              else Pl() == AfterTicks(pl, s.cells, s.xd, done + [input])
      ensures AtRest(old(Pl()), old(maze.Model())) && (won || dir.Stop?) ==>
                AtRest(Pl(), maze.Model()) && Seen(old(Pl()), old(maze.Model()), old(View())) == Seen(Pl(), maze.Model(), View())
    {
      ghost var pl1, s1 := Pl(), maze.Model();
      TickKeepsWalls(s1, Steered(pl1, input));
      WallsDecideTick(pl1, s.cells, s1.cells, s.xd, input);
      ghost var v1 := View();
      won := Tick(input);
      RestingTick(pl1, s1, v1, input, won, Pl(), maze.Model(), View());
      assert (done + [input])[..|done|] == done;
    }

    /** The ticks of one frame; stops at once when the level is won. Unless the player has moved,
        what there is to show is the same. */
    method Ticks(inputs: seq<Input>, ghost pl: Player, ghost s: MazeState, ghost done: seq<Input>) returns (won: bool, moved: bool)
      requires Valid() && SameWalls(s, maze.Model()) && Pl() == AfterTicks(pl, s.cells, s.xd, done)
      modifies this`x, this`y, this`mapX, this`mapY, this`dir, this`lastDir, this`next, this`cnt
      modifies maze`fruits, maze.cells, screen`off, screen`showX, screen`showY, screen.build
      ensures Valid() && SameWalls(s, maze.Model())
      ensures if won then FruitCells(maze.cells[..]) == {} && Square(Pl()) == maze.exit
              else Pl() == AfterTicks(pl, s.cells, s.xd, done + inputs)
      ensures AtRest(old(Pl()), old(maze.Model())) && !moved ==>
                AtRest(Pl(), maze.Model()) && Seen(old(Pl()), old(maze.Model()), old(View())) == Seen(Pl(), maze.Model(), View())
    {
      won, moved := false, false;
      var i := 0;
      ghost var inputsSeen, resting, sight := done, AtRest(Pl(), maze.Model()), Seen(Pl(), maze.Model(), View());
      OneMore(done, inputs, 0);
      while i < |inputs| && !won
        invariant 0 <= i <= |inputs| && Valid() && SameWalls(s, maze.Model())
        invariant inputsSeen == done + inputs[..i]
        invariant if won then FruitCells(maze.cells[..]) == {} && Square(Pl()) == maze.exit
                  else Pl() == AfterTicks(pl, s.cells, s.xd, inputsSeen)
        invariant resting && !moved ==> AtRest(Pl(), maze.Model()) && sight == Seen(Pl(), maze.Model(), View())
      {
        won := TickMore(inputs[i], pl, s, inputsSeen);
        OneMore(done, inputs, i);
        inputsSeen := inputsSeen + [inputs[i]];
        moved := moved || (!won && dir.Go?);
        i := i + 1;
      }
      OneMore(done, inputs, |inputs|);
    }

    /** One frame: its ticks, and a new picture once the player has ever moved. */
    method PlayFrame(inputs: seq<Input>, redraw: bool, ghost pl: Player, ghost s: MazeState, ghost done: seq<Input>)
      returns (won: bool, needRedraw: bool)
      requires Valid() && SameWalls(s, maze.Model()) && Pl() == AfterTicks(pl, s.cells, s.xd, done)
      requires Displayed() && (redraw || AtRest(Pl(), maze.Model()))
      modifies this`x, this`y, this`mapX, this`mapY, this`dir, this`lastDir, this`next, this`cnt
      modifies maze`fruits, maze.cells, screen`off, screen`showX, screen`showY, screen.build
      modifies screen.blockMask, screen.video, screen`target
      ensures Valid() && SameWalls(s, maze.Model())
      ensures if won then FruitCells(maze.cells[..]) == {} && Square(Pl()) == maze.exit
              else Pl() == AfterTicks(pl, s.cells, s.xd, done + inputs)
      ensures Displayed() && (needRedraw || AtRest(Pl(), maze.Model()))
    {
      var moved;
      won, moved := Ticks(inputs, pl, s, done);
      needRedraw := redraw || moved;
      if needRedraw {
        ShowPlayerNow();
      } else {
        StillDisplayed();
      }
    }

    /** A page stays right as long as nothing to be seen changes. */
    twostate lemma StillDisplayed()
      requires old(screen.HasPages()) && old(Displayed())
      requires unchanged(screen.video) && screen.target == old(screen.target)
      requires screen.showX == old(screen.showX) && screen.showY == old(screen.showY)
      requires maze.Model() == old(maze.Model()) && x == old(x) && y == old(y) && lastDir == old(lastDir)
      ensures screen.HasPages() && Displayed()
    {
      forall i, a | 0 <= i < 4 && screen.target <= a < screen.target + 14560
        ensures PageShows(screen.showX, screen.showY, Scenery(maze.blocks, maze.Model()), PlayerImage(maze.blocks, lastDir),
                          PlayerMask(maze.blocks, lastDir), x, y, i, a - screen.target, screen.video[i, a])
      {
        assert screen.video[i, a] == old(screen.video[i, a]);
      }
    }

    /** Play the level for a sequence of frames, each with the inputs of its ticks. redraw tells
        whether the player has moved in an earlier level. */
    method PlayLevel(frames: seq<seq<Input>>, redraw: bool) returns (won: bool, needRedraw: bool)
      requires Valid() && Displayed() && (redraw || AtRest(Pl(), maze.Model()))
      modifies this`x, this`y, this`mapX, this`mapY, this`dir, this`lastDir, this`next, this`cnt
      modifies maze`fruits, maze.cells, screen`off, screen`showX, screen`showY, screen.build
      modifies screen.blockMask, screen.video, screen`target
      ensures Valid() && Displayed() && OnOpenGround(Pl(), maze.cells[..], maze.xd, maze.yd)
      ensures SameWalls(old(maze.Model()), maze.Model())
      ensures if won then FruitCells(maze.cells[..]) == {} && Square(Pl()) == maze.exit
              else Pl() == AfterTicks(old(Pl()), old(maze.cells[..]), maze.xd, Flat(frames))
    {
      ghost var pl, s := Pl(), maze.Model();
      needRedraw, won := redraw, false;
      var i := 0;
      while i < |frames| && !won
        invariant 0 <= i <= |frames| && Valid() && SameWalls(s, maze.Model())
        invariant Displayed() && (needRedraw || AtRest(Pl(), maze.Model()))
        invariant if won then FruitCells(maze.cells[..]) == {} && Square(Pl()) == maze.exit
                  else Pl() == AfterTicks(pl, s.cells, s.xd, Flat(frames[..i]))
      {
        won, needRedraw := PlayFrame(frames[i], needRedraw, pl, s, Flat(frames[..i]));
        FlatNext(frames, i);
        i := i + 1;
      }
      FlatNext(frames, |frames|);
      CoversOpenSquares(Pl(), maze.cells[..], maze.xd, maze.yd);
    }
  }

  /** The view begins within its margins. */
  lemma StartsInView(xd: int, yd: int)
    requires ValidDims(xd, yd)
    ensures Panned(6, 12, xd, 320) && Panned(6, 12, yd, 182)
  {
  }

  /** Everything that is shown: the maze, the view, and the player's position and picture. */
  datatype Sight = Sight(maze: MazeState, view: Eye, x: int, y: int, facing: Dir)

  ghost function Seen(pl: Player, s: MazeState, v: Eye): Sight {
    Sight(s, v, pl.x, pl.y, pl.lastDir)
  }

  /** The player stands on a square where there is nothing left to eat or unveil. */
  ghost predicate AtRest(pl: Player, s: MazeState) {
    pl.dir.Stop? && pl.cnt == 0 && Arrival(s, Square(pl)) == s
  }

  /** A tick of a player at rest that does not start it moving changes nothing to be seen. */
  lemma RestingTick(pl: Player, s: MazeState, v: Eye, input: Input, won: bool, pl': Player, s': MazeState, v': Eye)
    requires pl' == if won then Steered(pl, input) else Ticked(pl, s.cells, s.xd, input)
    requires s' == AfterTick(s, Steered(pl, input))
    requires v' == if won then v else Followed(v, pl', s.xd, s.yd)
    ensures AtRest(pl, s) && (won || pl'.dir.Stop?) ==> AtRest(pl', s') && Seen(pl, s, v) == Seen(pl', s', v')
  {
  }

  /** Arriving a second time changes nothing. */
  lemma ArrivalAgain(s: MazeState, p: Pt)
    requires Playing(s) && Inside(s.xd, s.yd, p)
    ensures Arrival(Arrival(s, p), p) == Arrival(s, p)
  {
    var fed := Fed(s, p);
    IdxBounds(s.xd, s.yd, p);
    if At(s.cells, s.xd, p).fruit != 0 {
      EatFruit(s, p);
    }
    var r := Arrival(s, p);
    RevealNearAt(fed, p, 13);
    assert RevealedAt(fed, r, p, 13, p);
    RevealNearAt(r, p, 13);
    var r2 := RevealNear(r, p, 13);
    forall i | 0 <= i < |r.cells| ensures r2.cells[i] == r.cells[i] {
      var q := PointOf(s.xd, i);
      assert RevealedAt(fed, r, p, 13, q) && RevealedAt(r, r2, p, 13, q);
    }
  }

  function Flat(frames: seq<seq<Input>>): seq<Input> {
    if frames == [] then [] else Flat(frames[..|frames| - 1]) + frames[|frames| - 1]
  }

  lemma FlatNext(frames: seq<seq<Input>>, i: nat)
    requires i <= |frames|
    ensures i < |frames| ==> Flat(frames[..i + 1]) == Flat(frames[..i]) + frames[i]
    ensures frames[..|frames|] == frames
  {
    if i < |frames| {
      assert frames[..i + 1][..i] == frames[..i];
    }
  }

  lemma OneMore(done: seq<Input>, inputs: seq<Input>, i: nat)
    requires i <= |inputs|
    ensures i < |inputs| ==> done + inputs[..i] + [inputs[i]] == done + inputs[..i + 1]
    ensures done + inputs[..0] == done && inputs[..|inputs|] == inputs
  {
  }

  /** How many fruits a level begins with. */
  function FruitCount(level: nat): int {
    if 1 + (level - 1) / 2 > 6 then 6 else 1 + (level - 1) / 2
  }

  /** The maze as made for a level: of its size and with its fruits, connected, and ready to be played. */
  ghost predicate MadeFor(s: MazeState, level: nat) {
    && s.xd == LevelDim(level, 14, 50) && s.yd == LevelDim(level, 8, 30) && s.fruits == FruitCount(level)
    && Playing(s) && Connected(s.cells, s.xd, s.yd)
  }

  /** The first level has the least dimension; each further one adds two until the greatest. */
  lemma LevelsGrow(level: nat, least: int, most: int)
    requires level >= 1 && least <= most
    ensures LevelDim(1, least, most) == least
    ensures LevelDim(level + 1, least, most) == Min(LevelDim(level, least, most) + 2, most)
  {
  }

  /** Two levels begin with one fruit; two levels later there is one more, until there are six. */
  lemma FruitsGrow(level: nat)
    requires level >= 1
    ensures FruitCount(1) == FruitCount(2) == 1
    ensures FruitCount(level + 2) == Min(FruitCount(level) + 1, 6)
  {
  }

  function LevelDim(level: nat, least: int, most: int): int {
    if least + 2 * (level - 1) > most then most else least + 2 * (level - 1)
  }

  ghost predicate SameWalls(s: MazeState, s': MazeState) {
    s'.xd == s.xd && s'.yd == s.yd && forall p :: At(s'.cells, s.xd, p).wall == At(s.cells, s.xd, p).wall
  }

  lemma InView(pl: Player, m: Grid, xd: int, yd: int, mapX: int, mapY: int)
    requires OnTrack(pl, m, xd, yd) && Panned(mapX, pl.x, xd, 320) && Panned(mapY, pl.y, yd, 182)
    ensures mapX <= pl.x && pl.x + 12 <= mapX + 320 && mapY <= pl.y && pl.y + 12 <= mapY + 182
  {
    PlayerInView(mapX, pl.x, xd, 320);
    PlayerInView(mapY, pl.y, yd, 182);
  }

  /** The maze after the player has arrived on square p. */
  ghost function Arrival(s: MazeState, p: Pt): MazeState {
    RevealNear(Fed(s, p), p, 13)
  }

  ghost function Fed(s: MazeState, p: Pt): MazeState {
    if At(s.cells, s.xd, p).fruit != 0 then SetFruit(s, p, 0, -1) else s
  }

  /** Arriving on p eats its fruit, marks what can be seen from there, and changes nothing else. */
  lemma ArrivalAt(s: MazeState, p: Pt, q: Pt)
    requires Playing(s) && Inside(s.xd, s.yd, p) && OnMap(s.xd, s.yd, q)
    ensures var c, c' := At(s.cells, s.xd, q), At(Arrival(s, p).cells, s.xd, q);
      && c'.wall == c.wall && c'.exit == c.exit
      && c'.fruit == (if q == p then 0 else c.fruit)
      && (c'.reach <==> c.reach || SeenFrom(s.xd, s.yd, p, q))
  {
    var fed := Fed(s, p);
    FedKeepsRules(s, p);
    IdxBounds(s.xd, s.yd, p);
    PutChangesOnePoint(s.cells, s.xd, s.yd, p, At(s.cells, s.xd, p).(fruit := 0));
    DiamondMarked(fed, p, q);
  }

  /** The count goes down by one exactly when there was a fruit. */
  lemma ArrivalCounts(s: MazeState, p: Pt)
    requires Playing(s) && Inside(s.xd, s.yd, p)
    ensures var r := Arrival(s, p);
      && Playing(r) && r == s.(cells := r.cells, fruits := r.fruits)
      && FruitCells(r.cells) == FruitCells(s.cells) - {Idx(s.xd, p)}
      && r.fruits == s.fruits - if At(s.cells, s.xd, p).fruit != 0 then 1 else 0
  {
    var r := Arrival(s, p);
    FedKeepsRules(s, p);
    RevealNearAt(Fed(s, p), p, 13);
    IdxBounds(s.xd, s.yd, p);
    forall i | 0 <= i < |r.cells|
      ensures r.cells[i].fruit == if i == Idx(s.xd, p) then 0 else s.cells[i].fruit
    {
      var q := PointOf(s.xd, i);
      assert RevealedAt(Fed(s, p), r, p, 13, q);
    }
  }

  lemma FedKeepsRules(s: MazeState, p: Pt)
    requires Playing(s) && Inside(s.xd, s.yd, p)
    ensures Playing(Fed(s, p))
  {
    if At(s.cells, s.xd, p).fruit != 0 {
      EatFruit(s, p);
    }
  }

  ghost function AfterTick(s: MazeState, pl: Player): MazeState {
    if pl.cnt == 0 then Arrival(s, Square(pl)) else s
  }

  /** Arriving somewhere moves no wall. */
  lemma ArrivalKeepsWalls(s: MazeState, p: Pt)
    requires Playing(s) && Inside(s.xd, s.yd, p)
    ensures forall q :: At(Arrival(s, p).cells, s.xd, q).wall == At(s.cells, s.xd, q).wall
  {
    var fed := Fed(s, p);
    if At(s.cells, s.xd, p).fruit != 0 {
      EatFruit(s, p);
      IdxBounds(s.xd, s.yd, p);
    }
    RevealNearAt(fed, p, 13);
    forall q ensures At(Arrival(s, p).cells, s.xd, q).wall == At(s.cells, s.xd, q).wall {
      assert RevealedAt(fed, Arrival(s, p), p, 13, q);
    }
  }

  lemma TickKeepsWalls(s: MazeState, pl: Player)
    requires Playing(s) && (pl.cnt == 0 ==> Inside(s.xd, s.yd, Square(pl)))
    ensures SameWalls(s, AfterTick(s, pl))
  {
    if pl.cnt == 0 {
      ArrivalKeepsWalls(s, Square(pl));
    }
  }
}
