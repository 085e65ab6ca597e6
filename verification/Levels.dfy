/** Whole levels: player and maze together, and why every level can be won. */
module Levels {
  import opened Lattice
  import opened Reach
  import opened Repair
  import opened Rules
  import opened Players
  import opened Motions
  import opened Views
  import opened Games

  datatype Session = Session(pl: Player, maze: MazeState)

  /** Player and maze after one tick that does not end the level. */
  ghost function Next(s: Session, input: Input): Session {
    Session(Ticked(s.pl, s.maze.cells, s.maze.xd, input), AfterTick(s.maze, Steered(s.pl, input)))
  }

  ghost function Played(s: Session, inputs: seq<Input>): Session {
    if inputs == [] then s else Next(Played(s, inputs[..|inputs| - 1]), inputs[|inputs| - 1])
  }

  /** A tick with this input wins the level. */
  ghost predicate Wins(s: Session, input: Input) {
    var t := Steered(s.pl, input);
    t.cnt == 0 && FruitCells(AfterTick(s.maze, t).cells) == {} && Square(t) == s.maze.exit
  }

  /** A connected maze in play with the player on its track. */
  ghost predicate InPlay(s: Session) {
    && Playing(s.maze) && Connected(s.maze.cells, s.maze.xd, s.maze.yd)
    && OnTrack(s.pl, s.maze.cells, s.maze.xd, s.maze.yd)
  }

  /** What later states t of a session that began as s have in common with it. */
  ghost predicate Later(s: Session, t: Session) {
    && InPlay(t) && SameWalls(s.maze, t.maze) && t.maze.exit == s.maze.exit
    && FruitCells(t.maze.cells) <= FruitCells(s.maze.cells)
  }

  lemma ConnectedStays(s: MazeState, t: MazeState)
    requires SameWalls(s, t) && Connected(s.cells, s.xd, s.yd)
    ensures Connected(t.cells, t.xd, t.yd)
  {
    forall p, d ensures Link(s.cells, s.xd, s.yd, p, d) ==> Link(t.cells, t.xd, t.yd, p, d) {
    }
    forall p | IsNode(s.xd, s.yd, p) ensures Reachable(t.cells, t.xd, t.yd, {}, START, p) {
      ReachKept(s.cells, t.cells, s.xd, s.yd, {}, {}, START, p);
    }
  }

  lemma SquareIsOpen(pl: Player, m: Grid, xd: int, yd: int)
    requires OnTrack(pl, m, xd, yd) && pl.cnt == 0
    ensures Inside(xd, yd, Square(pl))
  {
    assert Origin(pl) == Square(pl);
  }

  lemma NextIsLater(s: Session, input: Input)
    requires InPlay(s)
    ensures Later(s, Next(s, input))
    ensures s.pl.cnt == 0 ==> FruitCells(Next(s, input).maze.cells) <= FruitCells(s.maze.cells) - {Idx(s.maze.xd, Square(s.pl))}
  {
    var t, m := Steered(s.pl, input), s.maze;
    SteerKeepsTrack(s.pl, m.cells, m.xd, m.yd, input);
    TickKeepsTrack(s.pl, m.cells, m.xd, m.yd, input);
    if t.cnt == 0 {
      SquareIsOpen(t, m.cells, m.xd, m.yd);
      ArrivalCounts(m, Square(t));
    }
    TickKeepsWalls(m, t);
    ConnectedStays(m, AfterTick(m, t));
    WallsDecideTick(s.pl, m.cells, AfterTick(m, t).cells, m.xd, input);
    TrackStays(Ticked(s.pl, m.cells, m.xd, input), m, AfterTick(m, t));
  }

  lemma TrackStays(pl: Player, s: MazeState, t: MazeState)
    requires SameWalls(s, t) && OnTrack(pl, s.cells, s.xd, s.yd)
    ensures OnTrack(pl, t.cells, t.xd, t.yd)
  {
  }

  /** The player of a session runs as if the maze did not change, and what is eaten stays eaten: at least the
      fruit of the square on which the session begins. */
  lemma {:induction false} SessionRuns(s: Session, inputs: seq<Input>)
    requires InPlay(s)
    ensures Later(s, Played(s, inputs))
    ensures Played(s, inputs).pl == AfterTicks(s.pl, s.maze.cells, s.maze.xd, inputs)
    ensures inputs != [] && s.pl.cnt == 0 ==>
              FruitCells(Played(s, inputs).maze.cells) <= FruitCells(s.maze.cells) - {Idx(s.maze.xd, Square(s.pl))}
  {
    if inputs != [] {
      var front, last := inputs[..|inputs| - 1], inputs[|inputs| - 1];
      var t := Played(s, front);
      SessionRuns(s, front);
      NextIsLater(t, last);
      WallsDecideTick(t.pl, s.maze.cells, t.maze.cells, s.maze.xd, last);
    }
  }

  lemma {:induction false} SessionAppended(s: Session, a: seq<Input>, b: seq<Input>)
    ensures Played(s, a + b) == Played(Played(s, a), b)
  {
    if b == [] {
      assert a + b == a;
    } else {
      SessionAppended(s, a, b[..|b| - 1]);
      assert (a + b)[..|a + b| - 1] == a + b[..|b| - 1];
    }
  }

  /** Paths can be walked back. */
  lemma {:induction false} PathBack(m: Grid, xd: int, yd: int, u: Pt, moves: seq<Dir>)
    requires IsPath(m, xd, yd, {}, u, moves)
    ensures Reachable(m, xd, yd, {}, End(u, moves), u)
  {
    if moves == [] {
      ReachSelf(m, xd, yd, {}, u);
    } else {
      var front, d := moves[..|moves| - 1], moves[|moves| - 1];
      var q := End(u, front);
      PathBack(m, xd, yd, u, front);
      LinkBack(m, xd, yd, q, d);
      ReachSelf(m, xd, yd, {}, Jump(q, d));
      ReachStep(m, xd, yd, {}, Jump(q, d), Jump(q, d), Opposite(d));
      ReachJoin(m, xd, yd, Jump(q, d), q, u);
    }
  }

  /** In a connected maze there is a path between any two (odd, odd) points. */
  lemma Between(m: Grid, xd: int, yd: int, u: Pt, v: Pt) returns (moves: seq<Dir>)
    requires Connected(m, xd, yd) && IsNode(xd, yd, u) && IsNode(xd, yd, v)
    ensures IsPath(m, xd, yd, {}, u, moves) && End(u, moves) == v
  {
    var to :| IsPath(m, xd, yd, {}, START, to) && End(START, to) == u;
    PathBack(m, xd, yd, START, to);
    ReachJoin(m, xd, yd, u, START, v);
    moves :| IsPath(m, xd, yd, {}, u, moves) && End(u, moves) == v;
  }

  /** The player can go from one (odd, odd) point to another. On the way the fruit it stands on is eaten. */
  lemma GoTo(s: Session, u: Pt, v: Pt) returns (inputs: seq<Input>)
    requires InPlay(s) && IsNode(s.maze.xd, s.maze.yd, u) && IsNode(s.maze.xd, s.maze.yd, v) && StandsOn(s.pl, u)
    ensures Later(s, Played(s, inputs)) && StandsOn(Played(s, inputs).pl, v)
    ensures v != u ==> FruitCells(Played(s, inputs).maze.cells) <= FruitCells(s.maze.cells) - {Idx(s.maze.xd, u)}
  {
    var m := s.maze;
    var moves := Between(m.cells, m.xd, m.yd, u, v);
    inputs := Walk(moves);
    PathWalked(s.pl, m.cells, m.xd, m.yd, u, moves);
    SessionRuns(s, inputs);
    assert Square(s.pl) == u;
  }

  /** With no fruit left but one underfoot, the exit wins. */
  lemma ExitWins(s: Session, u: Pt) returns (inputs: seq<Input>)
    requires InPlay(s) && IsNode(s.maze.xd, s.maze.yd, u) && StandsOn(s.pl, u)
    requires FruitCells(s.maze.cells) <= {Idx(s.maze.xd, u)}
    ensures Wins(Played(s, inputs), NO_PRESS)
  {
    inputs := GoTo(s, u, s.maze.exit);
    var t := Played(s, inputs);
    ArrivalCounts(t.maze, t.maze.exit);
    assert Square(Steered(t.pl, NO_PRESS)) == t.maze.exit;
  }

  /** From any (odd, odd) point some inputs eat every fruit, go to the exit and win. */
  lemma {:induction false} CanBeWon(s: Session, u: Pt) returns (inputs: seq<Input>)
    requires InPlay(s) && IsNode(s.maze.xd, s.maze.yd, u) && StandsOn(s.pl, u)
    ensures Wins(Played(s, inputs), NO_PRESS)
    decreases |FruitCells(s.maze.cells) - {Idx(s.maze.xd, u)}|
  {
    var rest := FruitCells(s.maze.cells) - {Idx(s.maze.xd, u)};
    if rest == {} {
      inputs := ExitWins(s, u);
    } else {
      var i :| i in rest;
      var v := PointOf(s.maze.xd, i);
      assert At(s.maze.cells, s.maze.xd, v).fruit != 0;
      var a := GoTo(s, u, v);
      var t := Played(s, a);
      assert FruitCells(t.maze.cells) - {Idx(t.maze.xd, v)} <= rest - {i};
      Fewer(FruitCells(t.maze.cells) - {Idx(t.maze.xd, v)}, rest, i);
      var b := CanBeWon(t, v);
      SessionAppended(s, a, b);
      inputs := a + b;
    }
  }

  lemma Fewer(a: set<int>, b: set<int>, i: int)
    requires i in b && a <= b - {i}
    ensures |a| < |b|
  {
    var c := b - a;
    assert b == a + c && a !! c && i in c;
    assert |b| == |a| + |c|;
    assert |c - {i}| == |c| - 1;
  }

  /** The session as StartLevel leaves it, the maze having been made for the level. */
  ghost predicate Begins(s: Session, made: MazeState, level: nat) {
    MadeFor(made, level) && s.pl == PLAYER_START && s.maze == Arrival(made, START)
  }

  lemma ArrivedInPlay(s: MazeState, p: Pt)
    requires Playing(s) && Connected(s.cells, s.xd, s.yd) && Inside(s.xd, s.yd, p)
    ensures SameWalls(s, Arrival(s, p)) && Playing(Arrival(s, p))
    ensures Connected(Arrival(s, p).cells, s.xd, s.yd)
  {
    ArrivalCounts(s, p);
    ArrivalKeepsWalls(s, p);
    ConnectedStays(s, Arrival(s, p));
  }

  lemma StartInPlay(made: MazeState, t: MazeState)
    requires Playing(made) && Playing(t) && SameWalls(made, t) && Connected(t.cells, t.xd, t.yd)
    ensures InPlay(Session(PLAYER_START, t)) && IsNode(t.xd, t.yd, START) && StandsOn(PLAYER_START, START)
  {
    assert Inside(made.xd, made.yd, Pt(1, 1));
    StartOnTrack(made.cells, t.cells, made.xd, made.yd);
  }

  lemma BeginsInPlay(s: Session, made: MazeState, level: nat)
    requires Begins(s, made, level)
    ensures InPlay(s) && IsNode(s.maze.xd, s.maze.yd, START) && StandsOn(s.pl, START)
  {
    var p := START;
    assert Inside(made.xd, made.yd, p);
    ArrivedInPlay(made, p);
    StartInPlay(made, s.maze);
  }

  /** Every level as it is made can be won from its start. */
  lemma EveryLevelCanBeWon(s: Session, made: MazeState, level: nat) returns (inputs: seq<Input>)
    requires Begins(s, made, level)
    ensures Wins(Played(s, inputs), NO_PRESS)
  {
    BeginsInPlay(s, made, level);
    inputs := CanBeWon(s, START);
  }
}
