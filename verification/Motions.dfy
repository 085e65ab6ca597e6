/** Where the player goes: what a tick does to it, and that it can get everywhere. */
module Motions {
  import opened Lattice
  import opened Reach
  import opened Repair
  import opened Rules
  import opened Players

  const NO_PRESS := Input(Stop, false)

  /** The direction asked for, once a tick has seen its input. */
  function Wanted(pl: Player, input: Input): Course {
    if input.press.Go? then input.press else pl.next
  }

  predicate OpenFrom(pl: Player, m: Grid, xd: int, d: Dir) {
    !At(m, xd, Step(Pt(pl.x / 12, pl.y / 12), d)).wall
  }

  /** t is what pl has become after one pixel in direction d, with cnt pixels left. */
  ghost predicate MovedOne(pl: Player, t: Player, d: Dir, cnt: int) {
    && t.dir == Go(d) && t.lastDir == d && t.cnt == cnt
    && t.x == pl.x + (if d == Right then 1 else if d == Left then -1 else 0)
    && t.y == pl.y + (if d == Down then 1 else if d == Up then -1 else 0)
  }

  /** t stands where pl did and looks the same way. */
  ghost predicate Halted(pl: Player, t: Player) {
    t.dir == Stop && t.cnt == 0 && t.x == pl.x && t.y == pl.y && t.lastDir == pl.lastDir
  }

  /** On a square the player sets off in the direction asked for when that is open. */
  lemma TurnsWhenOpen(pl: Player, m: Grid, xd: int, input: Input, d: Dir)
    requires pl.cnt == 0 && Wanted(pl, input) == Go(d) && OpenFrom(pl, m, xd, d)
    ensures MovedOne(pl, Ticked(pl, m, xd, input), d, 11) && Ticked(pl, m, xd, input).next == Go(d)
  {
  }

  /** When it is closed the player goes on in its old direction e exactly if there is one, it is open
      and the one asked for is not its opposite, which stops the player at once. */
  lemma ClosedGoesOnOrStops(pl: Player, m: Grid, xd: int, input: Input, d: Dir)
    requires pl.cnt == 0 && Wanted(pl, input) == Go(d) && !OpenFrom(pl, m, xd, d)
    ensures var t := Ticked(pl, m, xd, input);
      && t.next == Go(d)
      && if pl.dir.Go? && OpenFrom(pl, m, xd, pl.dir.d) && d != Opposite(pl.dir.d)
         then MovedOne(pl, t, pl.dir.d, 11) else Halted(pl, t)
  {
  }

  /** A player that has come from the opposite square never meets the exception: what is behind it is open. */
  lemma ClosedIsNotBehind(pl: Player, m: Grid, xd: int, input: Input, d: Dir)
    requires pl.cnt == 0 && Wanted(pl, input) == Go(d) && !OpenFrom(pl, m, xd, d)
    requires pl.dir.Go? ==> OpenFrom(pl, m, xd, Opposite(pl.dir.d))
    ensures var t := Ticked(pl, m, xd, input);
      if pl.dir.Go? && OpenFrom(pl, m, xd, pl.dir.d) then MovedOne(pl, t, pl.dir.d, 11) else Halted(pl, t)
  {
  }

  /** Every player that has just arrived somewhere has come from the opposite square. */
  lemma BehindIsOpen(pl: Player, m: Grid, xd: int, yd: int, input: Input)
    requires BoundaryWalls(m, xd, yd) && OnTrack(pl, m, xd, yd)
    ensures var t := Ticked(pl, m, xd, input); t.cnt == 0 && t.dir.Go? ==> OpenFrom(t, m, xd, Opposite(t.dir.d))
  {
    TickKeepsTrack(pl, m, xd, yd, input);
    SteerKeepsTrack(pl, m, xd, yd, input);
  }

  /** A player that wants nothing and does not move stays. */
  lemma NothingWanted(pl: Player, m: Grid, xd: int, yd: int, input: Input)
    requires OnTrack(pl, m, xd, yd) && Wanted(pl, input) == Stop
    ensures Ticked(pl, m, xd, input) == pl && Halted(pl, pl)
  {
  }

  /** Between two squares the player goes on, or back when that is asked for. */
  lemma BetweenSquares(pl: Player, m: Grid, xd: int, yd: int, input: Input)
    requires OnTrack(pl, m, xd, yd) && pl.cnt > 0
    ensures var t, e := Ticked(pl, m, xd, input), pl.dir.d;
      && t.next == Wanted(pl, input)
      && if Wanted(pl, input) == Go(Opposite(e)) then MovedOne(pl, t, Opposite(e), 11 - pl.cnt) else MovedOne(pl, t, e, pl.cnt - 1)
  {
  }

  // ---- Runs ----

  lemma {:induction false} RunAppended(pl: Player, m: Grid, xd: int, a: seq<Input>, b: seq<Input>)
    ensures AfterTicks(pl, m, xd, a + b) == AfterTicks(AfterTicks(pl, m, xd, a), m, xd, b)
  {
    if b == [] {
      assert a + b == a;
    } else {
      RunAppended(pl, m, xd, a, b[..|b| - 1]);
      assert (a + b)[..|a + b| - 1] == a + b[..|b| - 1];
    }
  }

  /** t is k pixels on from pl in direction d. */
  ghost predicate MovedBy(pl: Player, t: Player, d: Dir, k: int) {
    && t.dir == Go(d) && t.lastDir == d && t.next == Go(d) && t.cnt == 12 - k
    && t.x == pl.x + (if d == Right then k else if d == Left then -k else 0)
    && t.y == pl.y + (if d == Down then k else if d == Up then -k else 0)
  }

  /** d is asked for at the first tick, and nothing after that. */
  ghost predicate Asks(pl: Player, inputs: seq<Input>, d: Dir) {
    && |inputs| > 0 && Wanted(pl, inputs[0]) == Go(d)
    && forall i :: 0 < i < |inputs| ==> inputs[i].press.Stop?
  }

  /** The first k ticks on the way to the next square. */
  lemma {:induction false} OnTheWay(pl: Player, m: Grid, xd: int, yd: int, inputs: seq<Input>, d: Dir, k: nat)
    requires BoundaryWalls(m, xd, yd) && OnTrack(pl, m, xd, yd) && pl.cnt == 0 && OpenFrom(pl, m, xd, d)
    requires Asks(pl, inputs, d) && 0 < k <= |inputs| && k <= 12
    ensures MovedBy(pl, AfterTicks(pl, m, xd, inputs[..k]), d, k)
  {
    var front := inputs[..k - 1];
    assert inputs[..k][..k - 1] == front;
    if k == 1 {
      TurnsWhenOpen(pl, m, xd, inputs[0], d);
    } else {
      OnTheWay(pl, m, xd, yd, inputs, d, k - 1);
      RunKeepsTrack(pl, m, xd, yd, front);
      BetweenSquares(AfterTicks(pl, m, xd, front), m, xd, yd, inputs[k - 1]);
    }
  }

  /** From a square whose neighbour in the direction asked for is open, twelve ticks end on that neighbour. */
  lemma TwelveTicks(pl: Player, m: Grid, xd: int, yd: int, inputs: seq<Input>, d: Dir)
    requires BoundaryWalls(m, xd, yd) && OnTrack(pl, m, xd, yd) && pl.cnt == 0 && OpenFrom(pl, m, xd, d)
    requires Asks(pl, inputs, d) && |inputs| == 12
    ensures MovedBy(pl, AfterTicks(pl, m, xd, inputs), d, 12)
    ensures StandsOn(AfterTicks(pl, m, xd, inputs), Step(Pt(pl.x / 12, pl.y / 12), d))
  {
    OnTheWay(pl, m, xd, yd, inputs, d, 12);
    assert inputs[..12] == inputs;
  }

  ghost predicate StandsOn(pl: Player, p: Pt) {
    pl.cnt == 0 && pl.x == 12 * p.x && pl.y == 12 * p.y
  }

  /** Inputs that press d once and then nothing. */
  function PressOnce(d: Dir): seq<Input> {
    [Input(Go(d), false)] + seq(11, _ => NO_PRESS)
  }

  lemma StepTaken(pl: Player, m: Grid, xd: int, yd: int, p: Pt, d: Dir)
    requires BoundaryWalls(m, xd, yd) && OnTrack(pl, m, xd, yd) && StandsOn(pl, p) && !At(m, xd, Step(p, d)).wall
    ensures var t := AfterTicks(pl, m, xd, PressOnce(d)); StandsOn(t, Step(p, d)) && OnTrack(t, m, xd, yd)
  {
    assert pl.x / 12 == p.x && pl.y / 12 == p.y;
    TwelveTicks(pl, m, xd, yd, PressOnce(d), d);
    RunKeepsTrack(pl, m, xd, yd, PressOnce(d));
  }

  /** Inputs that take the player along a path, two squares for each move. */
  ghost function Walk(moves: seq<Dir>): seq<Input> {
    if moves == [] then []
    else
      var d := moves[|moves| - 1];
      Walk(moves[..|moves| - 1]) + (PressOnce(d) + PressOnce(d))
  }

  ghost predicate NodesOpen(m: Grid, xd: int, yd: int) {
    forall p :: IsNode(xd, yd, p) ==> !At(m, xd, p).wall
  }

  lemma TwoStepsTaken(pl: Player, m: Grid, xd: int, yd: int, p: Pt, d: Dir)
    requires BoundaryWalls(m, xd, yd) && NodesOpen(m, xd, yd)
    requires OnTrack(pl, m, xd, yd) && StandsOn(pl, p) && Link(m, xd, yd, p, d)
    ensures var t := AfterTicks(pl, m, xd, PressOnce(d) + PressOnce(d)); StandsOn(t, Jump(p, d)) && OnTrack(t, m, xd, yd)
  {
    StepTaken(pl, m, xd, yd, p, d);
    StepTaken(AfterTicks(pl, m, xd, PressOnce(d)), m, xd, yd, Step(p, d), d);
    RunAppended(pl, m, xd, PressOnce(d), PressOnce(d));
  }

  /** The player can walk along every path of the maze. */
  lemma {:induction false} PathWalked(pl: Player, m: Grid, xd: int, yd: int, u: Pt, moves: seq<Dir>)
    requires BoundaryWalls(m, xd, yd) && NodesOpen(m, xd, yd)
    requires OnTrack(pl, m, xd, yd) && StandsOn(pl, u) && IsPath(m, xd, yd, {}, u, moves)
    ensures var t := AfterTicks(pl, m, xd, Walk(moves)); StandsOn(t, End(u, moves)) && OnTrack(t, m, xd, yd)
  {
    if moves != [] {
      var front, d := moves[..|moves| - 1], moves[|moves| - 1];
      PathWalked(pl, m, xd, yd, u, front);
      TwoStepsTaken(AfterTicks(pl, m, xd, Walk(front)), m, xd, yd, End(u, front), d);
      RunAppended(pl, m, xd, Walk(front), PressOnce(d) + PressOnce(d));
    }
  }

  /** In a connected maze some inputs bring the player from its start to any (odd, odd) point, hence to
      every fruit and to the exit. */
  lemma EveryNodeReached(m: Grid, xd: int, yd: int, p: Pt) returns (inputs: seq<Input>)
    requires ValidDims(xd, yd) && BoundaryWalls(m, xd, yd) && NodesOpen(m, xd, yd)
    requires Connected(m, xd, yd) && IsNode(xd, yd, p)
    ensures StandsOn(AfterTicks(PLAYER_START, m, xd, inputs), p)
  {
    assert Reachable(m, xd, yd, {}, START, p);
    var moves :| IsPath(m, xd, yd, {}, START, moves) && End(START, moves) == p;
    StartOnTrack(m, m, xd, yd);
    PathWalked(PLAYER_START, m, xd, yd, START, moves);
    inputs := Walk(moves);
  }

  /** The view moves exactly when the margins would be lost if it stayed. */
  lemma PansOnlyIfNeeded(view: int, pos: int, dim: int, size: int)
    requires Panned(view, pos, dim, size) && 132 <= size
    ensures PanBack(view, pos - 1) == view <==> Panned(view, pos - 1, dim, size)
    ensures PanOn(view, pos + 1, dim, size) == view <==> Panned(view, pos + 1, dim, size)
    ensures view - 1 <= PanBack(view, pos - 1) <= view <= PanOn(view, pos + 1, dim, size) <= view + 1
  {
  }
}
