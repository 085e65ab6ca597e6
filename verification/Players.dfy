/** The player and the panning view of mazegame.c as pure state transitions. */
module Players {
  import opened Lattice
  import opened Reach
  import opened Rules

  /** A direction of motion; Stop is DIR_STOP. */
  datatype Course = Stop | Go(d: Dir)

  /** Pixel position, current and last direction, the direction asked for by the input threads,
      and the moves left to the next maze square. */
  datatype Player = Player(x: int, y: int, dir: Course, lastDir: Dir, next: Course, cnt: int)

  /** What happens around one tick: a direction the other threads may have written since the last
      tick, and the value found past the end of the open array when it is indexed with DIR_STOP. */
  datatype Input = Input(press: Course, junk: bool)

  function Pressed(pl: Player, input: Input): Player {
    if input.press.Go? then pl.(next := input.press) else pl
  }

  /** Turning back takes effect at once, also between two squares. */
  function Reversed(pl: Player): Player {
    if pl.dir.Go? && pl.next.Go? && pl.next.d == Opposite(pl.dir.d)
    then pl.(dir := pl.next, cnt := if pl.cnt > 0 then 12 - pl.cnt else pl.cnt)
    else pl
  }

  predicate Open(m: Grid, xd: int, p: Pt, d: Dir) {
    !At(m, xd, Step(p, d)).wall
  }

  function Square(pl: Player): Pt {
    Pt(pl.x / 12, pl.y / 12)
  }

  /** On a square: turn if the wanted direction is open, then start to move or stop. */
  function Departed(pl: Player, m: Grid, xd: int, junk: bool): Player {
    var p := Square(pl);
    var wanted := if (if pl.next.Go? then Open(m, xd, p, pl.next.d) else junk) then pl.next else pl.dir;
    if wanted.Stop? then pl.(dir := Stop)
    else if Open(m, xd, p, wanted.d) then pl.(dir := wanted, cnt := 12) else pl.(dir := Stop)
  }

  /** Move one pixel. */
  function Advanced(pl: Player): Player {
    if pl.dir.Stop? then pl
    else
      var q := Step(Pt(pl.x, pl.y), pl.dir.d);
      pl.(x := q.x, y := q.y, lastDir := pl.dir.d, cnt := pl.cnt - 1)
  }

  /** The first half of a tick: the input is seen and a reversal takes effect. */
  function Steered(pl: Player, input: Input): Player {
    Reversed(Pressed(pl, input))
  }

  /** One tick of the game that does not end the level. */
  function Ticked(pl: Player, m: Grid, xd: int, input: Input): Player {
    var s := Steered(pl, input);
    Advanced(if s.cnt == 0 then Departed(s, m, xd, input.junk) else s)
  }

  predicate OpenSquare(m: Grid, xd: int, yd: int, p: Pt) {
    Inside(xd, yd, p) && !At(m, xd, p).wall
  }

  /** The square the player has left; its own square when standing. */
  function Origin(pl: Player): Pt {
    if pl.cnt == 0 || pl.dir.Stop? then Square(pl)
    else match pl.dir.d
      case Up => Pt(pl.x / 12, pl.y / 12 + 1)
      case Left => Pt(pl.x / 12 + 1, pl.y / 12)
      case _ => Square(pl)
  }

  /** The player stands on an open square, or is 12 - cnt pixels on the way in direction dir from
      one open square to the next. */
  ghost predicate OnTrack(pl: Player, m: Grid, xd: int, yd: int) {
    var p := Origin(pl);
    && 0 <= pl.cnt < 12
    && OpenSquare(m, xd, yd, p)
    && (pl.dir.Stop? ==> pl.cnt == 0)
    && (pl.next.Stop? ==> pl.dir.Stop?)
    && (pl.cnt == 0 ==> pl.x == p.x * 12 && pl.y == p.y * 12)
    && (pl.cnt > 0 ==> OpenSquare(m, xd, yd, Step(p, pl.dir.d)) && OnSegment(pl, p))
  }

  predicate OnSegment(pl: Player, p: Pt)
    requires pl.dir.Go?
  {
    var k := 12 - pl.cnt;
    match pl.dir.d
    case Up => pl.x == p.x * 12 && pl.y == p.y * 12 - k
    case Right => pl.x == p.x * 12 + k && pl.y == p.y * 12
    case Down => pl.x == p.x * 12 && pl.y == p.y * 12 + k
    case Left => pl.x == p.x * 12 - k && pl.y == p.y * 12
  }

  /** Turning back in the middle of a segment leaves the player on the same segment. */
  lemma SteerKeepsTrack(pl: Player, m: Grid, xd: int, yd: int, input: Input)
    requires OnTrack(pl, m, xd, yd)
    ensures OnTrack(Steered(pl, input), m, xd, yd)
  {
    var s := Pressed(pl, input);
    if s.dir.Go? && s.next.Go? && s.next.d == Opposite(s.dir.d) && s.cnt > 0 {
      var t := Reversed(s);
      assert Origin(t) == Step(Origin(s), s.dir.d);
    }
  }

  /** One tick keeps the player on its track. */
  lemma TickKeepsTrack(pl: Player, m: Grid, xd: int, yd: int, input: Input)
    requires BoundaryWalls(m, xd, yd) && OnTrack(pl, m, xd, yd)
    ensures OnTrack(Ticked(pl, m, xd, input), m, xd, yd)
  {
    SteerKeepsTrack(pl, m, xd, yd, input);
    var s := Steered(pl, input);
    if s.cnt == 0 {
      var t := Departed(s, m, xd, input.junk);
      if t.dir.Go? {
        var p := Square(s);
        assert OnMap(xd, yd, Step(p, t.dir.d));
        assert OpenSquare(m, xd, yd, Step(p, t.dir.d));
        assert OnTrack(Advanced(t), m, xd, yd);
      }
    } else {
      MoveKeepsTrack(s, m, xd, yd);
    }
  }

  /** A tick on a square, with the walls read after other parts of the cells have changed. */
  lemma SquareTick(pl: Player, m: Grid, m': Grid, xd: int, yd: int, junk: bool)
    requires BoundaryWalls(m, xd, yd) && OnTrack(pl, m, xd, yd) && pl.cnt == 0
    requires forall p :: At(m, xd, p).wall == At(m', xd, p).wall
    ensures Departed(pl, m', xd, junk) == Departed(pl, m, xd, junk)
    ensures OnTrack(pl, m', xd, yd) && OnTrack(Advanced(Departed(pl, m, xd, junk)), m', xd, yd)
  {
    var t := Departed(pl, m, xd, junk);
    if t.dir.Go? {
      var p := Square(pl);
      assert OnMap(xd, yd, Step(p, t.dir.d));
      assert OpenSquare(m, xd, yd, Step(p, t.dir.d));
      assert Origin(Advanced(t)) == p;
    }
  }

  lemma MoveKeepsTrack(pl: Player, m: Grid, xd: int, yd: int)
    requires OnTrack(pl, m, xd, yd) && pl.cnt > 0
    ensures OnTrack(Advanced(pl), m, xd, yd)
  {
    var t, p := Advanced(pl), Origin(pl);
    if t.cnt == 0 {
      assert Origin(t) == Step(p, pl.dir.d);
    } else {
      assert Origin(t) == p;
    }
  }

  /** The value read past the open array cannot be observed. */
  lemma JunkIrrelevant(pl: Player, m: Grid, xd: int, yd: int, press: Course, a: bool, b: bool)
    requires OnTrack(pl, m, xd, yd)
    ensures Ticked(pl, m, xd, Input(press, a)) == Ticked(pl, m, xd, Input(press, b))
  {
  }

  /** The player after a sequence of ticks. */
  function AfterTicks(pl: Player, m: Grid, xd: int, inputs: seq<Input>): Player {
    if inputs == [] then pl
    else Ticked(AfterTicks(pl, m, xd, inputs[..|inputs| - 1]), m, xd, inputs[|inputs| - 1])
  }

  const PLAYER_START := Player(12, 12, Stop, Up, Stop, 0)

  lemma StartOnTrack(m: Grid, m': Grid, xd: int, yd: int)
    requires ValidDims(xd, yd) && !At(m, xd, Pt(1, 1)).wall
    requires forall q :: At(m', xd, q).wall == At(m, xd, q).wall
    ensures OnTrack(PLAYER_START, m', xd, yd)
  {
    assert Origin(PLAYER_START) == Pt(1, 1);
  }

  lemma {:induction false} RunKeepsTrack(pl: Player, m: Grid, xd: int, yd: int, inputs: seq<Input>)
    requires BoundaryWalls(m, xd, yd) && OnTrack(pl, m, xd, yd)
    ensures OnTrack(AfterTicks(pl, m, xd, inputs), m, xd, yd)
  {
    if inputs != [] {
      var front := inputs[..|inputs| - 1];
      RunKeepsTrack(pl, m, xd, yd, front);
      TickKeepsTrack(AfterTicks(pl, m, xd, front), m, xd, yd, inputs[|inputs| - 1]);
    }
  }

  predicate OpenPixel(m: Grid, xd: int, yd: int, x: int, y: int) {
    OpenSquare(m, xd, yd, Pt(x / 12, y / 12))
  }

  /** Every pixel of the player's block lies on an open square. */
  ghost predicate OnOpenGround(pl: Player, m: Grid, xd: int, yd: int) {
    forall x, y :: pl.x <= x < pl.x + 12 && pl.y <= y < pl.y + 12 ==> OpenPixel(m, xd, yd, x, y)
  }

  /** Whatever the input threads do and when, the player never touches a wall. */
  lemma NeverInAWall(m: Grid, xd: int, yd: int, inputs: seq<Input>)
    requires ValidDims(xd, yd) && BoundaryWalls(m, xd, yd) && !At(m, xd, Pt(1, 1)).wall
    ensures OnOpenGround(AfterTicks(PLAYER_START, m, xd, inputs), m, xd, yd)
  {
    StartOnTrack(m, m, xd, yd);
    RunKeepsTrack(PLAYER_START, m, xd, yd, inputs);
    CoversOpenSquares(AfterTicks(PLAYER_START, m, xd, inputs), m, xd, yd);
  }

  lemma CoversOpenSquares(pl: Player, m: Grid, xd: int, yd: int)
    requires OnTrack(pl, m, xd, yd)
    ensures OnOpenGround(pl, m, xd, yd)
  {
    var p := Origin(pl);
    forall x, y | pl.x <= x < pl.x + 12 && pl.y <= y < pl.y + 12
      ensures OpenPixel(m, xd, yd, x, y)
    {
      var q := Pt(x / 12, y / 12);
      if pl.cnt == 0 {
        assert q == p;
      } else {
        assert q == p || q == Step(p, pl.dir.d);
      }
    }
  }

  /** One axis of the view: at least 60 pixels before the player unless the view is at its least
      position, and 60 after its block unless it is at its greatest. */
  predicate Panned(view: int, pos: int, dim: int, size: int) {
    var last := (2 * dim + 1) * 12 - 6 - size;
    && 6 <= view <= last
    && (view + 60 <= pos || view == 6)
    && (pos <= view + size - 72 || view == last)
  }

  /** The view after the player has moved back to pos (move_up, move_left). */
  function PanBack(view: int, pos: int): int {
    if pos < view + 60 && view > 6 then view - 1 else view
  }

  /** The view after the player has moved on to pos (move_down, move_right). */
  function PanOn(view: int, pos: int, dim: int, size: int): int {
    if pos > view + size - 72 && view + size < (2 * dim + 1) * 12 - 6 then view + 1 else view
  }

  /** Upper left pixel of the view. */
  datatype Eye = Eye(x: int, y: int)

  /** The view after the player has moved one pixel in its direction, or stands. */
  function Followed(v: Eye, pl: Player, xd: int, yd: int): Eye {
    match pl.dir
    case Stop => v
    case Go(Up) => v.(y := PanBack(v.y, pl.y))
    case Go(Right) => v.(x := PanOn(v.x, pl.x, xd, 320))
    case Go(Down) => v.(y := PanOn(v.y, pl.y, yd, 182))
    case Go(Left) => v.(x := PanBack(v.x, pl.x))
  }

  /** Panning keeps the margins in both directions. */
  lemma PanKeepsMargins(view: int, pos: int, dim: int, size: int)
    requires Panned(view, pos, dim, size) && 132 <= size
    ensures Panned(PanBack(view, pos - 1), pos - 1, dim, size)
    ensures Panned(PanOn(view, pos + 1, dim, size), pos + 1, dim, size)
  {
  }

  /** Within the margins the player's block is wholly in view. */
  lemma PlayerInView(view: int, pos: int, dim: int, size: int)
    requires Panned(view, pos, dim, size) && 12 <= pos <= (2 * dim - 1) * 12 && 72 <= size
    ensures view <= pos && pos + 12 <= view + size
  {
  }

  /** Which of the two boundary columns can be unveiled tells where the view is: a player within
      two squares of one side has panned the view so far that the other side is hidden. */
  lemma FarSideHidden(view: int, p: Pt, q: Pt, xd: int, yd: int)
    requires ValidDims(xd, yd) && Panned(view, p.x * 12, xd, 320) && Inside(xd, yd, p)
    requires p.x - 2 <= q.x <= p.x + 2
    ensures q.x == 0 ==> view + 320 <= 24 * xd
    ensures q.x == 2 * xd ==> 12 <= view
  {
  }

  /** Only the walls matter for the motion of the player. */
  lemma WallsDecideTick(pl: Player, m: Grid, m': Grid, xd: int, input: Input)
    requires forall p :: At(m, xd, p).wall == At(m', xd, p).wall
    ensures Ticked(pl, m, xd, input) == Ticked(pl, m', xd, input)
    ensures forall yd :: OnTrack(pl, m, xd, yd) ==> OnTrack(pl, m', xd, yd)
  {
  }
}
