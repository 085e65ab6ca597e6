/** The worm phase of maze generation: which cells worms dig and how they turn. */
module Worms {
  import opened Lattice
  import opened Reach

  /** Each cell is a plain wall or empty, and only cells inside the boundary with an odd
      coordinate have been dug. */
  ghost predicate Digging(m: Grid, xd: int, yd: int) {
    && |m| == MAZE_SIZE
    && (forall p: Pt :: 0 <= p.x <= 2 * xd ==> At(m, xd, p) == WALL || At(m, xd, p) == NONE)
    && (forall p: Pt :: 0 <= p.x <= 2 * xd && !Diggable(xd, yd, p) ==> At(m, xd, p) == WALL)
  }

  /** The nodes that are still walls. */
  ghost function Solid(m: Grid, xd: int, yd: int): set<Pt> {
    set p | p in Nodes(xd, yd) && At(m, xd, p).wall
  }

  lemma SolidIff(m: Grid, xd: int, yd: int, p: Pt)
    ensures p in Solid(m, xd, yd) <==> IsNode(xd, yd, p) && At(m, xd, p).wall
  {
  }

  lemma AllWalls(m: Grid, xd: int, yd: int)
    requires ValidDims(xd, yd) && |m| == MAZE_SIZE
    requires forall i :: 0 <= i < |m| ==> m[i] == WALL
    ensures Digging(m, xd, yd)
    ensures |Solid(m, xd, yd)| == xd * yd
  {
    assert Solid(m, xd, yd) == Nodes(xd, yd);
    NodesSize(xd, yd);
  }

  /** Digging a point removes it, and nothing else, from the solid nodes. */
  lemma Dig(m: Grid, xd: int, yd: int, p: Pt)
    requires ValidDims(xd, yd) && Digging(m, xd, yd) && Diggable(xd, yd, p)
    ensures Digging(Put(m, xd, p, NONE), xd, yd)
    ensures Solid(Put(m, xd, p, NONE), xd, yd) == Solid(m, xd, yd) - {p}
    ensures At(Put(m, xd, p, NONE), xd, p) == NONE
  {
    PutChangesOnePoint(m, xd, yd, p, NONE);
  }

  /** A move in direction d stays on the lattice. */
  predicate Allowed(xd: int, yd: int, p: Pt, d: Dir) {
    match d
    case Up => p.y > 1
    case Right => p.x < xd * 2 - 1
    case Down => p.y < yd * 2 - 1
    case Left => p.x > 1
  }

  lemma AllowedStaysOnNodes(xd: int, yd: int, p: Pt, d: Dir)
    requires IsNode(xd, yd, p)
    ensures Allowed(xd, yd, p, d) <==> IsNode(xd, yd, Jump(p, d))
    ensures Allowed(xd, yd, p, d) ==> Diggable(xd, yd, Step(p, d)) && !IsNode(xd, yd, Step(p, d))
  {
    var i, j := p.x / 2, p.y / 2;
    assert p == Pt(2 * i + 1, 2 * j + 1);
  }

  function DirNo(d: Dir): int {
    match d
    case Up => 0
    case Right => 1
    case Down => 2
    case Left => 3
  }

  function DirOf(k: int): Dir
    requires 0 <= k < 4
  {
    if k == 0 then Up else if k == 1 then Right else if k == 2 then Down else Left
  }

  /** The weight of a turn, by quarter turns clockwise and whether the target is still a wall. */
  function TurnWeight(turn: int, wall: bool): int {
    if turn == 0 then (if wall then 84 else 1)
    else if turn == 2 then 3
    else (if wall then 9 else 1)
  }

  function Weight(m: Grid, xd: int, yd: int, p: Pt, pref: int, k: int): int
    requires 0 <= k < 4
  {
    var d := DirOf(k);
    if Allowed(xd, yd, p, d) then TurnWeight((pref + 4 - k) % 4, At(m, xd, Jump(p, d)) == WALL) else 0
  }

  /** Total weight of the first k directions. */
  function Cumulative(m: Grid, xd: int, yd: int, p: Pt, pref: int, k: int): int
    requires 0 <= k <= 4
  {
    if k == 0 then 0 else Cumulative(m, xd, yd, p, pref, k - 1) + Weight(m, xd, yd, p, pref, k - 1)
  }

  /** Some direction is always allowed, so the total weight is positive. */
  lemma TotalPositive(m: Grid, xd: int, yd: int, p: Pt, pref: int)
    requires ValidDims(xd, yd) && IsNode(xd, yd, p)
    ensures Cumulative(m, xd, yd, p, pref, 4) > 0
  {
    assert Weight(m, xd, yd, p, pref, 0) > 0 || Weight(m, xd, yd, p, pref, 2) > 0;
    assert Cumulative(m, xd, yd, p, pref, 1) == Cumulative(m, xd, yd, p, pref, 0) + Weight(m, xd, yd, p, pref, 0);
    assert Cumulative(m, xd, yd, p, pref, 2) >= Cumulative(m, xd, yd, p, pref, 1);
    assert Cumulative(m, xd, yd, p, pref, 3) >= Cumulative(m, xd, yd, p, pref, 2) + Weight(m, xd, yd, p, pref, 2);
  }

  /** The direction whose share of the weights contains pick. */
  ghost predicate Chosen(m: Grid, xd: int, yd: int, p: Pt, pref: int, pick: int, k: int) {
    0 <= k < 4 && Cumulative(m, xd, yd, p, pref, k) <= pick < Cumulative(m, xd, yd, p, pref, k + 1)
  }

  /** A chosen direction is never one that leads off the lattice. */
  lemma ChosenIsAllowed(m: Grid, xd: int, yd: int, p: Pt, pref: int, pick: int, k: int)
    requires Chosen(m, xd, yd, p, pref, pick, k)
    ensures Allowed(xd, yd, p, DirOf(k))
  {
    assert Weight(m, xd, yd, p, pref, k) > 0;
  }

  /** What a worm heading in direction pref thinks of direction d: nothing when it leads off the lattice, most
      of going straight on into solid rock, some of turning into it, little of going back, least of open ground. */
  lemma WeightMeaning(m: Grid, xd: int, yd: int, p: Pt, pref: Dir, d: Dir)
    requires IsNode(xd, yd, p)
    ensures Weight(m, xd, yd, p, DirNo(pref), DirNo(d)) ==
      if !IsNode(xd, yd, Jump(p, d)) then 0
      else if d == Opposite(pref) then 3
      else if At(m, xd, Jump(p, d)) != WALL then 1
      else if d == pref then 84 else 9
  {
    AllowedStaysOnNodes(xd, yd, p, d);
  }

  lemma ReverseIff(pref: int, dir: int)
    requires 0 <= pref < 4 && 0 <= dir < 4
    ensures (dir + 4 - pref) % 4 == 2 <==> DirOf(dir) == Opposite(DirOf(pref))
    ensures DirNo(DirOf(dir)) == dir
  {
  }

  /** The maze after a worm has gone along a trail from p: every node of the trail and every cell passed is empty. */
  ghost function DugAlong(m: Grid, xd: int, p: Pt, trail: seq<Dir>): Grid {
    if trail == [] then Put(m, xd, p, NONE)
    else
      var front, d := trail[..|trail| - 1], trail[|trail| - 1];
      var q := End(p, front);
      Put(Put(DugAlong(m, xd, p, front), xd, Step(q, d), NONE), xd, Jump(q, d), NONE)
  }

  /** Where a worm heads after a trail, first being its direction at birth. */
  function Heading(trail: seq<Dir>, first: Dir): Dir {
    if trail == [] then first else trail[|trail| - 1]
  }

  /** After the trail the next draw makes the worm turn to d, by the weights in the maze as it is then. */
  ghost predicate TurnsTo(m: Grid, xd: int, yd: int, p: Pt, draws: seq<nat>, trail: seq<Dir>, d: Dir)
    requires |draws| > |trail| + 1
  {
    var now, q, pref := DugAlong(m, xd, p, trail), End(p, trail), DirNo(Heading(trail, DirOf(draws[0] % 4)));
    var total := Cumulative(now, xd, yd, q, pref, 4);
    total > 0 && Chosen(now, xd, yd, q, pref, draws[|trail| + 1] % total, DirNo(d))
  }

  /** Each move of the trail is the turn that its draw chooses, and none goes straight back. */
  ghost predicate IsTrail(m: Grid, xd: int, yd: int, p: Pt, draws: seq<nat>, trail: seq<Dir>) {
    |trail| > 0 ==>
      var front, d := trail[..|trail| - 1], trail[|trail| - 1];
      && |draws| > |trail|
      && IsTrail(m, xd, yd, p, draws, front)
      && TurnsTo(m, xd, yd, p, draws, front, d)
      && d != Opposite(Heading(front, DirOf(draws[0] % 4)))
  }

  lemma TrailExtended(m: Grid, xd: int, yd: int, p: Pt, draws: seq<nat>, trail: seq<Dir>, d: Dir)
    requires |draws| > |trail| + 1 && IsTrail(m, xd, yd, p, draws, trail) && TurnsTo(m, xd, yd, p, draws, trail, d)
    requires d != Opposite(Heading(trail, DirOf(draws[0] % 4)))
    ensures IsTrail(m, xd, yd, p, draws, trail + [d])
    ensures var q := End(p, trail);
      && End(p, trail + [d]) == Jump(q, d) && Heading(trail + [d], DirOf(draws[0] % 4)) == d
      && DugAlong(m, xd, p, trail + [d]) == Put(Put(DugAlong(m, xd, p, trail), xd, Step(q, d), NONE), xd, Jump(q, d), NONE)
  {
    assert (trail + [d])[..|trail + [d]| - 1] == trail;
  }

  /** A worm born at p0 in maze m0 is at p after its trail, heading in direction pref; m is the maze and rest
      are the random numbers now. */
  ghost predicate Crawling(m0: Grid, m: Grid, xd: int, yd: int, p0: Pt, p: Pt, draws: seq<nat>, rest: seq<nat>, trail: seq<Dir>, pref: int) {
    && m == DugAlong(m0, xd, p0, trail) && p == End(p0, trail) && IsTrail(m0, xd, yd, p0, draws, trail)
    && |draws| > |trail| && rest == draws[|trail| + 1..]
    && 0 <= pref < 4 && pref == DirNo(Heading(trail, DirOf(draws[0] % 4)))
  }

  /** A worm has turned back on itself after its trail. */
  ghost predicate TurnedBack(m0: Grid, m: Grid, xd: int, yd: int, p0: Pt, p: Pt, draws: seq<nat>, rest: seq<nat>, trail: seq<Dir>) {
    && m == DugAlong(m0, xd, p0, trail) && p == End(p0, trail) && IsTrail(m0, xd, yd, p0, draws, trail)
    && |draws| > |trail| + 1 && rest == draws[|trail| + 2..]
    && TurnsTo(m0, xd, yd, p0, draws, trail, Opposite(Heading(trail, DirOf(draws[0] % 4))))
  }

  lemma Born(m0: Grid, xd: int, yd: int, p0: Pt, draws: seq<nat>)
    requires draws != []
    ensures Crawling(m0, Put(m0, xd, p0, NONE), xd, yd, p0, p0, draws, draws[1..], [], draws[0] % 4)
  {
    ReverseIff(draws[0] % 4, draws[0] % 4);
  }

  /** What the next choice makes of a crawling worm. */
  lemma Turned(m0: Grid, m: Grid, xd: int, yd: int, p0: Pt, p: Pt, draws: seq<nat>, rest: seq<nat>, trail: seq<Dir>, pref: int, dir: int)
    requires Crawling(m0, m, xd, yd, p0, p, draws, rest, trail, pref) && rest != []
    requires var total := Cumulative(m, xd, yd, p, pref, 4); total > 0 && Chosen(m, xd, yd, p, pref, rest[0] % total, dir)
    ensures var d := DirOf(dir);
      if (dir + 4 - pref) % 4 == 2 then TurnedBack(m0, m, xd, yd, p0, p, draws, rest[1..], trail)
      else Crawling(m0, Put(Put(m, xd, Step(p, d), NONE), xd, Jump(p, d), NONE), xd, yd, p0, Jump(p, d), draws, rest[1..], trail + [d], dir)
  {
    ReverseIff(pref, dir);
    assert rest[0] == draws[|trail| + 1] && rest[1..] == draws[|trail| + 2..];
    assert TurnsTo(m0, xd, yd, p0, draws, trail, DirOf(dir));
    if (dir + 4 - pref) % 4 != 2 {
      TrailExtended(m0, xd, yd, p0, draws, trail, DirOf(dir));
    }
  }

  /** The node two random numbers stand for. */
  function Picked(xd: int, yd: int, r: nat, s: nat): Pt
    requires xd > 0 && yd > 0
  {
    Pt(r % xd * 2 + 1, s % yd * 2 + 1)
  }

  /** The k-th pair of random numbers, taken as a node. */
  function PickNo(xd: int, yd: int, draws: seq<nat>, k: nat): Pt
    requires xd > 0 && yd > 0 && 2 * k + 1 < |draws|
  {
    Picked(xd, yd, draws[2 * k], draws[2 * k + 1])
  }

  /** The first k pairs of random numbers are nodes that do not pass the test. */
  ghost predicate Misses(m: Grid, xd: int, yd: int, test: Cell -> bool, draws: seq<nat>, k: nat) {
    xd > 0 && yd > 0 && 2 * k <= |draws| && forall j: nat :: j < k ==> !test(At(m, xd, PickNo(xd, yd, draws, j)))
  }

  /** p is the first pair that passes, and rest what is left of the random numbers after it. */
  ghost predicate FirstHit(m: Grid, xd: int, yd: int, test: Cell -> bool, draws: seq<nat>, rest: seq<nat>, p: Pt) {
    exists k: nat :: HitAt(m, xd, yd, test, draws, rest, p, k)
  }

  ghost predicate HitAt(m: Grid, xd: int, yd: int, test: Cell -> bool, draws: seq<nat>, rest: seq<nat>, p: Pt, k: nat) {
    && Misses(m, xd, yd, test, draws, k) && 2 * k + 2 <= |draws| && rest == draws[2 * k + 2..]
    && p == PickNo(xd, yd, draws, k) && test(At(m, xd, p))
  }

  lemma HitLeavesRest(m: Grid, xd: int, yd: int, test: Cell -> bool, draws: seq<nat>, rest: seq<nat>, p: Pt)
    requires FirstHit(m, xd, yd, test, draws, rest, p)
    ensures forall r :: r in rest ==> r in draws
  {
    var k: nat :| HitAt(m, xd, yd, test, draws, rest, p, k);
  }

  lemma MissesMore(m: Grid, xd: int, yd: int, test: Cell -> bool, draws: seq<nat>, k: nat)
    requires Misses(m, xd, yd, test, draws, k) && 2 * k + 2 <= |draws|
    requires !test(At(m, xd, PickNo(xd, yd, draws, k)))
    ensures Misses(m, xd, yd, test, draws, k + 1)
  {
  }

  lemma PickedNode(xd: int, yd: int, r: nat, s: nat)
    requires xd > 0 && yd > 0
    ensures IsNode(xd, yd, Picked(xd, yd, r, s))
  {
    NodeAt(xd, yd, r % xd, s % yd);
  }

  lemma NodeAt(xd: int, yd: int, i: int, j: int)
    requires 0 <= i < xd && 0 <= j < yd
    ensures IsNode(xd, yd, Pt(i * 2 + 1, j * 2 + 1))
  {
  }
}
