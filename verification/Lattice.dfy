/** The maze array of maze.c: one bit vector per lattice point, stored row by row in a flat
    array whose left and right boundary columns are the same cells. */
module Lattice {
  /** Limits on the maze dimensions; the minima make a maze fill the scrolling region. */
  const MIN_X_DIM := 14
  const MAX_X_DIM := 50
  const MIN_Y_DIM := 8
  const MAX_Y_DIM := 30

  /** Length of the maze array: one more than the largest index of the largest maze. */
  const MAZE_SIZE: nat := 6301

  type Fruit = x: int | 0 <= x <= 7

  /** The bits of one maze location. */
  datatype Cell = Cell(wall: bool, fruit: Fruit, exit: bool, reach: bool)

  const WALL := Cell(true, 0, false, false)
  const NONE := Cell(false, 0, false, false)

  /** The byte that holds a cell: wall 1, fruit number in bits 1 to 3, exit 16, reach 128. */
  function Encode(c: Cell): bv8 {
    (if c.wall then 1 else 0) | ((c.fruit as bv8) << 1) | (if c.exit then 16 else 0) | (if c.reach then 128 else 0)
  }

  ghost predicate ValidDims(xd: int, yd: int) {
    MIN_X_DIM <= xd <= MAX_X_DIM && MIN_Y_DIM <= yd <= MAX_Y_DIM
  }

  /** A lattice point; x is the column and y the row. */
  datatype Pt = Pt(x: int, y: int)

  datatype Dir = Up | Right | Down | Left

  function Step(p: Pt, d: Dir): Pt {
    match d
    case Up => Pt(p.x, p.y - 1)
    case Right => Pt(p.x + 1, p.y)
    case Down => Pt(p.x, p.y + 1)
    case Left => Pt(p.x - 1, p.y)
  }

  function Jump(p: Pt, d: Dir): Pt {
    Step(Step(p, d), d)
  }

  function Opposite(d: Dir): Dir {
    match d
    case Up => Down
    case Right => Left
    case Down => Up
    case Left => Right
  }

  /** The index of a lattice point in the maze array. */
  function Idx(xd: int, p: Pt): int {
    p.x + (p.y + 1) * (2 * xd)
  }

  /** The distance in the array between a point and its neighbour. */
  function Offset(xd: int, d: Dir): int {
    match d
    case Up => -2 * xd
    case Right => 1
    case Down => 2 * xd
    case Left => -1
  }

  /** Points strictly inside the boundary. */
  predicate Inside(xd: int, yd: int, p: Pt) {
    0 < p.x < 2 * xd && 0 < p.y < 2 * yd
  }

  /** Points that have a cell of their own or, in column 2 * xd, share one with column 0. */
  predicate OnMap(xd: int, yd: int, p: Pt) {
    0 <= p.x <= 2 * xd && -1 <= p.y <= 2 * yd + 1
  }

  /** The (odd, odd) points, which maze generation connects. */
  predicate IsNode(xd: int, yd: int, p: Pt) {
    Inside(xd, yd, p) && p.x % 2 == 1 && p.y % 2 == 1
  }

  /** The (even, even) points and the boundary stay walls while the maze is dug. */
  predicate Diggable(xd: int, yd: int, p: Pt) {
    Inside(xd, yd, p) && (p.x % 2 == 1 || p.y % 2 == 1)
  }

  /** How far k rows of w cells can reach. */
  lemma RowsApart(k: int, w: int)
    requires w > 0
    ensures k == 1 ==> k * w == w
    ensures k == -1 ==> k * w == -w
    ensures k >= 2 ==> k * w >= 2 * w
    ensures k <= -2 ==> k * w <= -2 * w
  {
    if k >= 2 {
      assert (k - 2) * w >= 0;
    } else if k <= -2 {
      assert (-k - 2) * w >= 0;
    }
  }

  lemma IdxDifference(xd: int, p: Pt, q: Pt)
    ensures Idx(xd, q) - Idx(xd, p) == q.x - p.x + (q.y - p.y) * (2 * xd)
  {
    var w := 2 * xd;
    assert (q.y + 1) * w - (p.y + 1) * w == (q.y - p.y) * w;
  }

  lemma IdxBounds(xd: int, yd: int, p: Pt)
    requires ValidDims(xd, yd) && OnMap(xd, yd, p)
    ensures 0 <= Idx(xd, p) < MAZE_SIZE
  {
    var w, r := 2 * xd, p.y + 1;
    ProductBounds(r, 62, w);
    assert r * w <= 62 * 100;
  }

  lemma ProductBounds(a: int, b: int, w: int)
    requires 0 <= a <= b && 0 < w
    ensures 0 <= a * w <= b * w
  {
    assert (b - a) * w >= 0;
  }

  /** The flat index tells apart an inside point from every other point on the map, although
      columns 0 and 2 * xd share their cells. */
  lemma IdxInjective(xd: int, yd: int, p: Pt, q: Pt)
    requires ValidDims(xd, yd) && Inside(xd, yd, p) && 0 <= q.x <= 2 * xd
    requires Idx(xd, p) == Idx(xd, q)
    ensures p == q
  {
    IdxDifference(xd, p, q);
    RowsApart(q.y - p.y, 2 * xd);
  }

  /** Only the two boundary columns share cells: point (0, y) is point (2 * xd, y - 1). */
  lemma IdxAlias(xd: int, yd: int, p: Pt, q: Pt)
    requires ValidDims(xd, yd) && OnMap(xd, yd, p) && OnMap(xd, yd, q)
    ensures Idx(xd, p) == Idx(xd, q) <==>
            p == q || (p.x == 0 && q == Pt(2 * xd, p.y - 1)) || (q.x == 0 && p == Pt(2 * xd, q.y - 1))
  {
    IdxDifference(xd, p, q);
    RowsApart(q.y - p.y, 2 * xd);
  }

  /** Pointer arithmetic in the flat array follows geometry for every inside point. */
  lemma OffsetIsStep(xd: int, p: Pt, d: Dir)
    ensures Idx(xd, p) + Offset(xd, d) == Idx(xd, Step(p, d))
    ensures Idx(xd, p) + 2 * Offset(xd, d) == Idx(xd, Jump(p, d))
  {
    assert (p.y + 2) * (2 * xd) == (p.y + 1) * (2 * xd) + 2 * xd;
    assert (p.y + 3) * (2 * xd) == (p.y + 1) * (2 * xd) + 4 * xd;
    assert p.y * (2 * xd) == (p.y + 1) * (2 * xd) - 2 * xd;
    assert (p.y - 1) * (2 * xd) == (p.y + 1) * (2 * xd) - 4 * xd;
  }

  /** The bit tests of maze.c on the byte read the fields of the cell. */
  lemma EncodeTests(c: Cell)
    ensures Encode(c) & 1 != 0 <==> c.wall
    ensures (Encode(c) & 14) >> 1 == c.fruit as bv8
    ensures Encode(c) & 14 != 0 <==> c.fruit != 0
    ensures Encode(c) & 16 != 0 <==> c.exit
    ensures Encode(c) & 128 != 0 <==> c.reach
    ensures Encode(c) == 1 <==> c == WALL
  {
    FruitBits(c.fruit);
  }

  /** The bit updates of maze.c on the byte write the fields of the cell. */
  lemma EncodeUpdates(c: Cell, fruit: Fruit)
    ensures Encode(c) | 128 == Encode(c.(reach := true))
    ensures Encode(c) & 127 == Encode(c.(reach := false))
    ensures Encode(c) | 16 == Encode(c.(exit := true))
    ensures Encode(c) & 241 == Encode(c.(fruit := 0))
    ensures c.fruit == 0 ==> Encode(c) | ((fruit as bv8) << 1) == Encode(c.(fruit := fruit))
  {
    FruitBits(c.fruit);
    FruitBits(fruit);
  }

  lemma FruitBits(f: Fruit)
    ensures (f as bv8) & 7 == f as bv8
    ensures f as bv8 == 0 <==> f == 0
  {
    if f == 0 {} else if f == 1 {} else if f == 2 {} else if f == 3 {}
    else if f == 4 {} else if f == 5 {} else if f == 6 {} else {}
  }

  /** All (odd, odd) points. */
  ghost function Nodes(xd: int, yd: int): set<Pt> {
    set x, y | 0 < x < 2 * xd && 0 < y < 2 * yd && x % 2 == 1 && y % 2 == 1 :: Pt(x, y)
  }

  ghost function NodeRow(xd: int, y: int): set<Pt> {
    set x | 0 < x < 2 * xd && x % 2 == 1 :: Pt(x, y)
  }

  lemma {:induction false} NodeRowSize(xd: nat, y: int)
    ensures |NodeRow(xd, y)| == xd
  {
    if xd == 0 {
      assert NodeRow(xd, y) == {};
    } else {
      NodeRowSize(xd - 1, y);
      assert NodeRow(xd, y) == NodeRow(xd - 1, y) + {Pt(2 * xd - 1, y)};
    }
  }

  lemma {:induction false} NodesSize(xd: nat, yd: nat)
    ensures |Nodes(xd, yd)| == xd * yd
  {
    if yd == 0 {
      assert Nodes(xd, yd) == {};
    } else {
      NodesSize(xd, yd - 1);
      NodeRowSize(xd, 2 * yd - 1);
      LastRow(xd, yd);
      assert xd * yd == xd * (yd - 1) + xd;
    }
  }

  lemma LastRow(xd: nat, yd: nat)
    requires yd > 0
    ensures Nodes(xd, yd) == Nodes(xd, yd - 1) + NodeRow(xd, 2 * yd - 1)
    ensures Nodes(xd, yd - 1) !! NodeRow(xd, 2 * yd - 1)
  {
    var all, rest, row := Nodes(xd, yd), Nodes(xd, yd - 1), NodeRow(xd, 2 * yd - 1);
    forall p ensures p in all <==> p in rest || p in row {
      assert p in all <==> 0 < p.x < 2 * xd && 0 < p.y < 2 * yd && p.x % 2 == 1 && p.y % 2 == 1;
      assert p in row <==> 0 < p.x < 2 * xd && p.x % 2 == 1 && p.y == 2 * yd - 1;
    }
  }
}
