/** Which block image shows a maze location, and the full picture this defines. */
module Pictures {
  import opened Lattice
  import opened Reach
  import opened Rules

  newtype byte = x: int | 0 <= x < 256

  /** A 12 by 12 image, row by row. */
  type Image = s: seq<byte> | |s| == 144 witness seq(144, _ => 0)

  const BLANK: Image := seq(144, _ => 0)

  const NUM_BLOCKS := 35
  const BLOCK_EMPTY := 16
  const BLOCK_SHADOW := 17
  const BLOCK_PLAYER_UP := 18
  const BLOCK_PLAYER_MASK_UP := 22
  const BLOCK_FRUIT_1 := 26
  const BLOCK_FRUIT_SHADOW := 33
  const BLOCK_EXIT := 34

  /** The table of block images; nothing is assumed about the pictures themselves. */
  type Blocks = s: seq<Image> | |s| == 35 witness seq(35, _ => BLANK)

  /** The number of the image for a lattice point (find_block). */
  function BlockNo(s: MazeState, p: Pt): (n: int)
    ensures 0 <= n < NUM_BLOCKS
  {
    var c := At(s.cells, s.xd, p);
    if s.fruits == 0 && c.exit then BLOCK_EXIT
    else if !c.reach then (if c.fruit != 0 then BLOCK_FRUIT_SHADOW else BLOCK_SHADOW)
    else if c.fruit != 0 then BLOCK_FRUIT_1 + c.fruit - 1
    else if !c.wall then BLOCK_EMPTY
    else WallBit(s, Step(p, Up), 1) + WallBit(s, Step(p, Right), 2) + WallBit(s, Step(p, Down), 4) + WallBit(s, Step(p, Left), 8)
  }

  function WallBit(s: MazeState, p: Pt, bit: int): int {
    if At(s.cells, s.xd, p).wall then bit else 0
  }

  function FindBlock(blocks: Blocks, s: MazeState, p: Pt): Image {
    blocks[BlockNo(s, p)]
  }

  /** Pixel (x, y) of the whole maze drawn from scratch. */
  function Scene(blocks: Blocks, s: MazeState, x: int, y: int): byte {
    FindBlock(blocks, s, Pt(x / 12, y / 12))[(y % 12) * 12 + x % 12]
  }

  /** The whole picture as a function of the pixel. */
  ghost function Scenery(blocks: Blocks, s: MazeState): (int, int) -> byte {
    (x, y) => Scene(blocks, s, x, y)
  }

  predicate WallAt(s: MazeState, x: int, y: int) {
    At(s.cells, s.xd, Pt(x, y)).wall
  }

  /** The exit, once no fruit is left anywhere. */
  ghost predicate ShowsExit(s: MazeState, p: Pt) {
    At(s.cells, s.xd, p).exit && FruitCells(s.cells) == {}
  }

  /** What the number of the image for p says about the maze. */
  ghost predicate Depicts(s: MazeState, p: Pt, n: int) {
    var c := At(s.cells, s.xd, p);
    && (n == 34 <==> ShowsExit(s, p))
    && (!ShowsExit(s, p) ==>
        && (n == 33 <==> !c.reach && c.fruit != 0)
        && (n == 17 <==> !c.reach && c.fruit == 0)
        && (26 <= n <= 32 <==> c.reach && c.fruit != 0)
        && (c.reach && c.fruit != 0 ==> n == 25 + c.fruit)
        && (n == 16 <==> c.reach && c.fruit == 0 && !c.wall)
        && (0 <= n < 16 <==> c.reach && c.fruit == 0 && c.wall)
        && (0 <= n < 16 ==>
            && (n % 2 == 1 <==> WallAt(s, p.x, p.y - 1))
            && (n / 2 % 2 == 1 <==> WallAt(s, p.x + 1, p.y))
            && (n / 4 % 2 == 1 <==> WallAt(s, p.x, p.y + 1))
            && (n / 8 % 2 == 1 <==> WallAt(s, p.x - 1, p.y))))
  }

  /** The image number tells what is at p, and for a wall which of its four neighbours are walls. */
  lemma BlockDepicts(s: MazeState, p: Pt)
    requires s.fruits == |FruitCells(s.cells)|
    ensures Depicts(s, p, BlockNo(s, p))
  {
    WallBits(WallAt(s, p.x, p.y - 1), WallAt(s, p.x + 1, p.y), WallAt(s, p.x, p.y + 1), WallAt(s, p.x - 1, p.y));
  }

  lemma WallBits(up: bool, right: bool, down: bool, left: bool)
    ensures var n := (if up then 1 else 0) + (if right then 2 else 0) + (if down then 4 else 0) + (if left then 8 else 0);
      (n % 2 == 1 <==> up) && (n / 2 % 2 == 1 <==> right) && (n / 4 % 2 == 1 <==> down) && (n / 8 % 2 == 1 <==> left)
  {
  }

  /** No other number depicts the same location. */
  lemma DepictedOnce(s: MazeState, p: Pt, n: int, k: int)
    requires Depicts(s, p, n) && Depicts(s, p, k) && 0 <= n < NUM_BLOCKS && 0 <= k < NUM_BLOCKS
    ensures n == k
  {
    var c := At(s.cells, s.xd, p);
    if !ShowsExit(s, p) && c.reach && c.fruit == 0 && c.wall {
      BinaryDigits(n);
      BinaryDigits(k);
    }
  }

  lemma BinaryDigits(n: int)
    requires 0 <= n < 16
    ensures n == n % 2 + 2 * (n / 2 % 2) + 4 * (n / 4 % 2) + 8 * (n / 8 % 2)
  {
  }

  /** Two states that agree on the walls, and on the rest of one cell, show it alike. */
  lemma SameBlock(s: MazeState, s': MazeState, p: Pt)
    requires s.xd == s'.xd
    requires At(s.cells, s.xd, p) == At(s'.cells, s.xd, p)
    requires forall d :: At(s.cells, s.xd, Step(p, d)).wall == At(s'.cells, s.xd, Step(p, d)).wall
    requires At(s.cells, s.xd, p).exit ==> (s.fruits == 0 <==> s'.fruits == 0)
    ensures BlockNo(s, p) == BlockNo(s', p)
  {
  }

  /** The five-point stencil of a drawn location stays inside the array, also on the boundary. */
  lemma StencilInArray(xd: int, yd: int, p: Pt, d: Dir)
    requires ValidDims(xd, yd) && 0 <= p.x <= 2 * xd && 0 <= p.y <= 2 * yd
    ensures 0 <= Idx(xd, p) < MAZE_SIZE && 0 <= Idx(xd, Step(p, d)) < MAZE_SIZE
  {
    IdxBounds(xd, yd, p);
    if d == Left && p.x == 0 {
      IdxBounds(xd, yd, Pt(2 * xd - 1, p.y - 1));
      IdxDifference(xd, Pt(2 * xd - 1, p.y - 1), Step(p, d));
    } else if d == Right && p.x == 2 * xd {
      IdxBounds(xd, yd, Pt(1, p.y + 1));
      IdxDifference(xd, Pt(1, p.y + 1), Step(p, d));
    } else {
      IdxBounds(xd, yd, Step(p, d));
    }
  }

  /** The pixel is on the map that the maze covers. */
  predicate OnPicture(xd: int, yd: int, x: int, y: int) {
    0 <= x < (2 * xd + 1) * 12 && 0 <= y < (2 * yd + 1) * 12
  }
}
