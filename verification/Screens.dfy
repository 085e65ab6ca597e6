/** The drawing operations of modex.c on the build buffer. */
module Screens {
  import opened Pictures
  import opened Frames
  import opened Mazes
  import opened Rules

  class Screen {
    const build: array<byte>
    /** Offset of the upper left pixel of the logical picture (img3_off). */
    var off: int
    var showX: int
    var showY: int
    /** What mask has covered. */
    const blockMask: array<byte>
    /** Video memory, one row for each of the four planes, and the page on display. */
    const video: array2<byte>
    var target: int

    ghost function Model(): Frame
      reads this, build
    {
      Frame(build[..], off, showX, showY)
    }

    ghost predicate Ready()
      reads this, build
    {
      Valid(Model()) && blockMask.Length == 144 && blockMask != build
    }

    /** The two display pages lie apart from each other and from the status bar below 0x05A0. */
    ghost predicate HasPages()
      reads this
    {
      video.Length0 == 4 && video.Length1 == 65536 && (target == 0x05A0 || target == 0x45A0)
    }

    constructor ()
      ensures Ready() && HasPages() && fresh(build) && fresh(blockMask) && fresh(video)
      ensures showX == 0 && showY == 0
    {
      video := new byte[4, 65536]((i, j) => 0);
      target := 0x05A0;
      build := new byte[ARRAY_SIZE](_ => 0);
      blockMask := new byte[144](_ => 0);
      off, showX, showY := BUILD_BASE_INIT, 0, 0;
    }

    /** Move n bytes from index src to index dst in the direction that is safe for overlaps. */
    method CopyBytes(src: int, dst: int, n: int)
      requires 0 <= src && src + n <= build.Length && 0 <= dst && dst + n <= build.Length && n >= 0
      modifies build
      ensures forall k :: 0 <= k < build.Length ==>
                build[k] == if dst <= k < dst + n then old(build[src + (k - dst)]) else old(build[k])
    {
      if src < dst {
        var i := n;
        while i > 0
          invariant 0 <= i <= n
          invariant forall k :: 0 <= k < build.Length ==>
                      build[k] == if dst + i <= k < dst + n then old(build[src + (k - dst)]) else old(build[k])
        {
          i := i - 1;
          build[dst + i] := build[src + i];
        }
      } else {
        for i := 0 to n
          invariant forall k :: 0 <= k < build.Length ==>
                      build[k] == if dst <= k < dst + i then old(build[src + (k - dst)]) else old(build[k])
        {
          build[dst + i] := build[src + i];
        }
      }
    }

    /** The bytes to keep when the view moves, relative to the picture origin. */
    method CopyRange(x: int, y: int, oldX: int, oldY: int) returns (startOff: int, length: int)
      ensures startOff == CopyStart(oldX, oldY, x, y) && length == CopyLength(oldX, oldY, x, y)
    {
      var startX, endX, startY, endY;
      if x > oldX {
        startX, endX := x, oldX;
      } else {
        startX, endX := oldX, x;
      }
      endX := endX + 319;
      if y > oldY {
        startY, endY := y, oldY;
      } else {
        startY, endY := oldY, y;
      }
      endY := endY + 181;
      startOff := startX / 4 + startY * 80;
      length := endX / 4 + endY * 80 + 1 - startOff + 3 * 14560;
    }

    /** Recentre the picture, copying what stays visible. The view has just moved to (x, y). */
    method ShiftPicture(x: int, y: int, oldX: int, oldY: int, ghost f: Frame)
      requires Valid(f) && f == Frame(build[..], off, oldX, oldY)
      requires showX == x && showY == y && Overlap(oldX, oldY, x, y)
      modifies build, this`off
      ensures Valid(Model()) && GuardKept(f, Model()) && CommonKept(f, Model())
    {
      CopyInBuffer(off, oldX, oldY, x, y);
      RecentredFits(x, y);
      var startOff, length := CopyRange(x, y, oldX, oldY);
      var src := 256 + off + startOff;
      off := BUILD_BASE_INIT - x / 4 - y * 80;
      var dst := 256 + off + startOff;
      CopyBytes(src, dst, length);
      assert forall k :: 0 <= k < build.Length ==> ByteMoved(f, Model(), src, dst, length, k);
      assert Moved(f, Model(), src, dst, length);
      MovedKeepsGuard(f, Model(), src, dst, length);
      CopyKeepsCommon(f, Model());
    }

    /** Move the view window, shifting the picture inside the buffer when it would not fit. */
    method SetViewWindow(x: int, y: int)
      requires Ready()
      modifies build, this`off, this`showX, this`showY
      ensures Ready() && showX == x && showY == y
      ensures GuardKept(old(Model()), Model()) && CommonKept(old(Model()), Model())
    {
      ghost var f := Model();
      var oldX, oldY := showX, showY;
      showX, showY := x, y;
      if off + x / 4 + y * 80 >= 0 && off + 3 * 14560 + (x + 319) / 4 + (y + 181) * 80 < BUILD_BUF_SIZE {
        return;
      }
      if x <= oldX - 320 || x >= oldX + 320 || y <= oldY - 182 || y >= oldY + 182 {
        RecentredFits(x, y);
        off := BUILD_BASE_INIT - x / 4 - y * 80;
        return;
      }
      ShiftPicture(x, y, oldX, oldY, f);
    }

    /** Draw row posY of a clipped block: count pixels from column posX, image data from blk. */
    method DrawBlockRow(px: int, py: int, img: Image, posX: int, posY: int, count: nat, ghost f: Frame)
      requires Ready() && Valid(f) && BlockPart(f, Model(), px, py, img, posY, posX)
      requires count > 0 && InBlock(px, py, posX, posY) && InBlock(px, py, posX + count - 1, posY)
      requires Shown(f, posX, posY) && Shown(f, posX + count - 1, posY)
      modifies build
      ensures Ready() && BlockPart(f, Model(), px, py, img, posY, posX + count)
    {
      var x, blk := posX, (posY - py) * 12 + (posX - px);
      for dx := 0 to count
        invariant x == posX + dx && blk == (posY - py) * 12 + (x - px)
        invariant BlockPart(f, Model(), px, py, img, posY, x)
      {
        AddrInBuffer(off, showX, showY, x, posY);
        BlockPartStep(f, Model(), px, py, img, posY, x);
        ghost var f1 := Model();
        build[256 + off + x / 4 + posY * 80 + (3 - x % 4) * 14560] := img[blk];
        assert Model() == Plot(f1, x, posY, img[blk]);
        x := x + 1;
        blk := blk + 1;
      }
    }

    /** Draw a 12 by 12 block at (px, py), clipped to the view. */
    method DrawFullBlock(px: int, py: int, img: Image)
      requires Ready()
      modifies build
      ensures Ready() && BlockDrawn(old(Model()), Model(), px, py, img)
    {
      if px + 12 <= showX || px >= showX + 320 || py + 12 <= showY || py >= showY + 182 {
        return;
      }
      var xLeft := if showX - px < 0 then 0 else showX - px;
      var xRight := if showX + 320 - px > 12 then 12 else showX + 320 - px;
      var yTop := if showY - py < 0 then 0 else showY - py;
      var yBottom := if showY + 182 - py > 12 then 12 else showY + 182 - py;
      var posX, posY := px + xLeft, py + yTop;
      ghost var f := Model();
      for dy := 0 to yBottom - yTop
        invariant posY == py + yTop + dy
        invariant Ready() && BlockPart(f, Model(), px, py, img, posY, posX)
      {
        DrawBlockRow(px, py, img, posX, posY, xRight - xLeft, f);
        posY := posY + 1;
      }
    }

    /** Save and mask one pixel; blk is its place in the image, m in the mask and saved block. */
    method MaskPixel(px: int, py: int, img: Image, msk: Image, x: int, y: int, blk: int, m: int,
                     ghost f: Frame, ghost save: seq<byte>)
      requires Ready() && Valid(f) && MaskPart(f, Model(), save, blockMask[..], px, py, img, msk, y, x)
      requires InBlock(px, py, x, y) && Shown(f, x, y)
      requires blk == (y - py) * 12 + (x - px) && m == Clipped(f, px, py, x, y)
      modifies build, blockMask
      ensures Ready() && MaskPart(f, Model(), save, blockMask[..], px, py, img, msk, y, x + 1)
    {
      AddrInBuffer(off, showX, showY, x, y);
      MaskPartStep(f, Model(), save, blockMask[..], px, py, img, msk, y, x);
      ghost var f1, saved := Model(), blockMask[..];
      var a := 256 + off + x / 4 + y * 80 + (3 - x % 4) * 14560;
      blockMask[m] := build[a];
      assert blockMask[..] == saved[m := Pixel(f1, x, y)];
      if msk[m] == 1 {
        build[a] := img[blk];
        assert Model() == Plot(f1, x, y, img[blk]);
      } else {
        assert Model() == f1;
      }
    }

    /** Save and mask row posY of a clipped block; k is the first slot of the row. */
    method MaskRow(px: int, py: int, img: Image, msk: Image, posX: int, posY: int, count: nat, k: int,
                   ghost f: Frame, ghost save: seq<byte>)
      requires Ready() && Valid(f) && MaskPart(f, Model(), save, blockMask[..], px, py, img, msk, posY, posX)
      requires count > 0 && InBlock(px, py, posX, posY) && InBlock(px, py, posX + count - 1, posY)
      requires Shown(f, posX, posY) && Shown(f, posX + count - 1, posY)
      requires k == Clipped(f, px, py, posX, posY)
      modifies build, blockMask
      ensures Ready() && MaskPart(f, Model(), save, blockMask[..], px, py, img, msk, posY, posX + count)
    {
      var x, blk, m := posX, (posY - py) * 12 + (posX - px), k;
      for dx := 0 to count
        invariant x == posX + dx && blk == (posY - py) * 12 + (x - px) && m == Clipped(f, px, py, x, posY)
        invariant Ready() && MaskPart(f, Model(), save, blockMask[..], px, py, img, msk, posY, x)
      {
        MaskPixel(px, py, img, msk, x, posY, blk, m, f, save);
        x, blk, m := x + 1, blk + 1, m + 1;
      }
    }

    /** Draw the image where the mask is 1, saving what was under the clipped block. */
    method Mask(px: int, py: int, img: Image, msk: Image)
      requires Ready()
      modifies build, blockMask
      ensures Ready() && Masked(old(Model()), Model(), old(blockMask[..]), blockMask[..], px, py, img, msk)
    {
      ghost var f, save := Model(), blockMask[..];
      if py + 12 <= showY || py >= showY + 182 || px + 12 <= showX || px >= showX + 320 {
        MaskInvisible(f, save, px, py, img, msk);
        return;
      }
      var xLeft := if showX - px < 0 then 0 else showX - px;
      var xRight := if showX + 320 - px > 12 then 12 else showX + 320 - px;
      var yTop := if showY - py < 0 then 0 else showY - py;
      var yBottom := if showY + 182 - py > 12 then 12 else showY + 182 - py;
      var posX, posY, k := px + xLeft, py + yTop, 0;
      MaskPartStart(f, save, px, py, img, msk, posY, posX);
      for dy := 0 to yBottom - yTop
        invariant posY == py + yTop + dy && k == 12 * dy
        invariant Ready() && MaskPart(f, Model(), save, blockMask[..], px, py, img, msk, posY, posX)
      {
        MaskRow(px, py, img, msk, posX, posY, xRight - xLeft, k, f, save);
        k := k + 12;
        posY := posY + 1;
      }
      MaskPartEnd(f, Model(), save, blockMask[..], px, py, img, msk, posY, posX);
    }

    /** The image of a horizontal line in a new buffer. */
    method RowBuffer(maze: Maze, x: int, y: int) returns (buf: array<byte>)
      requires maze.Ready() && OnPicture(maze.xd, maze.yd, x, y) && OnPicture(maze.xd, maze.yd, x + 319, y)
      ensures fresh(buf) && buf.Length == 320 && RowOf(buf[..], Scenery(maze.blocks, maze.Model()), x, y)
    {
      buf := new byte[320](_ => 0);
      maze.FillHorizBuffer(x, y, buf);
    }

    /** Draw row y of the view (0-based) with what the maze shows there. */
    method DrawHorizLine(maze: Maze, y: int) returns (ret: int)
      requires Ready() && maze.Ready()
      requires 0 <= y < 182 ==> OnPicture(maze.xd, maze.yd, showX, showY + y) && OnPicture(maze.xd, maze.yd, showX + 319, showY + y)
      modifies build
      ensures 0 <= y < 182 <==> ret == 0
      ensures !(0 <= y < 182) ==> ret == -1 && Model() == old(Model())
      ensures Ready()
      ensures 0 <= y < 182 ==> RowDrawn(old(Model()), Model(), Scenery(maze.blocks, maze.Model()), showY + y)
    {
      if y < 0 || y >= 182 {
        return -1;
      }
      ghost var f := Model();
      var buf := RowBuffer(maze, showX, showY + y);
      ghost var line := buf[..];
      assert Model() == f;
      WriteRow(showY + y, buf, line);
      RowShows(f, Model(), line, Scenery(maze.blocks, maze.Model()), showY + y);
      ret := 0;
    }

    /** Distribute a line over the planes, starting at the plane of the first pixel. */
    method WriteRow(y: int, buf: array<byte>, ghost line: seq<byte>)
      requires Ready() && showY <= y < showY + 182 && buf.Length == 320 && buf != build && buf[..] == line
      modifies build
      ensures Model() == PlotRow(old(Model()), showX, y, line, |line|)
    {
      ghost var f := Model();
      var addr, plane := 256 + off + showX / 4 + y * 80, 3 - showX % 4;
      for i := 0 to 320
        invariant buf[..] == line
        invariant addr == 256 + off + (showX + i) / 4 + y * 80 && plane == 3 - (showX + i) % 4
        invariant Model() == PlotRow(f, showX, y, line, i)
      {
        AddrInBuffer(off, showX, showY, showX + i, y);
        ghost var f1 := Model();
        build[addr + plane * 14560] := buf[i];
        assert buf[i] == line[i] && Model() == Plot(f1, showX + i, y, line[i]);
        plane := plane - 1;
        if plane < 0 {
          plane := 3;
          addr := addr + 1;
        }
      }
    }

    /** The image of a vertical line in a new buffer. */
    method ColumnBuffer(maze: Maze, x: int, y: int) returns (buf: array<byte>)
      requires maze.Ready() && OnPicture(maze.xd, maze.yd, x, y) && OnPicture(maze.xd, maze.yd, x, y + 181)
      ensures fresh(buf) && buf.Length == 182 && ColumnOf(buf[..], Scenery(maze.blocks, maze.Model()), x, y)
    {
      buf := new byte[182](_ => 0);
      maze.FillVertBuffer(x, y, buf);
    }

    /** Draw column x of the view (0-based) with what the maze shows there. Column 320 is let
        through by the range check although it lies outside the view. */
    method DrawVertLine(maze: Maze, x: int) returns (ret: int, ghost line: seq<byte>)
      requires Ready() && maze.Ready()
      requires 0 <= x <= 320 ==> OnPicture(maze.xd, maze.yd, showX + x, showY) && OnPicture(maze.xd, maze.yd, showX + x, showY + 181)
      modifies build
      ensures 0 <= x <= 320 <==> ret == 0
      ensures !(0 <= x <= 320) ==> ret == -1 && Model() == old(Model())
      ensures ret == 0 ==> ColumnWritten(old(Model()), Model(), Scenery(maze.blocks, maze.Model()), showX + x, line)
      ensures 0 <= x < 320 ==> Ready() && ColumnDrawn(old(Model()), Model(), Scenery(maze.blocks, maze.Model()), showX + x)
    {
      if x < 0 || x > 320 {
        return -1, [];
      }
      line := PaintColumn(maze, showX + x);
      ret := 0;
    }

    /** Draw column x of the picture from the top of the view down. */
    method PaintColumn(maze: Maze, x: int) returns (ghost line: seq<byte>)
      requires Ready() && maze.Ready() && showX <= x <= showX + 320
      requires OnPicture(maze.xd, maze.yd, x, showY) && OnPicture(maze.xd, maze.yd, x, showY + 181)
      modifies build
      ensures ColumnWritten(old(Model()), Model(), Scenery(maze.blocks, maze.Model()), x, line)
      ensures x < showX + 320 ==> Ready() && ColumnDrawn(old(Model()), Model(), Scenery(maze.blocks, maze.Model()), x)
    {
      ghost var f := Model();
      var buf := ColumnBuffer(maze, x, showY);
      line := buf[..];
      assert Model() == f;
      WriteColumn(x, buf, line);
      if x < showX + 320 {
        ColumnShows(f, Model(), line, Scenery(maze.blocks, maze.Model()), x);
      }
    }

    method WriteColumn(x: int, buf: array<byte>, ghost line: seq<byte>)
      requires Ready() && showX <= x <= showX + 320 && buf.Length == 182 && buf != build && buf[..] == line
      modifies build
      ensures Model() == PlotColumn(old(Model()), x, showY, line, |line|)
    {
      ghost var f := Model();
      var addr, plane := 256 + off + x / 4 + showY * 80, 3 - x % 4;
      for j := 0 to 182
        invariant buf[..] == line
        invariant addr == 256 + off + x / 4 + (showY + j) * 80
        invariant Model() == PlotColumn(f, x, showY, line, j)
      {
        ghost var f1 := Model();
        build[addr + plane * 14560] := buf[j];
        assert buf[j] == line[j] && Model() == Plot(f1, x, showY + j, line[j]);
        addr := addr + 80;
      }
    }

    /** Copy plane i of the view, 14560 bytes, to the page at target. */
    method CopyPlane(i: int, src: int)
      requires Ready() && HasPages() && 0 <= i < 4 && src == PlaneSource(Model(), i, 0)
      modifies video
      ensures forall a :: target <= a < target + 14560 ==> video[i, a] == PlanePixel(Model(), i, a - target)
      ensures forall j, a :: 0 <= j < 4 && 0 <= a < 65536 && !(j == i && target <= a < target + 14560) ==>
                video[j, a] == old(video[j, a])
    {
      ghost var f := Model();
      for n := 0 to 14560
        invariant forall a :: target <= a < target + n ==> video[i, a] == PlanePixel(f, i, a - target)
        invariant forall j, a :: 0 <= j < 4 && 0 <= a < 65536 && !(j == i && target <= a < target + n) ==>
                    video[j, a] == old(video[j, a])
      {
        PlaneShowsPixels(f, i, n);
        video[i, target + n] := build[src + n];
      }
    }

    /** Show the view: fill the page that is not on display and switch to it. */
    method ShowScreen()
      requires Ready() && HasPages()
      modifies video, this`target
      ensures HasPages() && target != old(target)
      ensures forall i, a :: 0 <= i < 4 && target <= a < target + 14560 ==> video[i, a] == PlanePixel(Model(), i, a - target)
      ensures forall i, a :: 0 <= i < 4 && 0 <= a < 65536 && !(target <= a < target + 14560) ==>
                video[i, a] == old(video[i, a])
    {
      ghost var f := Model();
      var first := 3 - showX % 4;
      target := if target == 0x05A0 then 0x45A0 else 0x05A0;
      var addr := 256 + off + showX / 4 + showY * 80;
      for i := 0 to 4
        invariant target == if old(target) == 0x05A0 then 0x45A0 else 0x05A0
        invariant forall j, a :: 0 <= j < i && target <= a < target + 14560 ==> video[j, a] == PlanePixel(f, j, a - target)
        invariant forall j, a :: 0 <= j < 4 && 0 <= a < 65536 && !(target <= a < target + 14560) ==>
                    video[j, a] == old(video[j, a])
      {
        CopyPlane(i, addr + (first - i + 4) % 4 * 14560 + (if first < i then 1 else 0));
      }
    }
  }
}
