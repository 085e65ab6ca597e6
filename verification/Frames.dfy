/** The planar build buffer of modex.c: where the pixels of the logical view are kept. The view is
    320 pixels wide and 182 high; each of its four planes takes 80 bytes a row, 14560 in all. */
module Frames {
  import opened Pictures

  const BUILD_BUF_SIZE := 78241
  const BUILD_BASE_INIT := 10000

  /** The build buffer and the 256 guard bytes on either side of it. */
  const ARRAY_SIZE: nat := 78753

  /** The array with its fences, the offset of the upper left pixel, and the view position. */
  datatype Frame = Frame(bytes: seq<byte>, off: int, showX: int, showY: int)

  /** Index of pixel (x, y): plane x mod 4, planes stored in reverse order, 80 bytes a row. */
  function Addr(off: int, x: int, y: int): int {
    256 + off + x / 4 + 80 * y + (3 - x % 4) * 14560
  }

  predicate InWindow(sx: int, sy: int, x: int, y: int) {
    sx <= x < sx + 320 && sy <= y < sy + 182
  }

  /** The test of set_view_window: the window lies inside the build buffer. */
  predicate Fits(off: int, sx: int, sy: int) {
    off + sx / 4 + sy * 80 >= 0 && off + 3 * 14560 + (sx + 319) / 4 + (sy + 181) * 80 < 78241
  }

  ghost predicate Valid(f: Frame) {
    |f.bytes| == ARRAY_SIZE && Fits(f.off, f.showX, f.showY)
  }

  function Pixel(f: Frame, x: int, y: int): byte {
    var a := Addr(f.off, x, y);
    if 0 <= a < |f.bytes| then f.bytes[a] else 0
  }

  ghost predicate Shown(f: Frame, x: int, y: int) {
    InWindow(f.showX, f.showY, x, y)
  }

  lemma AddrInBuffer(off: int, sx: int, sy: int, x: int, y: int)
    requires Fits(off, sx, sy) && InWindow(sx, sy, x, y)
    ensures 256 <= Addr(off, x, y) < 256 + 78241
  {
  }

  /** No two pixels of a window share a byte. */
  lemma AddrInjective(off: int, sx: int, sy: int, x: int, y: int, u: int, v: int)
    requires InWindow(sx, sy, x, y) && InWindow(sx, sy, u, v)
    requires Addr(off, x, y) == Addr(off, u, v)
    ensures x == u && y == v
  {
    PlaneParts(sx, sy, x / 4, x % 4, y, u / 4, u % 4, v);
  }

  /** Quotient, remainder and row of two pixels with the same byte. */
  lemma PlaneParts(sx: int, sy: int, q: int, r: int, y: int, q': int, r': int, v: int)
    requires 0 <= r < 4 && 0 <= r' < 4 && InWindow(sx, sy, 4 * q + r, y) && InWindow(sx, sy, 4 * q' + r', v)
    requires q + 80 * y - r * 14560 == q' + 80 * v - r' * 14560
    ensures q == q' && r == r' && y == v
  {
    assert r == r';
  }

  /** The window spans exactly 4 * 14560 bytes, or one more when it is not aligned. */
  lemma WindowSpan(off: int, sx: int, sy: int, x: int, y: int)
    requires InWindow(sx, sy, x, y)
    ensures var first := 256 + off + sx / 4 + 80 * sy;
            var span := if sx % 4 == 0 then 58240 else 58241;
            && first <= Addr(off, x, y) < first + span
            && Addr(off, sx / 4 * 4 + 3, sy) == first && InWindow(sx, sy, sx / 4 * 4 + 3, sy)
            && Addr(off, (sx + 319) / 4 * 4, sy + 181) == first + span - 1
            && InWindow(sx, sy, (sx + 319) / 4 * 4, sy + 181)
            && (Fits(off, sx, sy) <==> 256 <= first && first + span <= 256 + 78241)
  {
  }

  /** The frame with one byte changed. */
  function Plot(f: Frame, x: int, y: int, v: byte): Frame {
    var a := Addr(f.off, x, y);
    if 0 <= a < |f.bytes| then f.(bytes := f.bytes[a := v]) else f
  }

  /** The guard bytes on either side of the buffer are untouched. */
  ghost predicate GuardKept(f: Frame, f': Frame) {
    |f'.bytes| == |f.bytes| == ARRAY_SIZE && f'.bytes[..256] == f.bytes[..256] && f'.bytes[256 + 78241..] == f.bytes[256 + 78241..]
  }

  ghost predicate SameView(f: Frame, f': Frame) {
    f'.off == f.off && f'.showX == f.showX && f'.showY == f.showY && GuardKept(f, f')
  }

  /** Writing the byte of a shown pixel changes that pixel and no other shown pixel. */
  lemma PlotOnePixel(f: Frame, x: int, y: int, v: byte)
    requires Valid(f) && Shown(f, x, y)
    ensures Valid(Plot(f, x, y, v)) && SameView(f, Plot(f, x, y, v))
    ensures forall u, w :: Shown(f, u, w) ==> Pixel(Plot(f, x, y, v), u, w) == if u == x && w == y then v else Pixel(f, u, w)
  {
    AddrInBuffer(f.off, f.showX, f.showY, x, y);
    forall u, w | Shown(f, u, w)
      ensures Pixel(Plot(f, x, y, v), u, w) == if u == x && w == y then v else Pixel(f, u, w)
    {
      AddrInBuffer(f.off, f.showX, f.showY, u, w);
      if Addr(f.off, u, w) == Addr(f.off, x, y) {
        AddrInjective(f.off, f.showX, f.showY, u, w, x, y);
      }
    }
  }

  predicate InBlock(px: int, py: int, x: int, y: int) {
    px <= x < px + 12 && py <= y < py + 12
  }

  /** Exactly the shown pixels of the block at (px, py) have changed, to those of the image. */
  ghost predicate BlockDrawn(f: Frame, f': Frame, px: int, py: int, img: Image) {
    SameView(f, f') && forall x, y :: Shown(f, x, y) ==>
      Pixel(f', x, y) == if InBlock(px, py, x, y) then img[(y - py) * 12 + (x - px)] else Pixel(f, x, y)
  }

  function Max(a: int, b: int): int { if a < b then b else a }

  function Min(a: int, b: int): int { if a < b then a else b }

  /** The clipped block drawn down to row y, and in row y up to column x. */
  ghost predicate BlockPart(f: Frame, f': Frame, px: int, py: int, img: Image, y: int, x: int) {
    SameView(f, f') && forall u, v :: Shown(f, u, v) ==>
      Pixel(f', u, v) == if InBlock(px, py, u, v) && (v < y || (v == y && u < x))
                         then img[(v - py) * 12 + (u - px)] else Pixel(f, u, v)
  }

  lemma BlockPartStep(f: Frame, f': Frame, px: int, py: int, img: Image, y: int, x: int)
    requires Valid(f) && BlockPart(f, f', px, py, img, y, x)
    requires InBlock(px, py, x, y) && Shown(f, x, y)
    ensures BlockPart(f, Plot(f', x, y, img[(y - py) * 12 + (x - px)]), px, py, img, y, x + 1)
  {
    PlotOnePixel(f', x, y, img[(y - py) * 12 + (x - px)]);
  }

  /** show_screen reads byte k of video plane i here. */
  function PlaneSource(f: Frame, i: int, k: int): int {
    var first := 3 - f.showX % 4;
    256 + f.off + f.showX / 4 + f.showY * 80 + (first - i + 4) % 4 * 14560 + (if first < i then 1 else 0) + k
  }

  /** What byte k of video plane i has to show: in the group of four pixels at column k mod 80
      of row k / 80, the one with number i. */
  function PlanePixel(f: Frame, i: int, k: int): byte {
    Pixel(f, f.showX + 4 * (k % 80) + i, f.showY + k / 80)
  }

  /** The planes of the build buffer, picked and shifted by the view position, are the planes of
      the display. */
  lemma PlaneShowsPixels(f: Frame, i: int, k: int)
    requires Valid(f) && 0 <= i < 4 && 0 <= k < 14560
    ensures Shown(f, f.showX + 4 * (k % 80) + i, f.showY + k / 80)
    ensures 0 <= PlaneSource(f, i, k) < |f.bytes| && f.bytes[PlaneSource(f, i, k)] == PlanePixel(f, i, k)
  {
    var x, y := f.showX + 4 * (k % 80) + i, f.showY + k / 80;
    var q, r := f.showX / 4, f.showX % 4;
    assert x == 4 * (q + k % 80) + (r + i);
    assert if r + i < 4 then x / 4 == q + k % 80 && x % 4 == r + i else x / 4 == q + k % 80 + 1 && x % 4 == r + i - 4;
    AddrInBuffer(f.off, f.showX, f.showY, x, y);
  }

  /** Every pixel seen through both windows is the same in both frames. */
  ghost predicate CommonKept(f: Frame, f': Frame) {
    forall x, y :: Shown(f, x, y) && Shown(f', x, y) ==> Pixel(f', x, y) == Pixel(f, x, y)
  }

  /** First and last byte, relative to the picture origin, that set_view_window copies when the
      view moves from (ox, oy) to (nx, ny). */
  function CopyStart(ox: int, oy: int, nx: int, ny: int): int {
    Max(ox, nx) / 4 + Max(oy, ny) * 80
  }

  function CopyLength(ox: int, oy: int, nx: int, ny: int): int {
    (Min(ox, nx) + 319) / 4 + (Min(oy, ny) + 181) * 80 + 1 - CopyStart(ox, oy, nx, ny) + 3 * 14560
  }

  predicate Overlap(ox: int, oy: int, nx: int, ny: int) {
    ox - 320 < nx < ox + 320 && oy - 182 < ny < oy + 182
  }

  function Recentred(nx: int, ny: int): int {
    BUILD_BASE_INIT - nx / 4 - ny * 80
  }

  /** Source and destination of the copy lie inside the buffer. */
  lemma CopyInBuffer(off: int, ox: int, oy: int, nx: int, ny: int)
    requires Fits(off, ox, oy) && Overlap(ox, oy, nx, ny)
    ensures var s, n := CopyStart(ox, oy, nx, ny), CopyLength(ox, oy, nx, ny);
            && n > 0
            && 0 <= off + s && off + s + n <= 78241
            && 0 <= Recentred(nx, ny) + s && Recentred(nx, ny) + s + n <= 78241
  {
  }

  lemma RecentredFits(nx: int, ny: int)
    ensures Fits(Recentred(nx, ny), nx, ny)
  {
  }

  ghost predicate ByteMoved(f: Frame, f': Frame, src: int, dst: int, n: int, k: int)
    requires 0 <= k < |f.bytes| == |f'.bytes| && 0 <= src && src + n <= |f.bytes|
  {
    f'.bytes[k] == if dst <= k < dst + n then f.bytes[src + (k - dst)] else f.bytes[k]
  }

  /** Bytes [src, src + n) of f have been copied to [dst, dst + n) and nothing else has changed. */
  ghost predicate Moved(f: Frame, f': Frame, src: int, dst: int, n: int) {
    && |f'.bytes| == |f.bytes|
    && 0 <= n && 0 <= src && src + n <= |f.bytes| && 0 <= dst && dst + n <= |f.bytes|
    && forall k :: 0 <= k < |f.bytes| ==> ByteMoved(f, f', src, dst, n, k)
  }

  lemma MovedKeepsGuard(f: Frame, f': Frame, src: int, dst: int, n: int)
    requires |f.bytes| == ARRAY_SIZE && Moved(f, f', src, dst, n) && 256 <= dst && dst + n <= 256 + 78241
    ensures GuardKept(f, f')
  {
    var c := 256 + 78241;
    forall k | 0 <= k < 256 ensures f'.bytes[..256][k] == f.bytes[..256][k] {
      assert ByteMoved(f, f', src, dst, n, k);
    }
    forall k | 0 <= k < ARRAY_SIZE - c ensures f'.bytes[c..][k] == f.bytes[c..][k] {
      assert ByteMoved(f, f', src, dst, n, c + k);
    }
  }

  /** Moving that range of bytes to the new origin keeps every pixel seen before and after. */
  lemma CopyKeepsCommon(f: Frame, f': Frame)
    requires Valid(f) && Overlap(f.showX, f.showY, f'.showX, f'.showY)
    requires f'.off == Recentred(f'.showX, f'.showY)
    requires var s := CopyStart(f.showX, f.showY, f'.showX, f'.showY);
             Moved(f, f', 256 + f.off + s, 256 + f'.off + s, CopyLength(f.showX, f.showY, f'.showX, f'.showY))
    ensures CommonKept(f, f')
  {
    var s := CopyStart(f.showX, f.showY, f'.showX, f'.showY);
    var n := CopyLength(f.showX, f.showY, f'.showX, f'.showY);
    forall x, y | Shown(f, x, y) && Shown(f', x, y)
      ensures Pixel(f', x, y) == Pixel(f, x, y)
    {
      var i := Addr(f.off, x, y) - (256 + f.off + s);
      assert 0 <= i < n;
      assert Addr(f'.off, x, y) == 256 + f'.off + s + i;
      assert ByteMoved(f, f', 256 + f.off + s, 256 + f'.off + s, n, 256 + f'.off + s + i);
    }
  }

  /** The first n pixels of a line written from (x, y) rightwards. */
  function PlotRow(f: Frame, x: int, y: int, line: seq<byte>, n: nat): Frame
    requires n <= |line|
  {
    if n == 0 then f else Plot(PlotRow(f, x, y, line, n - 1), x + n - 1, y, line[n - 1])
  }

  /** The first n pixels of a line written from (x, y) downwards. */
  function PlotColumn(f: Frame, x: int, y: int, line: seq<byte>, n: nat): Frame
    requires n <= |line|
  {
    if n == 0 then f else Plot(PlotColumn(f, x, y, line, n - 1), x, y + n - 1, line[n - 1])
  }

  /** The first n pixels of the line have been written to row y of the view. */
  ghost predicate RowPart(f: Frame, f': Frame, y: int, line: seq<byte>, n: nat)
    requires n <= |line|
  {
    Valid(f') && SameView(f, f') && forall u, w :: Shown(f, u, w) ==>
      Pixel(f', u, w) == if w == y && u < f.showX + n then line[u - f.showX] else Pixel(f, u, w)
  }

  /** The first n pixels of the line have been written to column x of the view. */
  ghost predicate ColumnPart(f: Frame, f': Frame, x: int, line: seq<byte>, n: nat)
    requires n <= |line|
  {
    Valid(f') && SameView(f, f') && forall u, w :: Shown(f, u, w) ==>
      Pixel(f', u, w) == if u == x && w < f.showY + n then line[w - f.showY] else Pixel(f, u, w)
  }

  lemma RowPartNext(f: Frame, g: Frame, y: int, line: seq<byte>, n: nat)
    requires f.showY <= y < f.showY + 182 && n < |line| <= 320 && RowPart(f, g, y, line, n)
    ensures RowPart(f, Plot(g, f.showX + n, y, line[n]), y, line, n + 1)
  {
    PlotOnePixel(g, f.showX + n, y, line[n]);
  }

  lemma ColumnPartNext(f: Frame, g: Frame, x: int, line: seq<byte>, n: nat)
    requires f.showX <= x < f.showX + 320 && n < |line| <= 182 && ColumnPart(f, g, x, line, n)
    ensures ColumnPart(f, Plot(g, x, f.showY + n, line[n]), x, line, n + 1)
  {
    PlotOnePixel(g, x, f.showY + n, line[n]);
  }

  /** A line drawn across the view changes exactly the pixels of its row. */
  lemma {:induction false} RowPixels(f: Frame, y: int, line: seq<byte>, n: nat)
    requires Valid(f) && f.showY <= y < f.showY + 182 && n <= |line| <= 320
    ensures RowPart(f, PlotRow(f, f.showX, y, line, n), y, line, n)
  {
    if n > 0 {
      RowPixels(f, y, line, n - 1);
      RowPartNext(f, PlotRow(f, f.showX, y, line, n - 1), y, line, n - 1);
    }
  }

  /** A line drawn down the view changes exactly the pixels of its column. */
  lemma {:induction false} ColumnPixels(f: Frame, x: int, line: seq<byte>, n: nat)
    requires Valid(f) && f.showX <= x < f.showX + 320 && n <= |line| <= 182
    ensures ColumnPart(f, PlotColumn(f, x, f.showY, line, n), x, line, n)
  {
    if n > 0 {
      ColumnPixels(f, x, line, n - 1);
      ColumnPartNext(f, PlotColumn(f, x, f.showY, line, n - 1), x, line, n - 1);
    }
  }

  /** Row y of the view shows picture g; every other shown pixel is as before. */
  ghost predicate RowDrawn(f: Frame, f': Frame, g: (int, int) -> byte, y: int) {
    SameView(f, f') && forall u, w :: Shown(f, u, w) ==> Pixel(f', u, w) == if w == y then g(u, w) else Pixel(f, u, w)
  }

  /** Column x of the view shows picture g; every other shown pixel is as before. */
  ghost predicate ColumnDrawn(f: Frame, f': Frame, g: (int, int) -> byte, x: int) {
    SameView(f, f') && forall u, w :: Shown(f, u, w) ==> Pixel(f', u, w) == if u == x then g(u, w) else Pixel(f, u, w)
  }

  /** The line holds the 320 pixels of g from (x, y) rightwards. */
  ghost predicate RowOf(line: seq<byte>, g: (int, int) -> byte, x: int, y: int) {
    |line| == 320 && forall i :: 0 <= i < 320 ==> line[i] == g(x + i, y)
  }

  /** The line holds the 182 pixels of g from (x, y) downwards. */
  ghost predicate ColumnOf(line: seq<byte>, g: (int, int) -> byte, x: int, y: int) {
    |line| == 182 && forall i :: 0 <= i < 182 ==> line[i] == g(x, y + i)
  }

  /** f' is f with the column of picture g at x written from the top of the view down. */
  ghost predicate ColumnWritten(f: Frame, f': Frame, g: (int, int) -> byte, x: int, line: seq<byte>) {
    ColumnOf(line, g, x, f.showY) && f' == PlotColumn(f, x, f.showY, line, |line|)
  }

  lemma RowShows(f: Frame, f': Frame, line: seq<byte>, g: (int, int) -> byte, y: int)
    requires Valid(f) && f.showY <= y < f.showY + 182 && RowOf(line, g, f.showX, y)
    requires f' == PlotRow(f, f.showX, y, line, |line|)
    ensures Valid(f') && RowDrawn(f, f', g, y)
  {
    RowPixels(f, y, line, |line|);
    forall u, w | Shown(f, u, w) && w == y
      ensures line[u - f.showX] == g(u, w)
    {
      assert u == f.showX + (u - f.showX);
    }
  }

  lemma ColumnShows(f: Frame, f': Frame, line: seq<byte>, g: (int, int) -> byte, x: int)
    requires Valid(f) && f.showX <= x < f.showX + 320 && ColumnOf(line, g, x, f.showY)
    requires f' == PlotColumn(f, x, f.showY, line, |line|)
    ensures Valid(f') && ColumnDrawn(f, f', g, x)
  {
    ColumnPixels(f, x, line, |line|);
    forall u, w | Shown(f, u, w) && u == x
      ensures line[w - f.showY] == g(u, w)
    {
      assert w == f.showY + (w - f.showY);
    }
  }

  /** The first n pixels of the line are those of the first column of the view, one row lower. */
  ghost predicate Misplaced(f: Frame, f': Frame, line: seq<byte>, n: nat)
    requires n <= |line|
  {
    && f'.off == f.off && f'.showX == f.showX && f'.showY == f.showY && |f'.bytes| == |f.bytes|
    && forall k :: 0 <= k < n && k < 181 ==> Pixel(f', f.showX, f.showY + k + 1) == line[k]
  }

  /** draw_vert_line accepts column 320, one past the view. Its line then lands on the first
      column, one row lower, and its last pixel beyond the last byte of the window's plane. */
  lemma {:induction false} ColumnPastTheView(f: Frame, line: seq<byte>, n: nat)
    requires Valid(f) && n <= |line| <= 182
    ensures Misplaced(f, PlotColumn(f, f.showX + 320, f.showY, line, n), line, n)
  {
    if n > 0 {
      ColumnPastTheView(f, line, n - 1);
      MisplacedNext(f, PlotColumn(f, f.showX + 320, f.showY, line, n - 1), line, n - 1);
    }
  }

  lemma MisplacedNext(f: Frame, g: Frame, line: seq<byte>, n: nat)
    requires Valid(f) && n < |line| <= 182 && Misplaced(f, g, line, n)
    ensures Misplaced(f, Plot(g, f.showX + 320, f.showY + n, line[n]), line, n + 1)
  {
    var f' := Plot(g, f.showX + 320, f.showY + n, line[n]);
    PastIsNextRow(f.off, f.showX, f.showY + n);
    forall k | 0 <= k < n + 1 && k < 181
      ensures Pixel(f', f.showX, f.showY + k + 1) == line[k]
    {
      AddrInBuffer(f.off, f.showX, f.showY, f.showX, f.showY + k + 1);
    }
  }

  lemma PastIsNextRow(off: int, x: int, y: int)
    ensures Addr(off, x + 320, y) == Addr(off, x, y + 1)
  {
  }

  /** Writing a column changes no shown pixel outside it, whatever the line, exactly for the
      columns of the view: of the arguments draw_vert_line accepts, all but 320. */
  lemma ColumnContainedIff(f: Frame, x: int)
    requires Valid(f) && f.showX <= x <= f.showX + 320
    ensures x < f.showX + 320 <==>
            forall line: seq<byte>, u, w :: |line| == 182 && Shown(f, u, w) && u != x ==>
              Pixel(PlotColumn(f, x, f.showY, line, |line|), u, w) == Pixel(f, u, w)
  {
    if x < f.showX + 320 {
      forall line: seq<byte>, u, w | |line| == 182 && Shown(f, u, w) && u != x
        ensures Pixel(PlotColumn(f, x, f.showY, line, |line|), u, w) == Pixel(f, u, w)
      {
        ColumnPixels(f, x, line, |line|);
      }
    } else {
      var v: byte := if Pixel(f, f.showX, f.showY + 1) == 0 then 1 else 0;
      var line := seq(182, _ => v);
      ColumnPastTheView(f, line, |line|);
      assert Pixel(PlotColumn(f, x, f.showY, line, |line|), f.showX, f.showY + 0 + 1) == line[0];
    }
  }

  /** What the mask routine leaves: the pixels chosen by the mask replaced by the image, and
      everything under the clipped block saved row by row from its own upper left corner. */
  ghost predicate Masked(f: Frame, f': Frame, save: seq<byte>, save': seq<byte>, px: int, py: int, img: Image, msk: Image) {
    MaskPart(f, f', save, save', px, py, img, msk, py + 12, px)
  }

  /** Offset, in the mask and in the saved block, of pixel (x, y) of a clipped block. */
  function Clipped(f: Frame, px: int, py: int, x: int, y: int): int {
    (y - Max(py, f.showY)) * 12 + (x - Max(px, f.showX))
  }

  predicate Before(x: int, y: int, u: int, v: int) {
    v < y || (v == y && u < x)
  }

  ghost predicate MaskPart(f: Frame, f': Frame, save: seq<byte>, save': seq<byte>, px: int, py: int,
                           img: Image, msk: Image, y: int, x: int) {
    && SameView(f, f') && |save| == |save'| == 144
    && (forall u, v :: Shown(f, u, v) ==> PixelMasked(f, f', save', px, py, img, msk, y, x, u, v))
    && (forall k :: 0 <= k < 144 && !SavedAt(f, px, py, y, x, k) ==> save'[k] == save[k])
  }

  ghost predicate PixelMasked(f: Frame, f': Frame, save': seq<byte>, px: int, py: int,
                              img: Image, msk: Image, y: int, x: int, u: int, v: int)
    requires Shown(f, u, v) && |save'| == 144
  {
    if InBlock(px, py, u, v) && Before(x, y, u, v)
    then var k := Clipped(f, px, py, u, v);
         && Pixel(f', u, v) == (if msk[k] == 1 then img[(v - py) * 12 + (u - px)] else Pixel(f, u, v))
         && save'[k] == Pixel(f, u, v)
    else Pixel(f', u, v) == Pixel(f, u, v)
  }

  /** Slot k of the saved block belongs to a visible pixel of the block before (x, y). */
  ghost predicate SavedAt(f: Frame, px: int, py: int, y: int, x: int, k: int) {
    var u, v := Max(px, f.showX) + k % 12, Max(py, f.showY) + k / 12;
    Shown(f, u, v) && InBlock(px, py, u, v) && Before(x, y, u, v)
  }

  lemma MaskPartStep(f: Frame, f': Frame, save: seq<byte>, save': seq<byte>, px: int, py: int,
                     img: Image, msk: Image, y: int, x: int)
    requires Valid(f) && MaskPart(f, f', save, save', px, py, img, msk, y, x)
    requires InBlock(px, py, x, y) && Shown(f, x, y)
    ensures var k := Clipped(f, px, py, x, y);
            var f1 := if msk[k] == 1 then Plot(f', x, y, img[(y - py) * 12 + (x - px)]) else f';
            0 <= k < 144 && MaskPart(f, f1, save, save'[k := Pixel(f', x, y)], px, py, img, msk, y, x + 1)
  {
    var k := Clipped(f, px, py, x, y);
    var f1 := if msk[k] == 1 then Plot(f', x, y, img[(y - py) * 12 + (x - px)]) else f';
    var saved := save'[k := Pixel(f', x, y)];
    PlotOnePixel(f', x, y, img[(y - py) * 12 + (x - px)]);
    forall u, v | Shown(f, u, v)
      ensures PixelMasked(f, f1, saved, px, py, img, msk, y, x + 1, u, v)
    {
      assert PixelMasked(f, f', save', px, py, img, msk, y, x, u, v);
      if InBlock(px, py, u, v) && Clipped(f, px, py, u, v) == k {
        assert u == x && v == y;
      }
    }
    forall j | 0 <= j < 144 && !SavedAt(f, px, py, y, x + 1, j)
      ensures saved[j] == save[j]
    {
      SlotOfPixel(f, px, py, x, y);
    }
  }

  /** Nothing of the block is visible before its first visible pixel. */
  lemma MaskPartStart(f: Frame, save: seq<byte>, px: int, py: int, img: Image, msk: Image, y: int, x: int)
    requires Valid(f) && |save| == 144 && y <= Max(py, f.showY) && x <= Max(px, f.showX)
    ensures MaskPart(f, f, save, save, px, py, img, msk, y, x)
  {
  }

  /** Nothing of the block is visible below its last visible row. */
  lemma MaskPartEnd(f: Frame, f': Frame, save: seq<byte>, save': seq<byte>, px: int, py: int, img: Image, msk: Image, y: int, x: int)
    requires MaskPart(f, f', save, save', px, py, img, msk, y, x)
    requires x <= Max(px, f.showX) && y >= Min(py + 12, f.showY + 182)
    ensures Masked(f, f', save, save', px, py, img, msk)
  {
    forall u, v | Shown(f, u, v)
      ensures PixelMasked(f, f', save', px, py, img, msk, py + 12, px, u, v)
    {
      assert PixelMasked(f, f', save', px, py, img, msk, y, x, u, v);
    }
    forall k | 0 <= k < 144 && !SavedAt(f, px, py, py + 12, px, k)
      ensures !SavedAt(f, px, py, y, x, k)
    {
    }
  }

  lemma MaskInvisible(f: Frame, save: seq<byte>, px: int, py: int, img: Image, msk: Image)
    requires Valid(f) && |save| == 144 && !BlockVisible(f.showX, f.showY, px, py)
    ensures Masked(f, f, save, save, px, py, img, msk)
  {
  }

  /** The slot of a visible pixel names that pixel. */
  lemma SlotOfPixel(f: Frame, px: int, py: int, x: int, y: int)
    requires InBlock(px, py, x, y) && Shown(f, x, y)
    ensures var k := Clipped(f, px, py, x, y);
            k % 12 == x - Max(px, f.showX) && k / 12 == y - Max(py, f.showY) && SavedAt(f, px, py, y, x + 1, k)
  {
  }

  /** Every shown pixel is the same. */
  ghost predicate SamePicture(f: Frame, f': Frame) {
    SameView(f, f') && forall x, y :: Shown(f, x, y) ==> Pixel(f', x, y) == Pixel(f, x, y)
  }

  /** Drawing the saved block undoes the mask when the block's own corner was not clipped. */
  lemma MaskUndone(f: Frame, f1: Frame, f2: Frame, save: seq<byte>, saved: seq<byte>, px: int, py: int, img: Image, msk: Image)
    requires Valid(f) && Masked(f, f1, save, saved, px, py, img, msk) && BlockDrawn(f1, f2, px, py, saved)
    requires f.showX <= px && f.showY <= py
    ensures SamePicture(f, f2)
  {
    forall x, y | Shown(f, x, y)
      ensures Pixel(f2, x, y) == Pixel(f, x, y)
    {
      PixelUndone(f, f1, Pixel(f2, x, y), saved, px, py, img, msk, x, y);
    }
  }

  lemma PixelUndone(f: Frame, f1: Frame, v: byte, saved: seq<byte>, px: int, py: int, img: Image, msk: Image, x: int, y: int)
    requires Shown(f, x, y) && |saved| == 144 && PixelMasked(f, f1, saved, px, py, img, msk, py + 12, px, x, y)
    requires v == if InBlock(px, py, x, y) then saved[(y - py) * 12 + (x - px)] else Pixel(f1, x, y)
    requires f.showX <= px && f.showY <= py
    ensures v == Pixel(f, x, y)
  {
  }

  lemma SlotParts(dx: int, dy: int)
    requires 0 <= dx < 12
    ensures (dy * 12 + dx) % 12 == dx && (dy * 12 + dx) / 12 == dy
    ensures 0 <= dy < 12 ==> 0 <= dy * 12 + dx < 144
  {
  }

  /** The slot drawn back at the first visible pixel was filled from another pixel. */
  lemma SavedElsewhere(f: Frame, f1: Frame, saved: seq<byte>, px: int, py: int, img: Image, msk: Image, cx: int, cy: int)
    requires |saved| == 144 && cx == Max(px, f.showX) && cy == Max(py, f.showY) && (px < cx || py < cy)
    requires InBlock(px, py, cx, cy)
    requires SavedAt(f, px, py, py + 12, px, (cy - py) * 12 + (cx - px))
    requires forall x, y :: Shown(f, x, y) ==> PixelMasked(f, f1, saved, px, py, img, msk, py + 12, px, x, y)
    ensures var u, v := cx + (cx - px), cy + (cy - py);
            (u != cx || v != cy) && Shown(f, u, v) && saved[(cy - py) * 12 + (cx - px)] == Pixel(f, u, v)
  {
    var u, v := cx + (cx - px), cy + (cy - py);
    SlotParts(cx - px, cy - py);
    assert Shown(f, u, v) && PixelMasked(f, f1, saved, px, py, img, msk, py + 12, px, u, v);
  }

  /** What is drawn back at the first visible pixel when no other pixel is lit. */
  lemma SavedDark(f: Frame, f1: Frame, save: seq<byte>, saved: seq<byte>, px: int, py: int, img: Image, msk: Image)
    requires Masked(f, f1, save, saved, px, py, img, msk) && (px < f.showX || py < f.showY)
    requires var cx, cy := Max(px, f.showX), Max(py, f.showY);
             InBlock(px, py, cx, cy) && OnlyLit(f, cx, cy)
    requires forall k :: 0 <= k < 144 ==> save[k] == 0
    ensures var k := (Max(py, f.showY) - py) * 12 + (Max(px, f.showX) - px); 0 <= k < 144 && saved[k] == 0
  {
    var k := (Max(py, f.showY) - py) * 12 + (Max(px, f.showX) - px);
    SlotParts(Max(px, f.showX) - px, Max(py, f.showY) - py);
    if SavedAt(f, px, py, py + 12, px, k) {
      SavedElsewhere(f, f1, saved, px, py, img, msk, Max(px, f.showX), Max(py, f.showY));
    }
  }

  /** A picture that is dark but for one pixel. */
  ghost predicate OnlyLit(f: Frame, cx: int, cy: int) {
    forall x, y :: Shown(f, x, y) ==> Pixel(f, x, y) == if x == cx && y == cy then 1 else 0
  }

  /** With the corner clipped the restored block is shifted: a picture that is dark but for the
      first visible pixel of the block loses that pixel. */
  lemma ClippedMaskNotUndone(f: Frame, f1: Frame, f2: Frame, save: seq<byte>, saved: seq<byte>, px: int, py: int, img: Image, msk: Image)
    requires Masked(f, f1, save, saved, px, py, img, msk) && BlockDrawn(f1, f2, px, py, saved)
    requires px < f.showX || py < f.showY
    requires var cx, cy := Max(px, f.showX), Max(py, f.showY);
             InBlock(px, py, cx, cy) && Shown(f, cx, cy) && OnlyLit(f, cx, cy)
    requires forall k :: 0 <= k < 144 ==> save[k] == 0
    ensures !SamePicture(f, f2)
  {
    SavedDark(f, f1, save, saved, px, py, img, msk);
    var cx, cy := Max(px, f.showX), Max(py, f.showY);
    assert Shown(f1, cx, cy) && Pixel(f2, cx, cy) == 0;
  }

  ghost predicate Owned(f: Frame, a: int) {
    exists x, y :: Shown(f, x, y) && Addr(f.off, x, y) == a
  }

  /** The shown pixel kept at index a. */
  ghost function Owner(f: Frame, a: int): (p: (int, int))
    requires Owned(f, a)
    ensures Shown(f, p.0, p.1) && Addr(f.off, p.0, p.1) == a
  {
    var x, y :| Shown(f, x, y) && Addr(f.off, x, y) == a;
    (x, y)
  }

  /** The byte at index a of a frame whose shown pixels are given by g. */
  ghost function RepaintedByte(f: Frame, g: (int, int) -> byte, a: int): byte
    requires 0 <= a < |f.bytes|
  {
    if Owned(f, a) then g(Owner(f, a).0, Owner(f, a).1) else f.bytes[a]
  }

  ghost function Repainted(f: Frame, g: (int, int) -> byte): Frame {
    f.(bytes := seq(|f.bytes|, a requires 0 <= a < |f.bytes| => RepaintedByte(f, g, a)))
  }

  lemma RepaintedPixels(f: Frame, g: (int, int) -> byte)
    requires Valid(f)
    ensures Valid(Repainted(f, g)) && SameView(f, Repainted(f, g))
    ensures forall x, y :: Shown(f, x, y) ==> Pixel(Repainted(f, g), x, y) == g(x, y)
  {
    forall x, y | Shown(f, x, y)
      ensures 256 <= Addr(f.off, x, y) < 256 + 78241
      ensures Pixel(Repainted(f, g), x, y) == g(x, y)
    {
      AddrInBuffer(f.off, f.showX, f.showY, x, y);
      var a := Addr(f.off, x, y);
      assert Owned(f, a);
      AddrInjective(f.off, f.showX, f.showY, x, y, Owner(f, a).0, Owner(f, a).1);
    }
  }

  ghost predicate BlockVisible(sx: int, sy: int, px: int, py: int) {
    px + 12 > sx && px < sx + 320 && py + 12 > sy && py < sy + 182
  }

  /** Whatever the picture was, masking and drawing back the saved block restores it. */
  ghost predicate AlwaysUndone(off: int, sx: int, sy: int, px: int, py: int, img: Image, msk: Image) {
    forall f, f1, f2, save, saved: Image ::
      Valid(f) && f.off == off && f.showX == sx && f.showY == sy
      && Masked(f, f1, save, saved, px, py, img, msk) && BlockDrawn(f1, f2, px, py, saved)
      ==> SamePicture(f, f2)
  }

  /** For a visible block, mask followed by draw_full_block of the saved block restores every
      picture exactly when the block is not clipped at its upper left corner. */
  lemma MaskUndoneIff(off: int, sx: int, sy: int, px: int, py: int, img: Image, msk: Image)
    requires Fits(off, sx, sy) && BlockVisible(sx, sy, px, py)
    ensures sx <= px && sy <= py <==> AlwaysUndone(off, sx, sy, px, py, img, msk)
  {
    if sx <= px && sy <= py {
      forall f, f1, f2, save, saved: Image |
        Valid(f) && f.off == off && f.showX == sx && f.showY == sy
        && Masked(f, f1, save, saved, px, py, img, msk) && BlockDrawn(f1, f2, px, py, saved)
        ensures SamePicture(f, f2)
      {
        MaskUndone(f, f1, f2, save, saved, px, py, img, msk);
      }
    } else {
      var f, f1, f2, saved := Counterexample(off, sx, sy, px, py, img, msk);
      ClippedMaskNotUndone(f, f1, f2, BLANK, saved, px, py, img, msk);
    }
  }

  /** A picture, and what mask and the redraw make of it, with one pixel lit. */
  lemma Counterexample(off: int, sx: int, sy: int, px: int, py: int, img: Image, msk: Image)
    returns (f: Frame, f1: Frame, f2: Frame, saved: Image)
    requires Fits(off, sx, sy) && BlockVisible(sx, sy, px, py)
    ensures Valid(f) && f.off == off && f.showX == sx && f.showY == sy
    ensures OnlyLit(f, Max(px, sx), Max(py, sy))
    ensures Masked(f, f1, BLANK, saved, px, py, img, msk) && BlockDrawn(f1, f2, px, py, saved)
  {
    f := OnePixel(off, sx, sy, Max(px, sx), Max(py, sy));
    saved := SavedBlock(f, px, py);
    f1 := MaskedFrame(f, px, py, img, msk);
    f2 := DrawnFrame(f1, px, py, saved);
  }

  lemma OnePixel(off: int, sx: int, sy: int, cx: int, cy: int) returns (f: Frame)
    requires Fits(off, sx, sy)
    ensures Valid(f) && f.off == off && f.showX == sx && f.showY == sy
    ensures OnlyLit(f, cx, cy)
  {
    var blank := Frame(seq(ARRAY_SIZE, _ => 0 as byte), off, sx, sy);
    var g := (x: int, y: int) => if x == cx && y == cy then 1 as byte else 0;
    f := Repainted(blank, g);
    RepaintedPixels(blank, g);
  }

  function DrawnPixel(f: Frame, px: int, py: int, img: Image, x: int, y: int): byte {
    if InBlock(px, py, x, y) then img[(y - py) * 12 + (x - px)] else Pixel(f, x, y)
  }

  function MaskedPixel(f: Frame, px: int, py: int, img: Image, msk: Image, x: int, y: int): byte {
    var k := Clipped(f, px, py, x, y);
    if InBlock(px, py, x, y) && 0 <= k < 144 && msk[k] == 1 then img[(y - py) * 12 + (x - px)] else Pixel(f, x, y)
  }

  /** The mask routine has a result on every picture. */
  lemma MaskedFrame(f: Frame, px: int, py: int, img: Image, msk: Image) returns (f1: Frame)
    requires Valid(f)
    ensures Masked(f, f1, BLANK, SavedBlock(f, px, py), px, py, img, msk)
  {
    var saved := SavedBlock(f, px, py);
    var g := (x, y) => MaskedPixel(f, px, py, img, msk, x, y);
    f1 := Repainted(f, g);
    RepaintedPixels(f, g);
    forall u, v | Shown(f, u, v)
      ensures PixelMasked(f, f1, saved, px, py, img, msk, py + 12, px, u, v)
    {
      if InBlock(px, py, u, v) {
        SavedBlockSlot(f, px, py, u, v);
      }
    }
  }

  /** Drawing a block has a result on every picture. */
  lemma DrawnFrame(f: Frame, px: int, py: int, img: Image) returns (f1: Frame)
    requires Valid(f)
    ensures BlockDrawn(f, f1, px, py, img)
  {
    var g := (x, y) => DrawnPixel(f, px, py, img, x, y);
    f1 := Repainted(f, g);
    RepaintedPixels(f, g);
  }

  ghost function SavedSlot(f: Frame, px: int, py: int, k: int): byte {
    if SavedAt(f, px, py, py + 12, px, k)
    then Pixel(f, Max(px, f.showX) + k % 12, Max(py, f.showY) + k / 12) else 0
  }

  ghost function SavedBlock(f: Frame, px: int, py: int): Image {
    seq(144, k => SavedSlot(f, px, py, k))
  }

  lemma SavedBlockSlot(f: Frame, px: int, py: int, u: int, v: int)
    requires Shown(f, u, v) && InBlock(px, py, u, v)
    ensures 0 <= Clipped(f, px, py, u, v) < 144
    ensures SavedBlock(f, px, py)[Clipped(f, px, py, u, v)] == Pixel(f, u, v)
  {
    var k := Clipped(f, px, py, u, v);
    SlotOfPixel(f, px, py, u, v);
    assert SavedBlock(f, px, py)[k] == SavedSlot(f, px, py, k);
  }
}
