/** The read-only file system of filesys.c: directory look-up, the block walk of read_data and
    sequential reading through a descriptor. */
module Files {
  newtype Octet = x: int | 0 <= x < 256

  const FILENAME_LEN := 32
  const MAX_FILE_SIZE := 36164

  datatype FileType = Rtc | Directory | Regular

  /** A directory entry; the name fills 32 bytes, with a zero byte after a shorter name. */
  datatype Dentry = Dentry(name: seq<Octet>, kind: FileType, inode: nat)

  /** A file of up to 1023 blocks of 4096 bytes. */
  datatype Inode = Inode(length: nat, blocks: seq<int>)

  /** The mounted image: mem(a) is the byte at distance a from the first data block. */
  datatype Image = Image(dentries: seq<Dentry>, inodes: seq<Inode>, dataCount: int, mem: int -> Octet)

  ghost predicate WellFormed(img: Image) {
    && (forall i :: 0 <= i < |img.dentries| ==> |img.dentries[i].name| == 32)
    && (forall i :: 0 <= i < |img.inodes| ==> |img.inodes[i].blocks| == 1023 && img.inodes[i].length <= 1023 * 4096)
  }

  /** Byte k of a file: block k / 4096 of its inode, position k mod 4096. */
  function FileByte(img: Image, node: Inode, k: nat): Octet {
    if k / 4096 < |node.blocks| then img.mem(node.blocks[k / 4096] * 4096 + k % 4096) else 0
  }

  function Contents(img: Image, node: Inode): seq<Octet> {
    seq(node.length, k requires 0 <= k => FileByte(img, node, k))
  }

  function Least(a: int, b: int): int { if a < b then a else b }

  /** After how many bytes the copy loop of a read that starts in the first block gives up: at the
      first block boundary more than MAX_FILE_SIZE bytes on. */
  function GiveUp(offset: nat): nat {
    4096 * ((36164 + offset) / 4096 + 1) - offset
  }

  /** How many of the n bytes asked for are really copied. */
  function Copied(offset: nat, n: nat): nat {
    if offset < 4096 then Least(n, GiveUp(offset)) else n
  }

  /** Where the byte at distance j of a read is taken from. */
  function SourceByte(img: Image, node: Inode, offset: nat, j: nat): Octet {
    if offset < 4096 then FileByte(img, node, offset + j)
    else if offset / 4096 < |node.blocks| then img.mem(node.blocks[offset / 4096] * 4096 + offset % 4096 + j) else 0
  }

  /** The last block whose number is checked during the read. */
  function LastChecked(offset: nat, n: nat): nat {
    if offset < 4096 && Copied(offset, n) > 0 then (offset + Copied(offset, n) - 1) / 4096 else offset / 4096
  }

  ghost predicate BlocksValid(img: Image, node: Inode, offset: nat, n: nat) {
    forall i :: offset / 4096 <= i <= LastChecked(offset, n) && i < |node.blocks| ==> node.blocks[i] <= img.dataCount
  }

  /** Copy n bytes from address src to buffer[at..]. */
  method CopyOut(img: Image, src: int, buffer: array<Octet>, at: nat, n: nat)
    requires at + n <= buffer.Length
    modifies buffer
    ensures forall j :: 0 <= j < buffer.Length ==>
              buffer[j] == if at <= j < at + n then img.mem(src + (j - at)) else old(buffer[j])
  {
    for k := 0 to n
      invariant forall j :: 0 <= j < buffer.Length ==>
                  buffer[j] == if at <= j < at + k then img.mem(src + (j - at)) else old(buffer[j])
    {
      buffer[at + k] := img.mem(src + k);
    }
  }

  /** The bytes of the buffer before p have been read, the others are as they were. */
  ghost predicate ReadSoFar(img: Image, node: Inode, offset: nat, before: seq<Octet>, now: seq<Octet>, p: nat) {
    |now| == |before| && forall j :: 0 <= j < |now| ==>
      now[j] == if j < p then SourceByte(img, node, offset, j) else before[j]
  }

  /** The number of bytes asked for, cut at the end of the file. */
  function Clamped(node: Inode, offset: nat, length: nat): nat
    requires offset < node.length
  {
    if length + offset > node.length then node.length - offset else length
  }

  /** The piece to copy next, p bytes into a read: where from and how long. */
  ghost predicate NextPiece(node: Inode, offset: nat, len: nat, p: nat, dataIdx: nat, src: int, n: int) {
    && dataIdx < |node.blocks|
    && 0 < n <= len - p
    && if offset < 4096
       then dataIdx == (offset + p) / 4096 && n == Least(len - p, 4096 - (offset + p) % 4096)
            && src == node.blocks[dataIdx] * 4096 + (offset + p) % 4096
       else p == 0 && n == len && dataIdx == offset / 4096 && src == node.blocks[dataIdx] * 4096 + offset % 4096
  }

  lemma PieceBytes(img: Image, node: Inode, offset: nat, len: nat, p: nat, dataIdx: nat, src: int, n: nat, j: nat)
    requires NextPiece(node, offset, len, p, dataIdx, src, n) && p <= j < p + n
    ensures img.mem(src + (j - p)) == SourceByte(img, node, offset, j)
  {
    if offset < 4096 {
      assert (offset + j) / 4096 == dataIdx;
      assert (offset + j) % 4096 == (offset + p) % 4096 + (j - p);
    }
  }

  /** One step of the copy loop. */
  method CopyPiece(img: Image, ghost node: Inode, ghost offset: nat, ghost len: nat, buffer: array<Octet>, p: nat,
                   ghost dataIdx: nat, src: int, n: nat, ghost before: seq<Octet>)
    requires NextPiece(node, offset, len, p, dataIdx, src, n) && p + n <= buffer.Length
    requires ReadSoFar(img, node, offset, before, buffer[..], p)
    modifies buffer
    ensures ReadSoFar(img, node, offset, before, buffer[..], p + n)
  {
    ghost var now := buffer[..];
    CopyOut(img, src, buffer, p, n);
    forall j | 0 <= j < buffer.Length
      ensures buffer[j] == if j < p + n then SourceByte(img, node, offset, j) else before[j]
    {
      assert buffer[..][j] == buffer[j] && now[j] == if j < p then SourceByte(img, node, offset, j) else before[j];
      if p <= j < p + n {
        PieceBytes(img, node, offset, len, p, dataIdx, src, n, j);
      }
    }
  }

  /** Arithmetic of one step: the next piece starts at a block boundary, or the read is complete. */
  lemma PieceAdvances(node: Inode, offset: nat, len: nat, p: nat, dataIdx: nat, src: int, n: nat)
    requires NextPiece(node, offset, len, p, dataIdx, src, n) && p <= 36164
    requires offset < node.length && offset + len <= node.length <= 1023 * 4096 && |node.blocks| == 1023
    ensures p + n <= len
    ensures offset < 4096 ==> p + n <= GiveUp(offset)
    ensures p + n < len ==> offset < 4096 && (offset + p + n) % 4096 == 0 && (offset + p + n) / 4096 == dataIdx + 1 < 1023
    ensures p + n == len && offset < 4096 ==> dataIdx == (offset + len - 1) / 4096
  {
  }

  /** Length of the first piece: up to the end of the first block, or everything when the offset
      is not in the first block. The comparison with len is unsigned. */
  function FirstPiece(offset: nat, len: nat): int {
    var n := 4096 - offset;
    var m := if n < 0 || n > len then len else n;
    if m <= 0 then len else m
  }

  /** Where the copy loop stands after p bytes. */
  ghost predicate Walking(img: Image, node: Inode, offset: nat, len: nat, p: nat, dataIdx: nat, src: int, n: int) {
    && p <= len
    && (p < len ==> NextPiece(node, offset, len, p, dataIdx, src, n))
    && (offset < 4096 ==> p <= GiveUp(offset) && (0 < p < len ==> (offset + p) % 4096 == 0))
    && (forall i :: offset / 4096 <= i < dataIdx && i < |node.blocks| ==> node.blocks[i] <= img.dataCount)
    && dataIdx == if p == 0 then offset / 4096 else if p == len then LastChecked(offset, len) + 1 else (offset + p) / 4096
  }

  ghost predicate Readable(node: Inode, offset: nat, len: nat) {
    |node.blocks| == 1023 && offset < node.length && offset + len <= node.length <= 1023 * 4096
  }

  lemma WalkStarts(img: Image, node: Inode, offset: nat, len: nat)
    requires Readable(node, offset, len)
    ensures Walking(img, node, offset, len, 0, offset / 4096, node.blocks[offset / 4096] * 4096 + offset % 4096, FirstPiece(offset, len))
  {
  }

  lemma WalkGoesOn(img: Image, node: Inode, offset: nat, len: nat, p: nat, dataIdx: nat, src: int, n: int)
    requires Readable(node, offset, len) && Walking(img, node, offset, len, p, dataIdx, src, n)
    requires p < len && p <= 36164 && node.blocks[dataIdx] <= img.dataCount
    ensures Walking(img, node, offset, len, p + n, dataIdx + 1,
                    if dataIdx + 1 < 1023 then node.blocks[dataIdx + 1] * 4096 else 0,
                    if len - (p + n) > 4096 then 4096 else len - (p + n))
  {
    PieceAdvances(node, offset, len, p, dataIdx, src, n);
  }

  lemma WalkStops(img: Image, node: Inode, offset: nat, len: nat, p: nat, dataIdx: nat, src: int, n: int)
    requires Readable(node, offset, len) && Walking(img, node, offset, len, p, dataIdx, src, n)
    requires p == len || p > 36164
    requires node.blocks[offset / 4096] <= img.dataCount
    ensures p == Copied(offset, len) && BlocksValid(img, node, offset, len)
  {
    if len > 0 && p < len {
      GiveUpAt(offset, p);
    }
  }

  /** The loop gives up at the first block boundary after MAX_FILE_SIZE bytes. */
  lemma GiveUpAt(offset: nat, p: nat)
    requires offset < 4096 && 36164 < p <= GiveUp(offset) && (offset + p) % 4096 == 0
    ensures p == GiveUp(offset)
  {
  }

  lemma WalkFails(img: Image, node: Inode, offset: nat, len: nat, p: nat, dataIdx: nat, src: int, n: int)
    requires Readable(node, offset, len) && Walking(img, node, offset, len, p, dataIdx, src, n)
    requires p < len && p <= 36164 && node.blocks[dataIdx] > img.dataCount
    ensures !BlocksValid(img, node, offset, len)
  {
    PieceAdvances(node, offset, len, p, dataIdx, src, n);
    assert offset / 4096 <= dataIdx <= LastChecked(offset, len);
  }

  /** The copy loop of read_data; false if a block number is out of range. */
  method CopyBlocks(img: Image, node: Inode, offset: nat, len: nat, buffer: array<Octet>) returns (done: bool)
    requires Readable(node, offset, len) && len <= buffer.Length && node.blocks[offset / 4096] <= img.dataCount
    modifies buffer
    ensures done <==> BlocksValid(img, node, offset, len)
    ensures done ==> ReadSoFar(img, node, offset, old(buffer[..]), buffer[..], Copied(offset, len))
  {
    ghost var before := buffer[..];
    var dataIdx := offset / 4096;
    var src := node.blocks[dataIdx] * 4096 + offset % 4096;
    var n := FirstPiece(offset, len);
    var p := 0;
    WalkStarts(img, node, offset, len);
    while p < len
      invariant 0 <= p && Walking(img, node, offset, len, p, dataIdx, src, n)
      invariant ReadSoFar(img, node, offset, before, buffer[..], p)
      decreases len - p
    {
      if p > MAX_FILE_SIZE {
        break;
      }
      CopyPiece(img, node, offset, len, buffer, p, dataIdx, src, n, before);
      if node.blocks[dataIdx] > img.dataCount {
        WalkFails(img, node, offset, len, p, dataIdx, src, n);
        return false;
      }
      WalkGoesOn(img, node, offset, len, p, dataIdx, src, n);
      p := p + n;
      dataIdx := dataIdx + 1;
      src := if dataIdx < 1023 then node.blocks[dataIdx] * 4096 else 0;
      n := if len - p > 4096 then 4096 else len - p;
    }
    WalkStops(img, node, offset, len, p, dataIdx, src, n);
    done := true;
  }

  /** Read length bytes at offset of a file into the buffer. Returns the number of bytes asked for
      that lie in the file, or -1 for a bad inode, offset or block number. */
  method ReadData(img: Image, inode: nat, offset: nat, buffer: array<Octet>, length: nat) returns (r: int)
    requires WellFormed(img) && offset + length < 0x1_0000_0000
    requires inode < |img.inodes| && offset < img.inodes[inode].length ==> Clamped(img.inodes[inode], offset, length) <= buffer.Length
    modifies buffer
    ensures r == -1 <==> !(inode < |img.inodes| && offset < img.inodes[inode].length
                           && BlocksValid(img, img.inodes[inode], offset, Clamped(img.inodes[inode], offset, length)))
    ensures r != -1 ==> r == Clamped(img.inodes[inode], offset, length)
                        && ReadSoFar(img, img.inodes[inode], offset, old(buffer[..]), buffer[..], Copied(offset, r))
  {
    if inode >= |img.inodes| {
      return -1;
    }
    var node := img.inodes[inode];
    if offset >= node.length {
      return -1;
    }
    if node.blocks[offset / 4096] > img.dataCount {
      return -1;
    }
    var len := Clamped(node, offset, length);
    var done := CopyBlocks(img, node, offset, len, buffer);
    r := if done then len else -1;
  }

  /** Byte j of the read is copied and is the byte of the file. */
  ghost predicate ByteRead(img: Image, node: Inode, offset: nat, len: nat, j: nat) {
    j < Copied(offset, len) && SourceByte(img, node, offset, j) == FileByte(img, node, offset + j)
  }

  /** The read returns what the file holds, for these contents of the image. */
  ghost predicate ReadsFile(img: Image, node: Inode, offset: nat, len: nat) {
    forall j :: 0 <= j < len ==> ByteRead(img, node, offset, len, j)
  }

  /** The block of byte offset + j lies as far behind the first block in the image as in the file. */
  ghost predicate Adjacent(node: Inode, offset: nat, j: nat)
    requires |node.blocks| == 1023 && offset + j < 1023 * 4096
  {
    node.blocks[(offset + j) / 4096] == node.blocks[offset / 4096] + ((offset + j) / 4096 - offset / 4096)
  }

  /** When read_data can be relied on: from the first block, for up to GiveUp(offset) bytes; from a
      later block, as long as the blocks it crosses into are physically adjacent. */
  ghost predicate ReadGuard(node: Inode, offset: nat, len: nat)
    requires Readable(node, offset, len)
  {
    if offset < 4096 then len <= GiveUp(offset) else forall j :: 0 <= j < len ==> Adjacent(node, offset, j)
  }

  /** read_data returns the bytes of the file whatever the image holds, exactly under ReadGuard. */
  lemma ReadsFileIff(node: Inode, offset: nat, len: nat)
    requires Readable(node, offset, len)
    ensures ReadGuard(node, offset, len) <==> forall img :: ReadsFile(img, node, offset, len)
  {
    if ReadGuard(node, offset, len) {
      forall img ensures ReadsFile(img, node, offset, len) {
        GuardedReadsFile(img, node, offset, len);
      }
    } else {
      var img := UnguardedRead(node, offset, len);
    }
  }

  lemma GuardedReadsFile(img: Image, node: Inode, offset: nat, len: nat)
    requires Readable(node, offset, len) && ReadGuard(node, offset, len)
    ensures ReadsFile(img, node, offset, len)
  {
    forall j | 0 <= j < len
      ensures ByteRead(img, node, offset, len, j)
    {
      if offset >= 4096 {
        assert Adjacent(node, offset, j);
        SameAddress(node.blocks[offset / 4096], offset, j);
      }
    }
  }

  /** Two ways to address byte offset + j when block b holds offset and the next blocks follow it. */
  lemma SameAddress(b: int, offset: nat, j: nat)
    ensures b * 4096 + offset % 4096 + j == (b + ((offset + j) / 4096 - offset / 4096)) * 4096 + (offset + j) % 4096
  {
  }

  /** Otherwise some image shows the difference. */
  lemma UnguardedRead(node: Inode, offset: nat, len: nat) returns (img: Image)
    requires Readable(node, offset, len) && !ReadGuard(node, offset, len)
    ensures !ReadsFile(img, node, offset, len)
  {
    if offset < 4096 {
      img := Image([], [], 0, _ => 0);
      assert !ByteRead(img, node, offset, len, GiveUp(offset));
    } else {
      var j :| 0 <= j < len && !Adjacent(node, offset, j);
      var a := node.blocks[(offset + j) / 4096] * 4096 + (offset + j) % 4096;
      SameAddress(node.blocks[offset / 4096], offset, j);
      img := Image([], [], 0, k => if k == a then 1 else 0);
      assert !ByteRead(img, node, offset, len, j);
    }
  }

  /** A read whose bytes all lie in one block is covered by the guard. */
  lemma OneBlockGuarded(node: Inode, offset: nat, len: nat)
    requires Readable(node, offset, len) && offset % 4096 + len <= 4096
    ensures ReadGuard(node, offset, len)
  {
    if offset >= 4096 {
      forall j | 0 <= j < len ensures Adjacent(node, offset, j) {
        assert (offset + j) / 4096 == offset / 4096;
      }
    }
  }
}
