/** Opening files by name and reading them through a descriptor (filesys.c, do_open and do_close of
    syscalls.c). */
module Descriptors {
  import opened Files

  /** The name stored in an entry: the bytes before the first zero, or all 32. */
  function NameFrom(s: seq<Octet>): seq<Octet> {
    if s == [] || s[0] == 0 then [] else [s[0]] + NameFrom(s[1..])
  }

  function EntryName(d: Dentry): seq<Octet> {
    NameFrom(d.name)
  }

  /** A C string: no zero byte inside. */
  predicate CString(s: seq<Octet>) {
    forall i :: 0 <= i < |s| ==> s[i] != 0
  }

  lemma {:induction false} NameChars(s: seq<Octet>)
    ensures var n := NameFrom(s);
            |n| <= |s| && CString(n) && n == s[..|n|] && (|n| < |s| ==> s[|n|] == 0)
  {
    if s != [] && s[0] != 0 {
      NameChars(s[1..]);
    }
  }

  function CharAt(name: seq<Octet>, i: int): Octet {
    if 0 <= i < |name| then name[i] else 0
  }

  /** strncmp of the name against the entry over n characters, as an equality test. */
  method SamePrefix(name: seq<Octet>, bytes: seq<Octet>, n: int) returns (same: bool)
    requires CString(name) && 0 <= n <= |bytes|
    ensures same <==> (if n <= |name| then name[..n] == bytes[..n] else name == bytes[..|name|] && bytes[|name|] == 0)
  {
    var i := 0;
    while i < n
      invariant 0 <= i <= n && i <= |name| && name[..i] == bytes[..i]
    {
      if CharAt(name, i) != bytes[i] {
        return false;
      }
      if CharAt(name, i) == 0 {
        return true;
      }
      i := i + 1;
    }
    same := true;
  }

  /** strlen of the name field of an entry. A full name runs on into the type field, whose low byte
      ends it at once or after one more character. */
  method FieldLength(d: Dentry) returns (n: nat)
    requires |d.name| == 32
    ensures if |EntryName(d)| < 32 then n == |EntryName(d)| else n >= 32
  {
    NameChars(d.name);
    n := 0;
    while n < 32 && d.name[n] != 0
      invariant 0 <= n <= |EntryName(d)|
    {
      n := n + 1;
    }
    if n == 32 && d.kind != Rtc {
      n := 33;
    }
  }

  /** The comparison of read_dentry_by_name for one entry. */
  method NameMatches(name: seq<Octet>, d: Dentry) returns (same: bool)
    requires CString(name) && |name| <= 32 && |d.name| == 32
    ensures same <==> EntryName(d) == name
  {
    var len := FieldLength(d);
    var size := if len > |name| then len else |name|;
    size := if size > 32 then 32 else size;
    NameChars(d.name);
    same := SamePrefix(name, d.name, size);
    ghost var e := EntryName(d);
    if |e| == |name| {
      assert d.name[..|e|] == e;
    } else if |e| < |name| {
      assert name[..size] == name;
      assert d.name[|e|] == 0;
    } else {
      assert e[|name|] == d.name[|name|];
    }
  }

  /** The first entry with the given name. */
  ghost predicate FirstNamed(img: Image, name: seq<Octet>, k: int) {
    0 <= k < |img.dentries| && EntryName(img.dentries[k]) == name
    && forall i :: 0 <= i < k ==> EntryName(img.dentries[i]) != name
  }

  ghost predicate Named(img: Image, name: seq<Octet>) {
    exists k :: FirstNamed(img, name, k)
  }

  /** Index of the first entry with this name, or -1. */
  method ReadDentryByName(img: Image, name: seq<Octet>) returns (k: int)
    requires WellFormed(img) && CString(name)
    ensures k == -1 <==> !Named(img, name)
    ensures k != -1 ==> FirstNamed(img, name, k)
  {
    if |name| > FILENAME_LEN {
      forall i | 0 <= i < |img.dentries| ensures EntryName(img.dentries[i]) != name {
        NameChars(img.dentries[i].name);
      }
      return -1;
    }
    var i := 0;
    while i < |img.dentries|
      invariant 0 <= i <= |img.dentries|
      invariant forall j :: 0 <= j < i ==> EntryName(img.dentries[j]) != name
    {
      var same := NameMatches(name, img.dentries[i]);
      if same {
        assert FirstNamed(img, name, i);
        return i;
      }
      i := i + 1;
    }
    k := -1;
  }

  /** One slot of a process's descriptor table. */
  datatype Slot = Slot(used: bool, kind: FileType, inode: nat, fpos: nat)

  /** A process and its descriptor table; slots 0 and 1 are the terminal. */
  class Process {
    const img: Image
    const fds: array<Slot>

    ghost predicate Valid()
      reads this, fds
    {
      && fds.Length == 8 && fds[0].used && fds[1].used && WellFormed(img)
      && forall i :: 0 <= i < 8 && !fds[i].used ==> fds[i].fpos == 0
    }

    constructor (img: Image)
      requires WellFormed(img)
      ensures Valid() && this.img == img && fresh(fds)
      ensures forall i :: 2 <= i < 8 ==> fds[i] == Slot(false, Regular, 0, 0)
    {
      this.img := img;
      var table := new Slot[8](_ => Slot(false, Regular, 0, 0));
      fds := table;
      new;
      fds[0] := Slot(true, Regular, 0, 0);
      fds[1] := Slot(true, Regular, 0, 0);
    }

    /** Open by name in the first free slot. Only regular files have their position reset. */
    method Open(name: seq<Octet>) returns (fd: int)
      requires Valid() && CString(name)
      modifies fds
      ensures Valid()
      ensures fd == -1 <==> !Named(img, name) || forall i :: 2 <= i < 8 ==> old(fds[i].used)
      ensures fd == -1 ==> fds[..] == old(fds[..])
      ensures fd != -1 ==> 2 <= fd < 8 && !old(fds[fd].used) && (forall i :: 2 <= i < fd ==> old(fds[i].used))
      ensures fd != -1 ==> exists k :: FirstNamed(img, name, k) && fds[..] == old(fds[..])[fd := Opened(img.dentries[k], old(fds[fd]))]
      ensures fd != -1 ==> exists k :: FirstNamed(img, name, k) && AtStart(img.dentries[k], fds[fd])
    {
      var k := ReadDentryByName(img, name);
      if k == -1 {
        return -1;
      }
      fd := 2;
      while fd < 8 && fds[fd].used
        invariant 2 <= fd <= 8 && forall i :: 2 <= i < fd ==> fds[i].used
        invariant fds[..] == old(fds[..])
      {
        fd := fd + 1;
      }
      if fd == 8 {
        return -1;
      }
      ghost var before := fds[..];
      fds[fd] := Opened(img.dentries[k], fds[fd]);
      assert fds[..] == before[fd := Opened(img.dentries[k], before[fd])];
      OpensAtStart(img.dentries[k], before[fd]);
    }

    /** Close a descriptor; it becomes free with position 0. */
    method Close(fd: int) returns (r: int)
      requires Valid() && fd != 8
      modifies fds
      ensures Valid()
      ensures r == 0 <==> 2 <= fd < 8 && old(fds[fd].used)
      ensures r == 0 || (r == -1 && fds[..] == old(fds[..]))
      ensures r == 0 ==> fds[..] == old(fds[..])[fd := old(fds[fd]).(used := false, inode := 0, fpos := 0)]
    {
      if fd < 2 || fd > 8 || !fds[fd].used {
        return -1;
      }
      fds[fd] := fds[fd].(used := false, inode := 0, fpos := 0);
      r := 0;
    }

    /** Read from a descriptor at its position; n is the (signed) size asked for. A free descriptor and a
        size of 0 are refused; otherwise the descriptor is that of a regular file. */
    method Read(fd: int, buffer: array<Octet>, n: int) returns (r: int)
      requires Valid() && 2 <= fd < 8 && n < 0x8000_0000
      requires fds[fd].used && n != 0 ==>
                 fds[fd].kind == Regular && fds[fd].inode < |img.inodes| && AllBlocksValid(img, img.inodes[fds[fd].inode])
                 && (if 0 <= n then Least(n, img.inodes[fds[fd].inode].length) else img.inodes[fds[fd].inode].length) <= buffer.Length
      modifies buffer, fds
      ensures Valid()
      ensures r == -1 <==> !old(fds[fd].used) || n == 0
      ensures r == -1 ==> fds[..] == old(fds[..]) && buffer[..] == old(buffer[..])
      ensures r != -1 ==> var node, pos := img.inodes[old(fds[fd].inode)], old(fds[fd].fpos);
              if pos >= node.length then r == 0 && fds[..] == old(fds[..]) && buffer[..] == old(buffer[..])
              else r == Least(if 0 <= n then n else node.length, node.length - pos)
                   && fds[..] == old(fds[..])[fd := old(fds[fd]).(fpos := pos + r)]
                   && ReadSoFar(img, node, pos, old(buffer[..]), buffer[..], Copied(pos, r))
    {
      if n == 0 || !fds[fd].used {
        return -1;
      }
      var node, pos := img.inodes[fds[fd].inode], fds[fd].fpos;
      if pos >= node.length {
        return 0;
      }
      var readUntil := n;
      if n < 0 || node.length < n {
        readUntil := node.length;
      }
      BlocksAllValid(img, node, pos, Clamped(node, pos, readUntil));
      r := ReadData(img, fds[fd].inode, pos, buffer, readUntil);
      fds[fd] := fds[fd].(fpos := pos + r);
    }

    /** strncpy of an entry's name: at most n characters, then zeros up to and including buffer[n]. */
    method CopyName(d: Dentry, buffer: array<Octet>, n: nat)
      requires |d.name| == 32 && n <= 32 && n < buffer.Length
      modifies buffer
      ensures buffer[..] == NameFilled(EntryName(d), old(buffer[..]), n)
    {
      NameChars(d.name);
      ghost var name, before := EntryName(d), buffer[..];
      var i := 0;
      while i < n && d.name[i] != 0
        invariant 0 <= i <= n && i <= |name|
        invariant forall k :: 0 <= k < buffer.Length ==> buffer[k] == if k < i then name[k] else before[k]
      {
        buffer[i] := d.name[i];
        i := i + 1;
      }
      while i <= n
        invariant Least(|name|, n) <= i <= n + 1
        invariant forall k :: 0 <= k < buffer.Length ==> buffer[k] == if k < i then NameFilled(name, before, n)[k] else before[k]
      {
        buffer[i] := 0;
        i := i + 1;
      }
    }

    /** Read the next name of the directory; 0 after the last one. */
    method ReadDir(fd: int, buffer: array<Octet>, n: nat) returns (r: int)
      requires Valid() && n <= 32 && n < buffer.Length
      modifies buffer, fds
      ensures Valid()
      ensures r == -1 <==> !(0 <= fd < 8 && old(fds[fd].used))
      ensures r == -1 || old(fds[fd].fpos) >= |img.dentries| ==> fds[..] == old(fds[..]) && buffer[..] == old(buffer[..])
      ensures r != -1 && old(fds[fd].fpos) >= |img.dentries| ==> r == 0
      ensures r != -1 && old(fds[fd].fpos) < |img.dentries| ==>
                && r == Least(|EntryName(img.dentries[old(fds[fd].fpos)])|, n)
                && buffer[..] == NameFilled(EntryName(img.dentries[old(fds[fd].fpos)]), old(buffer[..]), n)
                && fds[..] == old(fds[..])[fd := old(fds[fd]).(fpos := old(fds[fd].fpos) + 1)]
    {
      if fd < 0 || fd >= 8 || !fds[fd].used {
        return -1;
      }
      if fds[fd].fpos >= |img.dentries| {
        return 0;
      }
      var d := img.dentries[fds[fd].fpos];
      CopyName(d, buffer, n);
      fds[fd] := fds[fd].(fpos := fds[fd].fpos + 1);
      r := 0;
      while r < n && buffer[r] != 0
        invariant 0 <= r <= n && r <= |EntryName(d)|
      {
        r := r + 1;
      }
      NameChars(d.name);
    }
  }

  /** A buffer after a name has been copied to it by strncpy with limit n. */
  function NameFilled(name: seq<Octet>, buffer: seq<Octet>, n: nat): (r: seq<Octet>)
    ensures |r| == |buffer|
  {
    seq(|buffer|, k requires 0 <= k < |buffer| => if k > n then buffer[k] else if k < n && k < |name| then name[k] else 0)
  }

  /** The slot after opening an entry. */
  function Opened(d: Dentry, s: Slot): Slot {
    match d.kind
    case Regular => Slot(true, Regular, d.inode, 0)
    case Directory => Slot(true, Directory, 0, s.fpos)
    case Rtc => Slot(true, Rtc, s.inode, s.fpos)
  }

  /** The slot is open at the start of what the entry names. */
  ghost predicate AtStart(d: Dentry, s: Slot) {
    && s.used && s.kind == d.kind && s.fpos == 0
    && (d.kind == Regular ==> s.inode == d.inode) && (d.kind == Directory ==> s.inode == 0)
  }

  /** As a free slot has position 0, an entry of every kind is opened at its start. */
  lemma OpensAtStart(d: Dentry, s: Slot)
    requires !s.used && s.fpos == 0
    ensures AtStart(d, Opened(d, s))
  {
  }

  ghost predicate AllBlocksValid(img: Image, node: Inode) {
    forall i :: 0 <= i < |node.blocks| ==> node.blocks[i] <= img.dataCount
  }

  lemma BlocksAllValid(img: Image, node: Inode, offset: nat, n: nat)
    requires AllBlocksValid(img, node)
    ensures BlocksValid(img, node, offset, n)
  {
  }

  /** A chunk that divides the block size never straddles two blocks. */
  lemma ChunkInBlock(k: nat, chunk: nat)
    requires chunk > 0 && 4096 % chunk == 0
    ensures (chunk * k) % 4096 + chunk <= 4096
  {
    var q, b := 4096 / chunk, (chunk * k) / 4096;
    assert 4096 == chunk * q;
    var m := k - q * b;
    assert (chunk * k) % 4096 == chunk * m by {
      assert 4096 * b == chunk * q * b == chunk * (q * b);
      assert chunk * k - chunk * (q * b) == chunk * m;
    }
    assert chunk * (m - q) == chunk * m - chunk * q < 0;
    assert m < q;
    assert chunk * (q - m - 1) >= 0;
    assert chunk * (q - m - 1) == chunk * q - chunk * m - chunk;
  }

  /** One aligned read appends the next bytes of the file. */
  lemma ChunkRead(img: Image, node: Inode, k: nat, chunk: nat, before: seq<Octet>, now: seq<Octet>, r: nat)
    requires chunk > 0 && 4096 % chunk == 0 && r <= chunk && r <= |now|
    requires Readable(node, chunk * k, r) && ReadSoFar(img, node, chunk * k, before, now, Copied(chunk * k, r))
    ensures now[..r] == Contents(img, node)[chunk * k..chunk * k + r]
  {
    var pos := chunk * k;
    ChunkInBlock(k, chunk);
    OneBlockGuarded(node, pos, r);
    GuardedReadsFile(img, node, pos, r);
    forall j | 0 <= j < r ensures now[j] == Contents(img, node)[pos + j] {
      assert ByteRead(img, node, pos, r, j);
    }
  }

  /** Position pos is a whole number of chunks or the end of the file. */
  ghost predicate AtChunk(pos: nat, chunk: nat, length: nat) {
    pos == length || exists k: nat :: IsChunk(pos, chunk, k)
  }

  predicate IsChunk(pos: nat, chunk: nat, k: nat) {
    pos == chunk * k
  }

  lemma NextChunk(pos: nat, chunk: nat, r: nat, length: nat)
    requires AtChunk(pos, chunk, length) && pos < length && r == Least(chunk, length - pos)
    ensures AtChunk(pos + r, chunk, length)
  {
    var k: nat :| IsChunk(pos, chunk, k);
    assert chunk * (k + 1) == chunk * k + chunk;
    if r == chunk {
      assert IsChunk(pos + r, chunk, k + 1);
    }
  }

  /** Read one chunk; the bytes follow those already read. */
  method ReadChunk(p: Process, fd: int, chunk: nat, buffer: array<Octet>) returns (r: nat)
    requires p.Valid() && 2 <= fd < 8 && p.fds[fd].used && p.fds[fd].kind == Regular && p.fds[fd].inode < |p.img.inodes|
    requires AllBlocksValid(p.img, p.img.inodes[p.fds[fd].inode])
    requires 0 < chunk == buffer.Length && 4096 % chunk == 0
    requires AtChunk(p.fds[fd].fpos, chunk, p.img.inodes[p.fds[fd].inode].length)
    modifies p.fds, buffer
    ensures p.Valid() && r <= chunk
    ensures p.fds[..] == old(p.fds[..])[fd := old(p.fds[fd]).(fpos := old(p.fds[fd].fpos) + r)]
    ensures var node, pos := p.img.inodes[old(p.fds[fd].inode)], old(p.fds[fd].fpos);
            && r == (if pos >= node.length then 0 else Least(chunk, node.length - pos))
            && (pos < node.length ==> buffer[..r] == Contents(p.img, node)[pos..pos + r] && AtChunk(pos + r, chunk, node.length))
  {
    ghost var node, pos, before := p.img.inodes[p.fds[fd].inode], p.fds[fd].fpos, buffer[..];
    r := p.Read(fd, buffer, chunk);
    if pos < node.length {
      NextChunk(pos, chunk, r, node.length);
      ghost var k: nat :| IsChunk(pos, chunk, k);
      ChunkRead(p.img, node, k, chunk, before, buffer[..], r);
    }
  }

  /** Read on from the start of an open regular file until read returns 0, as cat and fish do. */
  method ReadToEnd(p: Process, fd: int, chunk: nat) returns (data: seq<Octet>)
    requires p.Valid() && 2 <= fd < 8 && p.fds[fd].used && p.fds[fd].kind == Regular && p.fds[fd].inode < |p.img.inodes|
    requires p.fds[fd].fpos == 0
    requires AllBlocksValid(p.img, p.img.inodes[p.fds[fd].inode])
    requires 0 < chunk && 4096 % chunk == 0
    modifies p.fds
    ensures p.Valid()
    ensures data == Contents(p.img, p.img.inodes[old(p.fds[fd].inode)])
    ensures p.fds[..] == old(p.fds[..])[fd := old(p.fds[fd]).(fpos := |data|)]
  {
    ghost var slot := p.fds[fd];
    ghost var node := p.img.inodes[slot.inode];
    ghost var all := Contents(p.img, node);
    var buffer := new Octet[chunk](_ => 0);
    data := [];
    var more := true;
    assert IsChunk(0, chunk, 0);
    while more
      invariant p.Valid() && |data| <= node.length && data == all[..|data|]
      invariant p.fds[..] == old(p.fds[..])[fd := slot.(fpos := |data|)]
      invariant AtChunk(|data|, chunk, node.length)
      invariant !more ==> |data| == node.length
      decreases more, node.length - |data|
    {
      assert p.fds[fd] == p.fds[..][fd] == slot.(fpos := |data|);
      var r := ReadChunk(p, fd, chunk, buffer);
      more := r != 0;
      if more {
        data := data + buffer[..r];
      }
    }
    assert all[..node.length] == all;
  }

  /** Opening a regular file by name and reading it in chunks that divide the block size yields
      exactly the file of the first directory entry with that name. */
  method ReadFileByName(p: Process, name: seq<Octet>, chunk: nat) returns (fd: int, data: seq<Octet>)
    requires p.Valid() && CString(name) && 0 < chunk && 4096 % chunk == 0
    requires forall k :: FirstNamed(p.img, name, k) ==>
               p.img.dentries[k].kind == Regular && p.img.dentries[k].inode < |p.img.inodes|
               && AllBlocksValid(p.img, p.img.inodes[p.img.dentries[k].inode])
    modifies p.fds
    ensures p.Valid()
    ensures fd != -1 <==> Named(p.img, name) && exists i :: 2 <= i < 8 && !old(p.fds[i].used)
    ensures fd != -1 ==> exists k :: FirstNamed(p.img, name, k) && data == Contents(p.img, p.img.inodes[p.img.dentries[k].inode])
  {
    data := [];
    fd := p.Open(name);
    if fd != -1 {
      ghost var k :| FirstNamed(p.img, name, k) && p.fds[..] == old(p.fds[..])[fd := Opened(p.img.dentries[k], old(p.fds[fd]))];
      assert p.fds[fd] == p.fds[..][fd] == Opened(p.img.dentries[k], old(p.fds[fd]));
      data := ReadToEnd(p, fd, chunk);
    }
  }

  /** The names of the entries from k on, up to an empty one. */
  ghost function NamesFrom(img: Image, k: nat): seq<seq<Octet>>
    decreases |img.dentries| - k
  {
    if k >= |img.dentries| || EntryName(img.dentries[k]) == [] then []
    else [EntryName(img.dentries[k])] + NamesFrom(img, k + 1)
  }

  /** The listing is complete and in order exactly when no entry has an empty name. */
  lemma {:induction false} ListingCompleteIff(img: Image, k: nat)
    requires k <= |img.dentries|
    ensures |NamesFrom(img, k)| == |img.dentries| - k <==> forall i :: k <= i < |img.dentries| ==> EntryName(img.dentries[i]) != []
    ensures |NamesFrom(img, k)| <= |img.dentries| - k
    ensures forall i :: 0 <= i < |NamesFrom(img, k)| ==> NamesFrom(img, k)[i] == EntryName(img.dentries[k + i])
    decreases |img.dentries| - k
  {
    if k < |img.dentries| {
      ListingCompleteIff(img, k + 1);
    }
  }

  lemma CopiedName(d: Dentry, before: seq<Octet>, now: seq<Octet>)
    requires |d.name| == 32 && |before| == 33 && now == NameFilled(EntryName(d), before, 32)
    ensures |EntryName(d)| <= 32 && now[..|EntryName(d)|] == EntryName(d)
  {
    NameChars(d.name);
  }

  /** Read the directory name by name until read returns 0, as ls does. */
  method ListDirectory(p: Process, fd: int) returns (names: seq<seq<Octet>>)
    requires p.Valid() && 0 <= fd < 8 && p.fds[fd].used
    modifies p.fds
    ensures p.Valid() && names == NamesFrom(p.img, old(p.fds[fd].fpos))
  {
    ghost var slot := p.fds[fd];
    var buffer := new Octet[33](_ => 0);
    names := [];
    var r := 1;
    while r != 0
      invariant p.Valid() && p.fds[fd].used && r >= 0
      invariant r != 0 ==> names + NamesFrom(p.img, p.fds[fd].fpos) == NamesFrom(p.img, slot.fpos)
      invariant r == 0 ==> names == NamesFrom(p.img, slot.fpos)
      decreases r != 0, |p.img.dentries| - p.fds[fd].fpos
    {
      ghost var pos, before := p.fds[fd].fpos, buffer[..];
      r := p.ReadDir(fd, buffer, 32);
      if pos < |p.img.dentries| {
        CopiedName(p.img.dentries[pos], before, buffer[..]);
      }
      if r != 0 {
        names := names + [buffer[..r]];
      }
    }
  }

  /** Opening a directory by name and reading it until 0 lists all names from the first one on. */
  method ListDirectoryByName(p: Process, name: seq<Octet>) returns (fd: int, names: seq<seq<Octet>>)
    requires p.Valid() && CString(name)
    requires forall k :: FirstNamed(p.img, name, k) ==> p.img.dentries[k].kind == Directory
    modifies p.fds
    ensures p.Valid()
    ensures fd != -1 <==> Named(p.img, name) && exists i :: 2 <= i < 8 && !old(p.fds[i].used)
    ensures fd != -1 ==> names == NamesFrom(p.img, 0)
  {
    names := [];
    fd := p.Open(name);
    if fd != -1 {
      names := ListDirectory(p, fd);
    }
  }
}
