/** The line discipline of tuxctl-ld.c: ring buffers in both directions and the packet framer. */
module TuxLine {
  import opened Packets

  /** The bytes between two indices of a ring, in order. */
  function RingBytes(s: seq<Byte>, start: int, end: int): (r: seq<Byte>)
    requires |s| == 64 && 0 <= start < 64 && 0 <= end < 64
    ensures |r| == Used(start, end)
  {
    if start <= end then s[start..end] else s[start..] + s[..end]
  }

  /** The slot of the i-th byte. */
  function SlotAt(start: int, i: int): int {
    if start + i < 64 then start + i else start + i - 64
  }

  lemma ByteAt(s: seq<Byte>, start: int, end: int, i: int)
    requires |s| == 64 && 0 <= start < 64 && 0 <= end < 64 && 0 <= i < Used(start, end)
    ensures 0 <= SlotAt(start, i) < 64 && RingBytes(s, start, end)[i] == s[SlotAt(start, i)]
  {
    if start > end && start + i >= 64 {
      assert s[..end][start + i - 64] == s[start + i - 64];
    }
  }

  /** The index after i, in one of two ways. */
  lemma NextIndex(i: int)
    requires 0 <= i < 64
    ensures (i + 1) % 64 == SlotAt(i, 1)
  {
  }

  lemma BytesPushed(s: seq<Byte>, start: int, end: int, b: Byte)
    requires |s| == 64 && 0 <= start < 64 && 0 <= end < 64 && (end + 1) % 64 != start
    ensures RingBytes(s[end := b], start, (end + 1) % 64) == RingBytes(s, start, end) + [b]
  {
    NextIndex(end);
    var s', end' := s[end := b], SlotAt(end, 1);
    var before, after := RingBytes(s, start, end), RingBytes(s', start, end');
    assert |after| == |before| + 1;
    forall i | 0 <= i < |after|
      ensures after[i] == (before + [b])[i]
    {
      ByteAt(s', start, end', i);
      if i < |before| {
        ByteAt(s, start, end, i);
      }
    }
  }

  lemma BytesPopped(s: seq<Byte>, start: int, end: int)
    requires |s| == 64 && 0 <= start < 64 && 0 <= end < 64 && start != end
    ensures RingBytes(s, start, end) == [s[start]] + RingBytes(s, (start + 1) % 64, end)
  {
    NextIndex(start);
    var start' := SlotAt(start, 1);
    var before, after := RingBytes(s, start, end), RingBytes(s, start', end);
    assert |before| == |after| + 1;
    forall i | 0 <= i < |before|
      ensures before[i] == ([s[start]] + after)[i]
    {
      ByteAt(s, start, end, i);
      if i > 0 {
        ByteAt(s, start', end, i - 1);
      }
    }
  }

  /** A ring buffer of 64 slots that holds at most 63 bytes. */
  class Ring {
    const buf: array<Byte>
    var start: int
    var end: int

    ghost predicate Valid()
      reads this
    {
      buf.Length == 64 && 0 <= start < 64 && 0 <= end < 64
    }

    ghost function Contents(): (s: seq<Byte>)
      reads this, buf
      requires Valid()
      ensures |s| == Used(start, end)
    {
      RingBytes(buf[..], start, end)
    }

    constructor ()
      ensures Valid() && Contents() == [] && fresh(buf)
    {
      buf := new Byte[64](_ => 0);
      start, end := 0, 0;
    }

    method Clear()
      requires Valid()
      modifies this
      ensures Valid() && Contents() == []
    {
      start, end := 0, 0;
    }

    predicate Empty()
      reads this
    {
      start == end
    }

    predicate Full()
      reads this
    {
      (end + 1) % 64 == start
    }

    method Push(b: Byte)
      requires Valid() && !Full()
      modifies this`end, buf
      ensures Valid() && Contents() == old(Contents()) + [b]
    {
      BytesPushed(buf[..], start, end, b);
      buf[end] := b;
      assert buf[..] == old(buf[..])[end := b];
      end := (end + 1) % 64;
    }

    /** Store bytes until the ring is full; k is how many found room. */
    method PushAll(bytes: seq<Byte>) returns (k: nat)
      requires Valid()
      modifies this`end, buf
      ensures Valid() && k == Least(|bytes|, 63 - |old(Contents())|)
      ensures Contents() == old(Contents()) + bytes[..k]
    {
      k := 0;
      ghost var before := Contents();
      while k < |bytes| && !Full()
        invariant 0 <= k <= |bytes| && Valid() && Contents() == before + bytes[..k]
      {
        Push(bytes[k]);
        OneByteMore(before, bytes, k);
        k := k + 1;
      }
      EmptyFullByCount(start, end);
    }

    method Pop() returns (b: Byte)
      requires Valid() && !Empty()
      modifies this`start
      ensures Valid() && old(Contents()) == [b] + Contents()
    {
      BytesPopped(buf[..], start, end);
      b := buf[start];
      start := (start + 1) % 64;
    }
  }

  lemma OneByteMore(a: seq<Byte>, b: seq<Byte>, k: nat)
    requires k < |b|
    ensures a + b[..k] + [b[k]] == a + b[..k + 1]
    ensures b[..k] + [b[k]] == b[..k + 1]
  {
  }

  function Used(start: int, end: int): int {
    if start <= end then end - start else 64 + end - start
  }

  function Room(start: int, end: int): int {
    64 - Used(start, end) - 1
  }

  /** The tests for an empty and a full ring agree with the byte counts. */
  lemma EmptyFullByCount(start: int, end: int)
    requires 0 <= start < 64 && 0 <= end < 64
    ensures start == end <==> Used(start, end) == 0
    ensures (end + 1) % 64 == start <==> Room(start, end) == 0
    ensures 0 <= Used(start, end) <= 63
  {
  }

  function Least(a: int, b: int): int { if a < b then a else b }

  class LineDiscipline {
    const rx: Ring
    const tx: Ring
    const saved: array<Byte>
    var nSaved: int
    /** The packets handed to the driver so far. */
    var delivered: seq<Packet>
    /** The bytes the serial driver has taken so far. */
    var wire: seq<Byte>
    /** All bytes the callback has read from the receive ring. */
    ghost var consumed: seq<Byte>
    /** All bytes the receive ring has taken. */
    ghost var accepted: seq<Byte>

    ghost predicate Valid()
      reads this, saved, rx, tx
    {
      && rx.Valid() && tx.Valid() && rx != tx && rx.buf != tx.buf && saved != rx.buf && saved != tx.buf
      && saved.Length == 2 && 0 <= nSaved <= 2 && Framer(consumed, saved[..nSaved], delivered)
    }

    /** The accepted stream: what has been read, of which the saved bytes are the end, then what the
        ring holds. */
    ghost predicate Streams()
      reads this, rx, rx.buf
      requires rx.Valid()
    {
      accepted == consumed + rx.Contents()
    }

    constructor ()
      ensures Valid() && Streams() && rx.Contents() == [] && tx.Contents() == [] && accepted == [] && wire == []
    {
      rx := new Ring();
      tx := new Ring();
      saved := new Byte[2](_ => 0);
      nSaved, delivered, wire, consumed, accepted := 0, [], [], [], [];
      new;
      FramerStarts(saved[..0]);
    }

    /** In every state exactly the packets of the consumed stream have been delivered. */
    lemma DeliveredIsAll()
      requires Valid()
      ensures delivered == AllPackets(consumed)
    {
      FramerDeliversAll(consumed, saved[..nSaved], delivered);
    }

    /** Move one received byte to buf[i]. */
    method GetByte(buf: array<Byte>, i: nat)
      requires rx.Valid() && !rx.Empty() && i < buf.Length && buf != rx.buf
      modifies rx`start, buf
      ensures rx.Valid() && rx.Contents() == old(rx.Contents())[1..]
      ensures buf[..i] == old(buf[..i]) && buf[i] == old(rx.Contents())[0]
    {
      buf[i] := rx.Pop();
    }

    /** Take up to n bytes from the receive ring into buf from index at on. */
    method Get(buf: array<Byte>, at: nat, n: int) returns (r: nat)
      requires rx.Valid() && at <= buf.Length && at + n <= buf.Length && buf != rx.buf
      modifies rx`start, buf
      ensures rx.Valid() && r == Least(if n > 0 then n else 0, |old(rx.Contents())|)
      ensures buf[..at + r] == old(buf[..at]) + old(rx.Contents())[..r]
      ensures rx.Contents() == old(rx.Contents())[r..]
    {
      ghost var c, head := rx.Contents(), buf[..at];
      r := 0;
      while r < n && !rx.Empty()
        invariant 0 <= r <= |c| && (r == 0 || r <= n) && rx.Valid() && rx.Contents() == c[r..]
        invariant buf[..at + r] == head + c[..r]
      {
        GetByte(buf, at + r);
        OneByteMore(head, c, r);
        r := r + 1;
      }
    }

    /** The interrupt handler: put what fits of the received bytes into the ring, then process. */
    method ReceiveBuf(cp: seq<Byte>)
      requires Valid() && Streams()
      modifies this, saved, rx, rx.buf
      ensures Valid() && Streams()
      ensures accepted == old(accepted) + cp[..Least(|cp|, Room(old(rx.start), old(rx.end)))]
      ensures old(consumed) <= consumed && |consumed| - |old(consumed)| <= 12
      ensures wire == old(wire) && tx.Contents() == old(tx.Contents())
    {
      ghost var took := Least(|cp|, 63 - |rx.Contents()|);
      var _ := rx.PushAll(cp);
      accepted := accepted + cp[..took];
      DataCallback();
    }

    /** Put the saved bytes at the front of the packet. */
    method RestoreSaved(packet: array<Byte>)
      requires saved.Length == 2 && 0 <= nSaved <= 2 && packet.Length == 12 && packet != saved
      modifies packet
      ensures packet[..nSaved] == saved[..nSaved]
    {
      var i := 0;
      while i < nSaved
        invariant 0 <= i <= nSaved && packet[..i] == saved[..i]
      {
        packet[i] := saved[i];
        i := i + 1;
      }
    }

    /** Assemble the saved bytes and up to 12 - nSaved new ones. */
    method LoadPacket(packet: array<Byte>) returns (n: nat)
      requires Valid() && packet.Length == 12 && packet != rx.buf && packet != tx.buf && packet != saved
      modifies this`consumed, rx`start, packet
      ensures rx.Valid() && nSaved <= n <= 12
      ensures n - nSaved == Least(12 - nSaved, |old(rx.Contents())|)
      ensures consumed == old(consumed) + old(rx.Contents())[..n - nSaved]
      ensures rx.Contents() == old(rx.Contents())[n - nSaved..]
      ensures packet[..n] == consumed[|old(consumed)| - nSaved..]
    {
      RestoreSaved(packet);
      ghost var held := rx.Contents();
      var got := Get(packet, nSaved, 12 - nSaved);
      n := nSaved + got;
      consumed := consumed + held[..got];
    }

    /** Keep the bytes from i on for the next time. */
    method SaveRest(packet: array<Byte>, i: nat, n: nat, ghost rest: seq<Byte>)
      requires saved.Length == 2 && packet != saved && i <= n <= packet.Length && n <= i + 2
      requires packet[i..n] == rest
      modifies this`nSaved, saved
      ensures nSaved == n - i && saved[..nSaved] == rest
    {
      nSaved := n - i;
      var j := 0;
      while j < nSaved
        invariant 0 <= j <= nSaved == n - i && saved[..j] == packet[i..i + j]
      {
        saved[j] := packet[i + j];
        j := j + 1;
      }
    }

    /** Look for packets in the saved bytes and up to 12 - nSaved new ones; deliver them and save
        what may be the beginning of the next packet. */
    method DataCallback()
      requires Valid()
      modifies this`nSaved, this`delivered, this`consumed, saved, rx`start
      ensures Valid() && old(consumed) <= consumed
      ensures consumed + rx.Contents() == old(consumed) + old(rx.Contents())
      ensures |consumed| - |old(consumed)| == Least(12 - old(nSaved), |old(rx.Contents())|)
    {
      var packet := new Byte[12](_ => 0);
      ghost var c, held, base := consumed, rx.Contents(), |consumed| - nSaved;
      var n := LoadPacket(packet);
      ghost var got := n - nSaved;
      StreamGrows(c, held[..got], saved[..nSaved], delivered);
      ScanAndSave(packet, n, base);
      StreamKept(c, held, got);
    }

    /** Deliver the packets among n bytes, which end the consumed stream, and save what is left. */
    method ScanAndSave(packet: array<Byte>, n: nat, ghost base: nat)
      requires saved.Length == 2 && packet != saved
      requires n <= packet.Length == 12 && base + n == |consumed| && packet[..n] == consumed[base..]
      requires Settled(consumed, base) && delivered == PacketsBefore(consumed, base)
      modifies this`delivered, this`nSaved, saved
      ensures 0 <= nSaved <= 2 && Framer(consumed, saved[..nSaved], delivered)
    {
      var i := ScanPackets(packet, n, base);
      Suffix(consumed, base, i);
      assert packet[i..n] == packet[..n][i..];
      SaveRest(packet, i, n, consumed[base + i..]);
      FramerAt(consumed, base + i, saved[..nSaved], delivered);
    }

    /** Scan n bytes, which end the consumed stream and begin at base, for packets. */
    method ScanPackets(packet: array<Byte>, n: nat, ghost base: nat) returns (i: nat)
      requires n <= packet.Length == 12 && base + n == |consumed| && packet[..n] == consumed[base..]
      requires Settled(consumed, base) && delivered == PacketsBefore(consumed, base)
      modifies this`delivered
      ensures n - 2 <= i <= n
      ensures Settled(consumed, base + i) && delivered == PacketsBefore(consumed, base + i)
    {
      i := 0;
      while i < n - 2
        invariant 0 <= i <= n
        invariant Settled(consumed, base + i) && delivered == PacketsBefore(consumed, base + i)
      {
        assert packet[i] == packet[..n][i] && packet[i + 1] == packet[..n][i + 1] && packet[i + 2] == packet[..n][i + 2];
        if !High(packet[i]) && High(packet[i + 1]) && High(packet[i + 2]) {
          SkipPacket(consumed, base + i);
          delivered := delivered + [Packet(packet[i], packet[i + 1], packet[i + 2])];
          i := i + 3;
        } else {
          SkipByte(consumed, base + i);
          i := i + 1;
        }
      }
    }

    /** Queue bytes for the device; room is what the serial driver then says it can take. Returns
        the number of bytes that found no place. */
    method Put(bytes: seq<Byte>, room: nat) returns (left: nat)
      requires Valid()
      modifies this`wire, tx`start, tx`end, tx.buf
      ensures Valid()
      ensures left == |bytes| - Least(|bytes|, 63 - |old(tx.Contents())|)
      ensures var queue := old(tx.Contents()) + bytes[..|bytes| - left];
              wire == old(wire) + queue[..Least(room, |queue|)] && tx.Contents() == queue[Least(room + 1, |queue|)..]
    {
      var k := tx.PushAll(bytes);
      left := |bytes| - k;
      WriteWakeup(room);
    }

    /** The driver can accept room bytes: take bytes from the queue and write them. One byte more
        than the room is taken when there is one, and the driver does not accept it. */
    method WriteWakeup(room: nat)
      requires tx.Valid()
      modifies this`wire, tx`start
      ensures tx.Valid()
      ensures wire == old(wire) + old(tx.Contents())[..Least(room, |old(tx.Contents())|)]
      ensures tx.Contents() == old(tx.Contents())[Least(room + 1, |old(tx.Contents())|)..]
    {
      ghost var queue := tx.Contents();
      var buf: seq<Byte> := [];
      while |buf| <= room && !tx.Empty()
        invariant tx.Valid() && |buf| <= |queue| && |buf| <= room + 1
        invariant buf == queue[..|buf|] && tx.Contents() == queue[|buf|..] && wire == old(wire)
        decreases |queue| - |buf|
      {
        var b := tx.Pop();
        assert b == queue[|buf|];
        buf := buf + [b];
      }
      var sent := Least(room, |buf|);
      wire := wire + buf[..sent];
    }
  }

  /** What the driver took followed by what is still queued is what was queued, exactly when the
      queue was not longer than the room; otherwise one byte is lost. */
  lemma TransmitLossIff(queue: seq<Byte>, room: nat)
    ensures queue[..Least(room, |queue|)] + queue[Least(room + 1, |queue|)..] == queue <==> |queue| <= room
    ensures |queue| > room ==>
              |queue[..Least(room, |queue|)] + queue[Least(room + 1, |queue|)..]| == |queue| - 1
  {
    if |queue| <= room {
      assert queue[..|queue|] + queue[|queue|..] == queue;
    }
  }

  lemma FramerStarts(rest: seq<Byte>)
    requires rest == []
    ensures Framer([], rest, [])
  {
  }

  lemma Suffix(s: seq<Byte>, a: nat, b: nat)
    requires a + b <= |s|
    ensures s[a..][b..] == s[a + b..]
  {
  }

  lemma StreamKept(c: seq<Byte>, held: seq<Byte>, got: nat)
    requires got <= |held|
    ensures c <= c + held[..got] && (c + held[..got]) + held[got..] == c + held
  {
  }

  /** New bytes leave what the framer has done settled. */
  lemma StreamGrows(s: seq<Byte>, more: seq<Byte>, rest: seq<Byte>, delivered: seq<Packet>)
    requires Framer(s, rest, delivered)
    ensures var base := |s| - |rest|;
      0 <= base <= |s| && Settled(s + more, base) && delivered == PacketsBefore(s + more, base)
  {
    SettledStays(s, more, |s| - |rest|);
  }
}
