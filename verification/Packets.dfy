/** Packet framing of the tux controller: which byte triples are packets, independently of how the
    bytes arrive. */
module Packets {
  type Byte = bv8

  datatype Packet = Packet(a: Byte, b: Byte, c: Byte)

  predicate High(b: Byte) {
    b & 0x80 != 0
  }

  /** A packet starts at i: the framing bits of three bytes are 0, 1, 1. */
  predicate Framed(s: seq<Byte>, i: int) {
    0 <= i && i + 2 < |s| && !High(s[i]) && High(s[i + 1]) && High(s[i + 2])
  }

  /** The packets that start at the first n positions of a byte stream, in order. */
  function PacketsBefore(s: seq<Byte>, n: nat): seq<Packet> {
    if n == 0 then []
    else if Framed(s, n - 1) then PacketsBefore(s, n - 1) + [Packet(s[n - 1], s[n], s[n + 1])]
    else PacketsBefore(s, n - 1)
  }

  function AllPackets(s: seq<Byte>): seq<Packet> {
    PacketsBefore(s, |s|)
  }

  /** Whether a packet starts at a position before n no longer depends on bytes to come. */
  ghost predicate Settled(s: seq<Byte>, n: nat) {
    n <= |s| && forall i :: 0 <= i < n ==> i + 2 < |s| || High(s[i])
  }

  lemma {:induction false} SettledStays(s: seq<Byte>, more: seq<Byte>, n: nat)
    requires Settled(s, n)
    ensures Settled(s + more, n) && PacketsBefore(s + more, n) == PacketsBefore(s, n)
  {
    if n > 0 {
      SettledStays(s, more, n - 1);
    }
  }

  /** The framer's state: the packets up to the saved rest of the stream have been delivered, and
      nothing before the rest can become part of another one. */
  ghost predicate Framer(s: seq<Byte>, rest: seq<Byte>, delivered: seq<Packet>) {
    var n := |s| - |rest|;
    |rest| <= 2 && 0 <= n && rest == s[n..] && Settled(s, n) && delivered == PacketsBefore(s, n)
  }

  lemma FramerAt(s: seq<Byte>, n: nat, rest: seq<Byte>, delivered: seq<Packet>)
    requires n <= |s| <= n + 2 && rest == s[n..] && Settled(s, n) && delivered == PacketsBefore(s, n)
    ensures Framer(s, rest, delivered)
  {
  }

  /** In every state of the framer exactly the packets of the stream have been delivered. */
  lemma FramerDeliversAll(s: seq<Byte>, rest: seq<Byte>, delivered: seq<Packet>)
    requires Framer(s, rest, delivered)
    ensures delivered == AllPackets(s)
  {
    LastTwoStartNothing(s, |s| - |rest|);
  }

  /** No packet can start at the last two bytes of a stream. */
  lemma {:induction false} LastTwoStartNothing(s: seq<Byte>, n: nat)
    requires |s| - 2 <= n <= |s|
    ensures AllPackets(s) == PacketsBefore(s, n)
    decreases |s| - n
  {
    if n < |s| {
      LastTwoStartNothing(s, n + 1);
    }
  }

  /** After a packet, the scan may skip its three bytes. */
  lemma SkipPacket(s: seq<Byte>, i: nat)
    requires Settled(s, i) && Framed(s, i)
    ensures Settled(s, i + 3)
    ensures PacketsBefore(s, i + 3) == PacketsBefore(s, i) + [Packet(s[i], s[i + 1], s[i + 2])]
  {
    assert PacketsBefore(s, i + 2) == PacketsBefore(s, i + 1);
  }

  lemma SkipByte(s: seq<Byte>, i: nat)
    requires Settled(s, i) && i + 2 < |s| && !Framed(s, i)
    ensures Settled(s, i + 1) && PacketsBefore(s, i + 1) == PacketsBefore(s, i)
  {
  }

  /** Self-synchronisation: whatever came before, all packets of a stretch of good bytes are found. */
  lemma {:induction false} Resynchronises(junk: seq<Byte>, s: seq<Byte>, n: nat)
    requires n <= |s|
    ensures PacketsBefore(junk + s, |junk| + n) == PacketsBefore(junk + s, |junk|) + PacketsBefore(s, n)
  {
    if n > 0 {
      Resynchronises(junk, s, n - 1);
      assert Framed(junk + s, |junk| + n - 1) <==> Framed(s, n - 1);
    }
  }

  /** Packets never overlap. */
  lemma PacketsDisjoint(s: seq<Byte>, i: int, j: int)
    requires Framed(s, i) && Framed(s, j) && i < j
    ensures i + 3 <= j
  {
  }

  /** The framing by value: a byte below 128 and two that are not. */
  lemma FramedByValue(s: seq<Byte>, i: int)
    ensures Framed(s, i) <==> 0 <= i && i + 2 < |s| && s[i] as int < 128 && s[i + 1] as int >= 128 && s[i + 2] as int >= 128
  {
    if 0 <= i && i + 2 < |s| {
      HighByValue(s[i]);
      HighByValue(s[i + 1]);
      HighByValue(s[i + 2]);
    }
  }

  lemma HighByValue(b: Byte)
    ensures High(b) <==> b as int >= 128
  {
    assert b & 0x80 != 0 <==> b >= 0x80;
  }

  ghost predicate Increasing(a: seq<int>) {
    forall i, j :: 0 <= i < j < |a| ==> a[i] < a[j]
  }

  /** The positions below n where packets start, in order. */
  ghost predicate Starts(s: seq<Byte>, n: nat, at: seq<int>) {
    && Increasing(at) && forall i :: i in at <==> 0 <= i < n && Framed(s, i)
  }

  ghost predicate BytesAt(s: seq<Byte>, at: seq<int>, packets: seq<Packet>) {
    && |packets| == |at|
    && forall k :: 0 <= k < |at| ==>
      0 <= at[k] && at[k] + 2 < |s| && packets[k].a == s[at[k]] && packets[k].b == s[at[k] + 1] && packets[k].c == s[at[k] + 2]
  }

  /** The packets of a stream are the byte triples at exactly the framed positions, in their order. */
  lemma {:induction false} PacketsAreTheFramed(s: seq<Byte>, n: nat) returns (at: seq<int>)
    ensures Starts(s, n, at) && BytesAt(s, at, PacketsBefore(s, n))
  {
    at := [];
    if n > 0 {
      at := PacketsAreTheFramed(s, n - 1);
      if Framed(s, n - 1) {
        forall i | 0 <= i < |at| ensures at[i] < n - 1 {
          assert at[i] in at;
        }
        at := at + [n - 1];
      }
    }
  }
}
