/** The blink driver: its list of slots and the text screen, changed in place. */
module BlinkDrivers {
  import opened Blinks
  import opened BlinkLists

  /** The display that the list and the screen stand for. */
  ghost function Shown(slots: seq<Entry>, nodes: seq<int>, screen: seq<Octet>): Display
    requires InRange(nodes, |slots|)
  {
    Display(Entries(slots, nodes), screen)
  }

  lemma ListIsGood(slots: seq<Entry>, next: seq<int>, head: int, nodes: seq<int>, screen: seq<Octet>)
    requires IsList(slots, next, head, nodes) && |screen| == 2 * CELLS
    ensures InRange(nodes, |slots|) && Good(Shown(slots, nodes, screen))
    ensures |nodes| == SLOTS <==> Allocated(slots) == SLOTS
  {
    FullIff(nodes, SLOTS);
    forall i | 0 <= i < |nodes|
      ensures slots[nodes[i]].location > 0
    {
      assert nodes[i] in nodes;
    }
    assert Allocated(slots) == SLOTS <==> forall p :: 0 <= p < |slots| ==> slots[p].location != 0;
  }

  class BlinkDriver {
    const slots: array<Entry>
    const next: array<int>
    const video: array<Octet>
    var head: int
    ghost var nodes: seq<int>

    ghost predicate Sized()
    {
      slots.Length == SLOTS && next.Length == SLOTS && video.Length == 2 * CELLS
    }

    ghost predicate Valid()
      reads this`head, this`nodes, slots, next
    {
      Sized() && IsList(slots[..], next[..], head, nodes)
    }

    ghost function View(): (d: Display)
      requires Valid()
      reads this`head, this`nodes, slots, next, video
      ensures Good(d)
    {
      ListIsGood(slots[..], next[..], head, nodes, video[..]);
      Shown(slots[..], nodes, video[..])
    }

    /** No entries, on a given screen. */
    constructor (screen: array<Octet>)
      requires screen.Length == 2 * CELLS
      ensures Valid() && video == screen && fresh(slots) && fresh(next) && View().entries == []
    {
      slots, next, video := new Entry[SLOTS](_ => FREE_SLOT), new int[SLOTS](_ => NULL), screen;
      head, nodes := NULL, [];
    }

    /** mp1_poke. */
    method Poke(l: Word, c: Octet)
      requires Sized() && l < CELLS
      modifies video
      ensures video[..] == Poked(old(video[..]), l, c)
    {
      video[2 * l] := c;
    }

    /** The slot of the newest entry at location l. */
    method FindHelper(l: Word) returns (p: int)
      requires Valid()
      ensures p == At(nodes, FirstAt(View().entries, l))
    {
      ghost var i := 0;
      ghost var es := Entries(slots[..], nodes);
      p := head;
      while p != NULL && slots[p].location != l
        invariant 0 <= i <= |nodes| && p == At(nodes, i)
        invariant forall j :: 0 <= j < i ==> es[j].location != l
        decreases |nodes| - i
      {
        assert PointsOn(next[..], nodes, i);
        p := next[p];
        i := i + 1;
      }
      FirstAtIs(es, l, i);
    }

    method Malloc() returns (p: int)
      requires Sized()
      ensures p == if Allocated(slots[..]) < SLOTS then Allocated(slots[..]) else NULL
    {
      var i := 0;
      while i < SLOTS
        invariant 0 <= i <= SLOTS
        invariant forall q :: 0 <= q < i ==> slots[q].location != 0
      {
        if slots[i].location == 0 {
          AllocatedIs(slots[..], i);
          return i;
        }
        i := i + 1;
      }
      AllocatedIs(slots[..], SLOTS);
      p := NULL;
    }

    /** Puts entry e into slot p and the slot at the front of the list. */
    method PushFront(p: int, e: Entry)
      requires Sized() && 0 <= p < SLOTS
      modifies slots, next, this`head
      ensures slots[..] == old(slots[..])[p := e] && next[..] == old(next[..])[p := old(head)] && head == p
    {
      slots[p] := e;
      next[p] := head;
      head := p;
    }

    /** mp1_ioctl_add. What it leaves behind is a list exactly when the location was not 0 or nothing
        was added. */
    method Add(data: Entry) returns (r: int)
      requires Valid()
      modifies slots, next, this`head, this`nodes, video
      ensures r == if Fits(old(View()), data) then 0 else -1
      ensures Listed(slots[..], next[..], head) <==> data.location != 0 || r == -1
      ensures data.location != 0 ==> Valid() && View() == After(old(View()), Event.Add(data))
    {
      ListIsGood(slots[..], next[..], head, nodes, video[..]);
      if data.location >= CELLS {
        return -1;
      }
      var e := data.(on := true);
      e := e.(countdown := e.onLength);
      var p := Malloc();
      if p == NULL {
        return -1;
      }
      AddKeepsListIff(slots[..], next[..], head, p, e);
      AddedToList(slots[..], next[..], head, nodes, p, e);
      PushFront(p, e);
      nodes := [p] + nodes;
      Poke(e.location, e.onChar);
      r := 0;
    }

    /** The slot before the k-th node, NULL when that is the first. */
    method Predecessor(p: int, ghost k: int) returns (prev: int)
      requires Valid() && 0 <= k < |nodes| && nodes[k] == p
      ensures prev == if k == 0 then NULL else nodes[k - 1]
    {
      ghost var i := 0;
      prev := NULL;
      var cur := head;
      while cur != p
        invariant 0 <= i <= k && cur == nodes[i] && prev == if i == 0 then NULL else nodes[i - 1]
        decreases k - i
      {
        assert PointsOn(next[..], nodes, i);
        prev := cur;
        cur := next[prev];
        i := i + 1;
      }
    }

    /** Takes the k-th node, p, out of the list and clears its slot. */
    method Unlink(p: int, ghost k: int)
      requires Valid() && 0 <= k < |nodes| && nodes[k] == p
      modifies slots, next, this`head
      ensures Unlinked(old(slots[..]), old(next[..]), old(head), nodes, k, slots[..], next[..], head)
    {
      var prev := Predecessor(p, k);
      if prev == NULL {
        head := next[p];
      } else {
        next[prev] := next[p];
      }
      slots[p] := FREE_SLOT;
      next[p] := NULL;
    }

    /** mp1_ioctl_remove, with the location in the low 16 bits of the argument. */
    method Remove(arg: nat) returns (r: int)
      requires Valid()
      modifies slots, next, this`head, this`nodes
      ensures Valid() && View() == After(old(View()), Event.Remove(arg % 0x1_0000))
      ensures r == if Newest(old(View()).entries, arg % 0x1_0000).Some? then 0 else -1
      ensures r == 0 ==> exists p :: FreedSlot(old(slots[..]), slots[..], arg % 0x1_0000, p)
    {
      r := RemoveEntry(arg % 0x1_0000);
    }

    method RemoveEntry(l: Word) returns (r: int)
      requires Valid()
      modifies slots, next, this`head, this`nodes
      ensures Valid() && View() == After(old(View()), Event.Remove(l))
      ensures r == if Newest(old(View()).entries, l).Some? then 0 else -1
      ensures r == 0 ==> exists p :: FreedSlot(old(slots[..]), slots[..], l, p)
    {
      ghost var k := FirstAt(View().entries, l);
      var p := FindHelper(l);
      if p == NULL {
        return -1;
      }
      ghost var before := (slots[..], next[..], head);
      Unlink(p, k);
      UnlinkedIsList(before.0, before.1, before.2, nodes, k, slots[..], next[..], head);
      nodes := Spliced(nodes, k);
      SlotIsFreed(before.0, slots[..], l, p);
      r := 0;
    }

    /** Gives slot q the lengths, countdown and state of slot p. */
    method CopyTiming(p: int, q: int)
      requires Sized() && 0 <= p < SLOTS && 0 <= q < SLOTS
      modifies slots
      ensures slots[..] == old(slots[..])[q := InTimeWith(old(slots[q]), old(slots[p]))]
    {
      slots[q] := slots[q].(onLength := slots[p].onLength);
      slots[q] := slots[q].(offLength := slots[p].offLength);
      slots[q] := slots[q].(countdown := slots[p].countdown);
      slots[q] := slots[q].(on := slots[p].on);
    }

    /** mp1_ioctl_sync: the source location is in the high 16 bits of the argument, the target in the low ones. */
    method Sync(arg: nat) returns (r: int)
      requires Valid() && arg < 0x1_0000_0000
      modifies slots, video
      ensures Valid() && View() == After(old(View()), Event.Sync(arg / 0x1_0000, arg % 0x1_0000))
      ensures r == if Newest(old(View()).entries, arg / 0x1_0000).Some? && Newest(old(View()).entries, arg % 0x1_0000).Some? then 0 else -1
    {
      r := SyncEntries(arg / 0x1_0000, arg % 0x1_0000);
    }

    method SyncEntries(source: Word, target: Word) returns (r: int)
      requires Valid()
      modifies slots, video
      ensures Valid() && View() == After(old(View()), Event.Sync(source, target))
      ensures r == if Newest(old(View()).entries, source).Some? && Newest(old(View()).entries, target).Some? then 0 else -1
    {
      ghost var k := FirstAt(View().entries, target);
      var p := FindHelper(source);
      if p == NULL {
        return -1;
      }
      var q := FindHelper(target);
      if q == NULL {
        return -1;
      }
      ChangedIsList(slots[..], next[..], head, nodes, k, InTimeWith(slots[q], slots[p]));
      CopyTiming(p, q);
      Poke(slots[q].location, slots[q].offChar);
      r := 0;
    }

    /** One entry's share of a tick. */
    method TickEntry(p: int)
      requires Sized() && 0 <= p < SLOTS && slots[p].location < CELLS
      modifies slots, video
      ensures slots[..] == old(slots[..])[p := Ticked(old(slots[p]))]
      ensures video[..] == if Toggles(old(slots[p])) then Poked(old(video[..]), slots[p].location, Char(slots[p])) else old(video[..])
    {
      slots[p] := slots[p].(countdown := Decremented(slots[p].countdown));
      if 1 <= slots[p].countdown <= 0x7FFF {
        return;
      }
      var length;
      if slots[p].on {
        Poke(slots[p].location, slots[p].offChar);
        length := slots[p].offLength;
      } else {
        Poke(slots[p].location, slots[p].onChar);
        length := slots[p].onLength;
      }
      slots[p] := slots[p].(countdown := length);
      slots[p] := slots[p].(on := !slots[p].on);
    }

    /** mp1_rtc_tasklet: every entry ticks, newest first. */
    method Tick()
      requires Valid()
      modifies slots, video
      ensures Valid() && View() == After(old(View()), Event.Tick)
    {
      ghost var es := View().entries;
      ghost var screen := video[..];
      ghost var i := 0;
      var p := head;
      while p != NULL
        invariant 0 <= i <= |nodes| && p == At(nodes, i)
        invariant Ticking(slots[..], next[..], head, nodes, es, i)
        invariant video[..] == Redrawn(screen, es, i)
        decreases |nodes| - i
      {
        TickingStep(slots[..], next[..], head, nodes, es, i);
        TickEntry(p);
        p := next[p];
        i := i + 1;
      }
      assert Entries(slots[..], nodes) == TickedAll(es);
    }
  }

  /** The first n entries of the list have ticked, es being the entries before. */
  ghost predicate Ticking(slots: seq<Entry>, next: seq<int>, head: int, nodes: seq<int>, es: seq<Entry>, n: int) {
    && IsList(slots, next, head, nodes) && |nodes| == |es|
    && forall i :: 0 <= i < |es| ==> slots[nodes[i]] == if i < n then Ticked(es[i]) else es[i]
  }

  lemma TickingStep(slots: seq<Entry>, next: seq<int>, head: int, nodes: seq<int>, es: seq<Entry>, n: int)
    requires 0 <= n < |nodes| && Ticking(slots, next, head, nodes, es, n)
    ensures Ticking(slots[nodes[n] := Ticked(slots[nodes[n]])], next, head, nodes, es, n + 1)
    ensures slots[nodes[n]] == es[n] && 0 <= es[n].location < CELLS && next[nodes[n]] == At(nodes, n + 1)
  {
    ChangedIsList(slots, next, head, nodes, n, Ticked(slots[nodes[n]]));
    assert PointsOn(next, nodes, n);
  }

  /** Slot p, which held an entry at l, is free; the allocator finds it unless it finds an earlier one. */
  ghost predicate FreedSlot(before: seq<Entry>, now: seq<Entry>, l: Word, p: int) {
    && |now| == |before| && 0 <= p < |before| && before[p].location == l && l != 0 && now[p].location == 0
    && (forall q :: 0 <= q < |now| && q != p ==> now[q] == before[q])
    && Allocated(now) <= p
  }

  lemma SlotIsFreed(before: seq<Entry>, now: seq<Entry>, l: Word, p: int)
    requires 0 <= p < |before| && before[p].location == l && l != 0 && now == before[p := FREE_SLOT]
    ensures FreedSlot(before, now, l, p)
  {
  }

  lemma AddedToList(slots: seq<Entry>, next: seq<int>, head: int, nodes: seq<int>, p: int, e: Entry)
    requires IsList(slots, next, head, nodes) && 0 <= p < SLOTS && slots[p].location == 0 && e.location < CELLS
    ensures InRange([p] + nodes, SLOTS) && InRange(nodes, SLOTS)
    ensures e.location != 0 ==> IsList(slots[p := e], next[p := head], p, [p] + nodes)
    ensures Entries(slots[p := e], [p] + nodes) == [e] + Entries(slots, nodes)
  {
    assert p !in nodes;
    AddedEntries(slots, nodes, p, e);
    if e.location != 0 {
      AddedIsList(slots, next, head, nodes, p, e);
    }
  }
}
