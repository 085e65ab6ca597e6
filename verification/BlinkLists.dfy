/** The blink driver's linked list and the slots it is made of. A pointer to a slot is its index. */
module BlinkLists {
  import opened Blinks

  const NULL := -1
  const FREE_SLOT := Entry(0, 0, 0, 0, 0, 0, false)

  /** The i-th pointer of a list, its end being NULL. */
  ghost function At(nodes: seq<int>, i: nat): int {
    if i < |nodes| then nodes[i] else NULL
  }

  ghost predicate InRange(nodes: seq<int>, n: int) {
    forall i :: 0 <= i < |nodes| ==> 0 <= nodes[i] < n
  }

  /** Following the pointers from head meets these nodes and then NULL. */
  ghost predicate Linked(next: seq<int>, head: int, nodes: seq<int>) {
    && head == At(nodes, 0) && InRange(nodes, |next|)
    && forall i :: 0 <= i < |nodes| ==> PointsOn(next, nodes, i)
  }

  /** The i-th node points to the next one. */
  ghost predicate PointsOn(next: seq<int>, nodes: seq<int>, i: nat)
    requires i < |nodes| && InRange(nodes, |next|)
  {
    next[nodes[i]] == At(nodes, i + 1)
  }

  ghost predicate NoRepeats(nodes: seq<int>) {
    forall i, j :: 0 <= i < j < |nodes| ==> nodes[i] != nodes[j]
  }

  /** The nodes of the list are exactly the slots the allocator sees as taken. */
  ghost predicate HoldsTaken(slots: seq<Entry>, nodes: seq<int>) {
    forall p :: 0 <= p < |slots| ==> (p in nodes <==> slots[p].location != 0)
  }

  ghost predicate IsList(slots: seq<Entry>, next: seq<int>, head: int, nodes: seq<int>) {
    && |slots| == SLOTS && |next| == SLOTS && Linked(next, head, nodes) && NoRepeats(nodes)
    && HoldsTaken(slots, nodes) && forall p :: 0 <= p < |slots| ==> slots[p].location < CELLS
  }

  ghost function Entries(slots: seq<Entry>, nodes: seq<int>): (es: seq<Entry>)
    requires forall i :: 0 <= i < |nodes| ==> 0 <= nodes[i] < |slots|
    ensures |es| == |nodes| && forall i :: 0 <= i < |nodes| ==> es[i] == slots[nodes[i]]
  {
    seq(|nodes|, i requires 0 <= i < |nodes| => slots[nodes[i]])
  }

  ghost function Below(n: nat): (all: set<int>)
    ensures |all| == n && forall p :: p in all <==> 0 <= p < n
  {
    if n == 0 then {} else Below(n - 1) + {n - 1}
  }

  lemma {:induction false} DistinctSize(nodes: seq<int>, s: set<int>)
    requires NoRepeats(nodes) && forall p :: p in nodes ==> p in s
    ensures |nodes| <= |s|
    ensures (forall p :: p in s ==> p in nodes) ==> |nodes| == |s|
  {
    if nodes == [] {
      if forall p :: p in s ==> p in nodes {
        assert s == {};
      }
    } else {
      var front, last := nodes[..|nodes| - 1], nodes[|nodes| - 1];
      assert nodes == front + [last];
      assert forall p :: p in front ==> p in s - {last};
      DistinctSize(front, s - {last});
    }
  }

  /** A list without repeats over n slots is full exactly when no slot is missing. */
  lemma FullIff(nodes: seq<int>, n: nat)
    requires NoRepeats(nodes) && InRange(nodes, n)
    ensures |nodes| <= n
    ensures |nodes| == n <==> forall p :: 0 <= p < n ==> p in nodes
  {
    DistinctSize(nodes, Below(n));
    forall p | 0 <= p < n && p !in nodes
      ensures |nodes| < n
    {
      DistinctSize(nodes, Below(n) - {p});
    }
  }

  // ---- Adding ----

  /** The first slot that is taken for free. */
  function Allocated(slots: seq<Entry>): (p: nat)
    ensures p <= |slots| && (p < |slots| ==> slots[p].location == 0) && forall q :: 0 <= q < p ==> slots[q].location != 0
  {
    if slots == [] || slots[0].location == 0 then 0 else 1 + Allocated(slots[1..])
  }

  lemma AllocatedIs(slots: seq<Entry>, p: nat)
    requires p <= |slots| && (p < |slots| ==> slots[p].location == 0) && forall q :: 0 <= q < p ==> slots[q].location != 0
    ensures Allocated(slots) == p
  {
  }

  /** A slot with entry e at the front of the list. */
  lemma AddedIsList(slots: seq<Entry>, next: seq<int>, head: int, nodes: seq<int>, p: int, e: Entry)
    requires IsList(slots, next, head, nodes) && 0 <= p < SLOTS && slots[p].location == 0
    requires 0 < e.location < CELLS
    ensures IsList(slots[p := e], next[p := head], p, [p] + nodes)
  {
    assert p !in nodes;
    AddedIsLinked(next, head, nodes, p);
    forall q | 0 <= q < SLOTS
      ensures q in [p] + nodes <==> q == p || q in nodes
    {
    }
    FrontNotRepeated(nodes, p);
  }

  lemma FrontNotRepeated(nodes: seq<int>, p: int)
    requires NoRepeats(nodes) && p !in nodes
    ensures NoRepeats([p] + nodes)
  {
  }

  lemma AddedIsLinked(next: seq<int>, head: int, nodes: seq<int>, p: int)
    requires Linked(next, head, nodes) && 0 <= p < |next| && p !in nodes
    ensures Linked(next[p := head], p, [p] + nodes)
  {
    var next', nodes' := next[p := head], [p] + nodes;
    assert forall i :: 0 < i < |nodes'| ==> nodes'[i] == nodes[i - 1] && nodes[i - 1] in nodes;
    forall i | 0 <= i < |nodes'|
      ensures PointsOn(next', nodes', i)
    {
      if i > 0 {
        assert PointsOn(next, nodes, i - 1);
      }
    }
  }

  lemma AddedEntries(slots: seq<Entry>, nodes: seq<int>, p: int, e: Entry)
    requires InRange(nodes, |slots|) && 0 <= p < |slots| && p !in nodes
    ensures InRange([p] + nodes, |slots|) && Entries(slots[p := e], [p] + nodes) == [e] + Entries(slots, nodes)
  {
    var nodes' := [p] + nodes;
    forall i | 0 < i < |nodes'|
      ensures slots[p := e][nodes'[i]] == slots[nodes[i - 1]]
    {
      assert nodes'[i] == nodes[i - 1] && nodes[i - 1] in nodes;
    }
    var es, es' := Entries(slots, nodes), Entries(slots[p := e], nodes');
    assert |es'| == |[e] + es| && forall i :: 0 <= i < |es'| ==> es'[i] == ([e] + es)[i];
  }

  /** Some list of nodes fits the slots. */
  ghost predicate Listed(slots: seq<Entry>, next: seq<int>, head: int) {
    exists nodes :: IsList(slots, next, head, nodes)
  }

  lemma HeadIsTaken(slots: seq<Entry>, next: seq<int>, head: int)
    requires Listed(slots, next, head) && head != NULL
    ensures 0 <= head < |slots| && slots[head].location != 0
  {
    var nodes :| IsList(slots, next, head, nodes);
    assert nodes[0] in nodes;
  }

  /** Adding to a free slot keeps the list exactly when the location is not 0. */
  lemma AddKeepsListIff(slots: seq<Entry>, next: seq<int>, head: int, p: int, e: Entry)
    requires Listed(slots, next, head) && 0 <= p < SLOTS && |slots| == SLOTS && slots[p].location == 0 && |next| == SLOTS && e.location < CELLS
    ensures Listed(slots[p := e], next[p := head], p) <==> e.location != 0
  {
    if e.location != 0 {
      var nodes :| IsList(slots, next, head, nodes);
      AddedIsList(slots, next, head, nodes, p, e);
    } else if Listed(slots[p := e], next[p := head], p) {
      HeadIsTaken(slots[p := e], next[p := head], p);
      assert false;
    }
  }

  /** The next entry added after one at location 0 gets the same slot and points to itself: walking
      the list never ends. */
  lemma ZeroThenAddLoops(slots: seq<Entry>, next: seq<int>, head: int, zero: Entry, e: Entry, nodes: seq<int>)
    requires |slots| == |next| && zero.location == 0 && Allocated(slots) < |slots|
    ensures var p := Allocated(slots);
      var slots', next' := slots[p := zero], next[p := head];
      && Allocated(slots') == p
      && !Linked(next'[p := p], p, nodes)
  {
    var p := Allocated(slots);
    AllocatedIs(slots[p := zero], p);
    if Linked(next[p := head][p := p], p, nodes) {
      LoopNeverEnds(next[p := head][p := p], p, nodes, |nodes|);
      assert false;
    }
  }

  lemma {:induction false} LoopNeverEnds(next: seq<int>, p: int, nodes: seq<int>, i: nat)
    requires 0 <= p < |next| && next[p] == p && Linked(next, p, nodes) && i <= |nodes|
    ensures At(nodes, i) == p
  {
    if i > 0 {
      LoopNeverEnds(next, p, nodes, i - 1);
      assert PointsOn(next, nodes, i - 1);
    }
  }

  // ---- Removing ----

  /** Node k is unlinked by its predecessor and its slot cleared. */
  ghost predicate Unlinked(slots: seq<Entry>, next: seq<int>, head: int, nodes: seq<int>, k: int, slots': seq<Entry>, next': seq<int>, head': int)
    requires IsList(slots, next, head, nodes) && 0 <= k < |nodes|
  {
    var p := nodes[k];
    && slots' == slots[p := FREE_SLOT]
    && head' == (if k == 0 then next[p] else head)
    && next' == (if k == 0 then next else next[nodes[k - 1] := next[p]])[p := NULL]
  }

  ghost function Spliced(nodes: seq<int>, k: int): (r: seq<int>)
    requires 0 <= k < |nodes|
    ensures |r| == |nodes| - 1 && forall i :: 0 <= i < |r| ==> r[i] == if i < k then nodes[i] else nodes[i + 1]
  {
    nodes[..k] + nodes[k + 1..]
  }

  lemma SplicedMembers(nodes: seq<int>, k: int)
    requires 0 <= k < |nodes| && NoRepeats(nodes)
    ensures NoRepeats(Spliced(nodes, k))
    ensures forall q :: q in Spliced(nodes, k) <==> q in nodes && q != nodes[k]
  {
    var r := Spliced(nodes, k);
    forall q | q in nodes && q != nodes[k]
      ensures q in r
    {
      var i :| 0 <= i < |nodes| && nodes[i] == q;
      assert r[if i < k then i else i - 1] == q;
    }
  }

  /** The successor of the i-th node that stays, which was the j-th. */
  lemma UnlinkedNext(next: seq<int>, nodes: seq<int>, k: int, i: int, j: int)
    requires NoRepeats(nodes) && 0 <= k < |nodes| && 0 <= i < |nodes| - 1 && j == if i < k then i else i + 1
    requires 0 <= nodes[j] < |next| && next[nodes[j]] == At(nodes, j + 1)
    requires 0 <= nodes[k] < |next| && next[nodes[k]] == At(nodes, k + 1)
    ensures var r := Spliced(nodes, k);
      0 <= r[i] < |next| && r[i] != nodes[k]
      && (if k > 0 && r[i] == nodes[k - 1] then next[nodes[k]] else next[r[i]]) == At(r, i + 1)
  {
    if k > 0 && j != k - 1 {
      assert nodes[j] != nodes[k - 1];
    }
  }

  lemma UnlinkedIsLinked(next: seq<int>, head: int, nodes: seq<int>, k: int, next': seq<int>, head': int)
    requires Linked(next, head, nodes) && NoRepeats(nodes) && 0 <= k < |nodes| && InRange(nodes, |next|)
    requires head' == if k == 0 then next[nodes[k]] else head
    requires next' == (if k == 0 then next else next[nodes[k - 1] := next[nodes[k]]])[nodes[k] := NULL]
    ensures Linked(next', head', Spliced(nodes, k))
  {
    var r := Spliced(nodes, k);
    assert PointsOn(next, nodes, k);
    forall i | 0 <= i < |r|
      ensures PointsOn(next', r, i)
    {
      var j := if i < k then i else i + 1;
      assert PointsOn(next, nodes, j);
      UnlinkedNext(next, nodes, k, i, j);
    }
  }

  lemma UnlinkedEntries(slots: seq<Entry>, nodes: seq<int>, k: int)
    requires InRange(nodes, |slots|) && NoRepeats(nodes) && 0 <= k < |nodes|
    ensures InRange(Spliced(nodes, k), |slots|)
    ensures var es := Entries(slots, nodes);
      Entries(slots[nodes[k] := FREE_SLOT], Spliced(nodes, k)) == es[..k] + es[k + 1..]
  {
    var es, es' := Entries(slots, nodes), Entries(slots[nodes[k] := FREE_SLOT], Spliced(nodes, k));
    forall i | 0 <= i < |es'|
      ensures es'[i] == (es[..k] + es[k + 1..])[i]
    {
      assert nodes[if i < k then i else i + 1] != nodes[k];
    }
  }

  lemma UnlinkedHolds(slots: seq<Entry>, nodes: seq<int>, k: int)
    requires HoldsTaken(slots, nodes) && InRange(nodes, |slots|) && NoRepeats(nodes) && 0 <= k < |nodes|
    ensures HoldsTaken(slots[nodes[k] := FREE_SLOT], Spliced(nodes, k)) && NoRepeats(Spliced(nodes, k))
  {
    SplicedMembers(nodes, k);
  }

  /** The list without node k, and its entries. */
  lemma UnlinkedIsList(slots: seq<Entry>, next: seq<int>, head: int, nodes: seq<int>, k: int, slots': seq<Entry>, next': seq<int>, head': int)
    requires IsList(slots, next, head, nodes) && 0 <= k < |nodes|
    requires Unlinked(slots, next, head, nodes, k, slots', next', head')
    ensures IsList(slots', next', head', Spliced(nodes, k))
    ensures InRange(nodes, SLOTS) && InRange(Spliced(nodes, k), SLOTS)
    ensures var es := Entries(slots, nodes); Entries(slots', Spliced(nodes, k)) == es[..k] + es[k + 1..]
  {
    UnlinkedIsLinked(next, head, nodes, k, next', head');
    UnlinkedHolds(slots, nodes, k);
    UnlinkedEntries(slots, nodes, k);
  }

  // ---- Changing entries in place ----

  /** Node k gets another entry at the same location. */
  lemma ChangedIsList(slots: seq<Entry>, next: seq<int>, head: int, nodes: seq<int>, k: int, e: Entry)
    requires IsList(slots, next, head, nodes) && 0 <= k < |nodes| && InRange(nodes, SLOTS) && e.location == slots[nodes[k]].location
    ensures IsList(slots[nodes[k] := e], next, head, nodes)
    ensures Entries(slots[nodes[k] := e], nodes) == Entries(slots, nodes)[k := e]
  {
  }
}
