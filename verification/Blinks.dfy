/** Blinking characters as a list of entries and a text screen, and how long each stays on. */
module Blinks {
  type Word = x: int | 0 <= x < 0x1_0000
  type Octet = x: int | 0 <= x < 256

  const SLOTS: int := 2000
  const CELLS: Word := 80 * 25

  /** One blinking character. A location is a cell of the screen; on is the low bit of STATUS. */
  datatype Entry = Entry(location: Word, onChar: Octet, offChar: Octet, onLength: Word, offLength: Word, countdown: Word, on: bool)

  datatype Option<T> = None | Some(value: T)

  function Char(e: Entry): Octet {
    if e.on then e.onChar else e.offChar
  }

  // ---- One entry over time ----

  /** The countdown loses one, wrapping at 16 bits; read as a signed number it is still positive or the
      character toggles. */
  function Decremented(w: Word): Word {
    if w == 0 then 0xFFFF else w - 1
  }

  predicate Toggles(e: Entry) {
    !(1 <= Decremented(e.countdown) <= 0x7FFF)
  }

  function Ticked(e: Entry): Entry {
    if !Toggles(e) then e.(countdown := Decremented(e.countdown))
    else e.(on := !e.on, countdown := if e.on then e.offLength else e.onLength)
  }

  ghost function TickedTimes(e: Entry, k: nat): Entry {
    if k == 0 then e else Ticked(TickedTimes(e, k - 1))
  }

  /** How many ticks a countdown lasts: 0 and what is negative as a signed number, except the lowest, last one. */
  function Duration(w: Word): (n: nat)
    ensures 1 <= n <= 0x8000
    ensures 1 <= w <= 0x7FFF ==> n == w
  {
    if 1 <= w <= 0x8000 then w else 1
  }

  function Period(e: Entry): (n: nat)
    ensures n > 0
  {
    Duration(e.onLength) + Duration(e.offLength)
  }

  function Started(e: Entry): Entry {
    e.(countdown := e.onLength, on := true)
  }

  /** r of the period's ticks have passed: what state the entry is in and how long that state will last. */
  ghost predicate InPhase(start: Entry, e: Entry, r: int) {
    var a, b := Duration(start.onLength), Duration(start.offLength);
    && 0 <= r < a + b && e.(countdown := 0, on := true) == start.(countdown := 0, on := true)
    && (e.on <==> r < a)
    && Duration(e.countdown) == if r < a then a - r else a + b - r
  }

  lemma PhaseTicks(start: Entry, e: Entry, r: int)
    requires InPhase(start, e, r)
    ensures InPhase(start, Ticked(e), if r + 1 == Period(start) then 0 else r + 1)
  {
  }

  lemma NextRemainder(j: nat, k: nat, period: nat)
    requires period > 0 && k == j + 1
    ensures k % period == if j % period + 1 == period then 0 else j % period + 1
  {
    var q, r := Divided(j, period);
    var q', r' := Divided(k, period);
    assert (q' - q) * period == q' * period - q * period;
    Multiple(q' - q, period);
  }

  lemma Divided(n: nat, period: nat) returns (q: int, r: int)
    requires period > 0
    ensures r == n % period && 0 <= r < period && n == q * period + r
  {
    q, r := n / period, n % period;
  }

  /** A multiple of a period is at most its opposite, 0, the period itself, or twice it and more. */
  lemma Multiple(d: int, period: nat)
    requires period > 0
    ensures d < 0 ==> d * period <= 0 - period
    ensures d > 1 ==> d * period >= 2 * period
  {
    if d < 0 {
      assert (0 - 1 - d) * period >= 0;
    } else if d > 1 {
      assert (d - 2) * period >= 0;
    }
  }

  /** Where in its period the k-th tick falls. */
  ghost function Phase(k: nat, period: nat): (r: nat)
    requires period > 0
    ensures r < period
  {
    if k == 0 then 0 else
      var r := Phase(k - 1, period);
      if r + 1 == period then 0 else r + 1
  }

  lemma {:induction false} PhaseIsRemainder(k: nat, period: nat)
    requires period > 0
    ensures Phase(k, period) == k % period
  {
    if k > 0 {
      PhaseIsRemainder(k - 1, period);
      NextRemainder(k - 1, k, period);
    }
  }

  /** Countdown and state of an entry after k ticks. */
  lemma {:induction false} PhaseAfterTicks(start: Entry, k: nat)
    ensures InPhase(start, TickedTimes(Started(start), k), Phase(k, Period(start)))
  {
    if k > 0 {
      PhaseAfterTicks(start, k - 1);
      PhaseTicks(start, TickedTimes(Started(start), k - 1), Phase(k - 1, Period(start)));
    }
  }

  /** k ticks after it was added an entry is on exactly during the first part of its period. This is
      for every length a 16-bit field can hold. */
  lemma BlinkClosedForm(e: Entry, k: nat)
    ensures TickedTimes(Started(e), k).on <==> k % Period(e) < Duration(e.onLength)
  {
    PhaseAfterTicks(e, k);
    PhaseIsRemainder(k, Period(e));
  }

  // ---- The list of entries ----

  /** The place of the newest entry at location l, or the length of the list. */
  function FirstAt(es: seq<Entry>, l: Word): (i: nat)
    ensures i <= |es| && (i < |es| ==> es[i].location == l) && forall j :: 0 <= j < i ==> es[j].location != l
  {
    if es == [] || es[0].location == l then 0 else 1 + FirstAt(es[1..], l)
  }

  function Newest(es: seq<Entry>, l: Word): Option<Entry> {
    if FirstAt(es, l) < |es| then Some(es[FirstAt(es, l)]) else None
  }

  lemma FirstAtIs(es: seq<Entry>, l: Word, i: nat)
    requires i <= |es| && (i < |es| ==> es[i].location == l) && forall j :: 0 <= j < i ==> es[j].location != l
    ensures FirstAt(es, l) == i
  {
  }

  datatype Event = Add(entry: Entry) | Remove(l: Word) | Sync(source: Word, target: Word) | Tick

  /** The list and the 4000 bytes of the screen, a character and an attribute for each cell. */
  datatype Display = Display(entries: seq<Entry>, screen: seq<Octet>)

  ghost predicate Good(d: Display) {
    |d.screen| == 2 * CELLS && |d.entries| <= SLOTS && forall i :: 0 <= i < |d.entries| ==> 0 < d.entries[i].location < CELLS
  }

  predicate Fits(d: Display, e: Entry) {
    e.location < CELLS && |d.entries| < SLOTS
  }

  function Poked(screen: seq<Octet>, l: Word, c: Octet): seq<Octet>
    requires |screen| == 2 * CELLS && l < CELLS
  {
    screen[2 * l := c]
  }

  function TickedAll(es: seq<Entry>): (r: seq<Entry>)
    ensures |r| == |es| && forall i :: 0 <= i < |es| ==> r[i] == Ticked(es[i])
  {
    seq(|es|, i requires 0 <= i < |es| => Ticked(es[i]))
  }

  /** The screen when the first n entries have ticked. */
  ghost function Redrawn(screen: seq<Octet>, es: seq<Entry>, n: nat): (r: seq<Octet>)
    requires |screen| == 2 * CELLS && n <= |es| && forall i :: 0 <= i < |es| ==> es[i].location < CELLS
    ensures |r| == 2 * CELLS
  {
    if n == 0 then screen
    else
      var before := Redrawn(screen, es, n - 1);
      if Toggles(es[n - 1]) then Poked(before, es[n - 1].location, Char(Ticked(es[n - 1]))) else before
  }

  /** The lengths, countdown and state of one entry given to another. */
  function InTimeWith(e: Entry, source: Entry): Entry {
    e.(onLength := source.onLength, offLength := source.offLength, countdown := source.countdown, on := source.on)
  }

  /** The list without its newest entry at l. */
  function Without(es: seq<Entry>, l: Word): seq<Entry> {
    var i := FirstAt(es, l);
    if i < |es| then es[..i] + es[i + 1..] else es
  }

  /** The newest entry at target in time with the newest one at source, if both exist. */
  function Synced(es: seq<Entry>, source: Word, target: Word): seq<Entry> {
    var i, j := FirstAt(es, source), FirstAt(es, target);
    if i < |es| && j < |es| then es[j := InTimeWith(es[j], es[i])] else es
  }

  ghost function After(d: Display, e: Event): Display
    requires Good(d)
  {
    match e
    case Add(entry) =>
      if Fits(d, entry) then Display([Started(entry)] + d.entries, Poked(d.screen, entry.location, entry.onChar)) else d
    case Remove(l) => Display(Without(d.entries, l), d.screen)
    case Sync(source, target) =>
      Display(Synced(d.entries, source, target),
              match (Newest(d.entries, source), Newest(d.entries, target))
              case (Some(_), Some(y)) => Poked(d.screen, target, y.offChar)
              case _ => d.screen)
    case Tick => Display(TickedAll(d.entries), Redrawn(d.screen, d.entries, |d.entries|))
  }

  /** Location 0 is the allocator's mark for a free slot. */
  ghost predicate Usable(e: Event) {
    e.Add? ==> e.entry.location != 0
  }

  lemma AfterKeepsGood(d: Display, e: Event)
    requires Good(d) && Usable(e)
    ensures Good(After(d, e))
  {
  }

  ghost function Run(d: Display, events: seq<Event>): Display
    requires Good(d) && forall i :: 0 <= i < |events| ==> Usable(events[i])
    ensures Good(Run(d, events))
  {
    if events == [] then d
    else
      var n := |events| - 1;
      AfterKeepsGood(Run(d, events[..n]), events[n]);
      After(Run(d, events[..n]), events[n])
  }

  ghost predicate Touches(e: Event, l: Word) {
    match e
    case Add(entry) => entry.location == l
    case Remove(m) => m == l
    case Sync(_, target) => target == l
    case Tick => false
  }

  ghost function TicksIn(events: seq<Event>): nat {
    if events == [] then 0
    else TicksIn(events[..|events| - 1]) + if events[|events| - 1].Tick? then 1 else 0
  }

  ghost function TickedOption(x: Option<Entry>, k: nat): Option<Entry> {
    match x case None => None case Some(e) => Some(TickedTimes(e, k))
  }

  /** An event that does not touch location l leaves its newest entry alone, or lets it tick. */
  lemma OthersLeaveNewest(d: Display, e: Event, l: Word)
    requires Good(d) && !Touches(e, l)
    ensures Newest(After(d, e).entries, l) == TickedOption(Newest(d.entries, l), if e.Tick? then 1 else 0)
  {
    if e.Tick? {
      TickedNewest(d.entries, l);
    } else {
      UntickedNewest(d, e, l);
    }
  }

  lemma UntickedNewest(d: Display, e: Event, l: Word)
    requires Good(d) && !Touches(e, l) && !e.Tick?
    ensures Newest(After(d, e).entries, l) == Newest(d.entries, l)
  {
    match e
    case Add(entry) => AddedNewest(d.entries, Started(entry), l);
    case Remove(m) => RemovedNewest(d.entries, m, l);
    case Sync(source, target) => SyncedNewest(d.entries, source, target, l);
  }

  lemma SyncedNewest(es: seq<Entry>, source: Word, target: Word, l: Word)
    requires target != l
    ensures Newest(Synced(es, source, target), l) == Newest(es, l)
  {
    FirstAtIs(Synced(es, source, target), l, FirstAt(es, l));
  }

  lemma AddedNewest(es: seq<Entry>, e: Entry, l: Word)
    requires e.location != l
    ensures Newest([e] + es, l) == Newest(es, l)
  {
    FirstAtIs([e] + es, l, FirstAt(es, l) + 1);
  }

  lemma TickedNewest(es: seq<Entry>, l: Word)
    ensures Newest(TickedAll(es), l) == TickedOption(Newest(es, l), 1)
  {
    var i := FirstAt(es, l);
    FirstAtIs(TickedAll(es), l, i);
    if i < |es| {
      assert TickedTimes(es[i], 1) == Ticked(TickedTimes(es[i], 0));
    }
  }

  lemma RemovedNewest(es: seq<Entry>, m: Word, l: Word)
    requires m != l
    ensures Newest(Without(es, m), l) == Newest(es, l)
  {
    var i, j := FirstAt(es, l), FirstAt(es, m);
    FirstAtIs(Without(es, m), l, if i < j || j == |es| then i else i - 1);
  }

  lemma OneTickMore(x: Option<Entry>, k: nat, more: bool)
    ensures TickedOption(TickedOption(x, k), if more then 1 else 0) == TickedOption(x, k + if more then 1 else 0)
  {
    if more && x.Some? {
      var e := TickedTimes(x.value, k);
      assert TickedTimes(e, 1) == Ticked(TickedTimes(e, 0));
    }
  }

  /** However the other entries are added, removed and synced meanwhile, the newest entry at a location
      nobody touches has ticked once for every tick. */
  lemma {:induction false} RunTicksNewest(d: Display, events: seq<Event>, l: Word)
    requires Good(d) && forall i :: 0 <= i < |events| ==> Usable(events[i]) && !Touches(events[i], l)
    ensures Newest(Run(d, events).entries, l) == TickedOption(Newest(d.entries, l), TicksIn(events))
  {
    if events != [] {
      var n := |events| - 1;
      var front, e := events[..n], events[n];
      var before := Run(d, front);
      RunTicksNewest(d, front, l);
      OthersLeaveNewest(before, e, l);
      OneTickMore(Newest(d.entries, l), TicksIn(front), e.Tick?);
      assert Run(d, events) == After(before, e);
    }
  }

  /** An entry that was added is on, after any run that does not touch it, exactly when the number
      of ticks in the run says so. */
  lemma AddedEntryBlinks(d: Display, e: Entry, events: seq<Event>)
    requires Good(d) && Fits(d, e) && e.location != 0
    requires forall i :: 0 <= i < |events| ==> Usable(events[i]) && !Touches(events[i], e.location)
    ensures Good(After(d, Add(e)))
    ensures var x := Newest(Run(After(d, Add(e)), events).entries, e.location);
      x.Some? && (x.value.on <==> TicksIn(events) % Period(e) < Duration(e.onLength))
  {
    var d' := After(d, Add(e));
    FirstAtIs(d'.entries, e.location, 0);
    RunTicksNewest(d', events, e.location);
    BlinkClosedForm(e, TicksIn(events));
  }

  // ---- Synced entries ----

  ghost predicate SameTiming(x: Entry, y: Entry) {
    x.onLength == y.onLength && x.offLength == y.offLength && x.countdown == y.countdown && x.on == y.on
  }

  ghost predicate InTime(es: seq<Entry>, l: Word, m: Word) {
    var x, y := Newest(es, l), Newest(es, m);
    x.Some? && y.Some? && SameTiming(x.value, y.value)
  }

  /** e is the newest entry at l, and the i-th of the list. */
  ghost predicate IsNewest(es: seq<Entry>, l: Word, i: int) {
    0 <= i < |es| && es[i].location == l && forall j :: 0 <= j < i ==> es[j].location != l
  }

  /** Sync gives the newest entry at m the lengths, countdown and state of the newest one at l, and
      changes nothing else of it and no other entry. */
  lemma SyncCopiesTiming(d: Display, l: Word, m: Word, i: int, j: int)
    requires Good(d) && IsNewest(d.entries, l, i) && IsNewest(d.entries, m, j)
    ensures var es := After(d, Sync(l, m)).entries;
      && |es| == |d.entries| && SameTiming(es[j], d.entries[i])
      && es[j].location == m && es[j].onChar == d.entries[j].onChar && es[j].offChar == d.entries[j].offChar
      && forall k :: 0 <= k < |es| && k != j ==> es[k] == d.entries[k]
  {
    FirstAtIs(d.entries, l, i);
    FirstAtIs(d.entries, m, j);
  }

  lemma SyncBringsInTime(d: Display, l: Word, m: Word)
    requires Good(d) && Newest(d.entries, l).Some? && Newest(d.entries, m).Some?
    ensures InTime(After(d, Sync(l, m)).entries, l, m)
  {
    var es := After(d, Sync(l, m)).entries;
    FirstAtIs(es, l, FirstAt(d.entries, l));
    FirstAtIs(es, m, FirstAt(d.entries, m));
  }

  /** Two synced entries agree on state and countdown after any run that touches neither. */
  lemma SyncedStayInTime(d: Display, events: seq<Event>, l: Word, m: Word)
    requires Good(d) && InTime(d.entries, l, m)
    requires forall i :: 0 <= i < |events| ==> Usable(events[i]) && !Touches(events[i], l) && !Touches(events[i], m)
    ensures InTime(Run(d, events).entries, l, m)
  {
    RunTicksNewest(d, events, l);
    RunTicksNewest(d, events, m);
    TicksKeepTime(Newest(d.entries, l).value, Newest(d.entries, m).value, TicksIn(events));
  }

  lemma {:induction false} TicksKeepTime(x: Entry, y: Entry, k: nat)
    requires SameTiming(x, y)
    ensures SameTiming(TickedTimes(x, k), TickedTimes(y, k))
  {
    if k > 0 {
      TicksKeepTime(x, y, k - 1);
    }
  }

  // ---- Adding and removing ----

  /** Adding puts the entry in front, on and with a full countdown, and keeps the others. */
  lemma AddGoesInFront(d: Display, e: Entry)
    requires Good(d) && e.location < CELLS && |d.entries| < SLOTS
    ensures var d' := After(d, Add(e));
      && |d'.entries| == |d.entries| + 1
      && d'.entries[0].location == e.location && d'.entries[0].onChar == e.onChar && d'.entries[0].offChar == e.offChar
      && d'.entries[0].onLength == e.onLength && d'.entries[0].offLength == e.offLength
      && d'.entries[0].countdown == e.onLength && d'.entries[0].on
      && (forall k :: 0 < k < |d'.entries| ==> d'.entries[k] == d.entries[k - 1])
      && |d'.screen| == |d.screen| && d'.screen[2 * e.location] == e.onChar
      && forall b :: 0 <= b < |d.screen| && b != 2 * e.location ==> d'.screen[b] == d.screen[b]
  {
  }

  /** Removing takes away the newest entry at the location, that one alone, and keeps the order. */
  lemma RemoveTakesNewest(d: Display, l: Word, i: int)
    requires Good(d) && IsNewest(d.entries, l, i)
    ensures var es := After(d, Remove(l)).entries;
      && |es| == |d.entries| - 1 && multiset(es) == multiset(d.entries) - multiset{d.entries[i]}
      && (forall k :: 0 <= k < i ==> es[k] == d.entries[k])
      && (forall k :: i <= k < |es| ==> es[k] == d.entries[k + 1])
    ensures After(d, Remove(l)).screen == d.screen
  {
    FirstAtIs(d.entries, l, i);
    assert d.entries == d.entries[..i] + [d.entries[i]] + d.entries[i + 1..];
  }

  /** An entry that was alone at its location is gone after it has been removed. */
  lemma RemoveLastLeavesNone(d: Display, l: Word, i: int)
    requires Good(d) && 0 <= i < |d.entries| && d.entries[i].location == l
    requires forall k :: 0 <= k < |d.entries| && k != i ==> d.entries[k].location != l
    ensures Newest(After(d, Remove(l)).entries, l) == None
    ensures forall e :: e in After(d, Remove(l)).entries ==> e.location != l
  {
    RemoveTakesNewest(d, l, i);
    FirstAtIs(After(d, Remove(l)).entries, l, |d.entries| - 1);
  }

  /** Where there is no entry nothing is removed. */
  lemma RemoveFindsNone(d: Display, l: Word)
    requires Good(d) && forall k :: 0 <= k < |d.entries| ==> d.entries[k].location != l
    ensures After(d, Remove(l)) == d
  {
    FirstAtIs(d.entries, l, |d.entries|);
  }

  // ---- What is on the screen ----

  /** The locations differ and every entry's cell shows the character of its state. */
  ghost predicate AllShown(d: Display)
    requires Good(d)
  {
    && (forall i, j :: 0 <= i < j < |d.entries| ==> d.entries[i].location != d.entries[j].location)
    && (forall i :: 0 <= i < |d.entries| ==> d.screen[2 * d.entries[i].location] == Char(d.entries[i]))
  }

  lemma {:induction false} RedrawnShows(d: Display, n: nat, i: nat)
    requires Good(d) && AllShown(d) && n <= |d.entries| && i < |d.entries|
    ensures Redrawn(d.screen, d.entries, n)[2 * d.entries[i].location] == Char(if i < n then Ticked(d.entries[i]) else d.entries[i])
  {
    if n > 0 {
      RedrawnShows(d, n - 1, i);
    }
  }

  lemma {:induction false} RedrawnElsewhere(d: Display, n: nat, b: int)
    requires Good(d) && n <= |d.entries| && 0 <= b < |d.screen|
    requires forall i :: 0 <= i < |d.entries| ==> b != 2 * d.entries[i].location
    ensures Redrawn(d.screen, d.entries, n)[b] == d.screen[b]
  {
    if n > 0 {
      RedrawnElsewhere(d, n - 1, b);
    }
  }

  /** Only the characters of listed locations ever change by a tick, and never an attribute. */
  lemma TickElsewhere(d: Display, b: int)
    requires Good(d) && 0 <= b < |d.screen|
    requires forall i :: 0 <= i < |d.entries| ==> b != 2 * d.entries[i].location
    ensures After(d, Tick).screen[b] == d.screen[b]
  {
    RedrawnElsewhere(d, |d.entries|, b);
  }

  /** Every tick keeps every character what it should be. */
  lemma TickKeepsShown(d: Display)
    requires Good(d) && AllShown(d)
    ensures Good(After(d, Tick)) && AllShown(After(d, Tick))
  {
    var d' := After(d, Tick);
    forall i | 0 <= i < |d.entries|
      ensures d'.screen[2 * d'.entries[i].location] == Char(d'.entries[i])
    {
      RedrawnShows(d, |d.entries|, i);
    }
  }

  lemma AddNewKeepsShown(d: Display, e: Entry)
    requires Good(d) && AllShown(d) && e.location != 0 && Fits(d, e) && FirstAt(d.entries, e.location) == |d.entries|
    ensures Good(After(d, Add(e))) && AllShown(After(d, Add(e)))
  {
    var d' := After(d, Add(e));
    assert forall j :: 0 < j < |d'.entries| ==> d'.entries[j] == d.entries[j - 1];
  }

  /** Adding keeps the characters right exactly when the location is new or nothing is added. */
  lemma AddKeepsShownIff(d: Display, e: Entry)
    requires Good(d) && AllShown(d) && e.location != 0
    ensures Good(After(d, Add(e)))
    ensures AllShown(After(d, Add(e))) <==> Newest(d.entries, e.location).None? || !Fits(d, e)
  {
    AfterKeepsGood(d, Add(e));
    var i := FirstAt(d.entries, e.location);
    if Fits(d, e) {
      if i < |d.entries| {
        var es := After(d, Add(e)).entries;
        assert es[0].location == es[i + 1].location;
      } else {
        AddNewKeepsShown(d, e);
      }
    }
  }

  lemma RemoveKeepsShown(d: Display, l: Word)
    requires Good(d) && AllShown(d)
    ensures AllShown(After(d, Remove(l)))
  {
  }

  /** Sync always writes the character for off: what is on the screen is right afterwards exactly when the
      source is off, the two characters are the same, or nothing was synced. */
  lemma SyncKeepsShownIff(d: Display, l: Word, m: Word)
    requires Good(d) && AllShown(d)
    ensures AllShown(After(d, Sync(l, m))) <==>
      (Newest(d.entries, l).None? || Newest(d.entries, m).None?
       || !Newest(d.entries, l).value.on || Newest(d.entries, m).value.onChar == Newest(d.entries, m).value.offChar)
  {
    var i, j := FirstAt(d.entries, l), FirstAt(d.entries, m);
    var d' := After(d, Sync(l, m));
    if i < |d.entries| && j < |d.entries| {
      assert d'.entries[j] == InTimeWith(d.entries[j], d.entries[i]);
      assert d'.screen[2 * d'.entries[j].location] == d.entries[j].offChar;
      assert forall k :: 0 <= k < |d.entries| ==> d'.entries[k].location == d.entries[k].location;
    }
  }

  /** The event adds nothing at a location in use, and syncs only with what is off. */
  ghost predicate Tidy(d: Display, e: Event)
    requires Good(d)
  {
    match e
    case Add(entry) => Newest(d.entries, entry.location).None? || !Fits(d, entry)
    case Sync(source, _) => Newest(d.entries, source).Some? ==> !Newest(d.entries, source).value.on
    case _ => true
  }

  /** Every run of such events shows every entry as it is. */
  lemma {:induction false} TidyRunShows(d: Display, events: seq<Event>)
    requires Good(d) && AllShown(d) && forall i :: 0 <= i < |events| ==> Usable(events[i])
    requires forall i :: 0 <= i < |events| ==> Tidy(Run(d, events[..i]), events[i])
    ensures AllShown(Run(d, events))
  {
    if events != [] {
      var n := |events| - 1;
      forall i | 0 <= i < n
        ensures Tidy(Run(d, events[..n][..i]), events[..n][i])
      {
        assert events[..n][..i] == events[..i];
      }
      TidyRunShows(d, events[..n]);
      TidyKeepsShown(Run(d, events[..n]), events[n]);
    }
  }

  lemma TidyKeepsShown(d: Display, e: Event)
    requires Good(d) && AllShown(d) && Usable(e) && Tidy(d, e)
    ensures Good(After(d, e)) && AllShown(After(d, e))
  {
    AfterKeepsGood(d, e);
    match e
    case Add(entry) => AddKeepsShownIff(d, entry);
    case Remove(l) => RemoveKeepsShown(d, l);
    case Sync(source, target) => SyncKeepsShownIff(d, source, target);
    case Tick => TickKeepsShown(d);
  }

  /** What the user sees at an entry's cell, through every run that is tidy and leaves the entry alone. */
  lemma AddedCharacterBlinks(d: Display, e: Entry, events: seq<Event>)
    requires Good(d) && AllShown(d) && Fits(d, e) && e.location != 0 && Newest(d.entries, e.location).None?
    requires forall i :: 0 <= i < |events| ==> Usable(events[i]) && !Touches(events[i], e.location)
    requires Good(After(d, Add(e)))
    requires forall i :: 0 <= i < |events| ==> Tidy(Run(After(d, Add(e)), events[..i]), events[i])
    ensures Run(After(d, Add(e)), events).screen[2 * e.location] ==
      if TicksIn(events) % Period(e) < Duration(e.onLength) then e.onChar else e.offChar
  {
    var d' := After(d, Add(e));
    AddNewKeepsShown(d, e);
    TidyRunShows(d', events);
    FirstAtIs(d'.entries, e.location, 0);
    RunTicksNewest(d', events, e.location);
    PhaseAfterTicks(e, TicksIn(events));
    PhaseIsRemainder(TicksIn(events), Period(e));
  }
}
