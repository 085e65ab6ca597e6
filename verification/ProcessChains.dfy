/** The process table of the kernel: which process is whose child, on which terminal, and which one
    each terminal runs. */
module ProcessChains {
  const MAX_PROCESSES: int := 6
  const THIRD_SHELL := 2

  /** pid_arr, the parent and on_term fields of the process control blocks, and the active_pid of
      each terminal. The parent of a shell has no meaning. */
  datatype Table = Table(used: seq<bool>, parent: seq<int>, onTerm: seq<int>, active: seq<int>)

  ghost predicate Sized(s: Table) {
    |s.used| == 6 && |s.parent| == 6 && |s.onTerm| == 6 && |s.active| == 3
  }

  /** A chain of live processes on terminal t: its shell, then each one's child, up to the active one. */
  ghost predicate IsChain(s: Table, t: int, c: seq<int>)
    requires Sized(s) && 0 <= t < 3
  {
    && |c| > 0 && c[0] == t && c[|c| - 1] == s.active[t]
    && (forall i :: 0 <= i < |c| ==> 0 <= c[i] < 6 && s.used[c[i]] && s.onTerm[c[i]] == t)
    && (forall i :: 0 < i < |c| ==> c[i] > 2 && s.parent[c[i]] == c[i - 1])
    && (forall i, j :: 0 <= i < j < |c| ==> c[i] != c[j])
  }

  /** The live processes are exactly the members of one chain for each terminal. */
  ghost predicate Chained(s: Table, chains: seq<seq<int>>) {
    && Sized(s) && |chains| == 3
    && (forall t :: 0 <= t < 3 ==> IsChain(s, t, chains[t]))
    && (forall p :: 0 <= p < 6 && s.used[p] ==> 0 <= s.onTerm[p] < 3 && p in chains[s.onTerm[p]])
  }

  ghost predicate Consistent(s: Table) {
    exists chains :: Chained(s, chains)
  }

  /** The three chains have no process in common. */
  lemma ChainsDisjoint(s: Table, chains: seq<seq<int>>, t: int, u: int, p: int)
    requires Chained(s, chains) && 0 <= t < 3 && 0 <= u < 3 && t != u && p in chains[t]
    ensures p !in chains[u]
  {
  }

  /** The lowest free pid, or 6. */
  function FreePid(used: seq<bool>): (p: int)
    requires |used| == 6
    ensures 0 <= p <= 6 && (p < 6 ==> !used[p]) && forall q :: 0 <= q < p && q < 6 ==> used[q]
  {
    if !used[0] then 0 else if !used[1] then 1 else if !used[2] then 2
    else if !used[3] then 3 else if !used[4] then 4 else if !used[5] then 5 else 6
  }

  /** execute by process self while terminal shown is on display. */
  function Execute(s: Table, self: int, shown: int): Table
    requires |s.used| == 6 && |s.parent| == 6 && |s.onTerm| == 6 && |s.active| == 3 && 0 <= shown < 3
  {
    var p := FreePid(s.used);
    if p == 6 then s
    else if p > 2 then Table(s.used[p := true], s.parent[p := self], s.onTerm[p := shown], s.active[shown := p])
    else Table(s.used[p := true], s.parent, s.onTerm[p := p], s.active[p := p])
  }

  /** halt of process self. A shell is replaced by a new one. */
  function Halt(s: Table, self: int, shown: int): Table
    requires |s.used| == 6 && |s.parent| == 6 && |s.onTerm| == 6 && |s.active| == 3
    requires 0 <= self < 6 && 0 <= s.onTerm[self] < 3 && 0 <= shown < 3
  {
    var freed := s.(used := s.used[self := false]);
    if self > 2 then freed.(active := s.active[s.onTerm[self] := s.parent[self]])
    else Execute(freed, self, shown)
  }

  /** With all shells alive, only pids above 2 are handed out. */
  lemma ShellsAlive(s: Table, chains: seq<seq<int>>)
    requires Chained(s, chains)
    ensures s.used[0] && s.used[1] && s.used[2] && FreePid(s.used) > 2
    ensures s.onTerm[0] == 0 && s.onTerm[1] == 1 && s.onTerm[2] == 2
  {
    assert chains[0][0] == 0 && chains[1][0] == 1 && chains[2][0] == 2;
  }

  /** The processes of a list keep their table entries. */
  ghost predicate Untouched(s: Table, s': Table, c: seq<int>)
    requires Sized(s) && Sized(s')
  {
    forall p :: p in c && 0 <= p < 6 ==> s'.used[p] == s.used[p] && s'.onTerm[p] == s.onTerm[p] && s'.parent[p] == s.parent[p]
  }

  lemma ChainUntouched(s: Table, s': Table, t: int, c: seq<int>)
    requires Sized(s) && Sized(s') && 0 <= t < 3 && IsChain(s, t, c)
    requires Untouched(s, s', c) && s'.active[t] == s.active[t]
    ensures IsChain(s', t, c)
  {
    assert forall i :: 0 <= i < |c| ==> c[i] in c;
  }

  lemma ChainExtended(s: Table, s': Table, t: int, c: seq<int>, p: int)
    requires Sized(s) && Sized(s') && 0 <= t < 3 && IsChain(s, t, c) && Untouched(s, s', c)
    requires 2 < p < 6 && p !in c && s'.used[p] && s'.onTerm[p] == t && s'.parent[p] == s.active[t] && s'.active[t] == p
    ensures IsChain(s', t, c + [p])
  {
    assert forall i :: 0 <= i < |c| ==> c[i] in c;
  }

  lemma ChainShortened(s: Table, s': Table, t: int, c: seq<int>)
    requires Sized(s) && Sized(s') && 0 <= t < 3 && IsChain(s, t, c) && |c| > 1
    requires Untouched(s, s', c[..|c| - 1]) && s'.active[t] == s.parent[s.active[t]]
    ensures IsChain(s', t, c[..|c| - 1])
  {
    var d := c[..|c| - 1];
    assert forall i :: 0 <= i < |d| ==> d[i] in d && d[i] == c[i];
  }

  lemma LiveInChain(s: Table, chains: seq<seq<int>>, t: int, p: int)
    requires Chained(s, chains) && 0 <= t < 3 && p in chains[t]
    ensures 0 <= p < 6 && s.used[p] && s.onTerm[p] == t
  {
    var i :| 0 <= i < |chains[t]| && chains[t][i] == p;
  }

  /** Table s' is s with a new process p as child of the active process of terminal t. */
  ghost predicate Spawned(s: Table, s': Table, t: int, p: int)
    requires Sized(s) && 0 <= t < 3 && 0 <= p < 6
  {
    && s'.used == s.used[p := true] && s'.parent == s.parent[p := s.active[t]]
    && s'.onTerm == s.onTerm[p := t] && s'.active == s.active[t := p]
  }

  /** A new active process lengthens the chain of its terminal and no other. */
  lemma SpawnedChain(s: Table, s': Table, chains: seq<seq<int>>, t: int, u: int, p: int)
    requires Chained(s, chains) && 0 <= t < 3 && 0 <= u < 3 && 2 < p < 6 && !s.used[p] && Spawned(s, s', t, p)
    ensures IsChain(s', u, if u == t then chains[t] + [p] else chains[u])
  {
    if p in chains[u] {
      LiveInChain(s, chains, u, p);
      assert false;
    }
    if u == t {
      ChainExtended(s, s', t, chains[t], p);
    } else {
      ChainUntouched(s, s', u, chains[u]);
    }
  }

  lemma SpawnedCovered(s: Table, s': Table, chains: seq<seq<int>>, t: int, p: int)
    requires Chained(s, chains) && 0 <= t < 3 && 2 < p < 6 && !s.used[p] && Spawned(s, s', t, p)
    ensures var chains' := chains[t := chains[t] + [p]];
      forall q :: 0 <= q < 6 && s'.used[q] ==> 0 <= s'.onTerm[q] < 3 && q in chains'[s'.onTerm[q]]
  {
    var chains' := chains[t := chains[t] + [p]];
    forall q | 0 <= q < 6 && s'.used[q]
      ensures 0 <= s'.onTerm[q] < 3 && q in chains'[s'.onTerm[q]]
    {
      if q != p {
        assert s.used[q] && q in chains[s.onTerm[q]];
      }
    }
  }

  lemma SpawnedChains(s: Table, s': Table, chains: seq<seq<int>>, t: int, p: int)
    requires Chained(s, chains) && 0 <= t < 3 && 2 < p < 6 && !s.used[p] && Spawned(s, s', t, p)
    ensures Chained(s', chains[t := chains[t] + [p]])
  {
    SpawnedCovered(s, s', chains, t, p);
    forall u | 0 <= u < 3
      ensures IsChain(s', u, if u == t then chains[t] + [p] else chains[u])
    {
      SpawnedChain(s, s', chains, t, u, p);
    }
  }

  /** A program started by the displayed terminal's active process extends that terminal's chain. */
  lemma ExecuteExtends(s: Table, chains: seq<seq<int>>, shown: int)
    requires Chained(s, chains) && 0 <= shown < 3 && FreePid(s.used) < 6
    ensures Chained(Execute(s, s.active[shown], shown), chains[shown := chains[shown] + [FreePid(s.used)]])
  {
    ShellsAlive(s, chains);
    SpawnedChains(s, Execute(s, s.active[shown], shown), chains, shown, FreePid(s.used));
  }

  /** The chain of the halting process loses its last member, the others are untouched. */
  lemma HaltedChain(s: Table, s': Table, chains: seq<seq<int>>, t: int, u: int)
    requires Chained(s, chains) && 0 <= t < 3 && 0 <= u < 3 && 2 < s.active[t] < 6
    requires s' == s.(used := s.used[s.active[t] := false], active := s.active[t := s.parent[s.active[t]]])
    ensures |chains[t]| > 1
    ensures IsChain(s', u, if u == t then chains[t][..|chains[t]| - 1] else chains[u])
  {
    var c, p := chains[t], s.active[t];
    assert c[|c| - 1] == p && c[0] == t;
    if u == t {
      assert p !in c[..|c| - 1];
      ChainShortened(s, s', t, c);
    } else {
      ChainsDisjoint(s, chains, t, u, p);
      ChainUntouched(s, s', u, chains[u]);
    }
  }

  /** A process that is not a shell and halts while active leaves its parent active. */
  lemma HaltShortens(s: Table, chains: seq<seq<int>>, t: int, shown: int)
    requires Chained(s, chains) && 0 <= t < 3 && 0 <= shown < 3 && s.active[t] > 2
    ensures |chains[t]| > 1 && ActiveFits(s, t)
    ensures Chained(Halt(s, s.active[t], shown), chains[t := chains[t][..|chains[t]| - 1]])
  {
    ActiveIsLive(s, chains, t);
    var c, p := chains[t], s.active[t];
    var s' := Halt(s, p, shown);
    HaltedChain(s, s', chains, t, t);
    var chains' := chains[t := c[..|c| - 1]];
    forall u | 0 <= u < 3
      ensures IsChain(s', u, chains'[u])
    {
      HaltedChain(s, s', chains, t, u);
    }
    assert c == c[..|c| - 1] + [p];
    forall q | 0 <= q < 6 && s'.used[q]
      ensures 0 <= s'.onTerm[q] < 3 && q in chains'[s'.onTerm[q]]
    {
      assert q in chains[s.onTerm[q]] && q != p;
    }
  }

  /** A shell that halts is replaced by one with its own pid: the table does not change. */
  lemma ShellRestarts(s: Table, chains: seq<seq<int>>, t: int, shown: int)
    requires Chained(s, chains) && 0 <= t < 3 && 0 <= shown < 3 && s.active[t] <= 2
    ensures s.active[t] == t && s.onTerm[t] == t && Halt(s, s.active[t], shown) == s
  {
    ShellsAlive(s, chains);
    ActiveIsLive(s, chains, t);
    FreedPid(s.used, t);
    assert s.used[t := false][t := true] == s.used;
    assert s.onTerm[t := t] == s.onTerm && s.active[t := t] == s.active;
  }

  lemma FreedPid(used: seq<bool>, t: int)
    requires |used| == 6 && 0 <= t < 3 && used[0] && used[1] && used[2]
    ensures FreePid(used[t := false]) == t
  {
  }

  /** Something that happens: the active process of terminal t executes a program or halts, the user
      switches to terminal t, or the timer ticks. */
  datatype Event = Exec(t: int) | Exit(t: int) | SwitchTo(t: int) | Tick

  /** The table, the displayed terminal, the terminal whose turn it is and the scheduled pid. */
  datatype System = System(table: Table, shown: int, turn: int, current: int)

  /** The events the kernel handles well: execute is called by a process on the displayed terminal. */
  ghost predicate Allowed(s: System, e: Event) {
    match e
    case Exec(t) => t == s.shown
    case Exit(t) => 0 <= t < 3
    case SwitchTo(t) => 0 <= t < 3
    case Tick => true
  }

  ghost predicate Good(s: System) {
    0 <= s.shown < 3 && 0 <= s.turn < 3 && Consistent(s.table)
  }

  /** The timer gives the turn to the next terminal and launches a shell when one is missing. */
  function Scheduled(s: System, self: int): System
    requires |s.table.used| == 6 && |s.table.parent| == 6 && |s.table.onTerm| == 6 && |s.table.active| == 3
    requires 0 <= s.shown < 3 && 0 <= s.turn < 3
  {
    var turn := (s.turn + 1) % 3;
    var table := if !s.table.used[1] || !s.table.used[2] then Execute(s.table, self, s.shown) else s.table;
    System(table, s.shown, turn, s.table.active[turn])
  }

  ghost function StepOf(s: System, e: Event): System
    requires Good(s) && Allowed(s, e)
  {
    match e
    case Exec(t) => s.(table := Execute(s.table, s.table.active[t], s.shown))
    case Exit(t) => if ActiveFits(s.table, t) then s.(table := Halt(s.table, s.table.active[t], s.shown)) else s
    case SwitchTo(t) => s.(shown := t)
    case Tick => Scheduled(s, s.current)
  }

  ghost predicate ActiveFits(s: Table, t: int)
    requires Sized(s) && 0 <= t < 3
  {
    0 <= s.active[t] < 6 && 0 <= s.onTerm[s.active[t]] < 3
  }

  lemma ActiveIsLive(s: Table, chains: seq<seq<int>>, t: int)
    requires Chained(s, chains) && 0 <= t < 3
    ensures ActiveFits(s, t) && s.used[s.active[t]] && s.onTerm[s.active[t]] == t
  {
    assert chains[t][|chains[t]| - 1] == s.active[t];
  }

  lemma ExecKeepsChains(s: Table, shown: int)
    requires Consistent(s) && 0 <= shown < 3
    ensures Consistent(Execute(s, s.active[shown], shown))
  {
    if FreePid(s.used) < 6 {
      var chains :| Chained(s, chains);
      ExecuteExtends(s, chains, shown);
    }
  }

  lemma ExitKeepsChains(s: Table, t: int, shown: int)
    requires Consistent(s) && 0 <= t < 3 && 0 <= shown < 3
    ensures ActiveFits(s, t) && Consistent(Halt(s, s.active[t], shown))
  {
    var chains :| Chained(s, chains);
    ActiveIsLive(s, chains, t);
    if s.active[t] > 2 {
      HaltShortens(s, chains, t, shown);
    } else {
      ShellRestarts(s, chains, t, shown);
    }
  }

  /** The scheduled process is alive, active and on the terminal whose turn it is. */
  ghost predicate RunsTheTurn(s: System)
    requires Sized(s.table)
  {
    && 0 <= s.turn < 3 && 0 <= s.current < 6 && s.table.used[s.current] && s.table.onTerm[s.current] == s.turn
    && s.current == s.table.active[s.turn]
  }

  lemma LiveProcesses(s: Table, t: int)
    requires Consistent(s) && 0 <= t < 3
    ensures Sized(s) && s.used[0] && s.used[1] && s.used[2]
    ensures ActiveFits(s, t) && s.used[s.active[t]] && s.onTerm[s.active[t]] == t
  {
    var chains :| Chained(s, chains);
    ShellsAlive(s, chains);
    ActiveIsLive(s, chains, t);
  }

  /** With all three shells alive the timer only moves the turn on, to a terminal's live process. */
  lemma TickPicksLive(s: System, self: int)
    requires Good(s)
    ensures Scheduled(s, self).table == s.table && RunsTheTurn(Scheduled(s, self))
    ensures Scheduled(s, self).turn == (s.turn + 1) % 3
  {
    var turn := (s.turn + 1) % 3;
    LiveProcesses(s.table, turn);
    assert Scheduled(s, self) == System(s.table, s.shown, turn, s.table.active[turn]);
  }

  /** Every step keeps the live processes partitioned into chains. */
  lemma StepKeepsChains(s: System, e: Event)
    requires Good(s) && Allowed(s, e)
    ensures Good(StepOf(s, e))
  {
    match e
    case Exec(t) => ExecKeepsChains(s.table, t);
    case Exit(t) => ExitKeepsChains(s.table, t, s.shown);
    case SwitchTo(t) =>
    case Tick => TickPicksLive(s, s.current);
  }

  ghost predicate Follows(s: System, e: Event, next: System) {
    Good(s) ==> Allowed(s, e) && next == StepOf(s, e)
  }

  /** States s[0], s[1], ... are what the events make of s[0], each event being allowed. */
  ghost predicate IsRun(s: seq<System>, events: seq<Event>) {
    && |s| == |events| + 1 && Good(s[0])
    && (forall i :: 0 <= i < |events| ==> Follows(s[i], events[i], s[i + 1]))
  }

  /** In every state of every run the live processes form one chain for each terminal. */
  lemma {:induction false} RunKeepsChains(s: seq<System>, events: seq<Event>, n: nat)
    requires IsRun(s, events) && n < |s|
    ensures Good(s[n])
  {
    if n > 0 {
      RunKeepsChains(s, events, n - 1);
      assert Follows(s[n - 1], events[n - 1], s[n - 1 + 1]);
      StepKeepsChains(s[n - 1], events[n - 1]);
    }
  }

  /** How many of the first n events are ticks. */
  ghost function TicksIn(events: seq<Event>, n: nat): nat
    requires n <= |events|
  {
    if n == 0 then 0 else TicksIn(events, n - 1) + if events[n - 1].Tick? then 1 else 0
  }

  lemma StepTurns(s: System, e: Event)
    requires Good(s) && Allowed(s, e)
    ensures StepOf(s, e).turn == if e.Tick? then (s.turn + 1) % 3 else s.turn
  {
  }

  lemma NextTurn(k: int)
    ensures (k % 3 + 1) % 3 == (k + 1) % 3
  {
  }

  /** The turn depends on the number of ticks alone. */
  lemma {:induction false} TurnCountsTicks(s: seq<System>, events: seq<Event>, n: nat)
    requires IsRun(s, events) && n < |s|
    ensures s[n].turn == (s[0].turn + TicksIn(events, n)) % 3
  {
    if n > 0 {
      TurnCountsTicks(s, events, n - 1);
      RunKeepsChains(s, events, n - 1);
      assert Follows(s[n - 1], events[n - 1], s[n - 1 + 1]);
      StepTurns(s[n - 1], events[n - 1]);
      NextTurn(s[0].turn + TicksIn(events, n - 1));
    }
  }

  /** After every tick of every run a live process of the right terminal has been scheduled. */
  lemma TickSchedulesLive(s: seq<System>, events: seq<Event>, k: nat)
    requires IsRun(s, events) && k < |events| && events[k].Tick?
    ensures Good(s[k + 1]) && RunsTheTurn(s[k + 1])
  {
    RunKeepsChains(s, events, k);
    RunKeepsChains(s, events, k + 1);
    assert Follows(s[k], events[k], s[k + 1]);
    TickPicksLive(s[k], s[k].current);
  }

  /** Whatever happens between them, three ticks in a row give every terminal exactly one turn. */
  lemma EveryTerminalInThreeTicks(s: seq<System>, events: seq<Event>, a: nat, b: nat, c: nat, t: int)
    requires IsRun(s, events) && a < b < c < |events| && events[a].Tick? && events[b].Tick? && events[c].Tick?
    requires TicksIn(events, b) == TicksIn(events, a) + 1 && TicksIn(events, c) == TicksIn(events, b) + 1
    requires 0 <= t < 3
    ensures multiset{s[a + 1].turn, s[b + 1].turn, s[c + 1].turn}[t] == 1
  {
    TurnCountsTicks(s, events, a + 1);
    TurnCountsTicks(s, events, b + 1);
    TurnCountsTicks(s, events, c + 1);
    var n := s[0].turn + TicksIn(events, a);
    assert s[a + 1].turn == (n + 1) % 3 && s[b + 1].turn == (n + 2) % 3 && s[c + 1].turn == (n + 3) % 3;
  }

  /** The table when the kernel has started its first shell. */
  function Booted(parent: seq<int>, onTerm: seq<int>): Table
    requires |parent| == 6 && |onTerm| == 6
  {
    Execute(Table([false, false, false, false, false, false], parent, onTerm, [0, 1, 2]), 0, 0)
  }

  /** Two ticks after the first shell the other two run as well, each on its own terminal. */
  lemma BootReachesChains(parent: seq<int>, onTerm: seq<int>, shown: int, self: int, self': int)
    requires |parent| == 6 && |onTerm| == 6 && 0 <= shown < 3
    ensures var one := Scheduled(System(Booted(parent, onTerm), shown, 0, 0), self);
      Good(Scheduled(one, self')) && Chained(Scheduled(one, self').table, [[0], [1], [2]])
  {
    var s := Scheduled(Scheduled(System(Booted(parent, onTerm), shown, 0, 0), self), self').table;
    assert s.used == [true, true, true, false, false, false];
    assert s.active == [0, 1, 2] && s.onTerm[0] == 0 && s.onTerm[1] == 1 && s.onTerm[2] == 2;
    var chains := [[0], [1], [2]];
    forall t | 0 <= t < 3
      ensures IsChain(s, t, chains[t])
    {
      assert chains[t] == [t];
    }
    assert Chained(s, chains);
  }

  /** In a consistent table an active child runs on the terminal of its parent. */
  lemma ChildOnSameTerminal(s: Table, chains: seq<seq<int>>, t: int)
    requires Chained(s, chains) && 0 <= t < 3 && s.active[t] > 2
    ensures ActiveFits(s, t) && var q := s.parent[s.active[t]]; 0 <= q < 6 && s.onTerm[q] == t
  {
    ActiveIsLive(s, chains, t);
    var c := chains[t];
    assert c[|c| - 1] == s.active[t] && c[0] == t;
    assert s.parent[c[|c| - 1]] == c[|c| - 2];
  }

  /** execute from a terminal that is not on display breaks the chains: the new process is made
      active on one terminal and is the child of a process on another. */
  lemma ExecuteInBackgroundBreaks(s: Table, chains: seq<seq<int>>, t: int, shown: int)
    requires Chained(s, chains) && 0 <= t < 3 && 0 <= shown < 3 && t != shown && FreePid(s.used) < 6
    ensures !Consistent(Execute(s, s.active[t], shown))
  {
    ShellsAlive(s, chains);
    ActiveIsLive(s, chains, t);
    var p, self := FreePid(s.used), s.active[t];
    var s' := Execute(s, self, shown);
    if Consistent(s') {
      var other :| Chained(s', other);
      ChildOnSameTerminal(s', other, shown);
      assert false;
    }
  }

  /** From a good state, execute keeps the chains exactly when it comes from the displayed terminal
      or the process table is full. */
  lemma ExecuteKeepsChainsIff(s: Table, t: int, shown: int)
    requires Consistent(s) && 0 <= t < 3 && 0 <= shown < 3
    ensures Consistent(Execute(s, s.active[t], shown)) <==> t == shown || FreePid(s.used) == 6
  {
    if FreePid(s.used) < 6 && t != shown {
      var chains :| Chained(s, chains);
      ExecuteInBackgroundBreaks(s, chains, t, shown);
    } else {
      ExecKeepsChains(s, shown);
    }
  }
}
