/** The kernel's process bookkeeping in place: pid_arr, the parent and on_term fields of the process
    control blocks, and the active process of each terminal. */
module Kernels {
  import opened ProcessChains

  class Kernel {
    const used: array<bool>
    const parent: array<int>
    const onTerm: array<int>
    const active: array<int>
    var shown: int
    var turn: int
    var current: int

    ghost predicate Valid()
      reads this`shown, this`turn
    {
      && used.Length == 6 && parent.Length == 6 && onTerm.Length == 6 && active.Length == 3
      && parent != onTerm && parent != active && onTerm != active
      && 0 <= shown < 3 && 0 <= turn < 3
    }

    ghost function Processes(): (s: Table)
      reads used, parent, onTerm, active
    {
      Table(used[..], parent[..], onTerm[..], active[..])
    }

    ghost function State(): System
      reads this, used, parent, onTerm, active
    {
      System(Processes(), shown, turn, current)
    }

    /** The kernel with its first shell running on terminal 0. */
    constructor (parents: array<int>, terms: array<int>)
      requires parents.Length == 6 && terms.Length == 6 && parents != terms
      ensures Valid() && parent == parents && onTerm == terms && fresh(used) && fresh(active)
      ensures State() == System(Table([false, false, false, false, false, false], parents[..], terms[..], [0, 1, 2]), 0, 0, 0)
    {
      parent, onTerm := parents, terms;
      used, active := new bool[6](_ => false), new int[3](t => t);
      shown, turn, current := 0, 0, 0;
      new;
      assert used[..] == [false, false, false, false, false, false];
      assert active[..] == [0, 1, 2];
    }

    /** Claims the lowest free pid. MAX_PROCESSES tells that there is none. */
    method ClaimPid() returns (pid: int)
      requires Valid()
      modifies used
      ensures pid == FreePid(old(used[..]))
      ensures used[..] == if pid < 6 then old(used[..])[pid := true] else old(used[..])
    {
      pid := MAX_PROCESSES;
      var i := 0;
      while i < MAX_PROCESSES && pid == MAX_PROCESSES
        invariant 0 <= i <= 6
        invariant pid == MAX_PROCESSES ==> used[..] == old(used[..]) && forall q :: 0 <= q < i ==> used[q]
        invariant pid != MAX_PROCESSES ==> 0 <= pid < 6 && pid == FreePid(old(used[..])) && used[..] == old(used[..])[pid := true]
        decreases 6 - i
      {
        if !used[i] {
          LowestIsFree(used[..], i);
          pid := i;
          used[i] := true;
        }
        i := i + 1;
      }
      if pid == MAX_PROCESSES {
        NoneIsFree(used[..]);
      }
    }

    /** Process self starts a program. Nothing happens when the process table is full. */
    method Execute(self: int)
      requires Valid()
      modifies used, parent, onTerm, active
      ensures Processes() == ProcessChains.Execute(old(Processes()), self, shown)
    {
      var pid := ClaimPid();
      if pid >= MAX_PROCESSES {
        return;
      }
      if pid > THIRD_SHELL {
        parent[pid] := self;
        active[shown] := pid;
        onTerm[pid] := shown;
      } else {
        active[pid] := pid;
        onTerm[pid] := pid;
      }
    }

    /** Process self ends. Its parent becomes active again; a shell is started anew. */
    method Halt(self: int)
      requires Valid() && 0 <= self < 6 && 0 <= onTerm[self] < 3
      modifies used, parent, onTerm, active
      ensures Processes() == ProcessChains.Halt(old(Processes()), self, shown)
    {
      used[self] := false;
      if self > THIRD_SHELL {
        active[onTerm[self]] := parent[self];
      } else {
        Execute(self);
      }
    }

    /** The timer interrupt, while process self runs. */
    method Schedule(self: int)
      requires Valid()
      modifies this`turn, this`current, used, parent, onTerm, active
      ensures Valid() && State() == Scheduled(old(State()), self)
    {
      turn := (turn + 1) % 3;
      current := active[turn];
      if !used[1] || !used[2] {
        Execute(self);
      }
    }

    /** One event. From a state whose live processes form chains it leads to another such state. */
    method Handle(e: Event)
      requires Valid() && Good(State()) && Allowed(State(), e)
      modifies this`shown, this`turn, this`current, used, parent, onTerm, active
      ensures Valid() && State() == StepOf(old(State()), e) && Good(State())
    {
      ghost var before := State();
      StepKeepsChains(before, e);
      match e {
        case Exec(t) => Execute(active[t]);
        case Exit(t) =>
          ExitKeepsChains(before.table, t, shown);
          Halt(active[t]);
        case SwitchTo(t) => shown := t;
        case Tick => Schedule(current);
      }
    }
  }

  lemma LowestIsFree(used: seq<bool>, i: int)
    requires |used| == 6 && 0 <= i < 6 && !used[i] && forall q :: 0 <= q < i ==> used[q]
    ensures FreePid(used) == i
  {
  }

  lemma NoneIsFree(used: seq<bool>)
    requires |used| == 6 && forall q :: 0 <= q < 6 ==> used[q]
    ensures FreePid(used) == 6
  {
  }
}
