/** Spin locks and the counting of `pushcli` and `popcli` that keeps interrupts off while any is held.

`Lock` has the two calls as they run when no other CPU is in the way. What holds in every interleaving of their loads,
stores and exchanges is shown on the machine at the end.
 */
module SpinLock {

  datatype Option<+T> = None | Some(value: T)

  /** The interrupt flag of a CPU and what the kernel keeps about it. */
  datatype Flags = Flags(interrupts: bool, ncli: int, intena: bool)

  ghost function AfterPush(f: Flags): Flags {
    Flags(false, f.ncli + 1, if f.ncli == 0 then f.interrupts else f.intena)
  }

  /** `None` is a panic. */
  ghost function AfterPop(f: Flags): Option<Flags> {
    if f.interrupts || f.ncli < 1 then None
    else Some(Flags(f.ncli == 1 && f.intena, f.ncli - 1, f.intena))
  }

  class Cpu {
    var interrupts: bool
    var ncli: int
    var intena: bool

    ghost function View(): Flags
      reads this
    {
      Flags(interrupts, ncli, intena)
    }

    method Pushcli()
      modifies this
      ensures View() == AfterPush(old(View()))
      ensures !interrupts && ncli == old(ncli) + 1 && intena == if old(ncli) == 0 then old(interrupts) else old(intena)
    {
      var eflags := interrupts;
      interrupts := false;
      if ncli == 0 {
        intena := eflags;
      }
      ncli := ncli + 1;
    }

    /** False is one of its panics. */
    method Popcli() returns (ok: bool)
      modifies this
      ensures ok <==> !old(interrupts) && old(ncli) >= 1
      ensures ok ==> ncli == old(ncli) - 1 && intena == old(intena) && interrupts == (old(ncli) == 1 && old(intena))
      ensures ok <==> AfterPop(old(View())).Some?
      ensures ok ==> View() == AfterPop(old(View())).value
    {
      if interrupts {
        return false;
      }
      ncli := ncli - 1;
      if ncli < 0 {
        return false;
      }
      if ncli == 0 && intena {
        interrupts := true;
      }
      return true;
    }
  }

  class Lock {
    var locked: bool
    var cpu: Option<nat>

    predicate Holding(me: nat)
      reads this
    {
      locked && cpu == Some(me)
    }

    /** One attempt of `acquire` after interrupts are off: a panic, another turn of the loop, or the lock. */
    method Attempt(me: nat) returns (panicked: bool, taken: bool)
      modifies this
      ensures panicked <==> old(Holding(me))
      ensures taken <==> !old(locked)
      ensures taken ==> Holding(me) && forall other :: other != me ==> !Holding(other)
      ensures !taken ==> unchanged(this)
    {
      if locked && cpu == Some(me) {
        return true, false;
      }
      var was := locked;
      locked := true;
      if was {
        return false, false;
      }
      cpu := Some(me);
      return false, true;
    }

    /** `release`; false is its panic. */
    method Release(me: nat) returns (ok: bool)
      modifies this
      ensures ok <==> old(Holding(me))
      ensures !ok ==> unchanged(this)
      ensures ok ==> !locked && cpu == None
    {
      if !(locked && cpu == Some(me)) {
        return false;
      }
      cpu := None;
      locked := false;
      return true;
    }
  }

  // ---------- nesting ----------

  datatype Call = Push | Pop

  ghost function Run(f: Flags, calls: seq<Call>): Option<Flags>
    decreases |calls|
  {
    if calls == [] then Some(f)
    else if calls[0] == Push then Run(AfterPush(f), calls[1..])
    else if AfterPop(f) == None then None
    else Run(AfterPop(f).value, calls[1..])
  }

  /** `depth` calls of `pushcli` are open at the start, none at the end, and no `popcli` comes without its `pushcli`. */
  ghost predicate Closes(calls: seq<Call>, depth: nat)
    decreases |calls|
  {
    if calls == [] then depth == 0
    else if calls[0] == Push then Closes(calls[1..], depth + 1)
    else depth > 0 && Closes(calls[1..], depth - 1)
  }

  /** The flags with `depth` more calls of `pushcli` open than at `f`. */
  ghost predicate Deeper(f: Flags, g: Flags, depth: nat) {
    && g.ncli == f.ncli + depth
    && (if depth == 0 then g.interrupts == f.interrupts else !g.interrupts)
    && (depth > 0 || f.ncli > 0 ==> g.intena == if f.ncli == 0 then f.interrupts else f.intena)
  }

  lemma {:induction false} ClosingRestores(f: Flags, g: Flags, calls: seq<Call>, depth: nat)
    requires f.ncli >= 0 && (f.ncli > 0 ==> !f.interrupts) && Deeper(f, g, depth) && Closes(calls, depth)
    ensures Run(g, calls).Some? && Deeper(f, Run(g, calls).value, 0)
    decreases |calls|
  {
    if calls != [] {
      if calls[0] == Push {
        ClosingRestores(f, AfterPush(g), calls[1..], depth + 1);
      } else {
        ClosingRestores(f, AfterPop(g).value, calls[1..], depth - 1);
      }
    }
  }

  /** Any properly nested calls of `pushcli` and `popcli` run without a panic and leave the interrupt flag and the
      count as they found them, whatever the flag was. */
  lemma NestingRestoresInterrupts(f: Flags, calls: seq<Call>)
    requires f.ncli >= 0 && (f.ncli > 0 ==> !f.interrupts) && Closes(calls, 0)
    ensures Run(f, calls).Some?
    ensures Run(f, calls).value.interrupts == f.interrupts && Run(f, calls).value.ncli == f.ncli
  {
    ClosingRestores(f, f, calls, 0);
  }

  /** In between, interrupts are off. */
  lemma {:induction false} InterruptsOffInside(f: Flags, g: Flags, calls: seq<Call>, depth: nat, k: nat)
    requires f.ncli >= 0 && (f.ncli > 0 ==> !f.interrupts) && Deeper(f, g, depth) && k <= |calls|
    requires Run(g, calls[..k]).Some? && DepthAfter(calls[..k], depth) > 0 && NeverBelow(calls[..k], depth)
    ensures !Run(g, calls[..k]).value.interrupts
    decreases k
  {
    if k > 0 {
      var rest := calls[1..];
      assert calls[..k][1..] == rest[..k-1];
      if calls[0] == Push {
        InterruptsOffInside(f, AfterPush(g), rest, depth + 1, k - 1);
      } else {
        InterruptsOffInside(f, AfterPop(g).value, rest, depth - 1, k - 1);
      }
    }
  }

  ghost function DepthAfter(calls: seq<Call>, depth: int): int
    decreases |calls|
  {
    if calls == [] then depth else DepthAfter(calls[1..], if calls[0] == Push then depth + 1 else depth - 1)
  }

  ghost predicate NeverBelow(calls: seq<Call>, depth: int)
    decreases |calls|
  {
    depth >= 0 && (calls == [] || NeverBelow(calls[1..], if calls[0] == Push then depth + 1 else depth - 1))
  }

  // ---------- every interleaving of loads, stores and exchanges ----------

  /** What a CPU does next: `acquire` loads `locked`, then `cpu` if that was set, exchanges until it gets the lock and
      stores `cpu`; `release` loads both, clears `cpu` and then `locked`. */
  datatype Pc =
    | Idle
    | TestLocked | TestCpu | Exchange | StoreCpu
    | RetestLocked | RetestCpu | ClearCpu | ClearLocked
    | Panicked

  /** The lock, the next instruction of each CPU, and whether its last successful exchange has not been undone. */
  datatype Machine = Machine(locked: bool, cpu: Option<nat>, at: seq<Pc>, owns: seq<bool>)

  predicate Shape(m: Machine) {
    |m.at| == |m.owns|
  }

  function Moved(m: Machine, c: nat, pc: Pc): Machine
    requires c < |m.at|
  {
    m.(at := m.at[c := pc])
  }

  /** One instruction of CPU `c`. Between calls it may begin either call, whether it has the lock or not. */
  function Next(m: Machine, c: nat, acquires: bool): Machine
    requires Shape(m) && c < |m.at|
  {
    match m.at[c]
    case Idle => Moved(m, c, if acquires then TestLocked else RetestLocked)
    case TestLocked => Moved(m, c, if m.locked then TestCpu else Exchange)
    case TestCpu => Moved(m, c, if m.cpu == Some(c) then Panicked else Exchange)
    case Exchange =>
      if m.locked then m else Moved(m, c, StoreCpu).(locked := true, owns := m.owns[c := true])
    case StoreCpu => Moved(m, c, Idle).(cpu := Some(c))
    case RetestLocked => Moved(m, c, if m.locked then RetestCpu else Panicked)
    case RetestCpu => Moved(m, c, if m.cpu == Some(c) then ClearCpu else Panicked)
    case ClearCpu => Moved(m, c, ClearLocked).(cpu := None)
    case ClearLocked => Moved(m, c, Idle).(locked := false, owns := m.owns[c := false])
    case Panicked => m
  }

  /** The lock is set exactly when one CPU owns it, and names that CPU except around the two stores. */
  ghost predicate Consistent(m: Machine) {
    && Shape(m)
    && (m.locked <==> exists c: nat :: c < |m.owns| && m.owns[c])
    && (forall c: nat, d: nat :: c < |m.owns| && d < |m.owns| && m.owns[c] && m.owns[d] ==> c == d)
    && (forall c: nat :: c < |m.at| ==> CpuOk(m, c))
  }

  predicate CpuOk(m: Machine, c: nat)
    requires Shape(m) && c < |m.at|
  {
    && (m.cpu == Some(c) <==> m.owns[c] && m.at[c] != StoreCpu && m.at[c] != ClearLocked)
    && (m.at[c] in {StoreCpu, ClearCpu, ClearLocked} ==> m.owns[c])
    && (m.at[c] == Exchange ==> !m.owns[c])
  }

  ghost function RunAll(m: Machine, steps: seq<(nat, bool)>): Machine
    requires Shape(m)
    decreases |steps|
  {
    if steps == [] then m
    else RunAll(if steps[0].0 < |m.at| then Next(m, steps[0].0, steps[0].1) else m, steps[1..])
  }

  function Boot(ncpu: nat): Machine {
    Machine(false, None, seq(ncpu, _ => Idle), seq(ncpu, _ => false))
  }

  ghost predicate Reachable(m: Machine) {
    exists ncpu: nat, steps: seq<(nat, bool)> :: RunAll(Boot(ncpu), steps) == m
  }

  lemma NextIsConsistent(m: Machine, c: nat, acquires: bool)
    requires Consistent(m) && c < |m.at|
    ensures Consistent(Next(m, c, acquires))
  {
    var n := Next(m, c, acquires);
    assert CpuOk(m, c);
    if m.at[c] == Exchange && !m.locked {
      assert n.owns[c];
    } else if m.at[c] != ClearLocked {
      assert n.owns == m.owns;
    }
    forall d: nat | d < |n.at|
      ensures CpuOk(n, d)
    {
      assert CpuOk(m, d);
    }
  }

  lemma {:induction false} RunIsConsistent(m: Machine, steps: seq<(nat, bool)>)
    requires Consistent(m)
    ensures Consistent(RunAll(m, steps))
    decreases |steps|
  {
    if steps != [] {
      if steps[0].0 < |m.at| {
        NextIsConsistent(m, steps[0].0, steps[0].1);
        RunIsConsistent(Next(m, steps[0].0, steps[0].1), steps[1..]);
      } else {
        RunIsConsistent(m, steps[1..]);
      }
    }
  }

  lemma ReachableIsConsistent(m: Machine)
    requires Reachable(m)
    ensures Consistent(m)
  {
    var ncpu: nat, steps: seq<(nat, bool)> :| RunAll(Boot(ncpu), steps) == m;
    RunIsConsistent(Boot(ncpu), steps);
  }

  /** At most one CPU has the lock, in every interleaving, and while it has, the lock is set. */
  lemma MutualExclusion(m: Machine, c: nat, d: nat)
    requires Reachable(m) && c < |m.owns| && d < |m.owns| && m.owns[c] && m.owns[d]
    ensures c == d && m.locked
  {
    ReachableIsConsistent(m);
  }

  /** Whatever the other CPUs do in between, the tests of `acquire` stop exactly the CPU that has the lock already,
      and those of `release` exactly a CPU that does not have it. */
  lemma PanicsExactly(m: Machine, c: nat, acquires: bool)
    requires Reachable(m) && c < |m.at|
    ensures Shape(m)
    ensures var n := Next(m, c, acquires);
      && (m.at[c] in {TestLocked, TestCpu} && n.at[c] == Panicked ==> m.owns[c])
      && (m.at[c] in {TestLocked, TestCpu} && n.at[c] == Exchange ==> !m.owns[c])
      && (m.at[c] in {RetestLocked, RetestCpu} && n.at[c] == Panicked ==> !m.owns[c])
      && (m.at[c] in {RetestLocked, RetestCpu} && n.at[c] == ClearCpu ==> m.owns[c])
      && (m.at[c] !in {Exchange, ClearLocked} ==> n.owns == m.owns)
  {
    ReachableIsConsistent(m);
    assert CpuOk(m, c);
  }

  /** The exchange succeeds exactly when no CPU has the lock. */
  lemma ExchangeTakesFreeLock(m: Machine, c: nat, acquires: bool)
    requires Reachable(m) && c < |m.at| && m.at[c] == Exchange
    ensures Shape(m)
    ensures Next(m, c, acquires).owns[c] <==> forall d: nat :: d < |m.owns| ==> !m.owns[d]
  {
    ReachableIsConsistent(m);
    assert CpuOk(m, c);
  }
}
