/** How `begin_op` and `end_op` share the log among file-system calls.

A state lists the logged blocks, the distinct blocks each outstanding call has logged so far, and whether a commit is
under way. A call may log at most MAXOPBLOCKS distinct blocks; what it has not used yet is its unspent budget.
 */
module Reservation {
  import opened Blocks
  import opened CrashAtomicity

  datatype State = State(lh: seq<nat>, ops: seq<set<nat>>, committing: bool)

  const INITIAL := State([], [], false)

  datatype Action = Begin | Write(op: nat, block: nat) | End(op: nat) | Committed

  /** The write keeps its call within MAXOPBLOCKS distinct blocks. */
  ghost predicate WithinBudget(s: State, a: Action)
    requires a.Write?
  {
    a.op < |s.ops| && |s.ops[a.op] + {a.block}| <= MAXOPBLOCKS
  }

  /** `log_write` adds a block that is not in the header yet and absorbs one that is. */
  function Absorb(lh: seq<nat>, block: nat): seq<nat> {
    if block in lh then lh else lh + [block]
  }

  function Without<T>(s: seq<T>, k: nat): seq<T>
    requires k < |s|
  {
    s[..k] + s[k+1..]
  }

  /** One critical section of the log; `None` when the caller sleeps, panics or exceeds its budget. */
  ghost function Step(l: Layout, s: State, a: Action): Option<State> {
    match a
    case Begin =>
      if s.committing || |s.lh| + (|s.ops| + 1) * MAXOPBLOCKS > LOGSIZE then None
      else Some(s.(ops := s.ops + [{}]))
    case Write(op, block) =>
      if !WithinBudget(s, a) || |s.lh| >= Capacity(l) then None
      else Some(s.(lh := Absorb(s.lh, block), ops := s.ops[op := s.ops[op] + {block}]))
    case End(op) =>
      if op >= |s.ops| || s.committing then None
      else Some(s.(ops := Without(s.ops, op), committing := |s.ops| == 1))
    case Committed =>
      if !s.committing then None else Some(State([], s.ops, false))
  }

  ghost function Unspent(ops: seq<set<nat>>): int {
    if ops == [] then 0 else MAXOPBLOCKS - |ops[0]| + Unspent(ops[1..])
  }

  ghost predicate Distinct(lh: seq<nat>) {
    forall i, j :: 0 <= i < j < |lh| ==> lh[i] != lh[j]
  }

  /** The discipline of the log. */
  ghost predicate Disciplined(s: State) {
    && (s.committing ==> s.ops == [])
    && (s.ops == [] && !s.committing ==> s.lh == [])
    && Distinct(s.lh)
    && (forall k :: 0 <= k < |s.ops| ==> |s.ops[k]| <= MAXOPBLOCKS && forall b :: b in s.ops[k] ==> b in s.lh)
    && |s.lh| + Unspent(s.ops) <= LOGSIZE
  }

  lemma {:induction false} UnspentAppend(ops: seq<set<nat>>, o: set<nat>)
    ensures Unspent(ops + [o]) == Unspent(ops) + MAXOPBLOCKS - |o|
  {
    if ops == [] {
      assert [o][1..] == [];
    } else {
      assert (ops + [o])[1..] == ops[1..] + [o];
      UnspentAppend(ops[1..], o);
    }
  }

  lemma {:induction false} UnspentUpdate(ops: seq<set<nat>>, k: nat, o: set<nat>)
    requires k < |ops|
    ensures Unspent(ops[k := o]) == Unspent(ops) + |ops[k]| - |o|
  {
    if k > 0 {
      assert ops[k := o][1..] == ops[1..][k-1 := o];
      UnspentUpdate(ops[1..], k - 1, o);
    }
  }

  lemma {:induction false} UnspentWithout(ops: seq<set<nat>>, k: nat)
    requires k < |ops|
    ensures Unspent(Without(ops, k)) == Unspent(ops) - MAXOPBLOCKS + |ops[k]|
  {
    if k > 0 {
      assert Without(ops, k)[1..] == Without(ops[1..], k - 1);
      UnspentWithout(ops[1..], k - 1);
    } else {
      assert Without(ops, 0) == ops[1..];
    }
  }

  lemma {:induction false} UnspentBound(ops: seq<set<nat>>)
    requires forall k :: 0 <= k < |ops| ==> |ops[k]| <= MAXOPBLOCKS
    ensures 0 <= Unspent(ops) <= |ops| * MAXOPBLOCKS
    ensures forall k :: 0 <= k < |ops| ==> MAXOPBLOCKS - |ops[k]| <= Unspent(ops)
  {
    if ops != [] {
      UnspentBound(ops[1..]);
      forall k | 0 <= k < |ops|
        ensures MAXOPBLOCKS - |ops[k]| <= Unspent(ops)
      {
        assert k > 0 ==> ops[k] == ops[1..][k-1];
      }
    }
  }

  lemma WriteKeepsDiscipline(l: Layout, s: State, op: nat, block: nat)
    requires Disciplined(s) && Step(l, s, Write(op, block)).Some?
    ensures Disciplined(Step(l, s, Write(op, block)).value)
  {
    var o := s.ops[op];
    UnspentUpdate(s.ops, op, o + {block});
    if block in o {
      assert o + {block} == o;
    } else {
      assert |o + {block}| == |o| + 1;
    }
    assert |Absorb(s.lh, block)| <= |s.lh| + (if block in o then 0 else 1);
  }

  /** Every critical section keeps the discipline. */
  lemma StepKeepsDiscipline(l: Layout, s: State, a: Action)
    requires Disciplined(s) && Step(l, s, a).Some?
    ensures Disciplined(Step(l, s, a).value)
  {
    match a
    case Begin =>
      UnspentBound(s.ops);
      UnspentAppend(s.ops, {});
    case Write(op, block) =>
      WriteKeepsDiscipline(l, s, op, block);
    case End(op) =>
      UnspentWithout(s.ops, op);
      assert |s.ops| == 1 ==> Without(s.ops, op) == [];
    case Committed =>
  }

  ghost function Run(l: Layout, s: State, actions: seq<Action>): Option<State>
    decreases |actions|
  {
    if actions == [] then Some(s)
    else if Step(l, s, actions[0]) == None then None
    else Run(l, Step(l, s, actions[0]).value, actions[1..])
  }

  ghost predicate Reachable(l: Layout, s: State) {
    exists actions :: Run(l, INITIAL, actions) == Some(s)
  }

  lemma {:induction false} RunKeepsDiscipline(l: Layout, s: State, actions: seq<Action>)
    requires Disciplined(s) && Run(l, s, actions).Some?
    ensures Disciplined(Run(l, s, actions).value)
    decreases |actions|
  {
    if actions != [] {
      StepKeepsDiscipline(l, s, actions[0]);
      RunKeepsDiscipline(l, Step(l, s, actions[0]).value, actions[1..]);
    }
  }

  /** In every reachable state: no call is outstanding during a commit, the header is empty between commits, its blocks
      are distinct, and header plus unspent budgets never exceed LOGSIZE. */
  lemma ReachableIsDisciplined(l: Layout, s: State)
    requires Reachable(l, s)
    ensures Disciplined(s)
  {
    var actions :| Run(l, INITIAL, actions) == Some(s);
    RunKeepsDiscipline(l, INITIAL, actions);
  }

  // ---------- when log_write panics ----------

  /** A call within its budget that logs a block not yet in the header finds the header's array not full. */
  lemma NewBlockHasRoom(s: State, a: Action)
    requires Disciplined(s) && a.Write? && WithinBudget(s, a) && a.block !in s.lh
    ensures |s.lh| < LOGSIZE
  {
    UnspentBound(s.ops);
    assert |s.ops[a.op] + {a.block}| == |s.ops[a.op]| + 1;
  }

  /** No reachable state makes `log_write` panic on a new block within the budget. */
  ghost predicate NewBlocksNeverPanic(l: Layout) {
    forall s: State, a: Action :: Reachable(l, s) && a.Write? && WithinBudget(s, a) && a.block !in s.lh ==>
        Step(l, s, a).Some?
  }

  lemma {:induction false} RunAppend(l: Layout, s: State, actions: seq<Action>, a: Action)
    requires Run(l, s, actions).Some?
    ensures Run(l, s, actions + [a]) == Step(l, Run(l, s, actions).value, a)
    decreases |actions|
  {
    if actions == [] {
      assert [a][1..] == [];
    } else {
      assert (actions + [a])[1..] == actions[1..] + [a];
      RunAppend(l, Step(l, s, actions[0]).value, actions[1..], a);
    }
  }

  lemma ReachableStep(l: Layout, s: State, a: Action)
    requires Reachable(l, s) && Step(l, s, a).Some?
    ensures Reachable(l, Step(l, s, a).value)
  {
    var actions :| Run(l, INITIAL, actions) == Some(s);
    RunAppend(l, INITIAL, actions, a);
  }

  /** The numbers from `lo` up to `hi`. */
  ghost function Range(lo: nat, hi: nat): (r: set<nat>)
    ensures forall b :: b in r <==> lo <= b < hi
    ensures |r| == if lo < hi then hi - lo else 0
    decreases hi
  {
    if lo >= hi then {} else Range(lo, hi - 1) + {hi - 1}
  }

  ghost function Upto(n: nat): (r: seq<nat>)
    ensures |r| == n && forall i :: 0 <= i < n ==> r[i] == i
  {
    seq(n, i => i)
  }

  /** The blocks below `n` that fall to the call that starts at block `lo`. */
  ghost function Share(n: nat, lo: nat): set<nat> {
    Range(lo, if n < lo + MAXOPBLOCKS then n else lo + MAXOPBLOCKS)
  }

  lemma ShareGrows(n: nat, lo: nat)
    ensures lo <= n < lo + MAXOPBLOCKS ==> Share(n, lo) + {n} == Share(n + 1, lo) && |Share(n + 1, lo)| <= MAXOPBLOCKS
    ensures !(lo <= n < lo + MAXOPBLOCKS) ==> Share(n, lo) == Share(n + 1, lo)
  {
  }

  /** Three calls that between them have logged blocks 0 to n - 1: the first call ten, the second ten, the third the
    rest. */
  ghost function ThreeCalls(n: nat): State {
    State(Upto(n), [Share(n, 0), Share(n, 10), Share(n, 20)], false)
  }

  /** The next block and the call that has budget left for it. */
  ghost function NextWrite(n: nat): Action {
    Write(if n < 10 then 0 else if n < 20 then 1 else 2, n)
  }

  lemma NextWriteIsWithinBudget(n: nat)
    requires n < LOGSIZE
    ensures WithinBudget(ThreeCalls(n), NextWrite(n)) && n !in ThreeCalls(n).lh
    ensures Absorb(ThreeCalls(n).lh, n) == ThreeCalls(n + 1).lh
    ensures var op := NextWrite(n).op; ThreeCalls(n).ops[op := ThreeCalls(n).ops[op] + {n}] == ThreeCalls(n + 1).ops
  {
    hide Share, Upto;
    ShareGrows(n, 0);
    ShareGrows(n, 10);
    ShareGrows(n, 20);
    assert Upto(n) + [n] == Upto(n + 1);
  }

  lemma ThreeBeginsReachable(l: Layout)
    ensures Reachable(l, ThreeCalls(0))
  {
    assert Run(l, INITIAL, []) == Some(INITIAL);
    ReachableStep(l, INITIAL, Begin);
    var one := Step(l, INITIAL, Begin).value;
    ReachableStep(l, one, Begin);
    var two := Step(l, one, Begin).value;
    ReachableStep(l, two, Begin);
    assert Step(l, two, Begin).value == ThreeCalls(0);
  }

  lemma {:induction false} ThreeCallsReachable(l: Layout, n: nat)
    requires n <= Capacity(l)
    ensures Reachable(l, ThreeCalls(n))
  {
    if n == 0 {
      ThreeBeginsReachable(l);
    } else {
      ThreeCallsReachable(l, n - 1);
      NextWriteIsWithinBudget(n - 1);
      ReachableStep(l, ThreeCalls(n - 1), NextWrite(n - 1));
    }
  }

  /** Reserving LOGSIZE blocks protects `log_write` exactly when the log area is larger than LOGSIZE. */
  lemma NewBlocksNeverPanicExactly(l: Layout)
    requires l.size >= 1
    ensures NewBlocksNeverPanic(l) <==> l.size > LOGSIZE
  {
    if l.size > LOGSIZE {
      forall s: State, a: Action | Reachable(l, s) && a.Write? && WithinBudget(s, a) && a.block !in s.lh
        ensures Step(l, s, a).Some?
      {
        ReachableIsDisciplined(l, s);
        NewBlockHasRoom(s, a);
      }
    } else {
      var n := l.size - 1;
      ThreeCallsReachable(l, n);
      NextWriteIsWithinBudget(n);
      assert Step(l, ThreeCalls(n), NextWrite(n)) == None;
    }
  }

  /** mkfs makes the log area LOGSIZE blocks, header included, so that the thirtieth distinct block of a full house of
      calls panics although every call keeps to its budget. */
  lemma MkfsLayoutCanPanic(start: nat)
    ensures !NewBlocksNeverPanic(Layout(start, LOGSIZE))
  {
    NewBlocksNeverPanicExactly(Layout(start, LOGSIZE));
  }

  // ---------- the test for a full header comes before the search for the block ----------

  /** Whatever block it logs, a call that has logged at most `used` distinct blocks and keeps to its budget is never
      stopped; for `again`, a call that logs a block in the header already. */
  ghost predicate NeverStopped(l: Layout, used: nat, again: bool) {
    forall s: State, a: Action ::
      Reachable(l, s) && a.Write? && WithinBudget(s, a) && |s.ops[a.op]| <= used && (again ==> a.block in s.lh) ==>
          Step(l, s, a).Some?
  }

  /** A call that keeps to its budget is stopped exactly when the header is full, and then the other calls have hardly
      any budget left: none at all in a log area larger than LOGSIZE, where the block is in the header already. */
  lemma StoppedExactlyWhenFull(l: Layout, s: State, a: Action)
    requires l.size >= 1 && Reachable(l, s) && a.Write? && WithinBudget(s, a)
    ensures Step(l, s, a) == None <==> |s.lh| == Capacity(l)
    ensures Step(l, s, a) == None ==> MAXOPBLOCKS - |s.ops[a.op]| <= Unspent(s.ops) <= LOGSIZE - Capacity(l)
    ensures Step(l, s, a) == None && l.size > LOGSIZE ==> a.block in s.lh && Unspent(s.ops) == 0
  {
    ReachableIsDisciplined(l, s);
    ReachableFits(l, s);
    UnspentBound(s.ops);
    if l.size > LOGSIZE && a.block !in s.lh {
      NewBlockHasRoom(s, a);
    }
  }

  lemma {:induction false} RunFits(l: Layout, s: State, actions: seq<Action>)
    requires l.size >= 1 && |s.lh| <= Capacity(l) && Run(l, s, actions).Some?
    ensures |Run(l, s, actions).value.lh| <= Capacity(l)
    decreases |actions|
  {
    if actions != [] {
      RunFits(l, Step(l, s, actions[0]).value, actions[1..]);
    }
  }

  lemma ReachableFits(l: Layout, s: State)
    requires l.size >= 1 && Reachable(l, s)
    ensures |s.lh| <= Capacity(l)
  {
    var actions :| Run(l, INITIAL, actions) == Some(s);
    RunFits(l, INITIAL, actions);
  }

  /** How much of its budget a call may have used so that its next write goes through in every reachable state, be the
      block new or in the header: exactly so much that budget is left beside the blocks the log area is short of
      LOGSIZE. */
  lemma NeverStoppedExactly(l: Layout, used: nat)
    requires l.size >= 1
    ensures NeverStopped(l, used, false) <==> used + LOGSIZE - Capacity(l) < MAXOPBLOCKS
    ensures l.size > 1 ==> (NeverStopped(l, used, true) <==> used + LOGSIZE - Capacity(l) < MAXOPBLOCKS)
  {
    hide Step, Reachable, ThreeCalls;
    if used + LOGSIZE - Capacity(l) < MAXOPBLOCKS {
      forall s: State, a: Action | Reachable(l, s) && a.Write? && WithinBudget(s, a) && |s.ops[a.op]| <= used
        ensures Step(l, s, a).Some?
      {
        StoppedExactlyWhenFull(l, s, a);
      }
    } else {
      ThreeCallsReachable(l, Capacity(l));
      ThirdCallIsStopped(l);
    }
  }

  /** The third of three calls that fill the log area has used what the first two left, and cannot log a block again. */
  lemma ThirdCallIsStopped(l: Layout)
    requires l.size >= 1
    ensures var n := Capacity(l);
      var s, a := ThreeCalls(n), Write(2, if n > 20 then 20 else 0);
      && Step(l, s, a) == None && a.op < |s.ops| && WithinBudget(s, a) &&
           |s.ops[a.op]| == (if n > 20 then n - 20 else 0)
      && (n > 0 ==> a.block in s.lh)
  {
    var n := Capacity(l);
    ThirdShare(n);
    hide Share;
    assert n > 0 ==> Upto(n)[if n > 20 then 20 else 0] in Upto(n);
  }

  lemma ThirdShare(n: nat)
    requires n <= LOGSIZE
    ensures |Share(n, 20)| == if n > 20 then n - 20 else 0
    ensures |Share(n, 20) + {if n > 20 then 20 else 0}| == if n > 20 then n - 20 else 1
  {
    var o := Share(n, 20);
    if n > 20 {
      assert o + {20} == o;
    } else {
      assert o == {} && o + {0} == {0};
    }
  }

  /** In the layout mkfs writes, a call is safe up to its ninth block, and the tenth may be stopped. */
  lemma MkfsLayoutStopsAtTenth(start: nat, used: nat, again: bool)
    ensures NeverStopped(Layout(start, LOGSIZE), used, again) <==> used <= 8
  {
    NeverStoppedExactly(Layout(start, LOGSIZE), used);
  }

  /** In a log area larger than LOGSIZE only a call that has used up its budget can be stopped, on logging a block
    again. */
  lemma LargeLogStopsOnlySpent(l: Layout, used: nat, again: bool)
    requires l.size > LOGSIZE
    ensures NeverStopped(l, used, again) <==> used < MAXOPBLOCKS
  {
    NeverStoppedExactly(l, used);
  }

  /** One such state: a call that has logged its ten blocks logs the first of them again. */
  lemma RewriteCanPanic(l: Layout)
    requires l.size > LOGSIZE
    ensures var s, a := ThreeCalls(LOGSIZE), Write(0, 0);
      Reachable(l, s) && WithinBudget(s, a) && a.block in s.lh && Step(l, s, a) == None
  {
    ThreeCallsReachable(l, LOGSIZE);
    FirstCallHasBlockZero(LOGSIZE);
  }

  lemma FirstCallHasBlockZero(n: nat)
    requires n >= MAXOPBLOCKS
    ensures WithinBudget(ThreeCalls(n), Write(0, 0)) && 0 in ThreeCalls(n).lh
  {
    assert Share(n, 0) + {0} == Share(n, 0);
    assert Upto(n)[0] == 0;
  }
}
