/** Whole runs of the scheduler: whose turn it is, what a semaphore's value counts, who is woken. */
module ThreadRuns {
  import opened ThreadState
  import opened ThreadSafety

  // ----- turns -----

  /** Calls of schedule among the steps `from` up to `to`. */
  function Turns(states: seq<Kernel>, ops: seq<Op>, from: nat, to: nat): nat
    requires from <= to <= |ops| < |states|
  {
    if from == to then 0
    else Turns(states, ops, from, to - 1) + if Schedules(states[to - 1], ops[to - 1]) then 1 else 0
  }

  /** A step that does not call schedule only adds to the ready list; one that does takes its head off. */
  lemma ReadyMoves(k: Kernel, op: Op, k': Kernel, j: nat)
    requires CanStep(k, op) && k' == Step(k, op) && j < |k.ready|
    ensures !Schedules(k, op) ==> j < |k'.ready| && k'.ready[j] == k.ready[j]
    ensures Schedules(k, op) && j > 0 ==> j - 1 < |k'.ready| && k'.ready[j - 1] == k.ready[j]
    ensures Schedules(k, op) && j == 0 ==> k'.cur == k.ready[0]
  {
  }

  lemma MovesUp(states: seq<Kernel>, ops: seq<Op>, to: nat, j: nat)
    requires Run(states, ops) && 0 < to <= |ops| && j < |states[to - 1].ready|
    ensures var turn := if Schedules(states[to - 1], ops[to - 1]) then 1 else 0;
            turn <= j ==> j - turn < |states[to].ready| && states[to].ready[j - turn] == states[to - 1].ready[j]
  {
    RunStep(states, ops, to - 1);
    ReadyMoves(states[to - 1], ops[to - 1], states[to], j);
  }

  /** A thread moves up by one place at every call of schedule and stays put otherwise. */
  lemma {:induction false} QueuePosition(states: seq<Kernel>, ops: seq<Op>, from: nat, to: nat, i: nat)
    requires Run(states, ops) && from <= to <= |ops|
    requires i < |states[from].ready| && Turns(states, ops, from, to) <= i
    ensures var j := i - Turns(states, ops, from, to);
            j < |states[to].ready| && states[to].ready[j] == states[from].ready[i]
  {
    if from < to {
      QueuePosition(states, ops, from, to - 1, i);
      MovesUp(states, ops, to, i - Turns(states, ops, from, to - 1));
    }
  }

  /** A thread at place `i` of the ready list runs at exactly the (i+1)-th later call of schedule. */
  lemma RunsAtItsTurn(states: seq<Kernel>, ops: seq<Op>, from: nat, m: nat, i: nat)
    requires Run(states, ops) && Inv(states[0]) && from <= m < |ops| && i < |states[from].ready|
    requires Turns(states, ops, from, m) == i && Schedules(states[m], ops[m])
    ensures states[m + 1].cur == states[from].ready[i]
    ensures forall n :: from <= n <= m ==> states[n].cur != states[from].ready[i]
  {
    QueuePosition(states, ops, from, m, i);
    RunStep(states, ops, m);
    ReadyMoves(states[m], ops[m], states[m + 1], 0);
    forall n | from <= n <= m
      ensures states[n].cur != states[from].ready[i]
    {
      TurnsGrow(states, ops, from, n, m);
      QueuePosition(states, ops, from, n, i);
      RunKeepsInv(states, ops, n);
      assert states[from].ready[i] in states[n].ready;
    }
  }

  lemma {:induction false} TurnsGrow(states: seq<Kernel>, ops: seq<Op>, from: nat, n: nat, m: nat)
    requires from <= n <= m <= |ops| < |states|
    ensures Turns(states, ops, from, n) <= Turns(states, ops, from, m)
  {
    if n < m {
      TurnsGrow(states, ops, from, n, m - 1);
    }
  }

  // ----- what a semaphore counts -----

  /** Whether a step completes a down on `s`. */
  predicate Takes(k: Kernel, op: Op, s: SemaId) {
    (op == Down(s) || op == TryDown(s)) && s in k.semas && k.semas[s].value > 0
  }

  function Downs(states: seq<Kernel>, ops: seq<Op>, s: SemaId, n: nat): nat
    requires n <= |ops| < |states|
  {
    if n == 0 then 0 else Downs(states, ops, s, n - 1) + if Takes(states[n - 1], ops[n - 1], s) then 1 else 0
  }

  function Ups(ops: seq<Op>, s: SemaId, n: nat): nat
    requires n <= |ops|
  {
    if n == 0 then 0 else Ups(ops, s, n - 1) + if ops[n - 1] == Up(s) then 1 else 0
  }

  predicate Untouched(ops: seq<Op>, s: SemaId, n: nat)
    requires n <= |ops|
  {
    forall i :: 0 <= i < n ==> !(ops[i].Init? && ops[i].s == s)
  }

  lemma StepValue(k: Kernel, op: Op, s: SemaId)
    requires CanStep(k, op) && s in k.semas && !(op.Init? && op.s == s)
    ensures s in Step(k, op).semas
    ensures Step(k, op).semas[s].value ==
            k.semas[s].value + (if op == Up(s) then 1 else 0) - (if Takes(k, op, s) then 1 else 0)
  {
  }

  /** In every interleaving the value is the initial value plus ups minus completed downs. */
  lemma {:induction false} ValueCounts(states: seq<Kernel>, ops: seq<Op>, s: SemaId, n: nat)
    requires Run(states, ops) && n <= |ops| && s in states[0].semas && Untouched(ops, s, n)
    ensures s in states[n].semas
    ensures states[n].semas[s].value == states[0].semas[s].value + Ups(ops, s, n) - Downs(states, ops, s, n)
  {
    if n > 0 {
      assert Untouched(ops, s, n - 1);
      ValueCounts(states, ops, s, n - 1);
      RunStep(states, ops, n - 1);
      StepValue(states[n - 1], ops[n - 1], s);
    }
  }

  // ----- who is woken -----

  /** Ups of `s` among the steps `from` up to `to`. */
  function UpsSince(ops: seq<Op>, s: SemaId, from: nat, to: nat): nat
    requires from <= to <= |ops|
  {
    if from == to then 0 else UpsSince(ops, s, from, to - 1) + if ops[to - 1] == Up(s) then 1 else 0
  }

  lemma WaitersMove(k: Kernel, op: Op, s: SemaId)
    requires CanStep(k, op) && s in k.semas && !(op.Init? && op.s == s)
    ensures s in Step(k, op).semas
    ensures op != Up(s) ==> k.semas[s].waiters <= Step(k, op).semas[s].waiters
    ensures op == Up(s) && k.semas[s].waiters != [] ==> Step(k, op).semas[s].waiters == k.semas[s].waiters[1..]
  {
  }

  /** A waiting thread moves up one place at each up of its semaphore, whatever else happens. */
  lemma {:induction false} WaitPosition(states: seq<Kernel>, ops: seq<Op>, s: SemaId, from: nat, to: nat, i: nat)
    requires Run(states, ops) && from <= to <= |ops| && Untouched(ops, s, |ops|)
    requires s in states[from].semas && i < |states[from].semas[s].waiters| && UpsSince(ops, s, from, to) <= i
    ensures var j := i - UpsSince(ops, s, from, to);
            && s in states[to].semas && j < |states[to].semas[s].waiters|
            && states[to].semas[s].waiters[j] == states[from].semas[s].waiters[i]
  {
    if from < to {
      WaitPosition(states, ops, s, from, to - 1, i);
      RunStep(states, ops, to - 1);
      WaitersMove(states[to - 1], ops[to - 1], s);
    }
  }

  /** A thread at place `i` of a waiters list is made ready by exactly the (i+1)-th later up. */
  lemma WokenInOrder(states: seq<Kernel>, ops: seq<Op>, s: SemaId, from: nat, m: nat, i: nat)
    requires Run(states, ops) && Inv(states[0]) && from <= m < |ops| && Untouched(ops, s, |ops|)
    requires s in states[from].semas && i < |states[from].semas[s].waiters|
    requires UpsSince(ops, s, from, m) == i && ops[m] == Up(s)
    ensures var t := states[from].semas[s].waiters[i];
            && t in states[m].status && states[m].status[t] == Blocked
            && t in states[m + 1].status && states[m + 1].status[t] == Ready && t in states[m + 1].ready
  {
    WaitPosition(states, ops, s, from, m, i);
    RunKeepsInv(states, ops, m);
    RunStep(states, ops, m);
    FirstWaiter(states[m], s);
  }

  /** An exiting thread's page is freed once another thread runs, unless it is the initial thread's. */
  lemma ExitFreesAfterSwitch(k: Kernel)
    requires Inv(k) && CanStep(k, Exit)
    ensures Step(k, Exit).cur != k.cur && k.cur !in Step(k, Exit).ready
    ensures k.cur in Step(k, Exit).status <==> k.cur == k.initial
  {
    StepKeeps(k, Exit);
    assert k.ready != [] ==> k.ready[0] in k.ready;
  }

  // ----- what each step does -----

  /** A down that has to wait: the thread is blocked and last in line. */
  lemma DownWaits(k: Kernel, s: SemaId)
    requires Inv(k) && CanStep(k, Down(s)) && k.semas[s].value == 0
    ensures var k' := Step(k, Down(s));
            && s in k'.semas && k'.semas[s] == Sema(0, k.semas[s].waiters + [k.cur])
            && k.cur in k'.status && k'.status[k.cur] == Blocked && k'.cur != k.cur
  {
    assert k.ready != [] ==> k.ready[0] in k.ready;
  }

  /** An up: the value rises and the first in line, if any, leaves the line and is ready to run. */
  lemma UpWakes(k: Kernel, s: SemaId)
    requires Inv(k) && CanStep(k, Up(s))
    ensures var k', line := Step(k, Up(s)), k.semas[s].waiters;
            && s in k'.semas && k'.cur == k.cur
            && k'.semas[s] == Sema(k.semas[s].value + 1, if line == [] then [] else line[1..])
            && (line != [] ==> k'.ready == k.ready + [line[0]] && line[0] in k'.status && k'.status[line[0]] == Ready)
            && (line == [] ==> k'.ready == k.ready && k'.status == k.status)
  {
  }

  /** A new thread is blocked and nothing else changes; unblocking puts a thread last on the ready list. */
  lemma NewAndUnblock(k: Kernel, t: Tid)
    ensures CanStep(k, New(t)) ==> Step(k, New(t)) == k.(status := k.status[t := Blocked])
    ensures CanStep(k, Unblock(t)) ==>
              var k' := Step(k, Unblock(t));
              k'.ready == k.ready + [t] && t in k'.status && k'.status[t] == Ready && k'.cur == k.cur && k'.semas == k.semas
  {
  }

  /** A yield: with nobody else ready the thread goes on; otherwise the first ready thread runs and the yielder is last
      in line, unless it is the idle thread, which is never on the list. */
  lemma YieldRotates(k: Kernel)
    requires Inv(k) && CanStep(k, Yield)
    ensures var k' := Step(k, Yield);
            && k'.status.Keys == k.status.Keys && k'.semas == k.semas
            && if k.ready == [] then k'.cur == k.cur && k'.ready == [] && k'.status == k.status
               else && k'.cur == k.ready[0] && k'.ready == k.ready[1..] + (if k.cur == k.idle then [] else [k.cur])
                    && k'.status[k.cur] == Ready
  {
    if k.ready != [] {
      assert k.ready[0] in k.ready;
      assert (k.ready + [k.cur])[1..] == k.ready[1..] + [k.cur];
    } else if k.cur != k.idle {
      assert [k.cur][1..] == [];
    }
    assert k.status[k.cur := Ready][k.cur := Running] == k.status;
  }

  /** The idle thread blocks itself and lets the first ready thread run, if there is one. */
  lemma IdleGivesWay(k: Kernel)
    requires Inv(k) && CanStep(k, IdleBlock)
    ensures var k' := Step(k, IdleBlock);
            k'.semas == k.semas && k'.cur == (if k.ready == [] then k.idle else k.ready[0])
            && (k.ready != [] ==> k'.ready == k.ready[1..] && k'.status[k.idle] == Blocked)
  {
    assert k.ready != [] ==> k.ready[0] in k.ready;
  }

  /** The running thread can always go on: one that has woken inside a down makes another pass of its loop, any other
      can yield, take or raise any semaphore, and exit unless it is the idle thread. */
  lemma CanGoOn(k: Kernel, s: SemaId)
    requires Inv(k)
    ensures k.cur in k.inDown ==> CanStep(k, Down(k.inDown[k.cur]))
    ensures k.cur !in k.inDown ==>
              && CanStep(k, Yield) && (k.cur != k.idle ==> CanStep(k, Exit))
              && (s in k.semas ==> CanStep(k, Up(s)) && CanStep(k, TryDown(s)) && (k.cur != k.idle ==> CanStep(k, Down(s))))
  {
    assert k.cur in k.inDown ==> DownOk(k, k.cur);
  }
}
