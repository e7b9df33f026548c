/** The scheduler and the semaphores as they run, updating thread status and lists in place. */
module Scheduler {
  import opened ThreadState
  import opened ThreadSafety

  class Threads {
    var status: map<Tid, Status>
    var ready: seq<Tid>
    var semas: map<SemaId, Sema>
    ghost var inDown: map<Tid, SemaId>
    var cur: Tid
    const idle: Tid
    const initial: Tid

    ghost function State(): Kernel
      reads this
    {
      Kernel(status, ready, semas, inDown, cur, idle, initial)
    }

    /** As thread_start leaves it: the initial thread runs and the idle thread has blocked itself. */
    constructor (first: Tid, idler: Tid)
      requires first != idler
      ensures Inv(State()) && cur == first && ready == [] && semas == map[]
    {
      cur, idle, initial := first, idler, first;
      status, ready, semas, inDown := map[first := Running, idler := Blocked], [], map[], map[];
    }

    method NextThreadToRun() returns (next: Tid)
      modifies `ready
      ensures next == NextToRun(old(State()))
      ensures ready == if old(ready) == [] then [] else old(ready)[1..]
    {
      if ready == [] {
        return idle;
      }
      next := ready[0];
      ready := ready[1..];
    }

    method Reschedule()
      requires cur in status
      modifies this
      ensures State() == Schedule(old(State()))
    {
      var prev := cur;
      var next := NextThreadToRun();
      cur := next;
      status := status[cur := Running];
      if prev != next && status[prev] == Dying && prev != initial {
        status := status - {prev};
      }
    }

    method Block()
      requires cur in status
      modifies this
      ensures State() == Schedule(old(State()).(status := old(status)[old(cur) := Blocked]))
    {
      status := status[cur := Blocked];
      Reschedule();
    }

    method MakeReady(t: Tid)
      modifies `ready, `status
      ensures State() == ThreadUnblock(old(State()), t)
    {
      ready := ready + [t];
      status := status[t := Ready];
    }

    /** thread_create up to the point where the new thread exists but has not been unblocked. */
    method NewThread(t: Tid)
      requires Inv(State()) && CanStep(State(), New(t))
      modifies `status
      ensures State() == Step(old(State()), New(t)) && Inv(State())
    {
      StepKeeps(State(), New(t));
      status := status[t := Blocked];
    }

    /** thread_unblock */
    method UnblockThread(t: Tid)
      requires Inv(State()) && CanStep(State(), Unblock(t))
      modifies `ready, `status
      ensures State() == Step(old(State()), Unblock(t)) && Inv(State())
    {
      StepKeeps(State(), Unblock(t));
      MakeReady(t);
    }

    /** thread_yield */
    method YieldThread()
      requires Inv(State()) && CanStep(State(), Yield)
      modifies this
      ensures State() == Step(old(State()), Yield) && Inv(State())
    {
      StepKeeps(State(), Yield);
      if cur != idle {
        ready := ready + [cur];
      }
      status := status[cur := Ready];
      assert ready == old(ready) + if old(cur) != idle then [old(cur)] else [];
      Reschedule();
    }

    /** The idle thread's call of thread_block. */
    method IdleWait()
      requires Inv(State()) && CanStep(State(), IdleBlock)
      modifies this
      ensures State() == Step(old(State()), IdleBlock) && Inv(State())
    {
      StepKeeps(State(), IdleBlock);
      Block();
    }

    /** The last part of thread_exit. */
    method ExitThread()
      requires Inv(State()) && CanStep(State(), Exit)
      modifies this
      ensures State() == Step(old(State()), Exit) && Inv(State())
    {
      StepKeeps(State(), Exit);
      status := status[cur := Dying];
      Reschedule();
    }

    method SemaInit(s: SemaId, value: nat)
      requires Inv(State()) && CanStep(State(), Init(s, value))
      modifies `semas
      ensures State() == Step(old(State()), Init(s, value)) && Inv(State())
    {
      StepKeeps(State(), Init(s, value));
      semas := semas[s := Sema(value, [])];
    }

    /** One pass of the wait loop of sema_down; `done` says the down has completed. */
    method SemaDownPass(s: SemaId) returns (done: bool)
      requires Inv(State()) && CanStep(State(), Down(s))
      modifies this
      ensures State() == Step(old(State()), Down(s)) && Inv(State())
      ensures done <==> old(semas)[s].value > 0
      ensures !done ==> old(cur) in semas[s].waiters && cur != old(cur)
    {
      StepKeeps(State(), Down(s));
      done := semas[s].value != 0;
      if done {
        inDown := inDown - {cur};
        semas := semas[s := semas[s].(value := semas[s].value - 1)];
      } else {
        inDown := inDown[cur := s];
        semas := semas[s := semas[s].(waiters := semas[s].waiters + [cur])];
        assert cur !in ready;
        Block();
      }
    }

    method SemaTryDown(s: SemaId) returns (success: bool)
      requires Inv(State()) && CanStep(State(), TryDown(s))
      modifies `semas
      ensures State() == Step(old(State()), TryDown(s)) && Inv(State())
      ensures success <==> old(semas)[s].value > 0
    {
      StepKeeps(State(), TryDown(s));
      success := semas[s].value > 0;
      if success {
        semas := semas[s := semas[s].(value := semas[s].value - 1)];
      }
    }

    method SemaUp(s: SemaId)
      requires Inv(State()) && CanStep(State(), Up(s))
      modifies `semas, `ready, `status
      ensures State() == Step(old(State()), Up(s)) && Inv(State())
    {
      StepKeeps(State(), Up(s));
      RaiseAndWake(s);
    }

    method RaiseAndWake(s: SemaId)
      requires s in semas
      modifies `semas, `ready, `status
      ensures State() == ThreadState.SemaUp(old(State()), s)
    {
      WakeFirst(s);
      semas := semas[s := semas[s].(value := semas[s].value + 1)];
      assert semas == ThreadState.SemaUp(old(State()), s).semas;
    }

    /** Makes the longest waiting thread ready, if there is one. */
    method WakeFirst(s: SemaId)
      requires s in semas
      modifies `semas, `ready, `status
      ensures var waiters := old(semas)[s].waiters;
              if waiters == [] then State() == old(State())
              else State() == ThreadUnblock(old(State()), waiters[0]).(semas := old(semas)[s := Sema(old(semas)[s].value, waiters[1..])])
    {
      var waiters := semas[s].waiters;
      if waiters != [] {
        semas := semas[s := semas[s].(waiters := waiters[1..])];
        MakeReady(waiters[0]);
      }
    }
  }
}
