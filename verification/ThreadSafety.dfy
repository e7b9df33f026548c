/** What every run of the scheduler and the semaphores keeps. */
module ThreadSafety {
  import opened Common
  import opened ThreadState

  ghost predicate ReadyOk(k: Kernel) {
    && NoDup(k.ready)
    && forall t :: t in k.ready <==> t in k.status && k.status[t] == Ready && t != k.idle
  }

  ghost predicate StatusOk(k: Kernel) {
    && k.cur in k.status && k.idle in k.status
    && (forall t :: t in k.status ==> (k.status[t] == Running <==> t == k.cur))
    && (forall t :: t in k.status && k.status[t] == Dying ==> t == k.initial && t != k.idle)
  }

  ghost predicate DownOk(k: Kernel, t: Tid)
    requires t in k.inDown
  {
    t in k.status && t != k.idle && k.status[t] != Dying && k.inDown[t] in k.semas
  }

  /** The waiters of a semaphore are exactly the blocked threads in its wait loop. */
  ghost predicate WaitersOk(k: Kernel, s: SemaId)
    requires s in k.semas
  {
    && NoDup(k.semas[s].waiters)
    && forall t :: t in k.semas[s].waiters <==> t in k.inDown && k.inDown[t] == s && t in k.status && k.status[t] == Blocked
  }

  /** Threads woken from a semaphore that have not yet run again. */
  function Woken(k: Kernel, s: SemaId): set<Tid> {
    set t | t in k.inDown && k.inDown[t] == s && t in k.status && k.status[t] != Blocked
  }

  /** No wakeup is lost: while someone waits, every unit of the value is spoken for. */
  ghost predicate NoLostWakeup(k: Kernel, s: SemaId)
    requires s in k.semas
  {
    k.semas[s].waiters != [] ==> k.semas[s].value <= |Woken(k, s)|
  }

  ghost predicate Inv(k: Kernel) {
    && ReadyOk(k) && StatusOk(k)
    && (forall t :: t in k.inDown ==> DownOk(k, t))
    && (forall s :: s in k.semas ==> WaitersOk(k, s) && NoLostWakeup(k, s))
  }

  // ----- schedule -----

  /** The state schedule is entered in: the old thread has given up the processor and no one has it yet. */
  ghost predicate Between(k: Kernel) {
    && ReadyOk(k) && k.cur in k.status && k.idle in k.status
    && (forall t :: t in k.status ==> k.status[t] != Running)
    && (forall t :: t in k.status && k.status[t] == Dying ==> (t == k.initial || t == k.cur) && t != k.idle)
    && (forall t :: t in k.inDown ==> DownOk(k, t))
    && (forall s :: s in k.semas ==> WaitersOk(k, s) && NoLostWakeup(k, s))
  }

  lemma ScheduleReady(k: Kernel)
    requires Between(k)
    ensures ReadyOk(Schedule(k)) && StatusOk(Schedule(k))
  {
    var k' := Schedule(k);
    if k.ready != [] {
      assert k.ready == [k.ready[0]] + k.ready[1..];
      assert k.ready[0] in k.ready;
      assert k.ready[0] !in k.ready[1..];
    }
    forall t
      ensures t in k'.ready <==> t in k'.status && k'.status[t] == Ready && t != k'.idle
    {
      assert t in k.ready <==> t in k.status && k.status[t] == Ready && t != k.idle;
    }
  }

  lemma ScheduleStatus(k: Kernel, t: Tid)
    requires Between(k) && t in k.inDown
    ensures DownOk(Schedule(k), t)
    ensures Schedule(k).status[t] == Blocked <==> k.status[t] == Blocked
  {
    assert DownOk(k, t);
    assert k.ready != [] ==> k.ready[0] in k.ready;
  }

  /** A semaphore's condition depends only on its own value and on which threads in its loop are blocked. */
  lemma SemaCarries(k: Kernel, k': Kernel, s: SemaId)
    requires s in k.semas && s in k'.semas && k'.semas[s] == k.semas[s]
    requires WaitersOk(k, s) && NoLostWakeup(k, s)
    requires forall t :: (t in k.inDown && k.inDown[t] == s) <==> (t in k'.inDown && k'.inDown[t] == s)
    requires forall t :: t in k.inDown && k.inDown[t] == s ==>
                           t in k.status && t in k'.status && (k'.status[t] == Blocked <==> k.status[t] == Blocked)
    ensures WaitersOk(k', s) && NoLostWakeup(k', s)
  {
    assert Woken(k', s) == Woken(k, s);
  }

  /** schedule hands the processor to exactly one thread and disturbs no list. */
  lemma ScheduleKeeps(k: Kernel)
    requires Between(k)
    ensures Inv(Schedule(k))
  {
    var k' := Schedule(k);
    ScheduleReady(k);
    forall t | t in k.inDown
      ensures DownOk(k, t) && DownOk(k', t) && (k'.status[t] == Blocked <==> k.status[t] == Blocked)
    {
      ScheduleStatus(k, t);
    }
    forall s | s in k.semas
      ensures WaitersOk(k', s) && NoLostWakeup(k', s)
    {
      SemaCarries(k, k', s);
    }
  }

  lemma LeaveReady(k: Kernel, status: Status)
    requires ReadyOk(k) && StatusOk(k)
    requires status == Ready || (status == Blocked && k.cur == k.idle) || (status == Dying && k.cur != k.idle)
    ensures var ready := k.ready + if status == Ready && k.cur != k.idle then [k.cur] else [];
            ReadyOk(k.(ready := ready, status := k.status[k.cur := status]))
  {
    assert k.cur !in k.ready;
  }

  /** The running thread gives up the processor with a new status, joining the ready list if it stays ready. */
  lemma LeaveKeeps(k: Kernel, status: Status)
    requires Inv(k) && k.cur !in k.inDown
    requires status == Ready || (status == Blocked && k.cur == k.idle) || (status == Dying && k.cur != k.idle)
    ensures var ready := k.ready + if status == Ready && k.cur != k.idle then [k.cur] else [];
            Between(k.(ready := ready, status := k.status[k.cur := status]))
  {
    var ready := k.ready + if status == Ready && k.cur != k.idle then [k.cur] else [];
    var k' := k.(ready := ready, status := k.status[k.cur := status]);
    LeaveReady(k, status);
    forall t | t in k.inDown
      ensures DownOk(k, t) && DownOk(k', t) && k'.status[t] == k.status[t]
    {
    }
    forall s | s in k.semas
      ensures WaitersOk(k', s) && NoLostWakeup(k', s)
    {
      SemaCarries(k, k', s);
    }
  }

  // ----- making threads -----

  lemma NewReady(k: Kernel, t: Tid)
    requires ReadyOk(k) && StatusOk(k) && t !in k.status
    ensures ReadyOk(k.(status := k.status[t := Blocked])) && StatusOk(k.(status := k.status[t := Blocked]))
  {
    assert t !in k.ready;
  }

  lemma NewKeeps(k: Kernel, t: Tid)
    requires Inv(k) && t !in k.status
    ensures Inv(k.(status := k.status[t := Blocked]))
  {
    var k' := k.(status := k.status[t := Blocked]);
    NewReady(k, t);
    forall u | u in k.inDown
      ensures DownOk(k, u) && DownOk(k', u) && k'.status[u] == k.status[u]
    {
    }
    forall s | s in k.semas
      ensures WaitersOk(k', s) && NoLostWakeup(k', s)
    {
      SemaCarries(k, k', s);
    }
  }

  lemma UnblockReady(k: Kernel, t: Tid)
    requires ReadyOk(k) && StatusOk(k) && t in k.status && k.status[t] == Blocked && t != k.idle
    ensures ReadyOk(ThreadUnblock(k, t)) && StatusOk(ThreadUnblock(k, t))
  {
    assert t !in k.ready;
  }

  lemma UnblockKeeps(k: Kernel, t: Tid)
    requires Inv(k) && t in k.status && k.status[t] == Blocked && t != k.idle && t !in k.inDown
    ensures Inv(ThreadUnblock(k, t))
  {
    var k' := ThreadUnblock(k, t);
    UnblockReady(k, t);
    forall u | u in k.inDown
      ensures DownOk(k, u) && DownOk(k', u) && k'.status[u] == k.status[u]
    {
    }
    forall s | s in k.semas
      ensures WaitersOk(k', s) && NoLostWakeup(k', s)
    {
      SemaCarries(k, k', s);
    }
  }

  // ----- semaphores -----

  lemma InitKeeps(k: Kernel, s: SemaId, value: nat)
    requires Inv(k) && forall t :: t in k.inDown ==> k.inDown[t] != s
    ensures Inv(k.(semas := k.semas[s := Sema(value, [])]))
  {
    var k' := k.(semas := k.semas[s := Sema(value, [])]);
    assert ReadyOk(k') && StatusOk(k');
    forall t | t in k.inDown
      ensures DownOk(k, t) && DownOk(k', t)
    {
    }
    forall r | r in k'.semas
      ensures WaitersOk(k', r) && NoLostWakeup(k', r)
    {
      if r != s {
        SemaCarries(k, k', r);
      } else {
        InitOwn(k', s, value);
      }
    }
  }

  lemma InitOwn(k: Kernel, s: SemaId, value: nat)
    requires s in k.semas && k.semas[s] == Sema(value, []) && forall t :: t in k.inDown ==> k.inDown[t] != s
    ensures WaitersOk(k, s) && NoLostWakeup(k, s)
  {
  }

  /** The state in which sema_down calls thread_block. */
  function Waiting(k: Kernel, s: SemaId): Kernel
    requires s in k.semas
  {
    k.(semas := k.semas[s := k.semas[s].(waiters := k.semas[s].waiters + [k.cur])],
       inDown := k.inDown[k.cur := s], status := k.status[k.cur := Blocked])
  }

  lemma WaitingOwn(k: Kernel, s: SemaId)
    requires Inv(k) && s in k.semas && k.semas[s].value == 0 && k.cur != k.idle
    requires k.cur in k.inDown ==> k.inDown[k.cur] == s
    ensures WaitersOk(Waiting(k, s), s) && NoLostWakeup(Waiting(k, s), s)
  {
    assert WaitersOk(k, s) && k.cur !in k.semas[s].waiters;
    var k' := Waiting(k, s);
    forall t
      ensures t in k'.semas[s].waiters <==> t in k'.inDown && k'.inDown[t] == s && t in k'.status && k'.status[t] == Blocked
    {
      assert t in k'.semas[s].waiters <==> t in k.semas[s].waiters || t == k.cur;
    }
  }

  lemma WaitingReady(k: Kernel, s: SemaId)
    requires ReadyOk(k) && StatusOk(k) && s in k.semas && k.cur != k.idle
    ensures ReadyOk(Waiting(k, s))
  {
    assert k.cur !in k.ready;
  }

  lemma WaitingDown(k: Kernel, s: SemaId, t: Tid)
    requires Inv(k) && s in k.semas && k.cur != k.idle && t in Waiting(k, s).inDown
    ensures var k' := Waiting(k, s);
            DownOk(k', t) && (t != k.cur ==> t in k.inDown && k'.inDown[t] == k.inDown[t] && k'.status[t] == k.status[t])
  {
    assert t != k.cur ==> DownOk(k, t);
  }

  lemma WaitingOthers(k: Kernel, s: SemaId, r: SemaId)
    requires Inv(k) && s in k.semas && k.cur != k.idle && r in k.semas && r != s
    requires k.cur in k.inDown ==> k.inDown[k.cur] == s
    ensures WaitersOk(Waiting(k, s), r) && NoLostWakeup(Waiting(k, s), r)
  {
    forall t | t in Waiting(k, s).inDown
      ensures t != k.cur ==> t in k.inDown && DownOk(k, t) && Waiting(k, s).status[t] == k.status[t]
    {
      WaitingDown(k, s, t);
    }
    SemaCarries(k, Waiting(k, s), r);
  }

  lemma WaitingBetween(k: Kernel, s: SemaId)
    requires Inv(k) && s in k.semas && k.semas[s].value == 0 && k.cur != k.idle
    requires k.cur in k.inDown ==> k.inDown[k.cur] == s
    ensures Between(Waiting(k, s))
  {
    var k' := Waiting(k, s);
    WaitingReady(k, s);
    forall t | t in k'.inDown
      ensures DownOk(k', t)
    {
      WaitingDown(k, s, t);
    }
    forall r | r in k'.semas
      ensures WaitersOk(k', r) && NoLostWakeup(k', r)
    {
      if r != s {
        WaitingOthers(k, s, r);
      } else {
        WaitingOwn(k, s);
      }
    }
  }

  lemma TakeWaiters(k: Kernel, k': Kernel, s: SemaId)
    requires Inv(k) && s in k.semas && s in k'.semas && k'.status == k.status
    requires k'.semas[s].waiters == k.semas[s].waiters && k'.inDown == k.inDown - {k.cur}
    ensures WaitersOk(k', s)
  {
    assert WaitersOk(k, s) && k.status[k.cur] == Running;
  }

  /** A completed down: the value falls by one and a thread that was woken for it leaves the loop. */
  lemma TakeOwn(k: Kernel, k': Kernel, s: SemaId)
    requires Inv(k) && s in k.semas && k.semas[s].value > 0 && k'.status == k.status
    requires s in k'.semas && k'.semas[s] == k.semas[s].(value := k.semas[s].value - 1)
    requires k'.inDown == k.inDown - {k.cur}
    ensures WaitersOk(k', s) && NoLostWakeup(k', s)
  {
    assert NoLostWakeup(k, s);
    TakeWaiters(k, k', s);
    assert Woken(k', s) == Woken(k, s) - {k.cur};
  }

  lemma TakeKeeps(k: Kernel, s: SemaId)
    requires Inv(k) && s in k.semas && k.semas[s].value > 0
    requires k.cur in k.inDown ==> k.inDown[k.cur] == s
    ensures Inv(SemaTryDown(k, s).(inDown := k.inDown - {k.cur}))
  {
    var k' := SemaTryDown(k, s).(inDown := k.inDown - {k.cur});
    forall t | t in k'.inDown
      ensures DownOk(k, t) && DownOk(k', t)
    {
    }
    forall r | r in k'.semas
      ensures WaitersOk(k', r) && NoLostWakeup(k', r)
    {
      if r != s {
        assert forall t :: t in k.inDown ==> DownOk(k, t);
        SemaCarries(k, k', r);
      } else {
        TakeOwn(k, k', s);
      }
    }
  }

  lemma FirstWaiter(k: Kernel, s: SemaId)
    requires Inv(k) && s in k.semas && k.semas[s].waiters != []
    ensures var t := k.semas[s].waiters[0];
            t in k.inDown && k.inDown[t] == s && t in k.status && k.status[t] == Blocked && t != k.idle
    ensures k.semas[s].waiters[0] !in k.semas[s].waiters[1..]
  {
    assert WaitersOk(k, s) && k.semas[s].waiters[0] in k.semas[s].waiters;
    assert DownOk(k, k.semas[s].waiters[0]);
  }

  lemma UpOwn(k: Kernel, s: SemaId)
    requires Inv(k) && s in k.semas
    ensures WaitersOk(SemaUp(k, s), s) && NoLostWakeup(SemaUp(k, s), s)
  {
    var k', waiters := SemaUp(k, s), k.semas[s].waiters;
    assert WaitersOk(k, s) && NoLostWakeup(k, s);
    if waiters == [] {
      assert Woken(k', s) == Woken(k, s);
    } else {
      FirstWaiter(k, s);
      assert waiters == [waiters[0]] + waiters[1..];
      assert Woken(k', s) == Woken(k, s) + {waiters[0]};
    }
  }

  lemma UpKeeps(k: Kernel, s: SemaId)
    requires Inv(k) && s in k.semas
    ensures Inv(SemaUp(k, s))
  {
    var k' := SemaUp(k, s);
    if k.semas[s].waiters != [] {
      FirstWaiter(k, s);
      UnblockReady(k, k.semas[s].waiters[0]);
    }
    forall t | t in k.inDown
      ensures DownOk(k, t) && DownOk(k', t) && (k.inDown[t] != s ==> k'.status[t] == k.status[t])
    {
    }
    forall r | r in k'.semas
      ensures WaitersOk(k', r) && NoLostWakeup(k', r)
    {
      if r != s {
        SemaCarries(k, k', r);
      } else {
        UpOwn(k, s);
      }
    }
  }

  // ----- runs -----

  /** Every step keeps the invariant. */
  lemma StepKeeps(k: Kernel, op: Op)
    requires Inv(k) && CanStep(k, op)
    ensures Inv(Step(k, op))
  {
    match op
    case Yield =>
      LeaveKeeps(k, Ready);
      ScheduleKeeps(k.(ready := k.ready + (if k.cur != k.idle then [k.cur] else []), status := k.status[k.cur := Ready]));
    case IdleBlock =>
      LeaveKeeps(k, Blocked);
      assert k.ready + [] == k.ready;
      ScheduleKeeps(k.(status := k.status[k.cur := Blocked]));
    case New(t) => NewKeeps(k, t);
    case Unblock(t) => UnblockKeeps(k, t);
    case Init(s, value) => InitKeeps(k, s, value);
    case Down(s) =>
      if k.semas[s].value == 0 {
        WaitingBetween(k, s);
        ScheduleKeeps(Waiting(k, s));
      } else {
        TakeKeeps(k, s);
      }
    case TryDown(s) =>
      if k.semas[s].value > 0 {
        TakeKeeps(k, s);
        assert k.inDown - {k.cur} == k.inDown;
      }
    case Up(s) => UpKeeps(k, s);
    case Exit =>
      LeaveKeeps(k, Dying);
      assert k.ready + [] == k.ready;
      ScheduleKeeps(k.(status := k.status[k.cur := Dying]));
  }

  lemma RunStep(states: seq<Kernel>, ops: seq<Op>, n: nat)
    requires Run(states, ops) && n < |ops|
    ensures CanStep(states[n], ops[n]) && states[n + 1] == Step(states[n], ops[n])
  {
  }

  /** In every run exactly one thread runs, the ready list holds each ready thread once, and no lists share a
      thread. */
  lemma {:induction false} RunKeepsInv(states: seq<Kernel>, ops: seq<Op>, n: nat)
    requires Run(states, ops) && n <= |ops| && Inv(states[0])
    ensures Inv(states[n])
  {
    if n > 0 {
      RunKeepsInv(states, ops, n - 1);
      RunStep(states, ops, n - 1);
      StepKeeps(states[n - 1], ops[n - 1]);
    }
  }

  /** The lists threaded through a thread's one list element: the ready list and every waiters list. */
  lemma ListsDisjoint(k: Kernel, t: Tid, s: SemaId, r: SemaId)
    requires Inv(k) && s in k.semas && r in k.semas && t in k.semas[s].waiters
    ensures t !in k.ready && t != k.cur && t != k.idle
    ensures t in k.semas[r].waiters ==> r == s
  {
    assert WaitersOk(k, s) && WaitersOk(k, r) && DownOk(k, t);
  }
}
