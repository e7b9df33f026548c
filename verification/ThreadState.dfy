/** Threads, the ready list and semaphores, stepped at the points where interrupts are off.
    A step is what the running thread does between two such points; `Down` is one pass of the wait loop. */
module ThreadState {
  type Tid = nat
  type SemaId = nat

  datatype Status = Running | Ready | Blocked | Dying

  datatype Sema = Sema(value: nat, waiters: seq<Tid>)

  /** `inDown` says which threads are inside the wait loop of which semaphore. */
  datatype Kernel = Kernel(status: map<Tid, Status>, ready: seq<Tid>, semas: map<SemaId, Sema>,
                           inDown: map<Tid, SemaId>, cur: Tid, idle: Tid, initial: Tid)

  datatype Op = Yield | IdleBlock | New(t: Tid) | Unblock(t: Tid) | Init(s: SemaId, value: nat)
              | Down(s: SemaId) | TryDown(s: SemaId) | Up(s: SemaId) | Exit

  function NextToRun(k: Kernel): Tid {
    if k.ready == [] then k.idle else k.ready[0]
  }

  /** schedule and thread_schedule_tail: the next thread runs; a dying one it replaces is destroyed. */
  function Schedule(k: Kernel): Kernel
    requires k.cur in k.status
  {
    var next := NextToRun(k);
    var status := k.status[next := Running];
    var freed := k.cur != next && k.status[k.cur] == Dying && k.cur != k.initial;
    k.(cur := next, ready := if k.ready == [] then [] else k.ready[1..],
       status := if freed then status - {k.cur} else status)
  }

  function ThreadYield(k: Kernel): Kernel {
    Schedule(k.(ready := k.ready + (if k.cur != k.idle then [k.cur] else []), status := k.status[k.cur := Ready]))
  }

  function ThreadUnblock(k: Kernel, t: Tid): Kernel {
    k.(ready := k.ready + [t], status := k.status[t := Ready])
  }

  function SemaDown(k: Kernel, s: SemaId): Kernel
    requires s in k.semas
  {
    var sema := k.semas[s];
    if sema.value == 0
    then Schedule(k.(semas := k.semas[s := sema.(waiters := sema.waiters + [k.cur])],
                     inDown := k.inDown[k.cur := s], status := k.status[k.cur := Blocked]))
    else SemaTryDown(k, s).(inDown := k.inDown - {k.cur})
  }

  function SemaTryDown(k: Kernel, s: SemaId): Kernel
    requires s in k.semas
  {
    var sema := k.semas[s];
    if sema.value > 0 then k.(semas := k.semas[s := sema.(value := sema.value - 1)]) else k
  }

  function SemaUp(k: Kernel, s: SemaId): Kernel
    requires s in k.semas
  {
    var Sema(value, waiters) := k.semas[s];
    if waiters == [] then k.(semas := k.semas[s := Sema(value + 1, [])])
    else ThreadUnblock(k, waiters[0]).(semas := k.semas[s := Sema(value + 1, waiters[1..])])
  }

  /** What the kernel demands of the caller. A thread that wakes inside sema_down still has interrupts off,
      so the pass of its wait loop is the first thing it does. */
  predicate CanStep(k: Kernel, op: Op) {
    && k.cur in k.status
    && (k.cur in k.inDown ==> op == Down(k.inDown[k.cur]))
    && match op
       case Yield => true
       case IdleBlock => k.cur == k.idle
       case New(t) => t !in k.status
       case Unblock(t) => t in k.status && k.status[t] == Blocked && t !in k.inDown && t != k.idle
       case Init(s, _) => forall t :: t in k.inDown ==> k.inDown[t] != s
       case Down(s) => s in k.semas && k.cur != k.idle
       case TryDown(s) => s in k.semas
       case Up(s) => s in k.semas
       case Exit => k.cur != k.idle
  }

  function Step(k: Kernel, op: Op): Kernel
    requires CanStep(k, op)
  {
    match op
    case Yield => ThreadYield(k)
    case IdleBlock => Schedule(k.(status := k.status[k.cur := Blocked]))
    case New(t) => k.(status := k.status[t := Blocked])
    case Unblock(t) => ThreadUnblock(k, t)
    case Init(s, value) => k.(semas := k.semas[s := Sema(value, [])])
    case Down(s) => SemaDown(k, s)
    case TryDown(s) => SemaTryDown(k, s)
    case Up(s) => SemaUp(k, s)
    case Exit => Schedule(k.(status := k.status[k.cur := Dying]))
  }

  /** Whether a step calls schedule. */
  predicate Schedules(k: Kernel, op: Op) {
    match op
    case Yield => true
    case IdleBlock => true
    case Exit => true
    case Down(s) => s in k.semas && k.semas[s].value == 0
    case _ => false
  }

  predicate Run(states: seq<Kernel>, ops: seq<Op>) {
    && |states| == |ops| + 1
    && forall n :: 0 <= n < |ops| ==> CanStep(states[n], ops[n]) && states[n + 1] == Step(states[n], ops[n])
  }
}
