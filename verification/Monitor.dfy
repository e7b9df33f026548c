/** A lock and a condition variable used by any number of threads, over the scheduler and its semaphores.
    Every line of lock_acquire, lock_release, cond_wait and cond_signal that other threads can see is a step of
    its own, and other kernel activity may come between any two. */
module Monitor {
  import opened Common
  import opened ThreadState
  import opened ThreadSafety
  import opened ThreadRuns

  /** Where a thread stands in a monitor operation; a thread without a phase is outside. */
  datatype Phase =
    | Acquiring                          // in the sema_down of lock_acquire
    | Downed                             // past it, holder not yet written
    | Holding
    | Queued(s: SemaId)                  // in cond_wait, on the waiters list, before lock_release
    | Releasing(next: Option<SemaId>)    // in lock_release, holder cleared, semaphore not yet raised
    | Waiting(s: SemaId)                 // in the sema_down of cond_wait
    | Reacquire                          // in cond_wait, signalled, before lock_acquire

  /** `pushed`, `popped` and `returned` record every wait begun, every wait signalled and every wait that woke. */
  datatype Monitor = Monitor(k: Kernel, lock: SemaId, holder: Option<Tid>, phase: map<Tid, Phase>,
                             waiters: seq<SemaId>, pushed: seq<SemaId>, popped: seq<SemaId>, returned: set<SemaId>)

  datatype Act = Other(op: Op) | Lock | TryLock | SetHolder | ClearHolder | RaiseLock
               | StartWait(s: SemaId) | WaitDown | Signal

  predicate Mine(m: Monitor, s: SemaId) {
    s == m.lock || s in m.pushed
  }

  /** Activity outside the monitor leaves its semaphores alone, and no thread exits inside it. */
  predicate Foreign(m: Monitor, op: Op) {
    match op
    case Init(s, _) => !Mine(m, s)
    case Down(s) => !Mine(m, s)
    case TryDown(s) => !Mine(m, s)
    case Up(s) => !Mine(m, s)
    case Exit => m.k.cur !in m.phase
    case _ => true
  }

  predicate At(m: Monitor, p: Phase) {
    m.k.cur in m.phase && m.phase[m.k.cur] == p
  }

  predicate CanAct(m: Monitor, a: Act) {
    match a
    case Other(op) => CanStep(m.k, op) && Foreign(m, op)
    case Lock => (m.k.cur !in m.phase || At(m, Acquiring) || At(m, Reacquire)) && CanStep(m.k, Down(m.lock))
    case TryLock => m.k.cur !in m.phase && m.k.cur != m.k.idle && CanStep(m.k, TryDown(m.lock))
    case SetHolder => At(m, Downed) && m.k.cur !in m.k.inDown
    case ClearHolder => m.k.cur in m.phase && (m.phase[m.k.cur].Holding? || m.phase[m.k.cur].Queued?) && m.k.cur !in m.k.inDown
    case RaiseLock => m.k.cur in m.phase && m.phase[m.k.cur].Releasing? && CanStep(m.k, Up(m.lock))
    case StartWait(s) => At(m, Holding) && !Mine(m, s) && CanStep(m.k, Init(s, 0))
    case WaitDown => m.k.cur in m.phase && m.phase[m.k.cur].Waiting? && CanStep(m.k, Down(m.phase[m.k.cur].s))
    case Signal => At(m, Holding) && (m.waiters != [] ==> CanStep(m.k, Up(m.waiters[0])))
  }

  function Do(m: Monitor, a: Act): Monitor
    requires CanAct(m, a)
  {
    var t := m.k.cur;
    match a
    case Other(op) => m.(k := Step(m.k, op))
    case Lock =>
      m.(k := Step(m.k, Down(m.lock)), phase := m.phase[t := if m.k.semas[m.lock].value > 0 then Downed else Acquiring])
    case TryLock =>
      m.(k := Step(m.k, TryDown(m.lock)), phase := if m.k.semas[m.lock].value > 0 then m.phase[t := Downed] else m.phase)
    case SetHolder => m.(holder := Some(t), phase := m.phase[t := Holding])
    case ClearHolder =>
      m.(holder := None,
         phase := m.phase[t := Releasing(if m.phase[t].Queued? then Some(m.phase[t].s) else None)])
    case RaiseLock =>
      m.(k := Step(m.k, Up(m.lock)),
         phase := if m.phase[t].next.Some? then m.phase[t := Waiting(m.phase[t].next.value)] else m.phase - {t})
    case StartWait(s) =>
      m.(k := Step(m.k, Init(s, 0)), phase := m.phase[t := Queued(s)],
         waiters := m.waiters + [s], pushed := m.pushed + [s])
    case WaitDown =>
      var s := m.phase[t].s;
      if m.k.semas[s].value > 0
      then m.(k := Step(m.k, Down(s)), phase := m.phase[t := Reacquire], returned := m.returned + {s})
      else m.(k := Step(m.k, Down(s)))
    case Signal =>
      if m.waiters == [] then m else
      m.(k := Step(m.k, Up(m.waiters[0])), waiters := m.waiters[1..], popped := m.popped + [m.waiters[0]])
  }

  // ----- invariant -----

  predicate IsInside(p: Phase) {
    p.Downed? || p.Holding? || p.Queued? || p.Releasing?
  }

  /** Threads between the down of an acquire and the up of the matching release. */
  function Inside(phase: map<Tid, Phase>): set<Tid> {
    set t | t in phase && IsInside(phase[t])
  }

  ghost predicate LockOk(m: Monitor) {
    && m.lock in m.k.semas && m.lock !in m.pushed
    && |Inside(m.phase)| + m.k.semas[m.lock].value == 1
    && (m.holder.Some? ==> m.holder.value in m.phase)
    && (forall t :: t in m.phase ==> ((m.phase[t].Holding? || m.phase[t].Queued?) <==> m.holder == Some(t)))
  }

  ghost predicate PhaseOk(m: Monitor) {
    && (forall t :: t in m.phase ==> t in m.k.status && t != m.k.idle)
    && (forall t :: t in m.k.inDown && m.k.inDown[t] == m.lock ==> t in m.phase && m.phase[t] == Acquiring)
    && (forall t :: t in m.k.inDown && m.k.inDown[t] in m.pushed ==> t in m.phase && m.phase[t] == Waiting(m.k.inDown[t]))
  }

  /** The wait a phase refers to, if any, has been queued. */
  predicate RefersTo(p: Phase, pushed: seq<SemaId>) {
    match p
    case Waiting(s) => s in pushed
    case Queued(s) => s in pushed
    case Releasing(next) => next.Some? ==> next.value in pushed
    case _ => true
  }

  ghost predicate WaitOk(m: Monitor, s: SemaId) {
    && s in m.k.semas
    && m.k.semas[s].value == if s in m.popped && s !in m.returned then 1 else 0
  }

  /** Signals pop waits in the order in which they began; a wait wakes only after its own signal. */
  ghost predicate CondOk(m: Monitor) {
    && m.pushed == m.popped + m.waiters && NoDup(m.pushed)
    && (forall s :: s in m.returned ==> s in m.popped)
    && (forall s :: s in m.pushed ==> WaitOk(m, s))
    && (forall t :: t in m.phase ==> RefersTo(m.phase[t], m.pushed))
  }

  ghost predicate MonitorOk(m: Monitor) {
    LockOk(m) && PhaseOk(m) && CondOk(m)
  }

  /** The wait a thread is in, from its place in the line until it has woken. */
  function WaitOf(p: Phase): Option<SemaId> {
    match p
    case Waiting(s) => Some(s)
    case Queued(s) => Some(s)
    case Releasing(next) => next
    case _ => None
  }

  /** No two threads are in the same wait. */
  ghost predicate OneEach(phase: map<Tid, Phase>) {
    forall t, u :: t in phase && u in phase && WaitOf(phase[t]).Some? && WaitOf(phase[t]) == WaitOf(phase[u]) ==> t == u
  }

  ghost predicate MInv(m: Monitor) {
    Inv(m.k) && MonitorOk(m) && OneEach(m.phase)
  }

  /** At most one thread is between a lock's acquire and its release. */
  lemma MutualExclusion(m: Monitor, t: Tid, u: Tid)
    requires LockOk(m) && t in Inside(m.phase) && u in Inside(m.phase)
    ensures t == u
  {
    if t != u {
      assert {t, u} <= Inside(m.phase);
      SubsetSize({t, u}, Inside(m.phase));
    }
  }

  lemma SubsetSize(s: set<Tid>, t: set<Tid>)
    requires s <= t
    ensures |s| <= |t|
  {
    assert t == s + (t - s);
  }

  // ----- every step keeps the invariant -----

  /** What a kernel step does to the wait loops, the set of threads and the semaphores' values. */
  ghost predicate Framed(k: Kernel, op: Op, k': Kernel) {
    && k'.idle == k.idle
    && k'.inDown == (if !op.Down? then k.inDown
                     else if op.s in k.semas && k.semas[op.s].value == 0 then k.inDown[k.cur := op.s]
                     else k.inDown - {k.cur})
    && (forall t :: t in k.status && !(op.Exit? && t == k.cur) ==> t in k'.status)
    && (op.Init? ==> op.s in k'.semas && k'.semas[op.s].value == op.value)
    && (forall s :: s in k.semas && !(op.Init? && op.s == s) ==> s in k'.semas && k'.semas[s].value == NewValue(k, op, s))
  }

  function NewValue(k: Kernel, op: Op, s: SemaId): int
    requires s in k.semas
  {
    k.semas[s].value + (if op == Up(s) then 1 else 0) - (if Takes(k, op, s) then 1 else 0)
  }

  lemma StepThreads(k: Kernel, op: Op)
    requires Inv(k) && CanStep(k, op)
    ensures Step(k, op).idle == k.idle
    ensures Step(k, op).inDown == if !op.Down? then k.inDown
                                  else if k.semas[op.s].value == 0 then k.inDown[k.cur := op.s]
                                  else k.inDown - {k.cur}
    ensures forall t :: t in k.status && !(op.Exit? && t == k.cur) ==> t in Step(k, op).status
  {
  }

  lemma StepFramed(k: Kernel, op: Op)
    requires Inv(k) && CanStep(k, op)
    ensures Inv(Step(k, op)) && Framed(k, op, Step(k, op))
  {
    StepKeeps(k, op);
    StepThreads(k, op);
    forall s | s in k.semas && !(op.Init? && op.s == s)
      ensures s in Step(k, op).semas && Step(k, op).semas[s].value == NewValue(k, op, s)
    {
      StepValue(k, op, s);
    }
  }

  lemma InsideEnter(phase: map<Tid, Phase>, t: Tid, p: Phase)
    requires IsInside(p) && (t in phase ==> !IsInside(phase[t]))
    ensures |Inside(phase[t := p])| == |Inside(phase)| + 1
  {
    assert Inside(phase[t := p]) == Inside(phase) + {t};
  }

  lemma InsideSame(phase: map<Tid, Phase>, t: Tid, p: Phase)
    requires IsInside(p) <==> t in phase && IsInside(phase[t])
    ensures Inside(phase[t := p]) == Inside(phase)
  {
  }

  lemma InsideLeave(phase: map<Tid, Phase>, t: Tid, p: Phase)
    requires t in phase && IsInside(phase[t]) && !IsInside(p)
    ensures |Inside(phase[t := p])| == |Inside(phase)| - 1
    ensures |Inside(phase - {t})| == |Inside(phase)| - 1
  {
    assert Inside(phase[t := p]) == Inside(phase) - {t};
    assert Inside(phase - {t}) == Inside(phase) - {t};
  }

  /** The condition variable is unaffected by steps that leave its list and its semaphores' values alone. */
  lemma CondCarries(m: Monitor, k': Kernel, phase: map<Tid, Phase>)
    requires CondOk(m)
    requires forall s :: s in m.pushed && s in m.k.semas ==> s in k'.semas && k'.semas[s].value == m.k.semas[s].value
    requires forall t :: t in phase ==> (t in m.phase && phase[t] == m.phase[t]) || RefersTo(phase[t], m.pushed)
    ensures CondOk(m.(k := k', phase := phase))
  {
    forall s | s in m.pushed
      ensures WaitOk(m.(k := k', phase := phase), s)
    {
      assert WaitOk(m, s);
    }
  }

  lemma OtherKeeps(m: Monitor, op: Op, k': Kernel)
    requires MonitorOk(m) && Foreign(m, op) && Framed(m.k, op, k')
    ensures MonitorOk(m.(k := k'))
  {
    CondCarries(m, k', m.phase);
  }

  /** The lock semaphore goes down by one and the thread is inside. */
  lemma LockTaken(m: Monitor, op: Op, k': Kernel)
    requires MonitorOk(m) && (op == Down(m.lock) || op == TryDown(m.lock)) && Framed(m.k, op, k')
    requires m.k.cur in m.phase ==> !IsInside(m.phase[m.k.cur])
    requires m.k.cur in m.k.status && m.k.cur != m.k.idle && (op.TryDown? ==> m.k.cur !in m.phase)
    requires m.k.semas[m.lock].value > 0
    ensures MonitorOk(m.(k := k', phase := m.phase[m.k.cur := Downed]))
  {
    InsideEnter(m.phase, m.k.cur, Downed);
    CondCarries(m, k', m.phase[m.k.cur := Downed]);
  }

  /** The thread waits for the lock and the semaphore has not changed. */
  lemma LockWaits(m: Monitor, k': Kernel)
    requires MonitorOk(m) && Framed(m.k, Down(m.lock), k') && m.k.cur in m.k.status && m.k.cur != m.k.idle
    requires m.k.cur in m.phase ==> !IsInside(m.phase[m.k.cur])
    requires m.k.semas[m.lock].value == 0
    ensures MonitorOk(m.(k := k', phase := m.phase[m.k.cur := Acquiring]))
  {
    InsideSame(m.phase, m.k.cur, Acquiring);
    CondCarries(m, k', m.phase[m.k.cur := Acquiring]);
  }

  lemma HolderKeeps(m: Monitor, p: Phase, holder: Option<Tid>)
    requires MonitorOk(m) && m.k.cur in m.phase && IsInside(m.phase[m.k.cur]) && IsInside(p)
    requires holder == if p.Holding? || p.Queued? then Some(m.k.cur) else None
    requires RefersTo(p, m.pushed) && m.k.cur !in m.k.inDown
    ensures MonitorOk(m.(holder := holder, phase := m.phase[m.k.cur := p]))
  {
    var m' := m.(holder := holder, phase := m.phase[m.k.cur := p]);
    InsideSame(m.phase, m.k.cur, p);
    forall u | u in m.phase && (m.phase[u].Holding? || m.phase[u].Queued?)
      ensures u == m.k.cur
    {
      MutualExclusion(m, m.k.cur, u);
    }
    forall s | s in m.pushed
      ensures WaitOk(m', s)
    {
      assert WaitOk(m, s);
    }
  }

  lemma RaiseOut(m: Monitor, k': Kernel)
    requires MonitorOk(m) && Framed(m.k, Up(m.lock), k') && At(m, Releasing(None))
    ensures MonitorOk(m.(k := k', phase := m.phase - {m.k.cur}))
  {
    InsideLeave(m.phase, m.k.cur, Reacquire);
    CondCarries(m, k', m.phase - {m.k.cur});
  }

  lemma RaiseToWait(m: Monitor, k': Kernel, s: SemaId)
    requires MonitorOk(m) && Framed(m.k, Up(m.lock), k') && At(m, Releasing(Some(s)))
    ensures MonitorOk(m.(k := k', phase := m.phase[m.k.cur := Waiting(s)]))
  {
    InsideLeave(m.phase, m.k.cur, Waiting(s));
    CondCarries(m, k', m.phase[m.k.cur := Waiting(s)]);
  }

  lemma StartWaitKeeps(m: Monitor, s: SemaId, k': Kernel)
    requires MonitorOk(m) && Framed(m.k, Init(s, 0), k') && At(m, Holding) && !Mine(m, s)
    requires forall t :: t in m.k.inDown ==> m.k.inDown[t] != s
    ensures MonitorOk(m.(k := k', phase := m.phase[m.k.cur := Queued(s)], waiters := m.waiters + [s], pushed := m.pushed + [s]))
  {
    var m' := m.(k := k', phase := m.phase[m.k.cur := Queued(s)], waiters := m.waiters + [s], pushed := m.pushed + [s]);
    InsideSame(m.phase, m.k.cur, Queued(s));
    assert m'.pushed == m'.popped + m'.waiters;
    assert s !in m.popped by { assert forall x :: x in m.popped ==> x in m.pushed; }
    forall r | r in m'.pushed
      ensures WaitOk(m', r)
    {
      assert r != s ==> WaitOk(m, r);
    }
  }

  lemma WaitBlocks(m: Monitor, s: SemaId, k': Kernel)
    requires MonitorOk(m) && At(m, Waiting(s)) && Framed(m.k, Down(s), k')
    requires s in m.k.semas && m.k.semas[s].value == 0
    ensures MonitorOk(m.(k := k'))
  {
    CondCarries(m, k', m.phase);
  }

  /** A wait wakes only when it has been signalled and has not yet woken. */
  lemma WaitWakes(m: Monitor, s: SemaId, k': Kernel)
    requires MonitorOk(m) && At(m, Waiting(s)) && Framed(m.k, Down(s), k')
    requires s in m.k.semas && m.k.semas[s].value > 0
    ensures s in m.popped && s !in m.returned
    ensures MonitorOk(m.(k := k', phase := m.phase[m.k.cur := Reacquire], returned := m.returned + {s}))
  {
    InsideSame(m.phase, m.k.cur, Reacquire);
    assert WaitOk(m, s);
    forall r | r in m.pushed
      ensures WaitOk(m, r) && r in k'.semas && k'.semas[r].value == NewValue(m.k, Down(s), r)
    {
    }
  }

  /** The wait a signal pops has not been signalled before. */
  lemma SignalledOnce(m: Monitor)
    requires CondOk(m) && m.waiters != []
    ensures m.waiters[0] !in m.popped && m.waiters[0] in m.pushed
    ensures m.pushed == m.popped + [m.waiters[0]] + m.waiters[1..]
  {
    var s := m.waiters[0];
    assert m.waiters == [s] + m.waiters[1..];
    assert m.pushed[|m.popped|] == s;
    forall i | 0 <= i < |m.popped|
      ensures m.popped[i] != s
    {
      assert m.pushed[i] == m.popped[i];
    }
  }

  lemma SignalKeeps(m: Monitor, k': Kernel)
    requires MonitorOk(m) && m.waiters != [] && Framed(m.k, Up(m.waiters[0]), k')
    ensures MonitorOk(m.(k := k', waiters := m.waiters[1..], popped := m.popped + [m.waiters[0]]))
  {
    var s := m.waiters[0];
    var m' := m.(k := k', waiters := m.waiters[1..], popped := m.popped + [s]);
    SignalledOnce(m);
    forall r | r in m.pushed
      ensures WaitOk(m', r)
    {
      assert WaitOk(m, r) && (r in m'.popped <==> r in m.popped || r == s);
    }
  }

  lemma LockActKeeps(m: Monitor, a: Act)
    requires Inv(m.k) && MonitorOk(m) && CanAct(m, a) && (a.Lock? || a.TryLock? || a.RaiseLock?)
    ensures Inv(Do(m, a).k) && MonitorOk(Do(m, a))
  {
    match a
    case Lock =>
      StepFramed(m.k, Down(m.lock));
      if m.k.semas[m.lock].value > 0 {
        LockTaken(m, Down(m.lock), Step(m.k, Down(m.lock)));
      } else {
        LockWaits(m, Step(m.k, Down(m.lock)));
      }
    case TryLock =>
      if m.k.semas[m.lock].value > 0 {
        StepFramed(m.k, TryDown(m.lock));
        LockTaken(m, TryDown(m.lock), Step(m.k, TryDown(m.lock)));
      }
    case RaiseLock =>
      StepFramed(m.k, Up(m.lock));
      if m.phase[m.k.cur].next.Some? {
        RaiseToWait(m, Step(m.k, Up(m.lock)), m.phase[m.k.cur].next.value);
      } else {
        RaiseOut(m, Step(m.k, Up(m.lock)));
      }
  }

  lemma CondActKeeps(m: Monitor, a: Act)
    requires Inv(m.k) && MonitorOk(m) && CanAct(m, a) && (a.StartWait? || a.WaitDown? || a.Signal?)
    ensures Inv(Do(m, a).k) && MonitorOk(Do(m, a))
  {
    match a
    case StartWait(s) =>
      StepFramed(m.k, Init(s, 0));
      StartWaitKeeps(m, s, Step(m.k, Init(s, 0)));
    case WaitDown =>
      var s := m.phase[m.k.cur].s;
      StepFramed(m.k, Down(s));
      if m.k.semas[s].value > 0 {
        WaitWakes(m, s, Step(m.k, Down(s)));
      } else {
        WaitBlocks(m, s, Step(m.k, Down(s)));
      }
    case Signal =>
      if m.waiters != [] {
        StepFramed(m.k, Up(m.waiters[0]));
        SignalKeeps(m, Step(m.k, Up(m.waiters[0])));
      }
  }

  lemma OneEachKept(m: Monitor, a: Act)
    requires CondOk(m) && OneEach(m.phase) && CanAct(m, a)
    ensures OneEach(Do(m, a).phase)
  {
    if a.StartWait? {
      forall t | t in m.phase && WaitOf(m.phase[t]).Some?
        ensures WaitOf(m.phase[t]) != Some(a.s)
      {
        assert RefersTo(m.phase[t], m.pushed);
      }
    }
  }

  /** Every step, the monitor's own or another's, keeps the invariant. */
  lemma ActKeeps(m: Monitor, a: Act)
    requires MInv(m) && CanAct(m, a)
    ensures MInv(Do(m, a))
  {
    OneEachKept(m, a);
    match a
    case Other(op) =>
      StepFramed(m.k, op);
      OtherKeeps(m, op, Step(m.k, op));
    case SetHolder => HolderKeeps(m, Holding, Some(m.k.cur));
    case ClearHolder => HolderKeeps(m, Do(m, a).phase[m.k.cur], None);
    case Lock => LockActKeeps(m, a);
    case TryLock => LockActKeeps(m, a);
    case RaiseLock => LockActKeeps(m, a);
    case StartWait(_) => CondActKeeps(m, a);
    case WaitDown => CondActKeeps(m, a);
    case Signal => CondActKeeps(m, a);
  }

  /** lock_init and cond_init establish the invariant. */
  lemma InitialMonitor(k: Kernel, lock: SemaId)
    requires Inv(k) && lock in k.semas && k.semas[lock] == Sema(1, [])
    requires forall t :: t in k.inDown ==> k.inDown[t] != lock
    ensures MInv(Monitor(k, lock, None, map[], [], [], [], {}))
  {
    assert Inside(map[]) == {};
  }

  // ----- runs -----

  predicate MRun(states: seq<Monitor>, acts: seq<Act>) {
    && |states| == |acts| + 1
    && forall n :: 0 <= n < |acts| ==> CanAct(states[n], acts[n]) && states[n + 1] == Do(states[n], acts[n])
  }

  lemma {:induction false} MRunKeepsInv(states: seq<Monitor>, acts: seq<Act>, n: nat)
    requires MRun(states, acts) && n <= |acts| && MInv(states[0])
    ensures MInv(states[n])
  {
    if n > 0 {
      MRunKeepsInv(states, acts, n - 1);
      assert CanAct(states[n - 1], acts[n - 1]) && states[n - 1 + 1] == Do(states[n - 1], acts[n - 1]);
      ActKeeps(states[n - 1], acts[n - 1]);
    }
  }

  /** In every interleaving at most one thread is between a lock's acquire and its release, and the holder
      field never names a thread that is not. */
  lemma AtMostOneHolder(states: seq<Monitor>, acts: seq<Act>, n: nat, t: Tid, u: Tid)
    requires MRun(states, acts) && n <= |acts| && MInv(states[0])
    requires t in Inside(states[n].phase) && (u in Inside(states[n].phase) || states[n].holder == Some(u))
    ensures t == u
  {
    MRunKeepsInv(states, acts, n);
    MutualExclusion(states[n], t, u);
  }

  /** A cond_wait wakes only after a signal popped its own entry, and never twice for one signal: the entry
      popped j-th is the one queued j-th, and it wakes at most once. */
  lemma WakeMatchesSignal(states: seq<Monitor>, acts: seq<Act>, n: nat)
    requires MRun(states, acts) && n < |acts| && MInv(states[0]) && acts[n] == WaitDown
    requires states[n + 1].returned != states[n].returned
    ensures var m := states[n];
            && m.k.cur in m.phase && m.phase[m.k.cur].Waiting?
            && var s := m.phase[m.k.cur].s;
               s in m.popped && s !in m.returned && m.popped <= m.pushed && NoDup(m.pushed)
  {
    MRunKeepsInv(states, acts, n);
    assert CanAct(states[n], acts[n]) && states[n + 1] == Do(states[n], acts[n]);
    assert WaitOk(states[n], states[n].phase[states[n].k.cur].s);
  }

  // ----- what each act does -----

  lemma NobodyInside(m: Monitor)
    requires LockOk(m)
    ensures Inside(m.phase) == {} <==> m.k.semas[m.lock].value > 0
    ensures m.k.semas[m.lock].value <= 1
  {
    assert |Inside(m.phase)| == 0 ==> Inside(m.phase) == {};
  }

  /** lock_acquire enters exactly when no thread is inside; otherwise the thread sleeps, last in line for the lock. */
  lemma LockEffect(m: Monitor)
    requires MInv(m) && CanAct(m, Lock)
    ensures var m', t := Do(m, Lock), m.k.cur;
            && m.lock in m'.k.semas && m'.holder == m.holder
            && if Inside(m.phase) == {}
               then m'.phase == m.phase[t := Downed] && m'.k.cur == t && m'.k.semas[m.lock].value == 0
               else && m'.phase == m.phase[t := Acquiring] && m'.k.semas[m.lock].waiters == m.k.semas[m.lock].waiters + [t]
                    && t in m'.k.status && m'.k.status[t] == Blocked
  {
    NobodyInside(m);
    if Inside(m.phase) != {} {
      DownWaits(m.k, m.lock);
    }
  }

  /** lock_try_acquire enters exactly when no thread is inside; otherwise nothing changes. */
  lemma TryLockEffect(m: Monitor)
    requires MInv(m) && CanAct(m, TryLock)
    ensures var m', t := Do(m, TryLock), m.k.cur;
            if Inside(m.phase) == {}
            then m'.phase == m.phase[t := Downed] && m.lock in m'.k.semas && m'.k.semas[m.lock].value == 0
            else m' == m
  {
    NobodyInside(m);
  }

  /** The holder is written after the down and cleared before the up. */
  lemma HolderEffect(m: Monitor)
    requires MInv(m)
    ensures CanAct(m, SetHolder) ==>
              Do(m, SetHolder) == m.(holder := Some(m.k.cur), phase := m.phase[m.k.cur := Holding])
    ensures CanAct(m, ClearHolder) ==>
              && m.holder == Some(m.k.cur) && Do(m, ClearHolder).holder == None
              && m.k.cur in Do(m, ClearHolder).phase && Do(m, ClearHolder).phase[m.k.cur].Releasing?
              && Do(m, ClearHolder).phase[m.k.cur].next ==
                 if m.phase[m.k.cur].Queued? then Some(m.phase[m.k.cur].s) else None
  {
  }

  /** The end of a release: nobody is inside, the lock can be taken, the first thread in line for it is ready to run,
      and the releaser is outside or, within cond_wait, about to sleep on its own semaphore. */
  lemma ReleaseEffect(m: Monitor)
    requires MInv(m) && CanAct(m, RaiseLock)
    ensures var m', t := Do(m, RaiseLock), m.k.cur;
            && Inside(m'.phase) == {} && m.lock in m'.k.semas && m'.k.semas[m.lock].value == 1
            && m'.phase == (if m.phase[t].next.Some? then m.phase[t := Waiting(m.phase[t].next.value)] else m.phase - {t})
            && var line := m.k.semas[m.lock].waiters;
               line != [] ==> m'.k.semas[m.lock].waiters == line[1..] && m'.k.ready == m.k.ready + [line[0]]
  {
    ActKeeps(m, RaiseLock);
    NobodyInside(m);
    assert m.k.cur in Inside(m.phase);
    UpWakes(m.k, m.lock);
    NobodyInside(Do(m, RaiseLock));
  }

  /** cond_wait queues its own semaphore, with value 0, behind those that wait already; the lock is still held. */
  lemma StartWaitEffect(m: Monitor, s: SemaId)
    requires MInv(m) && CanAct(m, StartWait(s))
    ensures var m' := Do(m, StartWait(s));
            && m'.waiters == m.waiters + [s] && m'.pushed == m.pushed + [s] && m'.popped == m.popped
            && s in m'.k.semas && m'.k.semas[s] == Sema(0, []) && s !in m.pushed
            && m'.phase == m.phase[m.k.cur := Queued(s)] && m'.holder == m.holder == Some(m.k.cur)
  {
  }

  /** A pass of the wait loop gets through exactly when the wait has been signalled and has not yet woken; then the
      thread goes on to take the lock again, otherwise it sleeps. */
  lemma WakesIff(m: Monitor)
    requires MInv(m) && CanAct(m, WaitDown)
    ensures var m', t := Do(m, WaitDown), m.k.cur;
            var s := m.phase[t].s;
            if s in m.popped && s !in m.returned
            then m'.returned == m.returned + {s} && m'.phase == m.phase[t := Reacquire] && m'.k.cur == t
            else m'.returned == m.returned && m'.phase == m.phase && t in m'.k.status && m'.k.status[t] == Blocked
  {
    var s := m.phase[m.k.cur].s;
    assert RefersTo(m.phase[m.k.cur], m.pushed) && WaitOk(m, s);
    if m.k.semas[s].value == 0 {
      DownWaits(m.k, s);
    }
  }

  /** cond_signal pops the oldest waiter and raises its semaphore to 1; a thread asleep on it is ready to run. With
      nobody waiting nothing changes. */
  lemma SignalEffect(m: Monitor)
    requires MInv(m) && CanAct(m, Signal)
    ensures m.waiters == [] ==> Do(m, Signal) == m
    ensures m.waiters != [] ==>
              var m', s := Do(m, Signal), m.waiters[0];
              && m'.waiters == m.waiters[1..] && m'.popped == m.popped + [s] && m'.pushed == m.pushed
              && s in m'.k.semas && m'.k.semas[s].value == 1 && m'.phase == m.phase && m'.holder == m.holder
              && forall t :: t in m.k.status && m.k.status[t] == Blocked && t in m.k.inDown && m.k.inDown[t] == s ==>
                   t in m'.k.ready && t in m'.k.status && m'.k.status[t] == Ready
  {
    if m.waiters != [] {
      var s := m.waiters[0];
      SignalledOnce(m);
      assert WaitOk(m, s);
      UpWakes(m.k, s);
      forall t | t in m.k.status && m.k.status[t] == Blocked && t in m.k.inDown && m.k.inDown[t] == s
        ensures t in Do(m, Signal).k.ready && t in Do(m, Signal).k.status && Do(m, Signal).k.status[t] == Ready
      {
        OnlyWaiter(m, s, t);
      }
    }
  }

  /** A wait that has not been signalled has at most one thread asleep on it. */
  lemma OnlyWaiter(m: Monitor, s: SemaId, t: Tid)
    requires MInv(m) && s in m.waiters && s in m.k.semas && t in m.k.status && m.k.status[t] == Blocked
    requires t in m.k.inDown && m.k.inDown[t] == s
    ensures m.k.semas[s].waiters == [t]
  {
    assert WaitersOk(m.k, s) && s in m.pushed;
    var line := m.k.semas[s].waiters;
    assert |line| <= 1 || line[0] != line[1];
    forall i | 0 <= i < |line|
      ensures line[i] == t
    {
      assert line[i] in line;
    }
    assert t in line;
  }

  // ----- which signal wakes whom -----

  /** Signals among the first `n` acts that found somebody waiting. */
  function SignalsHeard(states: seq<Monitor>, acts: seq<Act>, n: nat): nat
    requires n <= |acts| < |states|
  {
    if n == 0 then 0
    else SignalsHeard(states, acts, n - 1) + if acts[n - 1] == Signal && states[n - 1].waiters != [] then 1 else 0
  }

  /** Waits begun among the first `n` acts. */
  function WaitsBegun(acts: seq<Act>, n: nat): nat
    requires n <= |acts|
  {
    if n == 0 then 0 else WaitsBegun(acts, n - 1) + if acts[n - 1].StartWait? then 1 else 0
  }

  lemma ActCounts(m: Monitor, a: Act)
    requires MInv(m) && CanAct(m, a)
    ensures |Do(m, a).popped| == |m.popped| + (if a == Signal && m.waiters != [] then 1 else 0)
    ensures |Do(m, a).pushed| == |m.pushed| + (if a.StartWait? then 1 else 0)
    ensures m.pushed <= Do(m, a).pushed
  {
  }

  lemma RunCounts(states: seq<Monitor>, acts: seq<Act>, n: nat)
    requires MRun(states, acts) && n < |acts| && MInv(states[0])
    ensures |states[n + 1].popped| == |states[n].popped| + (if acts[n] == Signal && states[n].waiters != [] then 1 else 0)
    ensures |states[n + 1].pushed| == |states[n].pushed| + (if acts[n].StartWait? then 1 else 0)
  {
    MRunKeepsInv(states, acts, n);
    ActCounts(states[n], acts[n]);
  }

  /** Every wait begun is queued, and every signal that finds somebody waiting pops exactly one wait. */
  lemma {:induction false} SignalsPop(states: seq<Monitor>, acts: seq<Act>, n: nat)
    requires MRun(states, acts) && n <= |acts| && MInv(states[0])
    ensures |states[n].popped| == |states[0].popped| + SignalsHeard(states, acts, n)
    ensures |states[n].pushed| == |states[0].pushed| + WaitsBegun(acts, n)
  {
    if n > 0 {
      SignalsPop(states, acts, n - 1);
      RunCounts(states, acts, n - 1);
    }
  }

  /** The wait queued j-th has been signalled exactly when more than j waits have been, counting from the start:
      the j-th signal that finds somebody waiting wakes the wait queued j-th. */
  lemma SignalledInOrder(states: seq<Monitor>, acts: seq<Act>, n: nat, j: nat)
    requires MRun(states, acts) && n <= |acts| && MInv(states[0]) && j < |states[n].pushed|
    ensures states[n].pushed[j] in states[n].popped <==> j < |states[0].popped| + SignalsHeard(states, acts, n)
  {
    SignalsPop(states, acts, n);
    MRunKeepsInv(states, acts, n);
    InPrefix(states[n].popped, states[n].pushed, j);
  }

  lemma InPrefix(p: seq<SemaId>, q: seq<SemaId>, j: nat)
    requires p <= q && NoDup(q) && j < |q|
    ensures q[j] in p <==> j < |p|
  {
    forall i | 0 <= i < |p| && i != j
      ensures p[i] != q[j]
    {
      assert p[i] == q[i];
    }
    assert j < |p| ==> p[j] == q[j];
  }

  // ----- nobody is stuck -----

  /** The running thread, unless it is inside a down that has nothing to do with the monitor, can always take the next
      step of the operation it is in. */
  lemma NextActPossible(m: Monitor)
    requires MInv(m) && m.k.cur in m.phase && (m.k.cur in m.k.inDown ==> Mine(m, m.k.inDown[m.k.cur]))
    ensures match m.phase[m.k.cur]
            case Acquiring => CanAct(m, Lock)
            case Downed => CanAct(m, SetHolder)
            case Holding => CanAct(m, ClearHolder) && CanAct(m, Signal)
            case Queued(_) => CanAct(m, ClearHolder)
            case Releasing(_) => CanAct(m, RaiseLock)
            case Waiting(_) => CanAct(m, WaitDown)
            case Reacquire => CanAct(m, Lock)
  {
    var t := m.k.cur;
    assert RefersTo(m.phase[t], m.pushed);
    assert m.waiters != [] ==> m.waiters[0] in m.waiters;
    if m.phase[t].Waiting? {
      assert WaitOk(m, m.phase[t].s);
    } else if m.phase[t].Holding? && m.waiters != [] {
      SignalledOnce(m);
      assert WaitOk(m, m.waiters[0]);
    }
  }
}
