/** process_wait against thread_exit, for any number of parents and registered children, in every interleaving.
    A semaphore down is a step that is enabled only while the value is positive. */
module WaitExit {
  import opened Common

  type Tid = nat

  datatype Phase =
    | Active
    | WaitDown(kid: Tid)               // in process_wait, downing the child's block_parent
    | ReadStatus(kid: Tid)             // past it, exit_status not yet read
    | RemoveNode(kid: Tid, stat: int)
    | RaiseChild(kid: Tid, stat: int)  // node removed, child's block_child not yet upped
    | ExitKids                         // in thread_exit, walking the child list
    | ExitDown                         // own block_parent upped, waiting on own block_child
    | ExitRest

  /** `children` holds the child nodes that are still allocated, in list order. */
  datatype Proc = Proc(parent: Option<Tid>, children: seq<Tid>, status: int, blockParent: nat, blockChild: nat, phase: Phase)

  /** Threads whose page is still allocated. The other fields are history: how often each thread's block_child
      was upped, the status each thread held when it upped its block_parent, and what each wait returned. */
  datatype Sys = Sys(procs: map<Tid, Proc>, childUps: map<Tid, nat>, offered: map<Tid, int>, results: map<Tid, int>)

  datatype Op = SetStatus(v: int) | Spawn(kid: Tid) | CallWait(kid: Tid) | StepWait | CallExit | StepExit

  /** Whose pages a step of a thread reads or writes, besides its own: process_wait looks at its children until it
      finds the one asked for. */
  function Touches(p: Proc, op: Op): set<Tid> {
    match op
    case CallWait(_) => set c | c in p.children
    case _ =>
      match p.phase
      case WaitDown(kid) => {kid}
      case ReadStatus(kid) => {kid}
      case RaiseChild(kid, _) => {kid}
      case ExitKids => if p.children == [] then {} else {p.children[0]}
      case _ => {}
  }

  /** The thread has reached this step and, at a down, the value is positive. */
  predicate Enabled(s: Sys, t: Tid, op: Op) {
    t in s.procs && t in s.childUps
    && var p := s.procs[t];
    match op
    case SetStatus(_) => p.phase.Active?
    case Spawn(kid) => p.phase.Active? && kid !in s.childUps && kid !in s.procs && kid != t
    case CallWait(_) => p.phase.Active?
    case CallExit => p.phase.Active?
    case StepWait =>
      (match p.phase
       case WaitDown(kid) => kid in s.procs ==> s.procs[kid].blockParent > 0
       case ReadStatus(_) => true
       case RemoveNode(_, _) => true
       case RaiseChild(_, _) => true
       case _ => false)
    case StepExit =>
      (match p.phase
       case ExitKids => true
       case ExitDown => p.parent.Some? ==> p.blockChild > 0
       case ExitRest => true
       case _ => false)
  }

  /** No step touches a page that has been freed. */
  predicate Safe(s: Sys, t: Tid, op: Op) {
    t in s.procs && forall o :: o in Touches(s.procs[t], op) ==> o in s.procs && o in s.childUps && o != t
  }

  function Drop(children: seq<Tid>, kid: Tid): (r: seq<Tid>)
    ensures forall c :: c in r ==> c in children
  {
    if children == [] then [] else if children[0] == kid then children[1..] else [children[0]] + Drop(children[1..], kid)
  }

  function Put(s: Sys, t: Tid, p: Proc): Sys {
    s.(procs := s.procs[t := p])
  }

  /** sema_up on a child's block_child. */
  function Raise(s: Sys, kid: Tid): Sys
    requires kid in s.procs && kid in s.childUps
  {
    s.(procs := s.procs[kid := s.procs[kid].(blockChild := s.procs[kid].blockChild + 1)],
       childUps := s.childUps[kid := s.childUps[kid] + 1])
  }

  function StepWaiting(s: Sys, t: Tid): Sys
    requires Enabled(s, t, StepWait) && Safe(s, t, StepWait)
  {
    var p := s.procs[t];
    match p.phase
    case WaitDown(kid) =>
      Put(Put(s, kid, s.procs[kid].(blockParent := s.procs[kid].blockParent - 1)), t, p.(phase := ReadStatus(kid)))
    case ReadStatus(kid) => Put(s, t, p.(phase := RemoveNode(kid, s.procs[kid].status)))
    case RemoveNode(kid, stat) => Put(s, t, p.(children := Drop(p.children, kid), phase := RaiseChild(kid, stat)))
    case RaiseChild(kid, stat) =>
      Put(Raise(s, kid), t, p.(phase := Active)).(results := s.results[kid := stat])
  }

  function StepExiting(s: Sys, t: Tid): Sys
    requires Enabled(s, t, StepExit) && Safe(s, t, StepExit)
  {
    var p := s.procs[t];
    match p.phase
    case ExitKids =>
      if p.children != [] then Put(Raise(s, p.children[0]), t, p.(children := p.children[1..]))
      else Put(s, t, p.(blockParent := p.blockParent + 1, phase := ExitDown)).(offered := s.offered[t := p.status])
    case ExitDown => Put(s, t, p.(blockChild := if p.parent.Some? then p.blockChild - 1 else p.blockChild, phase := ExitRest))
    case ExitRest => s.(procs := s.procs - {t})
  }

  function Step(s: Sys, t: Tid, op: Op): Sys
    requires Enabled(s, t, op) && Safe(s, t, op)
  {
    var p := s.procs[t];
    match op
    case SetStatus(v) => Put(s, t, p.(status := v))
    case Spawn(kid) =>
      Put(Put(s, kid, Proc(Some(t), [], 0, 0, 0, Active)), t, p.(children := p.children + [kid]))
        .(childUps := s.childUps[kid := 0])
    case CallWait(kid) => if kid in p.children then Put(s, t, p.(phase := WaitDown(kid))) else s
    case CallExit => Put(s, t, p.(phase := ExitKids))
    case StepWait => StepWaiting(s, t)
    case StepExit => StepExiting(s, t)
  }

  /** What process_wait returns at once: -1 unless the thread is a child still on the list. */
  function ReturnsAtOnce(s: Sys, t: Tid, kid: Tid): Option<int>
    requires t in s.procs
  {
    if kid in s.procs[t].children then None else Some(-1)
  }

  // ----- invariant -----

  /** A registered child nobody has released yet. */
  predicate Held(s: Sys, t: Tid, kid: Tid) {
    && kid in s.procs && kid in s.childUps && kid != t && kid !in s.results
    && s.procs[kid].parent == Some(t) && s.childUps[kid] == 0
  }

  /** block_child counts its one up until the child consumes it; a child gets past its exit only then. */
  predicate Released(s: Sys, t: Tid)
    requires t in s.procs && t in s.childUps
  {
    var p := s.procs[t];
    && s.childUps[t] <= 1
    && p.blockChild + (if p.phase.ExitRest? && p.parent.Some? then 1 else 0) == s.childUps[t]
  }

  /** Once block_parent has been upped the status no longer changes. */
  predicate StatusFixed(s: Sys, t: Tid)
    requires t in s.procs
  {
    var p := s.procs[t];
    && (t in s.offered <==> p.phase.ExitDown? || p.phase.ExitRest?)
    && (t in s.offered ==> p.status == s.offered[t])
    && (p.blockParent > 0 ==> t in s.offered)
  }

  predicate PhaseOk(s: Sys, t: Tid)
    requires t in s.procs
  {
    var p := s.procs[t];
    match p.phase
    case Active => true
    case WaitDown(kid) => kid in p.children
    case ReadStatus(kid) => kid in p.children && kid in s.offered
    case RemoveNode(kid, stat) => kid in p.children && kid in s.offered && stat == s.offered[kid]
    case RaiseChild(kid, stat) => kid !in p.children && Held(s, t, kid) && kid in s.offered && stat == s.offered[kid]
    case ExitKids => true
    case ExitDown => p.children == []
    case ExitRest => p.children == []
  }

  predicate ProcOk(s: Sys, t: Tid)
    requires t in s.procs
  {
    && t in s.childUps && t !in s.procs[t].children && NoDup(s.procs[t].children)
    && (forall kid :: kid in s.procs[t].children ==> Held(s, t, kid))
    && Released(s, t) && StatusFixed(s, t) && PhaseOk(s, t)
  }

  predicate Inv(s: Sys) {
    && (forall t :: t in s.procs ==> ProcOk(s, t))
    && (forall t :: t in s.childUps ==> s.childUps[t] <= 1)
    && (forall kid :: kid in s.results ==> kid in s.childUps && kid in s.offered && s.results[kid] == s.offered[kid])
    && (forall t :: t in s.offered ==> t in s.childUps)
  }

  /** The pages a step touches are still allocated. */
  lemma StepsAreSafe(s: Sys, t: Tid, op: Op)
    requires Inv(s) && Enabled(s, t, op)
    ensures Safe(s, t, op)
  {
    var p := s.procs[t];
    assert ProcOk(s, t);
    assert p.children != [] ==> p.children[0] in p.children;
    assert forall o :: o in Touches(p, op) ==> Held(s, t, o);
  }

  // ----- every step keeps the invariant -----

  /** A thread that a step does not change, and whose children it leaves held, stays consistent. */
  lemma Unaffected(s: Sys, s': Sys, u: Tid)
    requires u in s.procs && ProcOk(s, u) && u in s'.procs && s'.procs[u] == s.procs[u]
    requires u in s'.childUps && s'.childUps[u] == s.childUps[u]
    requires (u in s'.offered <==> u in s.offered) && (u in s.offered ==> s'.offered[u] == s.offered[u])
    requires forall c :: Held(s, u, c) ==> Held(s', u, c) && (c in s.offered ==> c in s'.offered && s'.offered[c] == s.offered[c])
    ensures ProcOk(s', u)
  {
    assert forall c :: c in s.procs[u].children ==> Held(s, u, c) && Held(s', u, c);
  }

  lemma SetStatusKeeps(s: Sys, t: Tid, v: int)
    requires Inv(s) && Enabled(s, t, SetStatus(v)) && Safe(s, t, SetStatus(v))
    ensures Inv(Step(s, t, SetStatus(v)))
  {
    var s' := Step(s, t, SetStatus(v));
    assert ProcOk(s, t);
    forall u | u in s'.procs
      ensures ProcOk(s', u)
    {
      assert forall c :: Held(s, u, c) ==> Held(s', u, c);
      if u != t {
        Unaffected(s, s', u);
      }
    }
  }

  lemma CallKeeps(s: Sys, t: Tid, op: Op)
    requires Inv(s) && (op.CallWait? || op.CallExit?) && Enabled(s, t, op) && Safe(s, t, op)
    ensures Inv(Step(s, t, op))
  {
    forall u | u in Step(s, t, op).procs
      ensures ProcOk(Step(s, t, op), u)
    {
      CallEach(s, t, op, u);
    }
  }

  lemma PhaseChange(s: Sys, t: Tid, next: Phase, u: Tid)
    requires Inv(s) && t in s.procs && s.procs[t].phase.Active? && u in s.procs
    requires next.ExitKids? || (next.WaitDown? && next.kid in s.procs[t].children)
    ensures ProcOk(Put(s, t, s.procs[t].(phase := next)), u)
  {
    var s' := Put(s, t, s.procs[t].(phase := next));
    assert ProcOk(s, u);
    assert forall c :: Held(s, u, c) ==> Held(s', u, c);
    if u != t {
      Unaffected(s, s', u);
    }
  }

  lemma CallEach(s: Sys, t: Tid, op: Op, u: Tid)
    requires Inv(s) && (op.CallWait? || op.CallExit?) && Enabled(s, t, op) && Safe(s, t, op) && u in Step(s, t, op).procs
    ensures ProcOk(Step(s, t, op), u)
  {
    if op.CallExit? {
      PhaseChange(s, t, ExitKids, u);
    } else if op.kid in s.procs[t].children {
      PhaseChange(s, t, WaitDown(op.kid), u);
    }
  }

  lemma SpawnOwn(s: Sys, t: Tid, kid: Tid)
    requires Inv(s) && Enabled(s, t, Spawn(kid)) && Safe(s, t, Spawn(kid))
    ensures ProcOk(Step(s, t, Spawn(kid)), t)
  {
    var s', children := Step(s, t, Spawn(kid)), s.procs[t].children;
    assert ProcOk(s, t);
    forall c | c in children
      ensures c != kid && Held(s', t, c)
    {
      assert Held(s, t, c);
    }
    assert Held(s', t, kid);
  }

  lemma SpawnKeeps(s: Sys, t: Tid, kid: Tid)
    requires Inv(s) && Enabled(s, t, Spawn(kid)) && Safe(s, t, Spawn(kid))
    ensures Inv(Step(s, t, Spawn(kid)))
  {
    var s' := Step(s, t, Spawn(kid));
    forall u | u in s'.procs
      ensures ProcOk(s', u)
    {
      if u == t {
        SpawnOwn(s, t, kid);
      } else if u != kid {
        assert forall c :: Held(s, u, c) ==> Held(s', u, c);
        Unaffected(s, s', u);
      }
    }
  }

  lemma WaitDownKeeps(s: Sys, t: Tid, kid: Tid)
    requires Inv(s) && Enabled(s, t, StepWait) && Safe(s, t, StepWait) && s.procs[t].phase == WaitDown(kid)
    ensures Inv(StepWaiting(s, t))
  {
    var s' := StepWaiting(s, t);
    assert ProcOk(s, t) && ProcOk(s, kid);
    forall u | u in s'.procs
      ensures ProcOk(s', u)
    {
      assert forall c :: Held(s, u, c) ==> Held(s', u, c);
      if u != t && u != kid {
        Unaffected(s, s', u);
      }
    }
  }

  lemma ReadKeeps(s: Sys, t: Tid, kid: Tid)
    requires Inv(s) && Enabled(s, t, StepWait) && Safe(s, t, StepWait) && s.procs[t].phase == ReadStatus(kid)
    ensures Inv(StepWaiting(s, t)) && StepWaiting(s, t).procs[t].phase == RemoveNode(kid, s.offered[kid])
  {
    var s' := StepWaiting(s, t);
    assert ProcOk(s, t) && ProcOk(s, kid);
    forall u | u in s'.procs
      ensures ProcOk(s', u)
    {
      assert forall c :: Held(s, u, c) ==> Held(s', u, c);
      if u != t {
        Unaffected(s, s', u);
      }
    }
  }

  lemma {:induction false} DropOne(children: seq<Tid>, kid: Tid)
    requires NoDup(children)
    ensures NoDup(Drop(children, kid)) && kid !in Drop(children, kid)
  {
    if children != [] {
      assert children[0] !in children[1..];
      DropOne(children[1..], kid);
    }
  }

  lemma RemoveKeeps(s: Sys, t: Tid, kid: Tid, stat: int)
    requires Inv(s) && Enabled(s, t, StepWait) && Safe(s, t, StepWait) && s.procs[t].phase == RemoveNode(kid, stat)
    ensures Inv(StepWaiting(s, t))
  {
    var s' := StepWaiting(s, t);
    assert ProcOk(s, t);
    DropOne(s.procs[t].children, kid);
    forall u | u in s'.procs
      ensures ProcOk(s', u)
    {
      assert forall c :: Held(s, u, c) ==> Held(s', u, c);
      if u != t {
        Unaffected(s, s', u);
      }
    }
  }

  /** Upping block_child releases one held child and keeps the others held. */
  lemma RaiseFrame(s: Sys, s': Sys, t: Tid, kid: Tid, u: Tid)
    requires Inv(s) && t in s.procs && u in s.procs && Held(s, t, kid) && kid != u && t != u
    requires t in s'.procs && s'.procs[t].parent == s.procs[t].parent
    requires forall c :: c in s.procs ==> c in s'.procs && (c != t && c != kid ==> s'.procs[c] == s.procs[c])
    requires forall c :: c in s.childUps ==> c in s'.childUps && (c != kid ==> s'.childUps[c] == s.childUps[c])
    requires forall c :: c in s'.results ==> c in s.results || c == kid
    requires s'.offered == s.offered
    ensures ProcOk(s', u)
  {
    assert ProcOk(s, u);
    forall c | Held(s, u, c)
      ensures Held(s', u, c)
    {
      assert c != kid;
    }
    Unaffected(s, s', u);
  }

  /** The released child itself: its own children are still held. */
  lemma RaisedKid(s: Sys, s': Sys, t: Tid, kid: Tid)
    requires Inv(s) && t in s.procs && Held(s, t, kid) && kid in s'.procs && kid in s'.childUps
    requires s'.procs[kid] == s.procs[kid].(blockChild := s.procs[kid].blockChild + 1)
    requires s'.childUps == s.childUps[kid := 1] && s'.offered == s.offered
    requires t in s'.procs && s'.procs[t].parent == s.procs[t].parent
    requires forall c :: c in s.procs && c != t && c != kid ==> c in s'.procs && s'.procs[c] == s.procs[c]
    requires forall c :: c in s'.results ==> c in s.results || c == kid
    ensures ProcOk(s', kid)
  {
    assert ProcOk(s, kid);
    forall c | Held(s, kid, c)
      ensures Held(s', kid, c)
    {
    }
  }

  lemma RaiseOwn(s: Sys, t: Tid, kid: Tid, stat: int)
    requires Inv(s) && Enabled(s, t, StepWait) && Safe(s, t, StepWait) && s.procs[t].phase == RaiseChild(kid, stat)
    ensures ProcOk(StepWaiting(s, t), t)
  {
    var s' := StepWaiting(s, t);
    assert ProcOk(s, t);
    forall c | c in s.procs[t].children
      ensures Held(s', t, c)
    {
      assert Held(s, t, c);
    }
  }

  lemma RaiseKeeps(s: Sys, t: Tid, kid: Tid, stat: int)
    requires Inv(s) && Enabled(s, t, StepWait) && Safe(s, t, StepWait) && s.procs[t].phase == RaiseChild(kid, stat)
    ensures Inv(StepWaiting(s, t)) && s.childUps[kid] == 0 && stat == s.offered[kid]
  {
    assert PhaseOk(s, t) by { assert ProcOk(s, t); }
    forall u | u in StepWaiting(s, t).procs
      ensures ProcOk(StepWaiting(s, t), u)
    {
      RaiseEach(s, t, kid, stat, u);
    }
  }

  lemma RaiseEach(s: Sys, t: Tid, kid: Tid, stat: int, u: Tid)
    requires Inv(s) && Enabled(s, t, StepWait) && Safe(s, t, StepWait) && s.procs[t].phase == RaiseChild(kid, stat)
    requires u in StepWaiting(s, t).procs
    ensures ProcOk(StepWaiting(s, t), u)
  {
    var s' := StepWaiting(s, t);
    assert PhaseOk(s, t) by { assert ProcOk(s, t); }
    if u == kid {
      RaisedKid(s, s', t, kid);
    } else if u != t {
      RaiseFrame(s, s', t, kid, u);
    } else {
      RaiseOwn(s, t, kid, stat);
    }
  }

  lemma ExitKidOwn(s: Sys, t: Tid)
    requires Inv(s) && Enabled(s, t, StepExit) && Safe(s, t, StepExit) && s.procs[t].phase.ExitKids? && s.procs[t].children != []
    ensures ProcOk(StepExiting(s, t), t)
  {
    var s', kid, rest := StepExiting(s, t), s.procs[t].children[0], s.procs[t].children[1..];
    assert ProcOk(s, t) && s.procs[t].children == [kid] + rest;
    forall c | c in rest
      ensures Held(s', t, c)
    {
      assert c in s.procs[t].children && Held(s, t, c) && c != kid;
    }
  }

  lemma ExitKidEach(s: Sys, t: Tid, u: Tid)
    requires Inv(s) && Enabled(s, t, StepExit) && Safe(s, t, StepExit) && s.procs[t].phase.ExitKids? && s.procs[t].children != []
    requires u in StepExiting(s, t).procs
    ensures ProcOk(StepExiting(s, t), u)
  {
    var s', kid := StepExiting(s, t), s.procs[t].children[0];
    assert kid in s.procs[t].children && Held(s, t, kid) by { assert ProcOk(s, t); }
    if u == kid {
      RaisedKid(s, s', t, kid);
    } else if u != t {
      RaiseFrame(s, s', t, kid, u);
    } else {
      ExitKidOwn(s, t);
    }
  }

  lemma ExitKidKeeps(s: Sys, t: Tid)
    requires Inv(s) && Enabled(s, t, StepExit) && Safe(s, t, StepExit) && s.procs[t].phase.ExitKids? && s.procs[t].children != []
    ensures Inv(StepExiting(s, t)) && s.childUps[s.procs[t].children[0]] == 0
  {
    var s', kid := StepExiting(s, t), s.procs[t].children[0];
    assert kid in s.procs[t].children && Held(s, t, kid) by { assert ProcOk(s, t); }
    forall u | u in s'.procs
      ensures ProcOk(s', u)
    {
      ExitKidEach(s, t, u);
    }
  }

  lemma ExitUpKeeps(s: Sys, t: Tid)
    requires Inv(s) && Enabled(s, t, StepExit) && Safe(s, t, StepExit) && s.procs[t].phase.ExitKids? && s.procs[t].children == []
    ensures Inv(StepExiting(s, t)) && t !in s.offered
  {
    var s' := StepExiting(s, t);
    assert ProcOk(s, t);
    forall u | u in s'.procs
      ensures ProcOk(s', u)
    {
      assert forall c :: Held(s, u, c) ==> Held(s', u, c);
      if u != t {
        Unaffected(s, s', u);
      }
    }
    forall kid | kid in s.results
      ensures kid in s'.offered && s'.results[kid] == s'.offered[kid]
    {
      assert kid != t;
    }
  }

  lemma ExitDownKeeps(s: Sys, t: Tid)
    requires Inv(s) && Enabled(s, t, StepExit) && Safe(s, t, StepExit) && s.procs[t].phase.ExitDown?
    ensures Inv(StepExiting(s, t))
  {
    var s' := StepExiting(s, t);
    assert ProcOk(s, t);
    forall u | u in s'.procs
      ensures ProcOk(s', u)
    {
      assert forall c :: Held(s, u, c) ==> Held(s', u, c);
      if u != t {
        Unaffected(s, s', u);
      }
    }
  }

  /** A thread's page is freed only when no parent still holds it. */
  lemma DieKeeps(s: Sys, t: Tid)
    requires Inv(s) && Enabled(s, t, StepExit) && Safe(s, t, StepExit) && s.procs[t].phase.ExitRest?
    ensures Inv(StepExiting(s, t)) && forall u :: !Held(s, u, t)
  {
    var s' := StepExiting(s, t);
    assert ProcOk(s, t);
    forall u | u in s'.procs
      ensures ProcOk(s', u)
    {
      assert forall c :: Held(s, u, c) ==> Held(s', u, c);
      Unaffected(s, s', u);
    }
  }

  /** Every step of every thread keeps the invariant. */
  lemma StepKeeps(s: Sys, t: Tid, op: Op)
    requires Inv(s) && Enabled(s, t, op) && Safe(s, t, op)
    ensures Inv(Step(s, t, op))
  {
    match op
    case SetStatus(v) => SetStatusKeeps(s, t, v);
    case Spawn(kid) => SpawnKeeps(s, t, kid);
    case CallWait(_) => CallKeeps(s, t, op);
    case CallExit => CallKeeps(s, t, op);
    case StepWait =>
      match s.procs[t].phase {
        case WaitDown(kid) => WaitDownKeeps(s, t, kid);
        case ReadStatus(kid) => ReadKeeps(s, t, kid);
        case RemoveNode(kid, stat) => RemoveKeeps(s, t, kid, stat);
        case RaiseChild(kid, stat) => RaiseKeeps(s, t, kid, stat);
      }
    case StepExit =>
      match s.procs[t].phase {
        case ExitKids =>
          if s.procs[t].children != [] {
            ExitKidKeeps(s, t);
          } else {
            ExitUpKeeps(s, t);
          }
        case ExitDown => ExitDownKeeps(s, t);
        case ExitRest => DieKeeps(s, t);
      }
  }

  // ----- runs -----

  datatype Event = Event(t: Tid, op: Op)

  predicate Run(states: seq<Sys>, events: seq<Event>) {
    && |states| == |events| + 1
    && forall n :: 0 <= n < |events| ==>
         && Enabled(states[n], events[n].t, events[n].op)
         && (Safe(states[n], events[n].t, events[n].op) ==> states[n + 1] == Step(states[n], events[n].t, events[n].op))
  }

  /** In every interleaving no step touches a freed thread page, and the invariant holds throughout. */
  lemma {:induction false} RunIsSafe(states: seq<Sys>, events: seq<Event>, n: nat)
    requires Run(states, events) && n <= |events| && Inv(states[0])
    ensures Inv(states[n]) && (n < |events| ==> Safe(states[n], events[n].t, events[n].op))
  {
    if n > 0 {
      RunIsSafe(states, events, n - 1);
      assert Enabled(states[n - 1], events[n - 1].t, events[n - 1].op);
      StepsAreSafe(states[n - 1], events[n - 1].t, events[n - 1].op);
      assert states[n - 1 + 1] == Step(states[n - 1], events[n - 1].t, events[n - 1].op);
      StepKeeps(states[n - 1], events[n - 1].t, events[n - 1].op);
    }
    if n < |events| {
      assert Enabled(states[n], events[n].t, events[n].op);
      StepsAreSafe(states[n], events[n].t, events[n].op);
    }
  }

  lemma HistoryGrows(s: Sys, t: Tid, op: Op)
    requires Inv(s) && Enabled(s, t, op) && Safe(s, t, op)
    ensures forall c :: c in s.offered ==> c in Step(s, t, op).offered && Step(s, t, op).offered[c] == s.offered[c]
    ensures forall c :: c in s.results ==> c in Step(s, t, op).results && Step(s, t, op).results[c] == s.results[c]
    ensures forall c :: c in s.childUps ==> c in Step(s, t, op).childUps
  {
    assert ProcOk(s, t);
  }

  lemma {:induction false} HistoryStays(states: seq<Sys>, events: seq<Event>, n: nat, m: nat)
    requires Run(states, events) && n <= m <= |events| && Inv(states[0])
    ensures forall c :: c in states[n].offered ==> c in states[m].offered && states[m].offered[c] == states[n].offered[c]
    ensures forall c :: c in states[n].results ==> c in states[m].results && states[m].results[c] == states[n].results[c]
  {
    if n < m {
      HistoryStays(states, events, n, m - 1);
      RunIsSafe(states, events, m - 1);
      assert Enabled(states[m - 1], events[m - 1].t, events[m - 1].op);
      assert states[m - 1 + 1] == Step(states[m - 1], events[m - 1].t, events[m - 1].op);
      HistoryGrows(states[m - 1], events[m - 1].t, events[m - 1].op);
    }
  }

  /** What a wait returns is the status the child held when it upped its block_parent; block_child is upped at
      most once; and a second wait for the same thread returns -1 at once. */
  lemma WaitIsExact(states: seq<Sys>, events: seq<Event>, n: nat, m: nat, kid: Tid)
    requires Run(states, events) && n <= m <= |events| && Inv(states[0]) && kid in states[n].results
    ensures kid in states[n].offered && kid in states[m].results && states[m].results[kid] == states[n].offered[kid]
    ensures kid in states[m].childUps && states[m].childUps[kid] <= 1
    ensures forall t :: t in states[m].procs ==> ReturnsAtOnce(states[m], t, kid) == Some(-1)
  {
    RunIsSafe(states, events, n);
    RunIsSafe(states, events, m);
    HistoryStays(states, events, n, m);
    forall t | t in states[m].procs
      ensures kid !in states[m].procs[t].children
    {
      assert ProcOk(states[m], t);
      assert kid in states[m].procs[t].children ==> Held(states[m], t, kid);
    }
  }

  /** A thread with no parent and no children, before anything has been spawned. */
  lemma InitialInv(t: Tid)
    ensures Inv(Sys(map[t := Proc(None, [], 0, 0, 0, Active)], map[t := 0], map[], map[]))
    ensures AllAnsweredFor(Sys(map[t := Proc(None, [], 0, 0, 0, Active)], map[t := 0], map[], map[]))
  {
    var s := Sys(map[t := Proc(None, [], 0, 0, 0, Active)], map[t := 0], map[], map[]);
    assert ProcOk(s, t);
  }

  // ----- the walk over the child list in thread_exit -----

  datatype Access = Read(node: nat) | Free(node: nat)

  /** `nodes` are linked by `next` from `first` on, and the last of them leads to `end`. */
  predicate Chained(next: map<nat, nat>, first: nat, nodes: seq<nat>, end: nat)
    decreases |nodes|
  {
    if nodes == [] then first == end
    else nodes[0] == first && first != end && first in next && Chained(next, next[first], nodes[1..], end)
  }

  /** Each node is read, freed, and then read once more for its link to the next. */
  function Walk(nodes: seq<nat>): seq<Access> {
    if nodes == [] then [] else [Read(nodes[0]), Free(nodes[0]), Read(nodes[0])] + Walk(nodes[1..])
  }

  /** The loop of thread_exit over its child list, and what it does to the nodes. */
  method WalkChildren(next: map<nat, nat>, first: nat, end: nat, ghost nodes: seq<nat>) returns (trace: seq<Access>)
    requires Chained(next, first, nodes, end)
    ensures trace == Walk(nodes)
    ensures NoReadAfterFree(trace) <==> first == end
  {
    trace := [];
    var e := first;
    ghost var left := nodes;
    while e != end
      invariant Chained(next, e, left, end) && trace + Walk(left) == Walk(nodes)
      decreases |left|
    {
      trace := trace + [Read(e)];
      trace := trace + [Free(e)];
      trace := trace + [Read(e)];
      left := left[1..];
      e := next[e];
    }
    assert trace + [] == trace;
    WalkCleanIffNoChildren(nodes);
  }

  predicate NoReadAfterFree(trace: seq<Access>) {
    forall i, j :: 0 <= i < j < |trace| && trace[i].Free? && trace[j].Read? ==> trace[i].node != trace[j].node
  }

  /** The walk stays off freed nodes exactly when there is no child left to release. */
  lemma WalkCleanIffNoChildren(nodes: seq<nat>)
    ensures NoReadAfterFree(Walk(nodes)) <==> nodes == []
  {
    if nodes != [] {
      assert Walk(nodes)[1] == Free(nodes[0]) && Walk(nodes)[2] == Read(nodes[0]);
    }
  }

  /** The search of process_wait through the child list. */
  method FindChild(children: seq<Tid>, tid: Tid) returns (found: bool, k: nat)
    ensures found <==> tid in children
    ensures found ==> k < |children| && children[k] == tid && tid !in children[..k]
  {
    found, k := false, 0;
    while k < |children|
      invariant k <= |children| && tid !in children[..k]
    {
      if children[k] == tid {
        return true, k;
      }
      k := k + 1;
    }
  }

  /** The start of process_wait: the search decides between returning at once and waiting. */
  method BeginWait(s: Sys, t: Tid, tid: Tid) returns (r: Option<int>, s': Sys)
    requires Enabled(s, t, CallWait(tid)) && Safe(s, t, CallWait(tid))
    ensures r == ReturnsAtOnce(s, t, tid) && s' == Step(s, t, CallWait(tid))
  {
    var found, k := FindChild(s.procs[t].children, tid);
    if !found {
      return Some(-1), s;
    }
    r := None;
    s' := Put(s, t, s.procs[t].(phase := WaitDown(tid)));
  }

  // ----- what each step does -----

  /** process_wait waits exactly for a child that is on the list; for any other thread it returns -1 at once. */
  lemma WaitStarts(s: Sys, t: Tid, kid: Tid)
    requires Inv(s) && Enabled(s, t, CallWait(kid)) && Safe(s, t, CallWait(kid))
    ensures ReturnsAtOnce(s, t, kid).None? <==> kid in s.procs[t].children
    ensures kid !in s.procs[t].children ==> ReturnsAtOnce(s, t, kid) == Some(-1) && Step(s, t, CallWait(kid)) == s
    ensures kid in s.procs[t].children ==>
              Step(s, t, CallWait(kid)) == s.(procs := s.procs[t := s.procs[t].(phase := WaitDown(kid))])
  {
  }

  /** Setting a status changes that alone; a spawn adds a fresh child, last on its parent's list. */
  lemma StatusAndSpawn(s: Sys, t: Tid, v: int, kid: Tid)
    ensures Enabled(s, t, SetStatus(v)) && Safe(s, t, SetStatus(v)) ==>
              Step(s, t, SetStatus(v)) == s.(procs := s.procs[t := s.procs[t].(status := v)])
    ensures Enabled(s, t, Spawn(kid)) && Safe(s, t, Spawn(kid)) ==>
              var s' := Step(s, t, Spawn(kid));
              && s'.procs.Keys == s.procs.Keys + {kid} && s'.procs[kid] == Proc(Some(t), [], 0, 0, 0, Active)
              && s'.procs[t] == s.procs[t].(children := s.procs[t].children + [kid])
              && kid in s'.childUps && s'.childUps[kid] == 0
  {
  }

  /** The steps of a wait: consume the child's block_parent, read its status, drop its node, raise its block_child. */
  lemma WaitSteps(s: Sys, t: Tid)
    requires Inv(s) && Enabled(s, t, StepWait) && Safe(s, t, StepWait)
    ensures var s', p := Step(s, t, StepWait), s.procs[t];
            && t in s'.procs
            && match p.phase
               case WaitDown(kid) =>
                 && kid in s.procs && kid in s'.procs && s'.procs[t].phase == ReadStatus(kid)
                 && s'.procs[kid].blockParent == s.procs[kid].blockParent - 1
               case ReadStatus(kid) => kid in s.procs && s'.procs[t].phase == RemoveNode(kid, s.procs[kid].status)
               case RemoveNode(kid, stat) =>
                 && s'.procs[t].phase == RaiseChild(kid, stat)
                 && forall c :: c in s'.procs[t].children <==> c in p.children && c != kid
               case RaiseChild(kid, stat) =>
                 && s'.procs[t].phase == Active && kid in s'.results && s'.results[kid] == stat
                 && kid in s.procs && kid in s'.procs && s'.procs[kid].blockChild == s.procs[kid].blockChild + 1
                 && kid in s'.childUps && s'.childUps[kid] == 1
               case _ => true
  {
    var p := s.procs[t];
    assert ProcOk(s, t);
    match p.phase
    case RemoveNode(kid, _) => DropOnly(p.children, kid);
    case WaitDown(kid) => assert Held(s, t, kid);
    case ReadStatus(kid) => assert Held(s, t, kid);
    case RaiseChild(kid, _) => assert Held(s, t, kid);
    case _ =>
  }

  lemma {:induction false} DropOnly(children: seq<Tid>, kid: Tid)
    requires NoDup(children)
    ensures forall c :: c in Drop(children, kid) <==> c in children && c != kid
  {
    if children != [] {
      var rest := children[1..];
      DropOnly(rest, kid);
      assert children == [children[0]] + rest && children[0] !in rest;
      if children[0] == kid {
        assert forall c :: c in rest ==> c != kid;
      }
    }
  }

  /** A call of exit starts the walk over the children and changes nothing else. */
  lemma ExitStarts(s: Sys, t: Tid)
    requires Enabled(s, t, CallExit) && Safe(s, t, CallExit)
    ensures Step(s, t, CallExit) == s.(procs := s.procs[t := s.procs[t].(phase := ExitKids)])
  {
  }

  /** A thread is held up only at a down of value 0: at its child's block_parent, or at its own block_child while its
      parent has not released it. An active thread may wait for anyone, spawn, and exit at any time. */
  lemma OnlyDownsHoldUp(s: Sys, t: Tid, kid: Tid, v: int)
    requires Inv(s) && t in s.procs
    ensures match s.procs[t].phase
            case Active =>
              && Enabled(s, t, CallExit) && Enabled(s, t, CallWait(kid)) && Enabled(s, t, SetStatus(v))
              && (kid !in s.childUps && kid !in s.procs && kid != t ==> Enabled(s, t, Spawn(kid)))
            case WaitDown(c) => c in s.procs && (Enabled(s, t, StepWait) <==> s.procs[c].blockParent > 0)
            case ReadStatus(_) => Enabled(s, t, StepWait)
            case RemoveNode(_, _) => Enabled(s, t, StepWait)
            case RaiseChild(_, _) => Enabled(s, t, StepWait)
            case ExitKids => Enabled(s, t, StepExit)
            case ExitDown => Enabled(s, t, StepExit) <==> s.procs[t].parent.None? || s.childUps[t] == 1
            case ExitRest => Enabled(s, t, StepExit)
  {
    assert ProcOk(s, t);
    if s.procs[t].phase.WaitDown? {
      assert Held(s, t, s.procs[t].phase.kid);
    }
  }

  /** The steps of an exit: raise the block_child of the first child left, or with none left raise the own
      block_parent and offer the status; then consume the own block_child if there is a parent; then be gone. */
  lemma ExitSteps(s: Sys, t: Tid)
    requires Inv(s) && Enabled(s, t, StepExit) && Safe(s, t, StepExit)
    ensures var s', p := Step(s, t, StepExit), s.procs[t];
            match p.phase
            case ExitKids =>
              && t in s'.procs
              && if p.children == []
                 then && s'.procs[t].phase == ExitDown && s'.procs[t].blockParent == p.blockParent + 1
                      && t in s'.offered && s'.offered[t] == p.status
                 else && s'.procs[t].children == p.children[1..] && p.children[0] in s'.procs && p.children[0] in s.procs
                      && s'.procs[p.children[0]].blockChild == s.procs[p.children[0]].blockChild + 1
                      && p.children[0] in s'.childUps && s'.childUps[p.children[0]] == 1
            case ExitDown =>
              t in s'.procs && s'.procs[t].phase == ExitRest && s'.procs[t].blockChild == p.blockChild - if p.parent.Some? then 1 else 0
            case ExitRest => s'.procs.Keys == s.procs.Keys - {t}
            case _ => true
  {
    assert ProcOk(s, t);
    if s.procs[t].phase.ExitKids? && s.procs[t].children != [] {
      assert Held(s, t, s.procs[t].children[0]);
    }
  }

  // ----- a wait ends with the child's status -----

  /** The thread is inside the wait for that child, or the wait is over. */
  predicate WaitingOrDone(s: Sys, t: Tid, kid: Tid) {
    kid in s.results || (t in s.procs && IsWaitFor(s.procs[t].phase, kid))
  }

  predicate IsWaitFor(p: Phase, kid: Tid) {
    match p
    case WaitDown(k) => k == kid
    case ReadStatus(k) => k == kid
    case RemoveNode(k, _) => k == kid
    case RaiseChild(k, _) => k == kid
    case _ => false
  }

  /** A step of another thread leaves a thread's phase, and its page while it is not finished, as they are. */
  lemma OthersPhase(s: Sys, u: Tid, op: Op, t: Tid)
    requires Inv(s) && Enabled(s, u, op) && Safe(s, u, op) && t in s.procs && t != u
    ensures t in Step(s, u, op).procs && Step(s, u, op).procs[t].phase == s.procs[t].phase
    ensures Step(s, u, op).procs[t].status == s.procs[t].status
  {
    assert ProcOk(s, u);
  }

  lemma WaitGoesOn(s: Sys, u: Tid, op: Op, t: Tid, kid: Tid)
    requires Inv(s) && Enabled(s, u, op) && Safe(s, u, op) && WaitingOrDone(s, t, kid)
    ensures WaitingOrDone(Step(s, u, op), t, kid)
  {
    HistoryGrows(s, u, op);
    if kid !in s.results {
      if u != t {
        OthersPhase(s, u, op, t);
      } else {
        WaitSteps(s, t);
      }
    }
  }

  lemma {:induction false} StaysWaiting(states: seq<Sys>, events: seq<Event>, i: nat, n: nat, t: Tid, kid: Tid)
    requires Run(states, events) && Inv(states[0]) && i <= n <= |events| && WaitingOrDone(states[i], t, kid)
    ensures WaitingOrDone(states[n], t, kid)
  {
    if i < n {
      StaysWaiting(states, events, i, n - 1, t, kid);
      RunAt(states, events, n - 1);
      WaitGoesOn(states[n - 1], events[n - 1].t, events[n - 1].op, t, kid);
    }
  }

  lemma RunAt(states: seq<Sys>, events: seq<Event>, n: nat)
    requires Run(states, events) && Inv(states[0]) && n < |events|
    ensures var e := events[n];
            && Inv(states[n]) && Enabled(states[n], e.t, e.op) && Safe(states[n], e.t, e.op)
            && states[n + 1] == Step(states[n], e.t, e.op)
  {
    RunIsSafe(states, events, n);
  }

  /** A thread that calls wait for a child on its list is active again only once the wait has its result, which is the
      status the child offered when it upped its block_parent. */
  lemma WaitReturnsOffered(states: seq<Sys>, events: seq<Event>, i: nat, n: nat, t: Tid, kid: Tid)
    requires Run(states, events) && Inv(states[0]) && i < n <= |events| && events[i] == Event(t, CallWait(kid))
    requires t in states[i].procs && kid in states[i].procs[t].children
    requires t in states[n].procs && states[n].procs[t].phase == Active
    ensures kid in states[n].results && kid in states[n].offered && states[n].results[kid] == states[n].offered[kid]
  {
    RunAt(states, events, i);
    WaitStarts(states[i], t, kid);
    StaysWaiting(states, events, i + 1, n, t, kid);
    RunIsSafe(states, events, n);
  }

  // ----- the status is the last one set -----

  /** The last status a thread set among the events `from` up to `n`, 0 if none. */
  function LastSet(events: seq<Event>, t: Tid, from: nat, n: nat): int
    requires from <= n <= |events|
  {
    if from == n then 0
    else match events[n - 1]
         case Event(u, SetStatus(v)) => if u == t then v else LastSet(events, t, from, n - 1)
         case _ => LastSet(events, t, from, n - 1)
  }

  /** The thread exists or existed, its status is `v`, and so is what it offered. */
  predicate StatusIs(s: Sys, t: Tid, v: int) {
    t in s.childUps && (t in s.procs ==> s.procs[t].status == v) && (t in s.offered ==> s.offered[t] == v)
  }

  lemma StatusStep(s: Sys, u: Tid, op: Op, t: Tid, v: int)
    requires Inv(s) && Enabled(s, u, op) && Safe(s, u, op) && StatusIs(s, t, v)
    ensures StatusIs(Step(s, u, op), t, if u == t && op.SetStatus? then op.v else v)
  {
    HistoryGrows(s, u, op);
    assert ProcOk(s, u);
    if t in s.procs && u != t {
      OthersPhase(s, u, op, t);
    }
  }

  lemma StatusAt(states: seq<Sys>, events: seq<Event>, n: nat, t: Tid, v: int)
    requires Run(states, events) && Inv(states[0]) && n < |events| && StatusIs(states[n], t, v)
    ensures StatusIs(states[n + 1], t, if events[n].t == t && events[n].op.SetStatus? then events[n].op.v else v)
  {
    RunAt(states, events, n);
    StatusStep(states[n], events[n].t, events[n].op, t, v);
  }

  lemma {:induction false} StatusFollows(states: seq<Sys>, events: seq<Event>, from: nat, n: nat, t: Tid)
    requires Run(states, events) && Inv(states[0]) && from <= n <= |events| && StatusIs(states[from], t, 0)
    ensures StatusIs(states[n], t, LastSet(events, t, from, n))
  {
    if from < n {
      StatusFollows(states, events, from, n - 1, t);
      StatusAt(states, events, n - 1, t, LastSet(events, t, from, n - 1));
    }
  }

  /** What a wait returns is the last status its child set since it was spawned, or 0 if it set none. */
  lemma WaitGetsLastStatus(states: seq<Sys>, events: seq<Event>, j: nat, n: nat, t: Tid, kid: Tid)
    requires Run(states, events) && Inv(states[0]) && j < n <= |events| && events[j] == Event(t, Spawn(kid))
    requires kid in states[n].results
    ensures states[n].results[kid] == LastSet(events, kid, j + 1, n)
  {
    RunAt(states, events, j);
    StatusAndSpawn(states[j], t, 0, kid);
    assert kid !in states[j].offered;
    StatusFollows(states, events, j + 1, n, kid);
    RunIsSafe(states, events, n);
  }

  // ----- no child is left behind -----

  /** A child whose page is allocated has been released, or its parent still answers for it. */
  predicate AnsweredFor(s: Sys, kid: Tid)
    requires kid in s.procs
  {
    s.procs[kid].parent.Some? ==>
      var t := s.procs[kid].parent.value;
      || (kid in s.childUps && s.childUps[kid] == 1)
      || (t in s.procs && (kid in s.procs[t].children || IsRaising(s.procs[t].phase, kid)))
  }

  predicate IsRaising(p: Phase, kid: Tid) {
    p.RaiseChild? && p.kid == kid
  }

  predicate AllAnsweredFor(s: Sys) {
    forall kid :: kid in s.procs ==> AnsweredFor(s, kid)
  }

  lemma AnswerInWait(s: Sys, u: Tid, kid: Tid)
    requires Inv(s) && Enabled(s, u, StepWait) && Safe(s, u, StepWait) && AllAnsweredFor(s) && kid in StepWaiting(s, u).procs
    ensures AnsweredFor(StepWaiting(s, u), kid)
  {
    assert AnsweredFor(s, kid);
    if s.procs[u].phase.RemoveNode? {
      assert ProcOk(s, u);
      DropOnly(s.procs[u].children, s.procs[u].phase.kid);
    } else if s.procs[u].phase.RaiseChild? {
      assert Held(s, u, s.procs[u].phase.kid) by { assert ProcOk(s, u); }
    }
  }

  lemma AnswerByUp(s: Sys, u: Tid, kid: Tid)
    requires Inv(s) && Enabled(s, u, StepExit) && Safe(s, u, StepExit) && AllAnsweredFor(s) && kid in StepExiting(s, u).procs
    requires s.procs[u].phase.ExitKids? && s.procs[u].children != []
    ensures AnsweredFor(StepExiting(s, u), kid)
  {
    assert AnsweredFor(s, kid);
    var children := s.procs[u].children;
    assert children == [children[0]] + children[1..];
    assert Held(s, u, children[0]) by { assert ProcOk(s, u); }
  }

  lemma AnswerInExit(s: Sys, u: Tid, kid: Tid)
    requires Inv(s) && Enabled(s, u, StepExit) && Safe(s, u, StepExit) && AllAnsweredFor(s) && kid in StepExiting(s, u).procs
    ensures AnsweredFor(StepExiting(s, u), kid)
  {
    if s.procs[u].phase.ExitKids? && s.procs[u].children != [] {
      AnswerByUp(s, u, kid);
    } else {
      assert AnsweredFor(s, kid);
      assert s.procs[u].children == [] by { assert ProcOk(s, u); }
    }
  }

  lemma AnswerKept(s: Sys, u: Tid, op: Op, kid: Tid)
    requires Inv(s) && Enabled(s, u, op) && Safe(s, u, op) && AllAnsweredFor(s) && kid in Step(s, u, op).procs
    ensures AnsweredFor(Step(s, u, op), kid)
  {
    match op
    case StepWait => AnswerInWait(s, u, kid);
    case StepExit => AnswerInExit(s, u, kid);
    case _ =>
      assert kid in s.procs ==> AnsweredFor(s, kid);
  }

  lemma {:induction false} RunAnswersFor(states: seq<Sys>, events: seq<Event>, n: nat)
    requires Run(states, events) && Inv(states[0]) && AllAnsweredFor(states[0]) && n <= |events|
    ensures AllAnsweredFor(states[n])
  {
    if n > 0 {
      RunAnswersFor(states, events, n - 1);
      RunAt(states, events, n - 1);
      forall kid | kid in states[n].procs
        ensures AnsweredFor(states[n], kid)
      {
        AnswerKept(states[n - 1], events[n - 1].t, events[n - 1].op, kid);
      }
    }
  }

  /** Once a parent is past its own up, or gone, every child of it has been released, so none waits for ever. */
  lemma NoChildLeftBehind(states: seq<Sys>, events: seq<Event>, n: nat, kid: Tid, t: Tid)
    requires Run(states, events) && Inv(states[0]) && AllAnsweredFor(states[0]) && n <= |events|
    requires kid in states[n].procs && states[n].procs[kid].parent == Some(t)
    requires t in states[n].procs ==> states[n].procs[t].phase.ExitDown? || states[n].procs[t].phase.ExitRest?
    ensures kid in states[n].childUps && states[n].childUps[kid] == 1
  {
    RunAnswersFor(states, events, n);
    RunIsSafe(states, events, n);
    assert AnsweredFor(states[n], kid);
    assert t in states[n].procs ==> ProcOk(states[n], t);
  }
}
