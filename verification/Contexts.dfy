/**
 Contexts, CPUs and fused calls as a state machine (kernel/src/context/switch.rs, call.rs,
 context.rs, kernel/src/syscall/process.rs and call.rs).

 One step is one section of kernel code that runs under its lock; between any two steps
 any other CPU may step, and the timer may switch the current context away.  `point` is
 where in the kernel a context stands: what it does next when it runs.
 */
module Contexts {
  import opened Wrappers

  type Value = nat

  datatype Status = Running | Runnable | Blocked | New | Exited

  datatype Point =
    | Fresh                               // not started
    | User                                // in its own code
    | Fused(callee: nat)                  // callee inserted, `fuse_switch` comes next
    | Waiting(callee: nat)                // parked inside `fuse_switch`
    | Resumed(callee: nat)                // back from `fuse_switch`, about to take the result
    | Called(pending: bool)               // host call sent, about to check for the reply
    | Polling(pending: bool)              // in the wait loop of a host call
    | Returned                            // result stored, `exit` comes next
    | Leaving(parent: Option<nat>)        // marked exited, link taken
    | Gone(parent: Option<nat>)           // returned to the parent, never to run again

  /** `born` and `given` record the order of creation and the value passed to `sys_return`. */
  datatype Context = Context(
    status: Status, retLink: Option<nat>, cpu: Option<nat>, result: Option<Value>,
    point: Point, born: nat, given: Option<Value>)
  {
    /** `Context::block`: only a runnable context becomes blocked. */
    function Block(): Context { if status.Runnable? then this.(status := Blocked) else this }

    /** `Context::unblock`. */
    function Unblock(): Context { if status.Blocked? then this.(status := Runnable) else this }

    /** The ownership part of `update`. */
    function Owned(c: nat): Context { if cpu.None? then this.(cpu := Some(c)) else this }

    predicate RunnableOn(c: nat) { (status.Runnable? || status.New?) && cpu == Some(c) }
  }

  /** `current` is the per-CPU `CONTEXT_ID`. */
  datatype State = State(contexts: map<nat, Context>, current: map<nat, nat>, clock: nat)

  datatype Step =
    | Boot(cpu: nat, id: nat)
    | Cast(cpu: nat, id: nat)
    | FuseInsert(cpu: nat, id: nat)
    | FuseSwitch(cpu: nat)
    | TakeResult(cpu: nat)
    | SysReturn(cpu: nat, value: Value)
    | Exit(cpu: nat)
    | FuseReturn(cpu: nat)
    | Switch(cpu: nat, to: Option<nat>)
    | HostCall(cpu: nat)
    | HostCheck(cpu: nat)
    | HostReply(id: nat, value: Value)
    | HostTake(cpu: nat)

  // ----- the scheduler's choice -----

  function Owning(s: State, c: nat): map<nat, Context> {
    map id | id in s.contexts :: s.contexts[id].Owned(c)
  }

  /** The first runnable context above `from` in id order, else the first below. */
  ghost predicate Chosen(contexts: map<nat, Context>, c: nat, from: nat, to: Option<nat>) {
    match to
    case None => forall x :: x in contexts && x != from ==> !contexts[x].RunnableOn(c)
    case Some(t) =>
      && t in contexts && t != from && contexts[t].RunnableOn(c)
      && (from < t ==> forall x :: x in contexts && from < x < t ==> !contexts[x].RunnableOn(c))
      && (t < from ==> forall x :: x in contexts && (x < t || from < x) ==> !contexts[x].RunnableOn(c))
  }

  // ----- steps -----

  predicate AtPoint(s: State, c: nat, p: Point) {
    c in s.current && s.current[c] in s.contexts && s.contexts[s.current[c]].point == p
  }

  ghost predicate Enabled(s: State, step: Step) {
    match step
    case Boot(c, id) => c !in s.current && id !in s.contexts
    case Cast(c, id) => AtPoint(s, c, User) && id !in s.contexts
    case FuseInsert(c, id) => AtPoint(s, c, User) && id !in s.contexts
    case FuseSwitch(c) =>
      && c in s.current && s.current[c] in s.contexts && s.contexts[s.current[c]].point.Fused?
      && s.contexts[s.current[c]].point.callee in s.contexts
    case TakeResult(c) =>
      && c in s.current && s.current[c] in s.contexts && s.contexts[s.current[c]].point.Resumed?
      && s.contexts[s.current[c]].point.callee in s.contexts
      && s.contexts[s.contexts[s.current[c]].point.callee].result.Some?
    case SysReturn(c, _) => AtPoint(s, c, User)
    case Exit(c) => AtPoint(s, c, User) || AtPoint(s, c, Returned)
    case FuseReturn(c) =>
      && c in s.current && s.current[c] in s.contexts && s.contexts[s.current[c]].point.Leaving?
      && s.contexts[s.current[c]].point.parent.Some? && s.contexts[s.current[c]].point.parent.value in s.contexts
    case Switch(c, to) => c in s.current && s.current[c] in s.contexts && Chosen(Owning(s, c), c, s.current[c], to)
    case HostCall(c) => AtPoint(s, c, User)
    case HostCheck(c) => AtPoint(s, c, Called(true)) || AtPoint(s, c, Called(false))
    case HostReply(id, _) =>
      id in s.contexts && (s.contexts[id].point == Called(true) || s.contexts[id].point == Polling(true))
    case HostTake(c) => AtPoint(s, c, Polling(false)) && !s.contexts[s.current[c]].status.Blocked?
  }

  /** Insert `context`, created now, under `id`. */
  function Inserted(s: State, id: nat, context: Context): State {
    s.(contexts := s.contexts[id := context.(born := s.clock)], clock := s.clock + 1)
  }

  const SPAWNED := Context(Blocked, None, None, None, Fresh, 0, None)

  function Put(s: State, id: nat, context: Context): State {
    s.(contexts := s.contexts[id := context])
  }

  /** Hand the CPU from its current context to `t`. */
  function SwitchedTo(s: State, c: nat, t: nat): State
    requires c in s.current && s.current[c] in s.contexts && t in s.contexts
  {
    var f := s.current[c];
    var x := s.contexts[f];
    var left := if x.status.Running? then Put(s, f, x.(status := Runnable)) else s;
    var y := left.contexts[t];
    Put(left, t, y.(status := Running, point := if y.status.New? then User else y.point)).(current := s.current[c := t])
  }

  ghost function After(s: State, step: Step): State
    requires Enabled(s, step)
  {
    match step
    case Boot(c, id) =>
      Inserted(s, id, SPAWNED.(status := Running, cpu := Some(c), point := User)).(current := s.current[c := id])
    case Cast(c, id) =>
      Inserted(s, id, SPAWNED.(status := New))
    case FuseInsert(c, id) =>
      var p := s.current[c];
      var x := s.contexts[p];
      Inserted(Put(s, p, x.(point := Fused(id))), id, SPAWNED.(retLink := Some(p), cpu := x.cpu))
    case FuseSwitch(c) =>
      var p := s.current[c];
      var q := s.contexts[p].point.callee;
      var started := Put(s, q, s.contexts[q].(status := Running, point := User));
      Put(started, p, started.contexts[p].Block().(point := Waiting(q))).(current := s.current[c := q])
    case TakeResult(c) =>
      var p := s.current[c];
      var q := s.contexts[p].point.callee;
      var taken := Put(s, q, s.contexts[q].(result := None));
      Put(taken, p, taken.contexts[p].(point := User))
    case SysReturn(c, v) =>
      var p := s.current[c];
      Put(s, p, s.contexts[p].(result := Some(v), given := Some(v), point := Returned))
    case Exit(c) =>
      var p := s.current[c];
      var x := s.contexts[p];
      Put(s, p, x.(status := Exited, retLink := None, point := Leaving(x.retLink)))
    case FuseReturn(c) =>
      var q := s.current[c];
      var p := s.contexts[q].point.parent.value;
      var left := Put(s, q, s.contexts[q].Unblock().(point := Gone(Some(p))));
      Put(left, p, left.contexts[p].(status := Running, point := Resumed(q))).(current := s.current[c := p])
    case Switch(c, to) =>
      var owned := s.(contexts := Owning(s, c));
      if to.None? then owned else SwitchedTo(owned, c, to.value)
    case HostCall(c) =>
      var p := s.current[c];
      Put(s, p, s.contexts[p].(point := Called(true)))
    case HostCheck(c) =>
      var p := s.current[c];
      var x := s.contexts[p];
      Put(s, p, (if x.result.None? then x.(status := Blocked) else x).(point := Polling(x.point.pending)))
    case HostReply(id, v) =>
      var x := s.contexts[id].(result := Some(v)).Unblock();
      Put(s, id, x.(point := if x.point.Called? then Called(false) else Polling(false)))
    case HostTake(c) =>
      var p := s.current[c];
      Put(s, p, s.contexts[p].(result := None, point := User))
  }

  // ----- a switch, field by field -----

  /** May be picked up by CPU `c`: ready, and owned by it or by nobody. */
  predicate Ready(x: Context, c: nat) {
    (x.status.Runnable? || x.status.New?) && (x.cpu == Some(c) || x.cpu.None?)
  }

  /**
   A switch goes to the first ready context above the current one in cyclic id order, and to none only if
   there is none.
   */
  lemma SwitchChooses(s: State, c: nat, to: Option<nat>, x: nat)
    requires Enabled(s, Switch(c, to)) && x in s.contexts && x != s.current[c]
    ensures to.Some? ==> to.value in s.contexts && to.value != s.current[c] && Ready(s.contexts[to.value], c)
    ensures Ready(s.contexts[x], c) ==>
              && to.Some?
              && (s.current[c] < x ==> s.current[c] < to.value <= x)
              && (x < s.current[c] ==> s.current[c] < to.value || to.value <= x)
  {
    var owned := Owning(s, c);
    assert Ready(s.contexts[x], c) <==> owned[x].RunnableOn(c);
  }

  /**
   The chosen context runs, the one it replaces is ready again if it was running, unowned contexts become
   the CPU's, and nothing else changes.
   */
  lemma SwitchEffect(s: State, c: nat, to: Option<nat>, x: nat)
    requires Enabled(s, Switch(c, to)) && x in s.contexts
    ensures var t := After(s, Switch(c, to));
            && t.contexts.Keys == s.contexts.Keys && t.clock == s.clock
            && t.current == (if to.Some? then s.current[c := to.value] else s.current)
            && t.contexts[x].cpu == (if s.contexts[x].cpu.None? then Some(c) else s.contexts[x].cpu)
            && t.contexts[x].status == (if to == Some(x) then Status.Running
                                        else if to.Some? && x == s.current[c] && s.contexts[x].status.Running?
                                        then Runnable else s.contexts[x].status)
            && t.contexts[x].result == s.contexts[x].result && t.contexts[x].retLink == s.contexts[x].retLink
  {
  }

  /** A new context: one that was cast is ready for any CPU, a callee is blocked, linked and on its caller's CPU. */
  lemma InsertEffect(s: State, step: Step, x: nat)
    requires Inv(s) && (step.Cast? || step.FuseInsert?) && Enabled(s, step) && x in s.contexts
    ensures var t := After(s, step);
            && t.contexts.Keys == s.contexts.Keys + {step.id} && step.id !in s.contexts && t.current == s.current
            && t.contexts[step.id].status == (if step.Cast? then New else Blocked)
            && t.contexts[step.id].cpu == (if step.Cast? then None else Some(step.cpu))
            && t.contexts[step.id].retLink == (if step.Cast? then None else Some(s.current[step.cpu]))
            && t.contexts[step.id].result == None
            && (step.Cast? || x != s.current[step.cpu] ==> t.contexts[x] == s.contexts[x])
            && t.contexts[x].status == s.contexts[x].status && t.contexts[x].cpu == s.contexts[x].cpu
  {
    assert CpuGood(s, step.cpu);
  }

  /** A fused call gives the CPU to the callee; the caller changes its status only if it was ready. */
  lemma FuseSwitchEffect(s: State, c: nat, x: nat)
    requires Inv(s) && Enabled(s, FuseSwitch(c)) && x in s.contexts
    ensures var t, p := After(s, FuseSwitch(c)), s.current[c];
            var q := s.contexts[p].point.callee;
            && q in s.contexts && s.contexts[q].retLink == Some(p) && t.current == s.current[c := q]
            && t.contexts.Keys == s.contexts.Keys
            && t.contexts[q].status == Running && t.contexts[q].retLink == Some(p)
            && t.contexts[p].status == (if s.contexts[p].status.Runnable? then Blocked else s.contexts[p].status)
            && (x != p && x != q ==> t.contexts[x] == s.contexts[x])
  {
    assert CpuGood(s, c) && Good(s, s.current[c]);
  }

  /** The return gives the CPU back to the caller, running whatever its status was; the callee stays exited. */
  lemma FuseReturnEffect(s: State, c: nat, x: nat)
    requires Inv(s) && Enabled(s, FuseReturn(c)) && x in s.contexts
    ensures var t, q := After(s, FuseReturn(c)), s.current[c];
            var p := s.contexts[q].point.parent.value;
            && p in s.contexts && t.current == s.current[c := p] && t.contexts.Keys == s.contexts.Keys
            && t.contexts[p].status == Running && t.contexts[q].status.Exited?
            && t.contexts[q].result == s.contexts[q].result && t.contexts[p].result == s.contexts[p].result
            && (x != p && x != q ==> t.contexts[x] == s.contexts[x])
  {
    assert CpuGood(s, c) && Good(s, s.current[c]);
  }

  /** A host reply puts the value into the slot of the context it is for, wakes it, and touches nothing else. */
  lemma HostReplyStores(s: State, id: nat, v: Value, x: nat)
    requires Enabled(s, HostReply(id, v)) && x in s.contexts
    ensures var t := After(s, HostReply(id, v));
            && t.contexts.Keys == s.contexts.Keys && t.current == s.current
            && t.contexts[id].result == Some(v) && !t.contexts[id].status.Blocked?
            && (!s.contexts[id].status.Blocked? ==> t.contexts[id].status == s.contexts[id].status)
            && (s.contexts[id].status.Blocked? ==> t.contexts[id].status.Runnable?)
            && (x != id ==> t.contexts[x] == s.contexts[x])
  {
  }

  // ----- the invariant -----

  predicate Current(s: State, id: nat) {
    && id in s.contexts && s.contexts[id].cpu.Some?
    && s.contexts[id].cpu.value in s.current && s.current[s.contexts[id].cpu.value] == id
  }

  /** Between calls: running or runnable while current, runnable otherwise. */
  predicate Active(s: State, id: nat)
    requires id in s.contexts
  {
    && s.contexts[id].cpu.Some?
    && (s.contexts[id].status.Runnable? || (Current(s, id) && s.contexts[id].status.Running?))
  }

  /** `q` will return to `p`, which waits for it. */
  predicate Linked(s: State, q: nat, p: nat)
    requires q in s.contexts
  {
    && p in s.contexts && s.contexts[p].born < s.contexts[q].born
    && s.contexts[q].cpu.Some? && s.contexts[p].cpu == s.contexts[q].cpu
    && s.contexts[p].point == if s.contexts[q].point.Fresh? then Fused(q) else Waiting(q)
  }

  /** `q` is the started, unfinished callee of `p`. */
  predicate CalleeOf(s: State, q: nat, p: nat) {
    && q in s.contexts
    && ((s.contexts[q].retLink == Some(p) && !s.contexts[q].point.Fresh?) || s.contexts[q].point == Leaving(Some(p)))
  }

  predicate PointOk(s: State, id: nat)
    requires id in s.contexts
  {
    var x := s.contexts[id];
    match x.point
    case Fresh =>
      && !Current(s, id) && x.result.None? && x.given.None?
      && ((x.status.New? && x.retLink.None?) || (x.status.Blocked? && x.retLink.Some?))
    case User => Active(s, id) && x.result.None? && x.given.None?
    case Fused(q) =>
      && Active(s, id) && x.result.None? && x.given.None?
      && q in s.contexts && s.contexts[q].point.Fresh? && s.contexts[q].retLink == Some(id)
    case Waiting(q) =>
      && !Current(s, id) && x.cpu.Some? && (x.status.Running? || x.status.Blocked?)
      && x.result.None? && x.given.None? && CalleeOf(s, q, id)
    case Resumed(q) =>
      && Active(s, id) && x.result.None? && x.given.None?
      && q in s.contexts && s.contexts[q].point == Gone(Some(id)) && s.contexts[q].result == s.contexts[q].given
    case Called(pending) =>
      Active(s, id) && x.given.None? && (pending <==> x.result.None?)
    case Polling(pending) =>
      && x.given.None? && (pending <==> x.result.None?) && x.cpu.Some?
      && if pending then x.status.Blocked? else Active(s, id)
    case Returned => Active(s, id) && x.given.Some? && x.result == x.given
    case Leaving(parent) =>
      && x.status.Exited? && x.retLink.None? && x.result == x.given
      && (parent.Some? ==> Linked(s, id, parent.value))
    case Gone(parent) => !Current(s, id) && x.status.Exited? && x.retLink.None?
  }

  predicate Good(s: State, id: nat) {
    id in s.contexts ==>
      && s.contexts[id].born < s.clock
      && PointOk(s, id)
      && (s.contexts[id].retLink.Some? ==> Linked(s, id, s.contexts[id].retLink.value))
  }

  predicate CpuGood(s: State, c: nat) {
    c in s.current ==> s.current[c] in s.contexts && s.contexts[s.current[c]].cpu == Some(c)
  }

  ghost predicate Inv(s: State) {
    && (forall id :: Good(s, id))
    && (forall c :: CpuGood(s, c))
  }

  // ----- every step keeps the invariant -----

  lemma KeepInv(s: State, step: Step)
    requires Inv(s) && Enabled(s, step)
    ensures Inv(After(s, step))
  {
    hide *;
    match step
    case Boot(c, id) => KeepBoot(s, c, id);
    case Cast(c, id) => KeepCast(s, c, id);
    case FuseInsert(c, id) => KeepFuseInsert(s, c, id);
    case FuseSwitch(c) => KeepFuseSwitch(s, c);
    case TakeResult(c) => KeepTakeResult(s, c);
    case SysReturn(c, v) => KeepSysReturn(s, c, v);
    case Exit(c) => KeepExit(s, c);
    case FuseReturn(c) => KeepFuseReturn(s, c);
    case Switch(c, to) => KeepSwitch(s, c, to);
    case HostCall(c) => KeepHostCall(s, c);
    case HostCheck(c) => KeepHostCheck(s, c);
    case HostReply(id, v) => KeepHostReply(s, id, v);
    case HostTake(c) => KeepHostTake(s, c);
  }

  lemma KeepBoot(s: State, c: nat, id: nat)
    requires Inv(s) && Enabled(s, Boot(c, id))
    ensures Inv(After(s, Boot(c, id)))
  {
    var s' := After(s, Boot(c, id));
    assert CpuGood(s, c);
    forall x
      ensures Good(s', x)
    {
      assert Good(s, x);
    }
    forall d
      ensures CpuGood(s', d)
    {
      assert CpuGood(s, d);
    }
  }

  lemma KeepCast(s: State, c: nat, id: nat)
    requires Inv(s) && Enabled(s, Cast(c, id))
    ensures Inv(After(s, Cast(c, id)))
  {
    var s' := After(s, Cast(c, id));
    assert CpuGood(s, c);
    assert Good(s, s.current[c]);
    forall x
      ensures Good(s', x)
    {
      assert Good(s, x);
    }
    forall d
      ensures CpuGood(s', d)
    {
      assert CpuGood(s, d);
    }
  }

  lemma KeepFuseInsert(s: State, c: nat, id: nat)
    requires Inv(s) && Enabled(s, FuseInsert(c, id))
    ensures Inv(After(s, FuseInsert(c, id)))
  {
    var s' := After(s, FuseInsert(c, id));
    assert CpuGood(s, c);
    assert Good(s, s.current[c]);
    forall x
      ensures Good(s', x)
    {
      assert Good(s, x);
    }
    forall d
      ensures CpuGood(s', d)
    {
      assert CpuGood(s, d);
    }
  }

  lemma KeepFuseSwitch(s: State, c: nat)
    requires Inv(s) && Enabled(s, FuseSwitch(c))
    ensures Inv(After(s, FuseSwitch(c)))
  {
    hide Good, CpuGood, After, Enabled;
    var s' := After(s, FuseSwitch(c));
    forall x
      ensures Good(s', x)
    {
      FuseSwitchGood(s, c, x);
    }
    forall d
      ensures CpuGood(s', d)
    {
      FuseSwitchCpu(s, c, d);
    }
  }

  lemma FuseSwitchGood(s: State, c: nat, x: nat)
    requires Inv(s) && Enabled(s, FuseSwitch(c))
    ensures Good(After(s, FuseSwitch(c)), x)
  {
    assert CpuGood(s, c);
    assert Good(s, s.current[c]);
    assert Good(s, s.contexts[s.current[c]].point.callee);
    assert Good(s, x);
  }

  lemma FuseSwitchCpu(s: State, c: nat, d: nat)
    requires Inv(s) && Enabled(s, FuseSwitch(c))
    ensures CpuGood(After(s, FuseSwitch(c)), d)
  {
    assert CpuGood(s, c);
    assert Good(s, s.current[c]);
    assert Good(s, s.contexts[s.current[c]].point.callee);
    assert CpuGood(s, d);
  }

  lemma KeepTakeResult(s: State, c: nat)
    requires Inv(s) && Enabled(s, TakeResult(c))
    ensures Inv(After(s, TakeResult(c)))
  {
    hide Good, CpuGood, After, Enabled;
    var s' := After(s, TakeResult(c));
    forall x
      ensures Good(s', x)
    {
      TakeResultGood(s, c, x);
    }
    forall d
      ensures CpuGood(s', d)
    {
      TakeResultCpu(s, c, d);
    }
  }

  lemma TakeResultGood(s: State, c: nat, x: nat)
    requires Inv(s) && Enabled(s, TakeResult(c))
    ensures Good(After(s, TakeResult(c)), x)
  {
    assert CpuGood(s, c);
    assert Good(s, s.current[c]);
    assert Good(s, s.contexts[s.current[c]].point.callee);
    assert Good(s, x);
  }

  lemma TakeResultCpu(s: State, c: nat, d: nat)
    requires Inv(s) && Enabled(s, TakeResult(c))
    ensures CpuGood(After(s, TakeResult(c)), d)
  {
    assert CpuGood(s, c);
    assert Good(s, s.current[c]);
    assert Good(s, s.contexts[s.current[c]].point.callee);
    assert CpuGood(s, d);
  }

  lemma KeepSysReturn(s: State, c: nat, v: Value)
    requires Inv(s) && Enabled(s, SysReturn(c, v))
    ensures Inv(After(s, SysReturn(c, v)))
  {
    var s' := After(s, SysReturn(c, v));
    assert CpuGood(s, c);
    assert Good(s, s.current[c]);
    forall x
      ensures Good(s', x)
    {
      assert Good(s, x);
    }
    forall d
      ensures CpuGood(s', d)
    {
      assert CpuGood(s, d);
    }
  }

  lemma KeepExit(s: State, c: nat)
    requires Inv(s) && Enabled(s, Exit(c))
    ensures Inv(After(s, Exit(c)))
  {
    hide Good, CpuGood, After, Enabled;
    var s' := After(s, Exit(c));
    forall x
      ensures Good(s', x)
    {
      ExitGood(s, c, x);
    }
    forall d
      ensures CpuGood(s', d)
    {
      ExitCpu(s, c, d);
    }
  }

  lemma ExitGood(s: State, c: nat, x: nat)
    requires Inv(s) && Enabled(s, Exit(c))
    ensures Good(After(s, Exit(c)), x)
  {
    assert CpuGood(s, c);
    assert Good(s, s.current[c]);
    assert Good(s, x);
  }

  lemma ExitCpu(s: State, c: nat, d: nat)
    requires Inv(s) && Enabled(s, Exit(c))
    ensures CpuGood(After(s, Exit(c)), d)
  {
    assert CpuGood(s, c);
    assert Good(s, s.current[c]);
    assert CpuGood(s, d);
  }

  lemma KeepFuseReturn(s: State, c: nat)
    requires Inv(s) && Enabled(s, FuseReturn(c))
    ensures Inv(After(s, FuseReturn(c)))
  {
    hide Good, CpuGood, After, Enabled;
    var s' := After(s, FuseReturn(c));
    forall x
      ensures Good(s', x)
    {
      FuseReturnGood(s, c, x);
    }
    forall d
      ensures CpuGood(s', d)
    {
      FuseReturnCpu(s, c, d);
    }
  }

  lemma FuseReturnGood(s: State, c: nat, x: nat)
    requires Inv(s) && Enabled(s, FuseReturn(c))
    ensures Good(After(s, FuseReturn(c)), x)
  {
    assert CpuGood(s, c);
    assert Good(s, s.current[c]);
    assert Good(s, s.contexts[s.current[c]].point.parent.value);
    assert Good(s, x);
  }

  lemma FuseReturnCpu(s: State, c: nat, d: nat)
    requires Inv(s) && Enabled(s, FuseReturn(c))
    ensures CpuGood(After(s, FuseReturn(c)), d)
  {
    assert CpuGood(s, c);
    assert Good(s, s.current[c]);
    assert Good(s, s.contexts[s.current[c]].point.parent.value);
    assert CpuGood(s, d);
  }

  lemma KeepSwitch(s: State, c: nat, to: Option<nat>)
    requires Inv(s) && Enabled(s, Switch(c, to))
    ensures Inv(After(s, Switch(c, to)))
  {
    hide Good, CpuGood, Inv;
    KeepOwning(s, c);
    if to.Some? {
      KeepSwitchedTo(s.(contexts := Owning(s, c)), c, to.value);
    }
  }

  /** Only contexts that never ran are without an owner, so taking ownership disturbs nobody. */
  lemma KeepOwning(s: State, c: nat)
    requires Inv(s)
    ensures Inv(s.(contexts := Owning(s, c)))
  {
    hide Good, CpuGood;
    var s' := s.(contexts := Owning(s, c));
    forall x
      ensures Good(s', x)
    {
      OwningGood(s, c, x);
    }
    forall d
      ensures CpuGood(s', d)
    {
      OwningCpu(s, c, d);
    }
  }

  lemma OwningGood(s: State, c: nat, x: nat)
    requires Inv(s)
    ensures Good(s.(contexts := Owning(s, c)), x)
  {
    assert Good(s, x);
    assert CpuGood(s, c);
    if x in s.contexts {
      var p := s.contexts[x].point;
      assert p.Waiting? || p.Fused? || p.Resumed? ==> Good(s, p.callee);
      assert p.Leaving? && p.parent.Some? ==> Good(s, p.parent.value);
      assert s.contexts[x].retLink.Some? ==> Good(s, s.contexts[x].retLink.value);
    }
  }

  lemma OwningCpu(s: State, c: nat, d: nat)
    requires Inv(s)
    ensures CpuGood(s.(contexts := Owning(s, c)), d)
  {
    assert CpuGood(s, d);
  }

  lemma KeepSwitchedTo(s: State, c: nat, t: nat)
    requires Inv(s) && c in s.current && s.current[c] in s.contexts && t in s.contexts
    requires t != s.current[c] && s.contexts[t].RunnableOn(c)
    ensures Inv(SwitchedTo(s, c, t))
  {
    hide Good, CpuGood, SwitchedTo;
    var s' := SwitchedTo(s, c, t);
    forall x
      ensures Good(s', x)
    {
      SwitchedToGood(s, c, t, x);
    }
    forall d
      ensures CpuGood(s', d)
    {
      SwitchedToCpu(s, c, t, d);
    }
  }

  lemma SwitchedToGood(s: State, c: nat, t: nat, x: nat)
    requires Inv(s) && c in s.current && s.current[c] in s.contexts && t in s.contexts
    requires t != s.current[c] && s.contexts[t].RunnableOn(c)
    ensures Good(SwitchedTo(s, c, t), x)
  {
    hide Good, SwitchedTo;
    if x == t {
      SwitchedToTarget(s, c, t);
    } else if x == s.current[c] {
      SwitchedFrom(s, c, t);
    } else {
      SwitchedOther(s, c, t, x);
    }
  }

  lemma SwitchedToTarget(s: State, c: nat, t: nat)
    requires Inv(s) && c in s.current && s.current[c] in s.contexts && t in s.contexts
    requires t != s.current[c] && s.contexts[t].RunnableOn(c)
    ensures Good(SwitchedTo(s, c, t), t)
  {
    assert Good(s, t);
  }

  lemma SwitchedFrom(s: State, c: nat, t: nat)
    requires Inv(s) && c in s.current && s.current[c] in s.contexts && t in s.contexts
    requires t != s.current[c] && s.contexts[t].RunnableOn(c)
    ensures Good(SwitchedTo(s, c, t), s.current[c])
  {
    assert CpuGood(s, c);
    assert Good(s, s.current[c]);
    assert Good(s, t);
  }

  lemma SwitchedOther(s: State, c: nat, t: nat, x: nat)
    requires Inv(s) && c in s.current && s.current[c] in s.contexts && t in s.contexts
    requires t != s.current[c] && s.contexts[t].RunnableOn(c) && x != t && x != s.current[c]
    ensures Good(SwitchedTo(s, c, t), x)
  {
    assert Good(s, t);
    assert Good(s, x);
  }

  lemma SwitchedToCpu(s: State, c: nat, t: nat, d: nat)
    requires Inv(s) && c in s.current && s.current[c] in s.contexts && t in s.contexts
    requires t != s.current[c] && s.contexts[t].RunnableOn(c)
    ensures CpuGood(SwitchedTo(s, c, t), d)
  {
    assert CpuGood(s, c);
    assert CpuGood(s, d);
  }

  lemma KeepHostCall(s: State, c: nat)
    requires Inv(s) && Enabled(s, HostCall(c))
    ensures Inv(After(s, HostCall(c)))
  {
    var s' := After(s, HostCall(c));
    assert CpuGood(s, c);
    assert Good(s, s.current[c]);
    forall x
      ensures Good(s', x)
    {
      assert Good(s, x);
    }
    forall d
      ensures CpuGood(s', d)
    {
      assert CpuGood(s, d);
    }
  }

  lemma KeepHostCheck(s: State, c: nat)
    requires Inv(s) && Enabled(s, HostCheck(c))
    ensures Inv(After(s, HostCheck(c)))
  {
    var s' := After(s, HostCheck(c));
    assert CpuGood(s, c);
    assert Good(s, s.current[c]);
    forall x
      ensures Good(s', x)
    {
      assert Good(s, x);
    }
    forall d
      ensures CpuGood(s', d)
    {
      assert CpuGood(s, d);
    }
  }

  lemma KeepHostReply(s: State, id: nat, v: Value)
    requires Inv(s) && Enabled(s, HostReply(id, v))
    ensures Inv(After(s, HostReply(id, v)))
  {
    hide Good, CpuGood, After, Enabled;
    var s' := After(s, HostReply(id, v));
    forall x
      ensures Good(s', x)
    {
      HostReplyGood(s, id, v, x);
    }
    forall d
      ensures CpuGood(s', d)
    {
      HostReplyCpu(s, id, v, d);
    }
  }

  lemma HostReplyGood(s: State, id: nat, v: Value, x: nat)
    requires Inv(s) && Enabled(s, HostReply(id, v))
    ensures Good(After(s, HostReply(id, v)), x)
  {
    assert Good(s, id);
    assert Good(s, x);
  }

  lemma HostReplyCpu(s: State, id: nat, v: Value, d: nat)
    requires Inv(s) && Enabled(s, HostReply(id, v))
    ensures CpuGood(After(s, HostReply(id, v)), d)
  {
    assert Good(s, id);
    assert CpuGood(s, d);
  }

  lemma KeepHostTake(s: State, c: nat)
    requires Inv(s) && Enabled(s, HostTake(c))
    ensures Inv(After(s, HostTake(c)))
  {
    var s' := After(s, HostTake(c));
    assert CpuGood(s, c);
    assert Good(s, s.current[c]);
    forall x
      ensures Good(s', x)
    {
      assert Good(s, x);
    }
    forall d
      ensures CpuGood(s', d)
    {
      assert CpuGood(s, d);
    }
  }

}
