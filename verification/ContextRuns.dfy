/** What holds over whole runs of the context state machine. */
module ContextRuns {
  import opened Wrappers
  import opened Contexts

  const START := State(map[], map[], 0)

  ghost predicate StepAt(states: seq<State>, steps: seq<Step>, i: nat)
    requires i < |steps| && |states| == |steps| + 1
  {
    Enabled(states[i], steps[i]) && states[i + 1] == After(states[i], steps[i])
  }

  /** An interleaving of steps of any number of CPUs, from boot. */
  ghost predicate Trace(states: seq<State>, steps: seq<Step>) {
    && |states| == |steps| + 1 && states[0] == START
    && forall i :: 0 <= i < |steps| ==> StepAt(states, steps, i)
  }

  lemma {:induction false} TraceInv(states: seq<State>, steps: seq<Step>, i: nat)
    requires Trace(states, steps) && i < |states|
    ensures Inv(states[i])
  {
    if i > 0 {
      TraceInv(states, steps, i - 1);
      assert StepAt(states, steps, i - 1);
      KeepInv(states[i - 1], steps[i - 1]);
    }
  }

  // ----- CPUs -----

  ghost predicate Running(s: State, x: nat) {
    exists c :: c in s.current && s.current[c] == x
  }

  lemma RunningIsCurrent(s: State, x: nat)
    requires Inv(s)
    ensures Running(s, x) <==> Current(s, x)
  {
    if Running(s, x) {
      var c :| c in s.current && s.current[c] == x;
      assert CpuGood(s, c);
    }
  }

  /** No context is current on two CPUs. */
  lemma OneCpu(states: seq<State>, steps: seq<Step>, i: nat, c: nat, d: nat)
    requires Trace(states, steps) && i < |states|
    requires c in states[i].current && d in states[i].current && states[i].current[c] == states[i].current[d]
    ensures c == d
  {
    TraceInv(states, steps, i);
    assert CpuGood(states[i], c) && CpuGood(states[i], d);
  }

  // ----- a caller with a started callee -----

  predicate WaitsFor(s: State, p: nat, q: nat) {
    p in s.contexts && s.contexts[p].point == Waiting(q)
  }

  /** A waiting caller is on no CPU and no CPU may choose it. */
  lemma ParkedNotScheduled(s: State, p: nat, q: nat, c: nat)
    requires Inv(s) && WaitsFor(s, p, q)
    ensures !Running(s, p) && !s.contexts[p].RunnableOn(c) && !s.contexts[p].status.Exited?
    ensures CalleeOf(s, q, p)
  {
    assert Good(s, p);
    RunningIsCurrent(s, p);
  }

  /** Only the exited callee itself, returning, ends the wait. */
  ghost predicate Ends(s: State, step: Step, p: nat, q: nat) {
    && step.FuseReturn? && step.cpu in s.current && s.current[step.cpu] == q
    && q in s.contexts && s.contexts[q].status.Exited? && s.contexts[q].point == Leaving(Some(p))
  }

  lemma ParkedStays(s: State, step: Step, p: nat, q: nat)
    requires Inv(s) && Enabled(s, step) && WaitsFor(s, p, q)
    ensures WaitsFor(After(s, step), p, q) || Ends(s, step, p, q)
  {
    assert Good(s, p);
    if !step.Boot? && !step.HostReply? {
      assert CpuGood(s, step.cpu) && Good(s, s.current[step.cpu]);
    }
    if step.Switch? && step.to.Some? {
      assert Good(s, step.to.value);
    }
    if step.FuseReturn? {
      assert Good(s, s.contexts[s.current[step.cpu]].point.parent.value);
    }
  }

  /** A caller runs again only after its callee has exited and returned to it. */
  lemma {:induction false} ParkedUntilReturn(states: seq<State>, steps: seq<Step>, i: nat, j: nat, p: nat, q: nat)
    requires Trace(states, steps) && i <= j < |states| && WaitsFor(states[i], p, q)
    ensures WaitsFor(states[j], p, q) || exists k :: i <= k < j && Ends(states[k], steps[k], p, q)
    ensures Running(states[j], p) ==> exists k :: i <= k < j && Ends(states[k], steps[k], p, q)
    decreases j - i
  {
    TraceInv(states, steps, i);
    if i == j {
      ParkedNotScheduled(states[i], p, q, 0);
    } else {
      assert StepAt(states, steps, i);
      ParkedStays(states[i], steps[i], p, q);
      if WaitsFor(states[i + 1], p, q) {
        ParkedUntilReturn(states, steps, i + 1, j, p, q);
      }
    }
  }

  // ----- an exited context -----

  lemma ExitedStays(s: State, step: Step, x: nat)
    requires Inv(s) && Enabled(s, step) && x in s.contexts && s.contexts[x].status.Exited?
    ensures x in After(s, step).contexts && After(s, step).contexts[x].status.Exited?
    ensures !Current(s, x) ==> !Current(After(s, step), x)
    ensures !Current(s, x) ==> After(s, step).contexts[x].point == s.contexts[x].point
  {
    assert Good(s, x);
    if !step.Boot? && !step.HostReply? {
      assert CpuGood(s, step.cpu) && Good(s, s.current[step.cpu]);
    }
    if step.Switch? && step.to.Some? {
      assert Good(s, step.to.value);
    }
    if step.FuseReturn? {
      assert Good(s, s.contexts[s.current[step.cpu]].point.parent.value);
    }
    if step.FuseSwitch? {
      assert Good(s, s.contexts[s.current[step.cpu]].point.callee);
    }
  }

  /** An exited context that has left its CPU never runs again. */
  lemma {:induction false} ExitedNeverRuns(states: seq<State>, steps: seq<Step>, i: nat, j: nat, x: nat)
    requires Trace(states, steps) && i <= j < |states|
    requires x in states[i].contexts && states[i].contexts[x].status.Exited? && !Running(states[i], x)
    ensures x in states[j].contexts && states[j].contexts[x].status.Exited? && !Running(states[j], x)
    ensures states[j].contexts[x].point == states[i].contexts[x].point
    decreases j - i
  {
    TraceInv(states, steps, i);
    if i < j {
      assert StepAt(states, steps, i);
      TraceInv(states, steps, i + 1);
      RunningIsCurrent(states[i], x);
      RunningIsCurrent(states[i + 1], x);
      ExitedStays(states[i], steps[i], x);
      ExitedNeverRuns(states, steps, i + 1, j, x);
    }
  }

  // ----- an exit returns to its caller -----

  /** Still on its CPU, the callee can return at once, and then its caller runs. */
  lemma ReturnResumes(s: State, p: nat, q: nat, c: nat)
    requires Inv(s) && q in s.contexts && s.contexts[q].point == Leaving(Some(p)) && c in s.current && s.current[c] == q
    ensures Enabled(s, FuseReturn(c)) && Running(After(s, FuseReturn(c)), p)
  {
    assert CpuGood(s, c) && Good(s, q);
    assert After(s, FuseReturn(c)).current[c] == p;
  }

  /** The step takes the CPU from a callee that is on its way back to its caller. */
  predicate CutsReturnShort(s: State, step: Step) {
    && step.Switch? && step.cpu in s.current && s.current[step.cpu] in s.contexts
    && s.contexts[s.current[step.cpu]].point.Leaving? && s.contexts[s.current[step.cpu]].point.parent.Some?
  }

  /**
   A fused callee enters the kernel to exit through an interrupt gate, and interrupts stay off until
   `fuse_return`: no timer switches it away in between.
   */
  ghost predicate Gated(states: seq<State>, steps: seq<Step>)
    requires |states| == |steps| + 1
  {
    forall k :: 0 <= k < |steps| ==> !CutsReturnShort(states[k], steps[k])
  }

  /** A callee marked exited stays on its CPU until it returns. */
  lemma StaysOnCpu(s: State, step: Step, p: nat, q: nat)
    requires Inv(s) && Enabled(s, step) && !CutsReturnShort(s, step) && q in After(s, step).contexts
    requires q in s.contexts && s.contexts[q].point == Leaving(Some(p)) ==> Current(s, q)
    ensures After(s, step).contexts[q].point == Leaving(Some(p)) ==> Current(After(s, step), q)
  {
    hide PointOk, Linked;
    assert step.HostReply? || CpuGood(s, step.cpu);
  }

  /** In every state of a run, a callee that has exited and not yet returned is on its CPU. */
  lemma {:induction false} ExitingIsRunning(states: seq<State>, steps: seq<Step>, i: nat, p: nat, q: nat)
    requires Trace(states, steps) && Gated(states, steps) && i < |states|
    requires q in states[i].contexts && states[i].contexts[q].point == Leaving(Some(p))
    ensures Running(states[i], q)
  {
    hide After, Enabled;
    var j := i - 1;
    assert StepAt(states, steps, j) && !CutsReturnShort(states[j], steps[j]);
    TraceInv(states, steps, j);
    TraceInv(states, steps, i);
    if q in states[j].contexts && states[j].contexts[q].point == Leaving(Some(p)) {
      ExitingIsRunning(states, steps, j, p, q);
      RunningIsCurrent(states[j], q);
    }
    StaysOnCpu(states[j], steps[j], p, q);
    RunningIsCurrent(states[i], q);
  }

  /** The next step its CPU takes is `fuse_return`, and then the caller runs there. */
  lemma ReturnIsNext(states: seq<State>, steps: seq<Step>, i: nat, p: nat, q: nat, c: nat)
    requires Trace(states, steps) && Gated(states, steps) && i < |steps|
    requires c in states[i].current && states[i].current[c] == q
    requires q in states[i].contexts && states[i].contexts[q].point == Leaving(Some(p))
    requires !steps[i].HostReply? && steps[i].cpu == c
    ensures steps[i] == FuseReturn(c) && c in states[i + 1].current && states[i + 1].current[c] == p
  {
    assert StepAt(states, steps, i) && !CutsReturnShort(states[i], steps[i]);
    TraceInv(states, steps, i);
    ReturnResumes(states[i], p, q, c);
  }

  /** No caller is stranded: one whose callee has exited is one step of that callee away from running. */
  lemma CallerCanResume(states: seq<State>, steps: seq<Step>, i: nat, p: nat, q: nat) returns (c: nat)
    requires Trace(states, steps) && Gated(states, steps) && i < |states| && WaitsFor(states[i], p, q)
    requires q in states[i].contexts && states[i].contexts[q].status.Exited?
    ensures c in states[i].current && states[i].current[c] == q
    ensures Enabled(states[i], FuseReturn(c)) && Running(After(states[i], FuseReturn(c)), p)
  {
    var s := states[i];
    TraceInv(states, steps, i);
    ParkedNotScheduled(s, p, q, 0);
    assert Good(s, q);
    ExitingIsRunning(states, steps, i, p, q);
    c :| c in s.current && s.current[c] == q;
    ReturnResumes(s, p, q, c);
  }

  // ----- were an exit interrupted -----

  /**
   A callee switched out between marking itself exited and `fuse_return`, which interrupt gates rule out,
   would strand its caller: the caller waits in every later state.
   */
  lemma PreemptedExitStrandsCaller(states: seq<State>, steps: seq<Step>, i: nat, j: nat, p: nat, q: nat)
    requires Trace(states, steps) && i <= j < |states|
    requires q in states[i].contexts && states[i].contexts[q].point == Leaving(Some(p)) && !Running(states[i], q)
    ensures WaitsFor(states[j], p, q) && !Running(states[j], p)
  {
    TraceInv(states, steps, i);
    assert Good(states[i], q);
    ParkedUntilReturn(states, steps, i, j, p, q);
    forall k | i <= k < j
      ensures !Ends(states[k], steps[k], p, q)
    {
      ExitedNeverRuns(states, steps, i, k, q);
    }
    TraceInv(states, steps, j);
    ParkedNotScheduled(states[j], p, q, 0);
  }

  /** A run that goes on from another. */
  ghost predicate Continues(states: seq<State>, steps: seq<Step>, states2: seq<State>, steps2: seq<Step>) {
    states <= states2 && steps <= steps2 && Trace(states2, steps2)
  }

  /** Some continuation of the run has `p` running at its end. */
  ghost predicate CanRunAgain(states: seq<State>, steps: seq<Step>, p: nat) {
    exists states2, steps2 :: Continues(states, steps, states2, steps2) && Running(states2[|states2| - 1], p)
  }

  /** A caller whose callee has exited can ever run again exactly if the callee is still on its CPU. */
  lemma StrandedExactly(states: seq<State>, steps: seq<Step>, p: nat, q: nat)
    requires Trace(states, steps)
    requires var s := states[|states| - 1]; q in s.contexts && s.contexts[q].point == Leaving(Some(p))
    ensures CanRunAgain(states, steps, p) <==> Running(states[|states| - 1], q)
  {
    var i := |states| - 1;
    TraceInv(states, steps, i);
    if Running(states[i], q) {
      var c :| c in states[i].current && states[i].current[c] == q;
      ReturnResumes(states[i], p, q, c);
      var states2, steps2 := states + [After(states[i], FuseReturn(c))], steps + [FuseReturn(c)];
      forall k | 0 <= k < |steps2|
        ensures StepAt(states2, steps2, k)
      {
        if k < |steps| {
          assert StepAt(states, steps, k);
        }
      }
      assert Continues(states, steps, states2, steps2);
    } else {
      forall states2, steps2 | Continues(states, steps, states2, steps2)
        ensures !Running(states2[|states2| - 1], p)
      {
        assert states2[i] == states[i];
        PreemptedExitStrandsCaller(states2, steps2, i, |states2| - 1, p, q);
      }
    }
  }

  // Context 1 fuses 2; 2 casts 3, marks itself exited and, with interrupts on, is switched out for 3.

  const CALLER := Context(Status.Running, None, Some(0), None, Waiting(2), 0, None)

  const CALLEE := Context(Status.Running, Some(1), Some(0), None, User, 1, None)

  function Calling(callee: Context): State {
    State(map[1 := CALLER, 2 := callee], map[0 := 2], 2)
  }

  function Leaving3(third: Context, cpu: nat): State {
    var second := CALLEE.(status := Exited, retLink := None, point := Leaving(Some(1)));
    State(map[1 := CALLER, 2 := second, 3 := third], map[0 := cpu], 3)
  }

  lemma CallStarted() returns (s1: State, s2: State)
    ensures Enabled(START, Boot(0, 1)) && s1 == After(START, Boot(0, 1))
    ensures Enabled(s1, FuseInsert(0, 2)) && s2 == After(s1, FuseInsert(0, 2))
    ensures Enabled(s2, FuseSwitch(0)) && Calling(CALLEE) == After(s2, FuseSwitch(0))
  {
    s1 := State(map[1 := CALLER.(point := User)], map[0 := 1], 1);
    s2 := State(map[1 := CALLER.(point := Fused(2)), 2 := CALLEE.(status := Blocked, point := Fresh)], map[0 := 1], 2);
    assert After(START, Boot(0, 1)).contexts == s1.contexts;
    assert After(s1, FuseInsert(0, 2)).contexts == s2.contexts;
    assert After(s2, FuseSwitch(0)).contexts == Calling(CALLEE).contexts;
  }

  lemma CalleeSwitchedOut() returns (s4: State)
    ensures Enabled(Calling(CALLEE), Cast(0, 3)) && s4 == After(Calling(CALLEE), Cast(0, 3))
    ensures var third := SPAWNED.(status := New, born := 2);
            && Enabled(s4, Exit(0)) && Leaving3(third, 2) == After(s4, Exit(0))
            && Enabled(Leaving3(third, 2), Switch(0, Some(3)))
            && Leaving3(third.(cpu := Some(0), status := Status.Running, point := User), 3) ==
               After(Leaving3(third, 2), Switch(0, Some(3)))
  {
    var third := SPAWNED.(status := New, born := 2);
    var s3 := Calling(CALLEE);
    s4 := s3.(contexts := s3.contexts[3 := third], clock := 3);
    assert After(s4, Exit(0)).contexts == Leaving3(third, 2).contexts;
    var s5 := Leaving3(third, 2);
    assert Owning(s5, 0) == Leaving3(third.(cpu := Some(0)), 2).contexts;
    var last := Leaving3(third.(cpu := Some(0), status := Status.Running, point := User), 3);
    assert After(s5, Switch(0, Some(3))).contexts == last.contexts;
  }

  /** Such a run: it is not `Gated`, and its caller 1 waits for ever for the exited 2. */
  lemma StrandingHappens() returns (states: seq<State>, steps: seq<Step>)
    ensures Trace(states, steps) && !Gated(states, steps)
    ensures var s := states[|states| - 1];
            && 2 in s.contexts && s.contexts[2].point == Leaving(Some(1)) && !Running(s, 2)
            && !CanRunAgain(states, steps, 1)
  {
    hide Enabled, After;
    var third := SPAWNED.(status := New, born := 2);
    var s1, s2 := CallStarted();
    var s4 := CalleeSwitchedOut();
    steps := [Boot(0, 1), FuseInsert(0, 2), FuseSwitch(0), Cast(0, 3), Exit(0), Switch(0, Some(3))];
    var last := Leaving3(third.(cpu := Some(0), status := Status.Running, point := User), 3);
    states := [START, s1, s2, Calling(CALLEE), s4, Leaving3(third, 2), last];
    forall i | 0 <= i < |steps|
      ensures StepAt(states, steps, i)
    {
    }
    assert CutsReturnShort(states[5], steps[5]);
    StrandedExactly(states, steps, 1, 2);
  }

  // ----- fused calls nest as a stack -----

  /** Whom `q` will return to: the link it holds, or the one it took when it exited. */
  function CallerOf(s: State, q: nat): Option<nat> {
    if q !in s.contexts then None
    else if s.contexts[q].retLink.Some? then s.contexts[q].retLink
    else if s.contexts[q].point.Leaving? then s.contexts[q].point.parent
    else None
  }

  /** A caller has at most one callee, and every caller was created before its callee. */
  lemma OneCallee(s: State, p: nat, q: nat, r: nat)
    requires Inv(s) && CallerOf(s, q) == Some(p)
    ensures p in s.contexts && s.contexts[p].born < s.contexts[q].born
    ensures CallerOf(s, r) == Some(p) ==> q == r
  {
    assert Good(s, q) && Good(s, r);
  }

  /** The caller's caller's ... caller, `n` links up. */
  function Ancestor(s: State, q: nat, n: nat): Option<nat> {
    if n == 0 then Some(q)
    else match Ancestor(s, q, n - 1)
         case None => None
         case Some(a) => CallerOf(s, a)
  }

  lemma {:induction false} AncestorOlder(s: State, q: nat, n: nat)
    requires Inv(s) && q in s.contexts && Ancestor(s, q, n).Some?
    ensures var a := Ancestor(s, q, n).value;
            a in s.contexts && (n > 0 ==> s.contexts[a].born < s.contexts[q].born && WaitingOrFused(s, a))
  {
    if n > 0 {
      AncestorOlder(s, q, n - 1);
      var b := Ancestor(s, q, n - 1).value;
      OneCallee(s, Ancestor(s, q, n).value, b, b);
      assert Good(s, b);
    }
  }

  predicate WaitingOrFused(s: State, p: nat) {
    p in s.contexts && (s.contexts[p].point.Waiting? || s.contexts[p].point.Fused?)
  }

  /** Following the links from a context never leads back to it. */
  lemma ChainsAcyclic(states: seq<State>, steps: seq<Step>, i: nat, q: nat, n: nat)
    requires Trace(states, steps) && i < |states| && q in states[i].contexts && n > 0
    ensures Ancestor(states[i], q, n) != Some(q)
  {
    TraceInv(states, steps, i);
    if Ancestor(states[i], q, n).Some? {
      AncestorOlder(states[i], q, n);
    }
  }

  // ----- the value a caller takes -----

  /** Step `m` is `q` passing `v` to `sys_return`. */
  ghost predicate Gives(s: State, step: Step, q: nat, v: Value) {
    step.SysReturn? && step.value == v && step.cpu in s.current && s.current[step.cpu] == q
  }

  /** Step `m` is `p` starting its callee `q`. */
  ghost predicate Starts(s: State, step: Step, p: nat, q: nat) {
    && step.FuseSwitch? && step.cpu in s.current && s.current[step.cpu] == p
    && p in s.contexts && s.contexts[p].point == Fused(q)
  }

  predicate HasGiven(s: State, q: nat, v: Value) {
    q in s.contexts && s.contexts[q].given == Some(v)
  }

  predicate StartedBy(s: State, p: nat, q: nat) {
    p in s.contexts && (s.contexts[p].point == Waiting(q) || s.contexts[p].point == Resumed(q))
  }

  lemma GivenStep(s: State, step: Step, q: nat, v: Value)
    requires Inv(s) && Enabled(s, step)
    ensures HasGiven(After(s, step), q, v) <==> HasGiven(s, q, v) || Gives(s, step, q, v)
    ensures Gives(s, step, q, v) ==> q in s.contexts && s.contexts[q].given.None?
  {
    assert Good(s, q);
    if !step.Boot? && !step.HostReply? {
      assert CpuGood(s, step.cpu) && Good(s, s.current[step.cpu]);
    }
  }

  lemma {:induction false} GivenOrigin(states: seq<State>, steps: seq<Step>, k: nat, q: nat, v: Value)
    requires Trace(states, steps) && k < |states|
    ensures HasGiven(states[k], q, v) <==> exists m :: 0 <= m < k && Gives(states[m], steps[m], q, v)
  {
    if k > 0 {
      GivenOrigin(states, steps, k - 1, q, v);
      TraceInv(states, steps, k - 1);
      assert StepAt(states, steps, k - 1);
      GivenStep(states[k - 1], steps[k - 1], q, v);
    }
  }

  lemma StartStep(s: State, step: Step, p: nat, q: nat)
    requires Inv(s) && Enabled(s, step) && StartedBy(After(s, step), p, q)
    ensures StartedBy(s, p, q) || Starts(s, step, p, q)
  {
    assert Good(s, p);
    if !step.Boot? && !step.HostReply? {
      assert CpuGood(s, step.cpu) && Good(s, s.current[step.cpu]);
    }
    if step.FuseReturn? {
      assert Good(s, s.contexts[s.current[step.cpu]].point.parent.value);
    }
    if step.Switch? && step.to.Some? {
      assert Good(s, step.to.value);
    }
  }

  lemma {:induction false} StartOrigin(states: seq<State>, steps: seq<Step>, k: nat, p: nat, q: nat)
    requires Trace(states, steps) && k < |states| && StartedBy(states[k], p, q)
    ensures exists m :: 0 <= m < k && Starts(states[m], steps[m], p, q)
  {
    if k > 0 {
      TraceInv(states, steps, k - 1);
      assert StepAt(states, steps, k - 1);
      StartStep(states[k - 1], steps[k - 1], p, q);
      if StartedBy(states[k - 1], p, q) {
        StartOrigin(states, steps, k - 1, p, q);
      }
    }
  }

  /**
   When a caller `p` takes the result `v` of its call, `p` started that callee, the callee
   gave `v` to `sys_return`, and it never gave anything else.
   */
  lemma ResultIsWhatTheCalleeGave(states: seq<State>, steps: seq<Step>, k: nat, p: nat, q: nat, v: Value)
    requires Trace(states, steps) && k < |steps| && steps[k].TakeResult?
    requires steps[k].cpu in states[k].current && states[k].current[steps[k].cpu] == p
    requires p in states[k].contexts && states[k].contexts[p].point == Resumed(q)
    requires q in states[k].contexts && states[k].contexts[q].result == Some(v)
    ensures exists m :: 0 <= m < k && Starts(states[m], steps[m], p, q)
    ensures exists m :: 0 <= m < k && Gives(states[m], steps[m], q, v)
    ensures forall m: nat, w: Value :: m < k && Gives(states[m], steps[m], q, w) ==> w == v
  {
    TraceInv(states, steps, k);
    assert Good(states[k], p);
    StartOrigin(states, steps, k, p, q);
    GivenOrigin(states, steps, k, q, v);
    forall m: nat, w: Value | m < k && Gives(states[m], steps[m], q, w)
      ensures w == v
    {
      GivenOrigin(states, steps, k, q, w);
    }
  }

  /** A resumed caller finds a result exactly if its callee called `sys_return` before exiting. */
  lemma ResultPresentIffReturned(states: seq<State>, steps: seq<Step>, k: nat, p: nat, q: nat)
    requires Trace(states, steps) && k < |states|
    requires p in states[k].contexts && states[k].contexts[p].point == Resumed(q)
    ensures q in states[k].contexts
    ensures states[k].contexts[q].result.Some? <==> exists v: Value :: GaveBefore(states, steps, k, q, v)
  {
    TraceInv(states, steps, k);
    assert Good(states[k], p);
    var x := states[k].contexts[q];
    if x.given.Some? {
      GivenOrigin(states, steps, k, q, x.given.value);
      assert GaveBefore(states, steps, k, q, x.given.value);
    }
    if v: Value :| GaveBefore(states, steps, k, q, v) {
      GivenOrigin(states, steps, k, q, v);
    }
  }

  ghost predicate GaveBefore(states: seq<State>, steps: seq<Step>, k: nat, q: nat, v: Value)
    requires k < |states| && |states| == |steps| + 1
  {
    exists m :: 0 <= m < k && Gives(states[m], steps[m], q, v)
  }

}
