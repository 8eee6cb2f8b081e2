/** The round robin of kernel/src/context/switch.rs serves every runnable context. */
module Fairness {
  import opened Wrappers
  import opened Contexts
  import opened ContextRuns

  /** The ids met when going up from `from`, around the end, until `t`. */
  function Ahead(ids: set<nat>, from: nat, t: nat): set<nat> {
    set x | x in ids && if from < t then from < x <= t else from < x || x <= t
  }

  /** A context that can run is chosen, or the choice comes strictly closer to it. */
  lemma CloserEachSwitch(contexts: map<nat, Context>, c: nat, from: nat, to: Option<nat>, t: nat)
    requires Chosen(contexts, c, from, to) && t in contexts && t != from
    requires (contexts[t].status.Runnable? || contexts[t].status.New?) && contexts[t].cpu == Some(c)
    ensures to.Some?
    ensures to == Some(t) || 0 < |Ahead(contexts.Keys, to.value, t)| < |Ahead(contexts.Keys, from, t)|
  {
    if to != Some(t) {
      var u := to.value;
      var before, after := Ahead(contexts.Keys, from, t), Ahead(contexts.Keys, u, t);
      assert u in before && u !in after && t in after;
      assert after <= before - {u};
      SubsetSize(after, before - {u});
    }
  }

  /** The steps that take a CPU to another context without asking the round robin. */
  predicate Jumps(step: Step, c: nat) {
    (step.FuseSwitch? || step.FuseReturn?) && step.cpu == c
  }

  /**
   From state `i` up to state `j` there is no new context, CPU `c` makes no fused call or return, and
   `t` stays runnable on it. All other contexts may change in any way, and other CPUs do anything.
   */
  ghost predicate Undisturbed(states: seq<State>, steps: seq<Step>, c: nat, t: nat, ids: set<nat>, i: nat, j: nat)
    requires i <= j < |states| == |steps| + 1
  {
    forall k :: i <= k < j ==> Waits(states[k], c, t, ids) && !Jumps(steps[k], c)
  }

  predicate Waits(s: State, c: nat, t: nat, ids: set<nat>) {
    && s.contexts.Keys == ids && c in s.current && t in s.contexts
    && (s.contexts[t].status.Runnable? || s.contexts[t].status.New?) && s.contexts[t].cpu == Some(c)
  }

  /** How often CPU `c` called `switch`. */
  function Switches(steps: seq<Step>, c: nat, i: nat, j: nat): nat
    requires i <= j <= |steps|
  {
    if i == j then 0
    else Switches(steps, c, i, j - 1) + if steps[j - 1].Switch? && steps[j - 1].cpu == c then 1 else 0
  }

  /** Only a switch moves the CPU, and it moves it nearer to `t` if not to `t` itself. */
  lemma NearerOrStill(s: State, step: Step, c: nat, t: nat, ids: set<nat>)
    requires Enabled(s, step) && Waits(s, c, t, ids) && !Jumps(step, c) && s.current[c] != t
    requires step != Switch(c, Some(t))
    ensures c in After(s, step).current && After(s, step).current[c] != t
    ensures var moved := if step.Switch? && step.cpu == c then 1 else 0;
            |Ahead(ids, After(s, step).current[c], t)| + moved <= |Ahead(ids, s.current[c], t)|
  {
    hide Ahead;
    if step.Switch? && step.cpu == c {
      assert Owning(s, c).Keys == ids;
      CloserEachSwitch(Owning(s, c), c, s.current[c], step.to, t);
    }
  }

  lemma {:induction false} NotForever(
      states: seq<State>, steps: seq<Step>, c: nat, t: nat, ids: set<nat>, i: nat, j: nat)
    requires Trace(states, steps) && i <= j < |states| && Undisturbed(states, steps, c, t, ids, i, j)
    requires c in states[i].current && states[i].current[c] != t
    requires forall k :: i <= k < j ==> steps[k] != Switch(c, Some(t))
    ensures c in states[j].current && states[j].current[c] != t
    ensures t in ids ==> Ahead(ids, states[j].current[c], t) != {}
    ensures |Ahead(ids, states[j].current[c], t)| + Switches(steps, c, i, j) <= |Ahead(ids, states[i].current[c], t)|
    decreases j - i
  {
    hide Enabled, After, Waits;
    assert t in ids ==> t in Ahead(ids, states[i].current[c], t);
    if i < j {
      NotForever(states, steps, c, t, ids, i, j - 1);
      assert StepAt(states, steps, j - 1);
      NearerOrStill(states[j - 1], steps[j - 1], c, t, ids);
      assert t in ids ==> t in Ahead(ids, states[j].current[c], t);
    }
  }

  /** With `N` contexts, one that stays runnable is chosen by the time its CPU has switched `N - 1` times. */
  lemma ServedWithinOneTurn(states: seq<State>, steps: seq<Step>, c: nat, t: nat, ids: set<nat>, i: nat, j: nat)
    requires Trace(states, steps) && i < j < |states| && Undisturbed(states, steps, c, t, ids, i, j)
    requires states[i].current[c] != t && Switches(steps, c, i, j) >= |ids| - 1
    ensures exists k :: i <= k < j && steps[k] == Switch(c, Some(t))
  {
    var from := states[i].current[c];
    assert Waits(states[i], c, t, ids);
    TraceInv(states, steps, i);
    assert CpuGood(states[i], c);
    SubsetSize(Ahead(ids, from, t), ids - {from});
    if forall k :: i <= k < j ==> steps[k] != Switch(c, Some(t)) {
      NotForever(states, steps, c, t, ids, i, j);
    }
  }

  // ----- fused calls on the same CPU -----

  /** The contexts that can still be started, and those that can still return. */
  function Unstarted(s: State, ids: set<nat>): set<nat> {
    set x | x in ids && x in s.contexts && s.contexts[x].point.Fresh?
  }

  function Unreturned(s: State, ids: set<nat>): set<nat> {
    set x | x in ids && x in s.contexts && !s.contexts[x].point.Gone?
  }

  /** How many fused calls and returns are still to come without new contexts. */
  function JumpsLeft(s: State, ids: set<nat>): nat { |Unstarted(s, ids)| + |Unreturned(s, ids)| }

  /** A context is started once. */
  lemma StartsOnce(s: State, step: Step, ids: set<nat>)
    requires Inv(s) && Enabled(s, step) && ids == s.contexts.Keys
    ensures Unstarted(After(s, step), ids) <= Unstarted(s, ids)
    ensures step.FuseSwitch? ==> Unstarted(After(s, step), ids) != Unstarted(s, ids)
  {
    if step.FuseSwitch? {
      assert CpuGood(s, step.cpu) && Good(s, s.current[step.cpu]);
      assert s.contexts[s.current[step.cpu]].point.callee in Unstarted(s, ids);
    } else {
      hide Inv, Good;
    }
  }

  /** A context returns once. */
  lemma ReturnsOnce(s: State, step: Step, ids: set<nat>)
    requires Inv(s) && Enabled(s, step) && ids == s.contexts.Keys
    ensures Unreturned(After(s, step), ids) <= Unreturned(s, ids)
    ensures step.FuseReturn? ==> Unreturned(After(s, step), ids) != Unreturned(s, ids)
  {
    forall x | x in ids && x !in Unreturned(s, ids)
      ensures x !in Unreturned(After(s, step), ids)
    {
      hide After, Enabled;
      assert Good(s, x);
      ExitedStays(s, step, x);
    }
    if step.FuseReturn? {
      assert Good(s, s.current[step.cpu]);
      assert s.current[step.cpu] in Unreturned(s, ids) && s.current[step.cpu] !in Unreturned(After(s, step), ids);
    }
  }

  lemma JumpsRunOut(s: State, step: Step, ids: set<nat>)
    requires Inv(s) && Enabled(s, step) && ids == s.contexts.Keys
    ensures var jumped := if step.FuseSwitch? || step.FuseReturn? then 1 else 0;
            JumpsLeft(After(s, step), ids) + jumped <= JumpsLeft(s, ids)
  {
    hide After, Enabled, Inv, Unstarted, Unreturned;
    var t := After(s, step);
    StartsOnce(s, step, ids);
    ReturnsOnce(s, step, ids);
    SubsetSize(Unstarted(t, ids), Unstarted(s, ids));
    SubsetSize(Unreturned(t, ids), Unreturned(s, ids));
    if step.FuseSwitch? {
      ProperSubsetSize(Unstarted(t, ids), Unstarted(s, ids));
    } else if step.FuseReturn? {
      ProperSubsetSize(Unreturned(t, ids), Unreturned(s, ids));
    }
  }

  lemma ProperSubsetSize<T>(a: set<T>, b: set<T>)
    requires a < b
    ensures |a| < |b|
  {
    var x :| x in b && x !in a;
    SubsetSize(a, b - {x});
  }

  /** How far CPU `c` is from `t`: a whole turn for every jump still to come, and the rest of this one. */
  function Distance(s: State, c: nat, t: nat, ids: set<nat>): nat
    requires c in s.current && ids != {}
  {
    JumpsLeft(s, ids) * (|ids| - 1) + |Ahead(ids, s.current[c], t)|
  }

  lemma NearerOrJumps(s: State, step: Step, c: nat, t: nat, ids: set<nat>)
    requires Inv(s) && Enabled(s, step) && Waits(s, c, t, ids) && s.current[c] != t
    requires c in After(s, step).current && After(s, step).current[c] != t
    ensures var moved := if step.Switch? && step.cpu == c then 1 else 0;
            Distance(After(s, step), c, t, ids) + moved <= Distance(s, c, t, ids)
  {
    hide Ahead, JumpsLeft, Inv;
    var u, turn := After(s, step), |ids| - 1;
    JumpsRunOut(s, step, ids);
    if Jumps(step, c) {
      AheadWithinTurn(ids, u.current[c], t);
      Times(JumpsLeft(u, ids) + 1, JumpsLeft(s, ids), turn);
    } else {
      NearerOrStill(s, step, c, t, ids);
      Times(JumpsLeft(u, ids), JumpsLeft(s, ids), turn);
    }
  }

  lemma AheadWithinTurn(ids: set<nat>, from: nat, t: nat)
    requires from in ids && from != t
    ensures |Ahead(ids, from, t)| <= |ids| - 1
  {
    SubsetSize(Ahead(ids, from, t), ids - {from});
  }

  lemma Times(m: nat, n: nat, k: nat)
    requires m <= n
    ensures m * k <= n * k
  {
  }

  /** `t` is current on CPU `c` in a state after state `i` and not after state `j`. */
  ghost predicate Served(states: seq<State>, c: nat, t: nat, i: nat, j: nat)
    requires j < |states|
  {
    exists k :: i < k <= j && c in states[k].current && states[k].current[c] == t
  }

  lemma {:induction false} DistanceRunsDown(
      states: seq<State>, steps: seq<Step>, c: nat, t: nat, ids: set<nat>, i: nat, j: nat)
    requires Trace(states, steps) && i <= j < |states| && forall k :: i <= k < j ==> Waits(states[k], c, t, ids)
    requires c in states[i].current && states[i].current[c] != t && t in ids && !Served(states, c, t, i, j)
    ensures c in states[j].current && states[j].current[c] != t
    ensures Distance(states[j], c, t, ids) + Switches(steps, c, i, j) <= Distance(states[i], c, t, ids)
    decreases j - i
  {
    hide Enabled, After, Waits, Inv, Distance;
    if i < j {
      DistanceRunsDown(states, steps, c, t, ids, i, j - 1);
      assert StepAt(states, steps, j - 1);
      TraceInv(states, steps, j - 1);
      CurrentStays(states[j - 1], steps[j - 1], c);
      NearerOrJumps(states[j - 1], steps[j - 1], c, t, ids);
    }
  }

  lemma CurrentStays(s: State, step: Step, c: nat)
    requires Enabled(s, step) && c in s.current
    ensures c in After(s, step).current
  {
  }

  /**
   Fused calls and returns on the CPU included: with `N` contexts and no new ones, one that waits to run on
   `c` runs there by the time `c` has switched (2N + 1)(N - 1) times.
   */
  lemma ServedDespiteCalls(states: seq<State>, steps: seq<Step>, c: nat, t: nat, ids: set<nat>, i: nat, j: nat)
    requires Trace(states, steps) && i < j < |states| && forall k :: i <= k < j ==> Waits(states[k], c, t, ids)
    requires c in states[i].current && states[i].current[c] != t
    requires Switches(steps, c, i, j) >= (2 * |ids| + 1) * (|ids| - 1)
    ensures Served(states, c, t, i, j)
  {
    hide Enabled, After, Inv, CpuGood;
    assert Waits(states[i], c, t, ids);
    if !Served(states, c, t, i, j) {
      DistanceRunsDown(states, steps, c, t, ids, i, j);
      assert t in Ahead(ids, states[j].current[c], t);
      StartsNear(states, steps, c, t, ids, i);
      NoLess(JumpsLeft(states[j], ids), |ids| - 1);
      assert false;
    }
  }

  lemma NoLess(n: nat, k: nat)
    ensures n * k >= 0
  {
  }

  lemma StartsNear(states: seq<State>, steps: seq<Step>, c: nat, t: nat, ids: set<nat>, i: nat)
    requires Trace(states, steps) && i < |states| && Waits(states[i], c, t, ids) && states[i].current[c] != t
    ensures Distance(states[i], c, t, ids) <= (2 * |ids| + 1) * (|ids| - 1)
  {
    hide Inv, Ahead;
    var s := states[i];
    TraceInv(states, steps, i);
    CurrentKnown(s, c);
    AheadWithinTurn(ids, s.current[c], t);
    SubsetSize(Unstarted(s, ids), ids);
    SubsetSize(Unreturned(s, ids), ids);
    Times(JumpsLeft(s, ids), 2 * |ids|, |ids| - 1);
    assert (2 * |ids| + 1) * (|ids| - 1) == 2 * |ids| * (|ids| - 1) + (|ids| - 1);
  }

  lemma CurrentKnown(s: State, c: nat)
    requires Inv(s) && c in s.current
    ensures s.current[c] in s.contexts
  {
    assert CpuGood(s, c);
  }
}
