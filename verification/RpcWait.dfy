/**
  * Calls from the kernel to the host: the caller's steps in `ivshrpc_fuse`, the interrupt handler's
  * delivery of results, and a host that answers each call once, in any order
  * (kernel/src/devices/ivshmem.rs).
  */
module RpcWait {
  import opened Wrappers

  type Payload = seq<Byte>

  // ----- calls -----

  /** How far a context has come in its current call. */
  datatype Phase =
    | Home
    | Numbered(id: nat)
    | Queued(id: nat)
    | Sent(id: nat)
    | Waiting(id: nat)

  datatype Caller = Caller(phase: Phase, blocked: bool, result: Option<Payload>)

  datatype Answer = Answer(id: nat, value: Payload)

  /** `hand` is an answer whose context the handler has taken from the queue but not yet woken. */
  datatype Calls = Calls(
    nextId: nat, callers: map<nat, Caller>, queue: map<nat, nat>,
    requests: set<nat>, answers: seq<Answer>, hand: Option<(Answer, nat)>,
    given: map<nat, Payload>, panicked: bool)

  datatype CallStep =
    | Cast(x: nat)
    | TakeId(x: nat)
    | Enqueue(x: nat)
    | Send(x: nat)
    | CheckAndBlock(x: nat)
    | Spin(x: nat)
    | Leave(x: nat)
    | Reply(id: nat, value: Payload)
    | Remove
    | Deliver

  predicate NoCalls(s: Calls) {
    && (forall x :: x in s.callers ==> s.callers[x] == Caller(Home, false, None))
    && s.queue == map[] && s.requests == {} && s.answers == [] && s.hand == None && s.given == map[]
    && !s.panicked
  }

  predicate CallEnabled(s: Calls, step: CallStep) {
    && !s.panicked
    && match step
       case Cast(x) => x in s.callers && s.callers[x].phase.Home?
       case TakeId(x) => x in s.callers && s.callers[x].phase.Home?
       case Enqueue(x) => x in s.callers && s.callers[x].phase.Numbered?
       case Send(x) => x in s.callers && s.callers[x].phase.Queued?
       case CheckAndBlock(x) => x in s.callers && s.callers[x].phase.Sent?
       case Spin(x) => x in s.callers && s.callers[x].phase.Waiting? && s.callers[x].blocked
       case Leave(x) => x in s.callers && s.callers[x].phase.Waiting? && !s.callers[x].blocked
       case Reply(id, _) => id in s.requests
       case Remove => s.hand.None? && s.answers != []
       case Deliver => s.hand.Some?
  }

  function Put(s: Calls, x: nat, c: Caller): Calls { s.(callers := s.callers[x := c]) }

  function AfterCall(s: Calls, step: CallStep): Calls
    requires CallEnabled(s, step)
  {
    match step
    case Cast(_) => s.(nextId := s.nextId + 1)
    case TakeId(x) => Put(s, x, s.callers[x].(phase := Numbered(s.nextId))).(nextId := s.nextId + 1)
    case Enqueue(x) =>
      var c := s.callers[x];
      Put(s, x, c.(phase := Queued(c.phase.id))).(queue := s.queue[c.phase.id := x])
    case Send(x) =>
      var c := s.callers[x];
      Put(s, x, c.(phase := Sent(c.phase.id))).(requests := s.requests + {c.phase.id})
    case CheckAndBlock(x) =>
      var c := s.callers[x];
      Put(s, x, c.(phase := Waiting(c.phase.id), blocked := c.blocked || c.result.None?))
    case Spin(_) => s
    case Leave(x) =>
      var c := s.callers[x];
      if c.result.None? then s.(panicked := true) else Put(s, x, c.(phase := Home, result := None))
    case Reply(id, v) =>
      s.(requests := s.requests - {id}, answers := s.answers + [Answer(id, v)], given := s.given[id := v])
    case Remove =>
      var a := s.answers[0];
      if a.id !in s.queue then s.(panicked := true)
      else s.(answers := s.answers[1..], queue := s.queue - {a.id}, hand := Some((a, s.queue[a.id])))
    case Deliver =>
      var (a, x) := s.hand.value;
      if x !in s.callers then s.(hand := None)
      else Put(s, x, s.callers[x].(result := Some(a.value), blocked := false)).(hand := None)
  }

  // ----- the invariant -----

  predicate InTransit(answers: seq<Answer>, id: nat) { exists i :: 0 <= i < |answers| && answers[i].id == id }

  predicate InHand(s: Calls, id: nat) { s.hand.Some? && s.hand.value.0.id == id }

  /** Nobody has been told about call `id`. */
  predicate Unknown(s: Calls, id: nat) {
    id !in s.queue && id !in s.requests && !InTransit(s.answers, id) && !InHand(s, id)
  }

  predicate CallerGood(s: Calls, x: nat)
    requires x in s.callers
  {
    var c := s.callers[x];
    match c.phase
    case Home => !c.blocked && c.result.None?
    case Numbered(id) => id < s.nextId && !c.blocked && c.result.None? && Unknown(s, id)
    case Queued(id) =>
      && id < s.nextId && !c.blocked && c.result.None?
      && id in s.queue && s.queue[id] == x
      && id !in s.requests && !InTransit(s.answers, id) && !InHand(s, id)
    case Sent(id) => !c.blocked && OutGood(s, x, id)
    case Waiting(id) => (c.blocked <==> c.result.None?) && OutGood(s, x, id)
  }

  /** A call that was sent: pending in one place, or its own answer is in the result slot. */
  predicate OutGood(s: Calls, x: nat, id: nat)
    requires x in s.callers
  {
    && id < s.nextId
    && match s.callers[x].result
       case None =>
         || Pending(s, x, id)
         || (id !in s.queue && id !in s.requests && !InTransit(s.answers, id) && HeldFor(s, x, id))
       case Some(v) => Unknown(s, id) && id in s.given && s.given[id] == v
  }

  predicate Pending(s: Calls, x: nat, id: nat) {
    && id in s.queue && s.queue[id] == x && !InHand(s, id)
    && (id in s.requests <==> !InTransit(s.answers, id))
  }

  predicate HeldFor(s: Calls, x: nat, id: nat) { InHand(s, id) && s.hand.value.1 == x }

  /** Call `id` belongs to `x`, which has sent it. */
  predicate Out(s: Calls, x: nat, id: nat) {
    x in s.callers && (s.callers[x].phase == Sent(id) || s.callers[x].phase == Waiting(id))
  }

  predicate QueueGood(s: Calls, id: nat)
    requires id in s.queue
  {
    var x := s.queue[id];
    x in s.callers && (s.callers[x].phase == Queued(id) || Out(s, x, id))
  }

  predicate RequestGood(s: Calls, id: nat) { id in s.queue && Out(s, s.queue[id], id) }

  predicate AnswerGood(s: Calls, a: Answer) {
    && a.id in s.queue && Out(s, s.queue[a.id], a.id) && a.id !in s.requests
    && a.id in s.given && s.given[a.id] == a.value
  }

  predicate HandGood(s: Calls, a: Answer, x: nat) {
    && Out(s, x, a.id) && s.callers[x].result.None? && a.id !in s.queue && a.id !in s.requests
    && a.id in s.given && s.given[a.id] == a.value
  }

  predicate OwnIds(s: Calls, x: nat, y: nat)
    requires x in s.callers && y in s.callers
  {
    var p, q := s.callers[x].phase, s.callers[y].phase;
    !p.Home? && !q.Home? && p.id == q.id ==> x == y
  }

  predicate OnceEach(answers: seq<Answer>) {
    forall i, j :: 0 <= i < j < |answers| ==> answers[i].id != answers[j].id
  }

  ghost predicate Inv(s: Calls) {
    && !s.panicked
    && (forall x :: x in s.callers ==> CallerGood(s, x))
    && (forall x, y :: x in s.callers && y in s.callers ==> OwnIds(s, x, y))
    && (forall id :: id in s.queue ==> QueueGood(s, id))
    && (forall id :: id in s.requests ==> RequestGood(s, id))
    && (forall i :: 0 <= i < |s.answers| ==> AnswerGood(s, s.answers[i]))
    && OnceEach(s.answers)
    && (s.hand.Some? ==> HandGood(s, s.hand.value.0, s.hand.value.1))
  }

  lemma StartInv(s: Calls)
    requires NoCalls(s)
    ensures Inv(s)
  {
  }

  lemma FreshId(s: Calls)
    requires Inv(s)
    ensures Unknown(s, s.nextId)
  {
  }

  lemma KeepCast(s: Calls, x: nat)
    requires Inv(s) && CallEnabled(s, Cast(x))
    ensures Inv(AfterCall(s, Cast(x)))
  {
    hide InTransit, OnceEach;
    var t := AfterCall(s, Cast(x));
    forall y | y in t.callers ensures CallerGood(t, y) { assert CallerGood(s, y); }
    forall y, z | y in t.callers && z in t.callers ensures OwnIds(t, y, z) { assert OwnIds(s, y, z); }
  }

  lemma KeepTakeId(s: Calls, x: nat)
    requires Inv(s) && CallEnabled(s, TakeId(x))
    ensures Inv(AfterCall(s, TakeId(x)))
  {
    hide InTransit, OnceEach;
    var t := AfterCall(s, TakeId(x));
    FreshId(s);
    forall y | y in t.callers ensures CallerGood(t, y) { assert CallerGood(s, y); }
    forall y, z | y in t.callers && z in t.callers ensures OwnIds(t, y, z) {
      assert OwnIds(s, y, z) && CallerGood(s, y) && CallerGood(s, z);
    }
  }

  lemma KeepEnqueue(s: Calls, x: nat)
    requires Inv(s) && CallEnabled(s, Enqueue(x))
    ensures Inv(AfterCall(s, Enqueue(x)))
  {
    hide InTransit, OnceEach, CallerGood, OwnIds;
    var t := AfterCall(s, Enqueue(x));
    assert CallerGood(s, x) && OwnIds(s, x, x);
    EnqueueKeepsCaller(s, x, x);
    forall y | y in t.callers ensures CallerGood(t, y) {
      assert OwnIds(s, x, y);
      EnqueueKeepsCaller(s, x, y);
    }
    forall y, z | y in t.callers && z in t.callers ensures OwnIds(t, y, z) {
      assert OwnIds(s, y, z);
      EnqueueKeepsOwn(s, x, y, z);
    }
  }

  lemma EnqueueKeepsOwn(s: Calls, x: nat, y: nat, z: nat)
    requires CallEnabled(s, Enqueue(x)) && y in s.callers && z in s.callers && OwnIds(s, y, z)
    ensures OwnIds(AfterCall(s, Enqueue(x)), y, z)
  {
  }

  lemma EnqueueKeepsCaller(s: Calls, x: nat, y: nat)
    requires CallEnabled(s, Enqueue(x)) && y in s.callers && OwnIds(s, x, y)
    requires CallerGood(s, x) && CallerGood(s, y)
    ensures CallerGood(AfterCall(s, Enqueue(x)), y) && Unknown(s, s.callers[x].phase.id)
  {
    hide InTransit;
  }

  lemma KeepSend(s: Calls, x: nat)
    requires Inv(s) && CallEnabled(s, Send(x))
    ensures Inv(AfterCall(s, Send(x)))
  {
    hide InTransit, OnceEach;
    var t := AfterCall(s, Send(x));
    assert CallerGood(s, x);
    forall y | y in t.callers ensures CallerGood(t, y) { assert CallerGood(s, y) && OwnIds(s, x, y); }
    forall y, z | y in t.callers && z in t.callers ensures OwnIds(t, y, z) { assert OwnIds(s, y, z); }
  }

  lemma KeepCheck(s: Calls, x: nat)
    requires Inv(s) && CallEnabled(s, CheckAndBlock(x))
    ensures Inv(AfterCall(s, CheckAndBlock(x)))
  {
    hide InTransit, OnceEach;
    var t := AfterCall(s, CheckAndBlock(x));
    assert CallerGood(s, x);
    forall y | y in t.callers ensures CallerGood(t, y) { assert CallerGood(s, y) && OwnIds(s, x, y); }
    forall y, z | y in t.callers && z in t.callers ensures OwnIds(t, y, z) { assert OwnIds(s, y, z); }
  }

  lemma KeepLeave(s: Calls, x: nat)
    requires Inv(s) && CallEnabled(s, Leave(x))
    ensures Inv(AfterCall(s, Leave(x)))
  {
    hide InTransit, OnceEach;
    var t := AfterCall(s, Leave(x));
    assert CallerGood(s, x);
    forall y | y in t.callers ensures CallerGood(t, y) { assert CallerGood(s, y) && OwnIds(s, x, y); }
    forall y, z | y in t.callers && z in t.callers ensures OwnIds(t, y, z) { assert OwnIds(s, y, z); }
  }

  lemma KeepReply(s: Calls, id: nat, v: Payload)
    requires Inv(s) && CallEnabled(s, Reply(id, v))
    ensures Inv(AfterCall(s, Reply(id, v)))
  {
    hide InTransit, OnceEach;
    var t := AfterCall(s, Reply(id, v));
    assert RequestGood(s, id) && !InTransit(s.answers, id) by { NotBoth(s, id); }
    Appended(s.answers, Answer(id, v));
    forall y | y in t.callers ensures CallerGood(t, y) { assert CallerGood(s, y); }
    forall y, z | y in t.callers && z in t.callers ensures OwnIds(t, y, z) { assert OwnIds(s, y, z); }
    forall i | 0 <= i < |t.answers| ensures AnswerGood(t, t.answers[i]) {
      assert i < |s.answers| ==> AnswerGood(s, s.answers[i]);
    }
  }

  lemma NotBoth(s: Calls, id: nat)
    requires Inv(s) && id in s.requests
    ensures RequestGood(s, id) && !InTransit(s.answers, id)
  {
  }

  lemma Appended(answers: seq<Answer>, a: Answer)
    requires OnceEach(answers) && !InTransit(answers, a.id)
    ensures OnceEach(answers + [a])
    ensures forall id: nat :: InTransit(answers + [a], id) <==> InTransit(answers, id) || id == a.id
  {
    var more := answers + [a];
    forall id: nat ensures InTransit(more, id) <==> InTransit(answers, id) || id == a.id {
      if InTransit(answers, id) {
        var i :| 0 <= i < |answers| && answers[i].id == id;
        assert more[i].id == id;
      }
      assert more[|answers|] == a;
    }
  }

  lemma Shifted(answers: seq<Answer>)
    requires OnceEach(answers) && answers != []
    ensures OnceEach(answers[1..]) && InTransit(answers, answers[0].id)
    ensures forall id: nat :: InTransit(answers[1..], id) <==> InTransit(answers, id) && id != answers[0].id
  {
  }

  lemma KeepRemove(s: Calls)
    requires Inv(s) && CallEnabled(s, Remove)
    ensures Inv(AfterCall(s, Remove))
  {
    hide InTransit, OnceEach;
    var t, a := AfterCall(s, Remove), s.answers[0];
    assert AnswerGood(s, a);
    Shifted(s.answers);
    forall y | y in t.callers ensures CallerGood(t, y) {
      assert CallerGood(s, y) && OwnIds(s, s.queue[a.id], y);
    }
    forall y, z | y in t.callers && z in t.callers ensures OwnIds(t, y, z) { assert OwnIds(s, y, z); }
    forall i | 0 <= i < |t.answers| ensures AnswerGood(t, t.answers[i]) {
      assert AnswerGood(s, s.answers[i + 1]);
      LaterDiffers(s.answers, i + 1);
    }
  }

  lemma LaterDiffers(answers: seq<Answer>, i: nat)
    requires OnceEach(answers) && 0 < i < |answers|
    ensures answers[i].id != answers[0].id
  {
  }

  lemma KeepDeliver(s: Calls)
    requires Inv(s) && CallEnabled(s, Deliver)
    ensures Inv(AfterCall(s, Deliver))
  {
    hide OnceEach;
    var t := AfterCall(s, Deliver);
    var (a, x) := s.hand.value;
    assert !InTransit(s.answers, a.id);
    forall y | y in t.callers ensures CallerGood(t, y) { assert CallerGood(s, y) && OwnIds(s, x, y); }
    forall y, z | y in t.callers && z in t.callers ensures OwnIds(t, y, z) { assert OwnIds(s, y, z); }
  }

  lemma KeepInv(s: Calls, step: CallStep)
    requires Inv(s) && CallEnabled(s, step)
    ensures Inv(AfterCall(s, step))
  {
    hide Inv;
    match step
    case Cast(x) => KeepCast(s, x);
    case TakeId(x) => KeepTakeId(s, x);
    case Enqueue(x) => KeepEnqueue(s, x);
    case Send(x) => KeepSend(s, x);
    case CheckAndBlock(x) => KeepCheck(s, x);
    case Spin(_) =>
    case Leave(x) => KeepLeave(s, x);
    case Reply(id, v) => KeepReply(s, id, v);
    case Remove => KeepRemove(s);
    case Deliver => KeepDeliver(s);
  }

  // ----- how answers are announced -----

  /**
    * Where the interrupt handler is: not running, reading messages, or past its last look with the
    * consumer still locked. That look is the last load of the tail that counts; `try_read` ignores the
    * one after it. The interrupt is masked until the handler is done.
    */
  datatype Handler = Idle | Scanning | LastLook

  /**
    * What the host does first with an answer: store the tail, which makes it visible, or send the
    * interrupt. `write_msg` sends the interrupt with the write handle still open, and the tail is stored
    * when the handle is dropped.
    */
  datatype Order = StoreFirst | SignalFirst

  /**
    * `writing` is the call whose answer the host, holding the producer, has half written: the second of
    * store and interrupt is still to come. `irq` is an interrupt sent and not yet taken.
    */
  datatype Line = Line(order: Order, writing: Option<nat>, irq: bool, handler: Handler)

  datatype State = State(calls: Calls, line: Line)

  /** `Announce` is an interrupt sent before the store, `Signal` one sent after it. */
  datatype Step =
    | Call(step: CallStep)
    | Announce(id: nat)
    | Signal
    | OtherSignal
    | Enter
    | LookLast
    | Unlock

  predicate Start(s: State) { NoCalls(s.calls) && s.line == Line(s.line.order, None, false, Idle) }

  predicate Enabled(s: State, step: Step) {
    match step
    case Call(c) =>
      && CallEnabled(s.calls, c)
      && (c.Remove? || c.Deliver? ==> s.line.handler.Scanning?)
      && (c.Reply? ==> s.line.writing == if s.line.order.SignalFirst? then Some(c.id) else None)
    case Announce(id) => s.line.order.SignalFirst? && s.line.writing.None? && id in s.calls.requests
    case Signal => s.line.order.StoreFirst? && s.line.writing.Some?
    case OtherSignal => true
    case Enter => s.line.irq && s.line.handler.Idle?
    case LookLast => s.line.handler.Scanning? && s.calls.hand.None? && s.calls.answers == []
    case Unlock => s.line.handler.LastLook?
  }

  function After(s: State, step: Step): State
    requires Enabled(s, step)
  {
    match step
    case Call(c) =>
      var half := if c.Reply? && s.line.order.StoreFirst? then Some(c.id) else None;
      State(AfterCall(s.calls, c), if c.Reply? then s.line.(writing := half) else s.line)
    case Announce(id) => s.(line := s.line.(writing := Some(id), irq := true))
    case Signal => s.(line := s.line.(writing := None, irq := true))
    case OtherSignal => s.(line := s.line.(irq := true))
    case Enter => s.(line := s.line.(irq := false, handler := Scanning))
    case LookLast => s.(line := s.line.(handler := LastLook))
    case Unlock => s.(line := s.line.(handler := Idle))
  }

  /**
    * Only a handler that is reading holds an answer, and an answer announced early is still owed. Under
    * the order store, then interrupt, an answer not yet taken is announced or being looked for.
    */
  predicate Announced(s: State) {
    && (s.calls.hand.Some? ==> s.line.handler.Scanning?)
    && (s.line.order.SignalFirst? && s.line.writing.Some? ==> s.line.writing.value in s.calls.requests)
    && (s.line.order.StoreFirst? && s.calls.answers != [] ==>
          s.line.writing.Some? || s.line.irq || s.line.handler.Scanning?)
  }

  lemma KeepAnnounced(s: State, step: Step)
    requires Enabled(s, step) && Announced(s)
    ensures Announced(After(s, step)) && After(s, step).line.order == s.line.order
  {
  }

  // ----- runs -----

  ghost predicate StepAt(states: seq<State>, steps: seq<Step>, i: nat)
    requires i < |steps| && |states| == |steps| + 1
  {
    Enabled(states[i], steps[i]) && states[i + 1] == After(states[i], steps[i])
  }

  /** Any interleaving of callers, host and interrupt handler. */
  ghost predicate Trace(states: seq<State>, steps: seq<Step>) {
    && |states| == |steps| + 1 && Start(states[0])
    && forall i :: 0 <= i < |steps| ==> StepAt(states, steps, i)
  }

  /** In particular the handler never meets an unknown call id and no caller finds its result missing. */
  lemma {:induction false} TraceInv(states: seq<State>, steps: seq<Step>, i: nat)
    requires Trace(states, steps) && i < |states|
    ensures Inv(states[i].calls) && !states[i].calls.panicked
  {
    if i == 0 {
      StartInv(states[0].calls);
    } else {
      TraceInv(states, steps, i - 1);
      assert StepAt(states, steps, i - 1);
      if steps[i - 1].Call? {
        KeepInv(states[i - 1].calls, steps[i - 1].step);
      }
    }
  }

  /** How many calls and casts have taken a number. */
  function Numberings(steps: seq<Step>, i: nat): nat
    requires i <= |steps|
  {
    if i == 0 then 0
    else
      var step := steps[i - 1];
      Numberings(steps, i - 1) + if step.Call? && (step.step.Cast? || step.step.TakeId?) then 1 else 0
  }

  lemma {:induction false} NumbersCounted(states: seq<State>, steps: seq<Step>, i: nat)
    requires Trace(states, steps) && i < |states|
    ensures states[i].calls.nextId == states[0].calls.nextId + Numberings(steps, i)
  {
    if i > 0 {
      NumbersCounted(states, steps, i - 1);
      assert StepAt(states, steps, i - 1);
    }
  }

  /** Calls and casts share one sequence of numbers: the id of a call counts all of both before it. */
  lemma CallNumber(states: seq<State>, steps: seq<Step>, i: nat, x: nat)
    requires Trace(states, steps) && i < |steps| && steps[i] == Call(TakeId(x))
    ensures x in states[i + 1].calls.callers
    ensures states[i + 1].calls.callers[x].phase == Numbered(states[0].calls.nextId + Numberings(steps, i))
  {
    assert StepAt(states, steps, i);
    NumbersCounted(states, steps, i);
  }

  /**
    * A blocked caller's call is in the queue, or in the handler's hands on its way to wake it; and
    * the answer is still to come from exactly one place.
    */
  lemma BlockedIsAwaited(states: seq<State>, steps: seq<Step>, i: nat, x: nat)
    requires Trace(states, steps) && i < |states|
    requires x in states[i].calls.callers && states[i].calls.callers[x].blocked
    ensures states[i].calls.callers[x].phase.Waiting?
    ensures var s, id := states[i].calls, states[i].calls.callers[x].phase.id;
      if HeldFor(s, x, id) then id !in s.queue && id !in s.requests && !InTransit(s.answers, id)
      else id in s.queue && s.queue[id] == x && (id in s.requests <==> !InTransit(s.answers, id))
  {
    TraceInv(states, steps, i);
    assert CallerGood(states[i].calls, x);
  }

  lemma {:induction false} TraceAnnounced(states: seq<State>, steps: seq<Step>, i: nat)
    requires Trace(states, steps) && i < |states|
    ensures Announced(states[i]) && states[i].line.order == states[0].line.order
  {
    if i > 0 {
      TraceAnnounced(states, steps, i - 1);
      assert StepAt(states, steps, i - 1);
      KeepAnnounced(states[i - 1], steps[i - 1]);
    }
  }

  /** Nothing is left for host and handler to do: no call unanswered, no interrupt on its way, nobody looking. */
  predicate Settled(s: State) {
    s.calls.requests == {} && s.line.writing.None? && !s.line.irq && s.line.handler.Idle?
  }

  /** `x` has sent its call and got no result: it is blocked or about to be. */
  predicate Awaits(s: State, x: nat) {
    && x in s.calls.callers && s.calls.callers[x].result.None?
    && (s.calls.callers[x].phase.Sent? || s.calls.callers[x].phase.Waiting?)
  }

  /** Once host and handler have settled, somebody still waits exactly if answers lie unread. */
  lemma WaitsForUnread(states: seq<State>, steps: seq<Step>, i: nat)
    requires Trace(states, steps) && i < |states| && Settled(states[i])
    ensures (exists x :: Awaits(states[i], x)) <==> states[i].calls.answers != []
  {
    TraceInv(states, steps, i);
    TraceAnnounced(states, steps, i);
    var s := states[i].calls;
    if x :| Awaits(states[i], x) {
      assert CallerGood(s, x);
    }
    if s.answers != [] {
      var id := s.answers[0].id;
      assert AnswerGood(s, s.answers[0]) && CallerGood(s, s.queue[id]);
      assert InTransit(s.answers, id);
      assert Awaits(states[i], s.queue[id]);
    }
  }

  /** With the store before the interrupt nobody is left waiting, in particular nobody is blocked. */
  lemma NoLostWakeUp(states: seq<State>, steps: seq<Step>, i: nat, x: nat)
    requires Trace(states, steps) && i < |states| && states[0].line.order.StoreFirst? && Settled(states[i])
    ensures !Awaits(states[i], x)
    ensures x in states[i].calls.callers ==> !states[i].calls.callers[x].blocked
  {
    TraceInv(states, steps, i);
    assert x in states[i].calls.callers ==> CallerGood(states[i].calls, x);
    TraceAnnounced(states, steps, i);
    WaitsForUnread(states, steps, i);
  }

  // ----- the interrupt before the store -----

  predicate NotEntered(steps: seq<Step>, k: nat, i: nat)
    requires k <= i <= |steps|
  {
    forall j :: k <= j < i ==> steps[j] != Enter
  }

  /** The handler has looked for the last time after step `a`, and has not been entered since. */
  predicate LookedSince(steps: seq<Step>, a: nat, i: nat)
    requires i <= |steps|
  {
    exists l :: a < l < i && steps[l] == LookLast && NotEntered(steps, l, i)
  }

  /** The interrupt for call `id` was sent at step `a`. */
  predicate AnnouncedAt(steps: seq<Step>, a: nat, id: nat) { a < |steps| && steps[a] == Announce(id) }

  /**
    * Step `k` stores an answer too late: the handler's last look falls between the interrupt sent for it
    * and the store. And no handler has been entered up to state `i`.
    */
  ghost predicate StoredLate(steps: seq<Step>, k: nat, i: nat)
    requires i <= |steps|
  {
    && k < i && steps[k].Call? && steps[k].step.Reply? && NotEntered(steps, k, i)
    && exists a :: AnnouncedAt(steps, a, steps[k].step.id) && LookedSince(steps, a, k)
  }

  predicate Attended(s: State) { s.line.irq || s.line.handler.Scanning? }

  lemma LookKept(steps: seq<Step>, a: nat, i: nat)
    requires 0 < i <= |steps| && LookedSince(steps, a, i - 1) && steps[i - 1] != Enter
    ensures LookedSince(steps, a, i)
  {
    var l :| a < l < i - 1 && steps[l] == LookLast && NotEntered(steps, l, i - 1);
    assert NotEntered(steps, l, i);
  }

  /** A half written answer was announced, and that is still pending, or seen, or looked past. */
  lemma {:induction false} WritingSince(states: seq<State>, steps: seq<Step>, i: nat) returns (a: nat)
    requires Trace(states, steps) && i < |states|
    requires states[i].line.order.SignalFirst? && states[i].line.writing.Some?
    ensures a < i && AnnouncedAt(steps, a, states[i].line.writing.value)
    ensures Attended(states[i]) || LookedSince(steps, a, i)
  {
    hide CallEnabled, AfterCall, NoCalls;
    var j := i - 1;
    assert StepAt(states, steps, j);
    if steps[j].Announce? {
      a := j;
    } else {
      a := WritingSince(states, steps, j);
      if Attended(states[j]) && !Attended(states[i]) {
        assert steps[j] == LookLast && NotEntered(steps, j, i);
      } else if !Attended(states[j]) {
        LookKept(steps, a, i);
      }
    }
  }

  /** An answer not yet taken is announced, being looked for, or was stored late. */
  lemma {:induction false} UnreadSince(states: seq<State>, steps: seq<Step>, i: nat)
    requires Trace(states, steps) && i < |states| && states[i].line.order.SignalFirst?
    requires states[i].calls.answers != [] && !Attended(states[i])
    ensures exists k :: StoredLate(steps, k, i)
  {
    hide CallEnabled;
    var j := i - 1;
    assert StepAt(states, steps, j);
    if states[j].calls.answers == [] || (steps[j].Call? && steps[j].step.Reply?) {
      var a := WritingSince(states, steps, j);
      assert StoredLate(steps, j, i);
    } else {
      UnreadSince(states, steps, j);
      var k :| StoredLate(steps, k, j);
      assert NotEntered(steps, k, i);
      assert StoredLate(steps, k, i);
    }
  }

  lemma {:induction false} LooksNoMore(states: seq<State>, steps: seq<Step>, l: nat, i: nat)
    requires Trace(states, steps) && l < i < |states| && steps[l] == LookLast && NotEntered(steps, l, i)
    ensures !states[i].line.handler.Scanning?
    decreases i
  {
    hide CallEnabled, AfterCall, NoCalls;
    assert StepAt(states, steps, i - 1);
    if l < i - 1 {
      LooksNoMore(states, steps, l, i - 1);
    }
  }

  /** What was stored late stays unread. */
  lemma {:induction false} LateStaysUnread(states: seq<State>, steps: seq<Step>, k: nat, i: nat)
    requires Trace(states, steps) && i < |states| && StoredLate(steps, k, i)
    ensures states[i].calls.answers != []
    decreases i
  {
    hide CallEnabled;
    var j := i - 1;
    assert StepAt(states, steps, j);
    if k < j {
      assert NotEntered(steps, k, j);
      LateStaysUnread(states, steps, k, j);
      var a: nat :| AnnouncedAt(steps, a, steps[k].step.id) && LookedSince(steps, a, k);
      var l: nat :| a < l < k && steps[l] == LookLast && NotEntered(steps, l, k);
      assert NotEntered(steps, l, j);
      LooksNoMore(states, steps, l, j);
    }
  }

  /**
    * With the interrupt before the store: when host and handler have settled, somebody is left waiting
    * exactly if the handler's last look fell between an answer's interrupt and its store, and no
    * handler has run since.
    */
  lemma StrandedExactly(states: seq<State>, steps: seq<Step>, i: nat)
    requires Trace(states, steps) && i < |states| && states[0].line.order.SignalFirst? && Settled(states[i])
    ensures (exists x :: Awaits(states[i], x)) <==> exists k :: StoredLate(steps, k, i)
  {
    hide StoredLate;
    TraceAnnounced(states, steps, i);
    WaitsForUnread(states, steps, i);
    if states[i].calls.answers != [] {
      UnreadSince(states, steps, i);
    }
    if k :| StoredLate(steps, k, i) {
      LateStaysUnread(states, steps, k, i);
    }
  }

  // Context 1 calls and blocks; the interrupt for its answer is taken and the handler has looked for
  // the last time when the answer is stored.

  function Asked(phase: Phase, blocked: bool, queue: map<nat, nat>, requests: set<nat>): Calls {
    Calls(1, map[1 := Caller(phase, blocked, None)], queue, requests, [], None, map[], false)
  }

  const QUIET := Line(SignalFirst, None, false, Idle)

  const BLOCKED := Asked(Waiting(0), true, map[0 := 1], {0})

  lemma Asks()
    ensures var a, b := Asked(Home, false, map[], {}).(nextId := 0), Asked(Numbered(0), false, map[], {});
            && NoCalls(a) && CallEnabled(a, TakeId(1)) && AfterCall(a, TakeId(1)) == b
            && CallEnabled(b, Enqueue(1)) && AfterCall(b, Enqueue(1)) == Asked(Queued(0), false, map[0 := 1], {})
  {
  }

  lemma Blocks()
    ensures var a, b := Asked(Queued(0), false, map[0 := 1], {}), Asked(Sent(0), false, map[0 := 1], {0});
            && CallEnabled(a, CallStep.Send(1)) && AfterCall(a, CallStep.Send(1)) == b
            && CallEnabled(b, CheckAndBlock(1)) && AfterCall(b, CheckAndBlock(1)) == BLOCKED
  {
    assert {} + {0 as nat} == {0};
  }

  /** A run, one step longer. */
  lemma Onward(states: seq<State>, steps: seq<Step>, step: Step) returns (states2: seq<State>, steps2: seq<Step>)
    requires Trace(states, steps) && Enabled(states[|states| - 1], step)
    ensures Trace(states2, steps2) && states2[|states2| - 1] == After(states[|states| - 1], step)
  {
    hide Enabled, After, Start;
    states2, steps2 := states + [After(states[|states| - 1], step)], steps + [step];
    forall i | 0 <= i < |steps2|
      ensures StepAt(states2, steps2, i)
    {
      if i < |steps| {
        assert StepAt(states, steps, i);
      }
    }
  }

  lemma CallerBlocks() returns (states: seq<State>, steps: seq<Step>)
    ensures Trace(states, steps) && states[|states| - 1] == State(BLOCKED, QUIET)
  {
    hide CallEnabled, AfterCall, Trace, NoCalls;
    Asks();
    Blocks();
    states, steps := Begins(Asked(Home, false, map[], {}).(nextId := 0));
    states, steps := Onward(states, steps, Call(TakeId(1)));
    states, steps := Onward(states, steps, Call(Enqueue(1)));
    states, steps := Onward(states, steps, Call(CallStep.Send(1)));
    states, steps := Onward(states, steps, Call(CheckAndBlock(1)));
  }

  lemma Begins(calls: Calls) returns (states: seq<State>, steps: seq<Step>)
    requires NoCalls(calls)
    ensures Trace(states, steps) && states[|states| - 1] == State(calls, QUIET)
  {
    states, steps := [State(calls, QUIET)], [];
  }

  /** It happens: everything has settled, the answer lies unread and the caller is blocked. */
  lemma StrandingHappens() returns (states: seq<State>, steps: seq<Step>)
    ensures Trace(states, steps)
    ensures var s := states[|states| - 1];
            && Settled(s) && |s.calls.answers| == 1
            && 1 in s.calls.callers && s.calls.callers[1].blocked
  {
    hide CallEnabled, AfterCall, Trace;
    AnsweredBy(BLOCKED);
    states, steps := CallerBlocks();
    states, steps := Onward(states, steps, Announce(0));
    states, steps := Onward(states, steps, Enter);
    states, steps := Onward(states, steps, LookLast);
    states, steps := Onward(states, steps, Unlock);
    states, steps := Onward(states, steps, Call(Reply(0, [])));
  }

  lemma AnsweredBy(s: Calls)
    ensures s == BLOCKED ==>
              && CallEnabled(s, Reply(0, []))
              && AfterCall(s, Reply(0, [])) == s.(requests := {}, answers := [Answer(0, [])], given := map[0 := []])
  {
    assert s.requests == {0} ==> s.requests - {0} == {};
  }

  // ----- progress -----

  /** How many interrupts for answers are still to be sent. */
  function Unannounced(s: State): int {
    |s.calls.requests| + if s.line.writing.None? then 0 else if s.line.order.StoreFirst? then 1 else -1
  }

  /** How many steps of host and handler are still owed. */
  function Owed(s: State): int {
    3 * |s.calls.requests| + 4 * Unannounced(s)
    + 2 * |s.calls.answers| + (if s.calls.hand.Some? then 1 else 0) + (if s.line.irq then 3 else 0)
    + match s.line.handler case Idle => 0 case Scanning => 2 case LastLook => 1
  }

  /** A step of the host answering a call or of the handler. */
  predicate Delivers(step: Step) {
    match step
    case Call(c) => c.Reply? || c.Remove? || c.Deliver?
    case OtherSignal => false
    case _ => true
  }

  /** Every such step brings the end nearer. */
  lemma DeliveryRunsDown(s: State, step: Step)
    requires Inv(s.calls) && Announced(s) && Enabled(s, step) && Delivers(step)
    ensures 0 <= Owed(After(s, step)) < Owed(s)
  {
    hide Inv, CallerGood;
    if step.Call? {
      KeepInv(s.calls, step.step);
      NoPanic(s.calls, step.step);
    }
    KeepAnnounced(s, step);
    Owes(After(s, step));
  }

  lemma Owes(s: State)
    requires Announced(s)
    ensures Owed(s) >= 0
  {
  }

  lemma NoPanic(s: Calls, step: CallStep)
    requires CallEnabled(s, step) && Inv(AfterCall(s, step))
    ensures !AfterCall(s, step).panicked
  {
  }

  /** And until everything has settled one of them can be taken. */
  lemma DeliveryGoesOn(s: State)
    requires Inv(s.calls) && Announced(s) && !Settled(s)
    ensures exists step :: Enabled(s, step) && Delivers(step)
  {
    var step :=
      if s.line.handler.LastLook? then Unlock
      else if s.line.handler.Scanning? then
        if s.calls.hand.Some? then Call(Deliver) else if s.calls.answers != [] then Call(Remove) else LookLast
      else if s.line.irq then Enter
      else if s.line.writing.None? then
        var id :| id in s.calls.requests;
        if s.line.order.StoreFirst? then Call(Reply(id, [])) else Announce(id)
      else if s.line.order.StoreFirst? then Signal
      else Call(Reply(s.line.writing.value, []));
    assert Enabled(s, step) && Delivers(step);
  }

  /** Leaving the wait loop, a caller takes the payload the host gave for its own call id. */
  lemma LeavesWithOwnAnswer(states: seq<State>, steps: seq<Step>, i: nat, x: nat)
    requires Trace(states, steps) && i < |steps| && steps[i] == Call(Leave(x))
    ensures x in states[i].calls.callers && states[i].calls.callers[x].phase.Waiting?
    ensures var id := states[i].calls.callers[x].phase.id;
      id in states[i].calls.given && states[i].calls.callers[x].result == Some(states[i].calls.given[id])
  {
    assert StepAt(states, steps, i);
    TraceInv(states, steps, i);
    assert CallerGood(states[i].calls, x);
  }

  /** What was given for a call is what the host's one reply to it carried. */
  lemma {:induction false} GivenByReply(states: seq<State>, steps: seq<Step>, i: nat, id: nat) returns (j: nat)
    requires Trace(states, steps) && i < |states| && id in states[i].calls.given
    ensures j < i && steps[j] == Call(Reply(id, states[i].calls.given[id]))
  {
    j := i - 1;
    assert StepAt(states, steps, j);
    if !(steps[j].Call? && steps[j].step.Reply? && steps[j].step.id == id) {
      j := GivenByReply(states, steps, j, id);
    }
  }
}
