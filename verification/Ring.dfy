/**
  * The single-producer single-consumer ring buffer (ringbuf/src/lib.rs) as a machine whose steps
  * are the loads and stores of the shared cells, so that every interleaving is a sequence of steps.
  */
module Ring {
  import opened Wrappers
  import opened RingMask

  /** Where the producer is; `tries` is how many refreshes of the shadow are left, if limited. */
  datatype Producer =
    | Idle
    | Checking(n: nat, at: nat, tries: Option<nat>)
    | Writing(n: nat, at: nat)

  datatype Consumer =
    | Resting
    | Looking(n: nat, at: nat, tries: Option<nat>)
    | Reading(n: nat, at: nat)
    | Skipping(n: nat, at: nat)

  /** The shared cells, the two sides, and the bytes committed and consumed so far. */
  datatype State = State(
    order: nat, buf: seq<Byte>,
    head: nat, shadowTail: nat, tail: nat, shadowHead: nat,
    producer: Producer, consumer: Consumer,
    committed: seq<Byte>, consumed: seq<Byte>)
  {
    function Cap(): nat { Pow2(order) }

    function Offset(at: nat): nat { And(at, Cap() - 1) }

    /** Slicing the buffer for a handle stays within it. */
    predicate Fits(at: nat, n: nat) { Offset(at) + n <= Cap() }

    predicate Full(at: nat, n: nat) { shadowHead + Cap() <= at + n }

    predicate Short(at: nat, n: nat) { shadowTail - at < n }
  }

  datatype Step =
    | BeginWrite(n: nat, blocking: bool)
    | RefreshHead
    | RefuseWrite
    | OpenWrite
    | Store(i: nat, b: Byte)
    | CommitWrite
    | BeginRead(n: nat, tries: Option<nat>)
    | RefreshTail
    | OpenRead
    | CommitRead
    | BeginSkip(n: nat)
    | CommitSkip

  predicate Start(s: State) {
    && |s.buf| == s.Cap() && s.head == s.tail == s.shadowHead == s.shadowTail == 0
    && s.producer == Idle && s.consumer == Resting && s.committed == s.consumed == []
  }

  predicate Enabled(s: State, step: Step) {
    match step
    case BeginWrite(_, _) => s.producer.Idle?
    case RefreshHead =>
      s.producer.Checking? && s.Full(s.producer.at, s.producer.n) && s.producer.tries != Some(0)
    case RefuseWrite =>
      s.producer.Checking? && s.Full(s.producer.at, s.producer.n) && s.producer.tries == Some(0)
    case OpenWrite => s.producer.Checking? && !s.Full(s.producer.at, s.producer.n)
    case Store(i, _) => s.producer.Writing? && s.Fits(s.producer.at, s.producer.n) && i < s.producer.n
    case CommitWrite => s.producer.Writing?
    case BeginRead(_, _) => s.consumer.Resting?
    case RefreshTail => s.consumer.Looking? && s.Short(s.consumer.at, s.consumer.n)
    case OpenRead => s.consumer.Looking? && !s.Short(s.consumer.at, s.consumer.n)
    case CommitRead => s.consumer.Reading?
    case BeginSkip(_) => s.consumer.Resting?
    case CommitSkip => s.consumer.Skipping?
  }

  function Fewer(tries: Option<nat>): Option<nat> {
    if tries.Some? && tries.value > 0 then Some(tries.value - 1) else tries
  }

  /** The bytes in the cells of positions `at` to `at + n`. */
  ghost function Cells(buf: seq<Byte>, at: nat, n: nat): (r: seq<Byte>)
    requires |buf| > 0
    ensures |r| == n
    ensures forall i :: 0 <= i < n ==> r[i] == buf[(at + i) % |buf|]
  {
    seq(n, i requires 0 <= i < n => buf[(at + i) % |buf|])
  }

  ghost function After(s: State, step: Step): State
    requires Enabled(s, step) && |s.buf| == s.Cap()
  {
    match step
    case BeginWrite(n, blocking) =>
      s.(producer := Checking(n, s.tail, if blocking then None else Some(1)))
    case RefreshHead => s.(shadowHead := s.head, producer := s.producer.(tries := Fewer(s.producer.tries)))
    case RefuseWrite => s.(producer := Idle)
    case OpenWrite => s.(producer := Writing(s.producer.n, s.producer.at))
    case Store(i, b) => s.(buf := s.buf[s.Offset(s.producer.at) + i := b])
    case CommitWrite =>
      s.(tail := s.producer.at + s.producer.n,
         committed := s.committed + Cells(s.buf, s.producer.at, s.producer.n),
         producer := Idle)
    case BeginRead(n, tries) => s.(consumer := Looking(n, s.head, tries))
    case RefreshTail =>
      s.(shadowTail := s.tail,
         consumer := if s.consumer.tries == Some(0) then Resting
                     else s.consumer.(tries := Fewer(s.consumer.tries)))
    case OpenRead => s.(consumer := Reading(s.consumer.n, s.consumer.at))
    case CommitRead => Consume(s, s.consumer.at, s.consumer.n)
    case BeginSkip(n) =>
      s.(shadowTail := s.tail,
         consumer := if s.head == s.tail then Resting
                     else Skipping(if s.tail - s.head > n then n else Minus(s.tail, s.head), s.head))
    case CommitSkip => Consume(s, s.consumer.at, s.consumer.n)
  }

  function Minus(x: nat, y: nat): nat { if x > y then x - y else 0 }

  ghost function Consume(s: State, at: nat, n: nat): State
    requires |s.buf| == s.Cap()
  {
    s.(head := at + n, consumed := s.consumed + Cells(s.buf, at, n), consumer := Resting)
  }

  // ----- the invariant -----

  predicate ProducerGood(s: State) {
    match s.producer
    case Idle => true
    case Checking(_, at, _) => at == s.tail
    case Writing(n, at) => at == s.tail && at + n < s.shadowHead + s.Cap()
  }

  predicate ConsumerGood(s: State) {
    match s.consumer
    case Resting => true
    case Looking(_, at, _) => at == s.head
    case Reading(n, at) => at == s.head && at + n <= s.shadowTail
    case Skipping(n, at) => at == s.head && at + n <= s.shadowTail
  }

  /** The cells still hold the committed bytes that have not been consumed. */
  predicate Unread(s: State)
    requires |s.buf| == s.Cap() && s.tail == |s.committed|
  {
    forall k: nat :: s.head <= k < s.tail ==> s.buf[k % s.Cap()] == s.committed[k]
  }

  predicate Inv(s: State) {
    && |s.buf| == s.Cap()
    && s.shadowHead <= s.head <= s.shadowTail <= s.tail < s.shadowHead + s.Cap()
    && ProducerGood(s) && ConsumerGood(s)
    && |s.committed| == s.tail
    && Unread(s)
    && s.consumed == s.committed[..s.head]
  }

  lemma StartInv(s: State)
    requires Start(s)
    ensures Inv(s)
  {
  }

  lemma KeepInv(s: State, step: Step)
    requires Inv(s) && Enabled(s, step)
    ensures Inv(After(s, step))
  {
    match step
    case Store(i, b) => StoreKeeps(s, i, b);
    case CommitWrite => CommitKeeps(s);
    case CommitRead => ConsumeKeeps(s, s.consumer.at, s.consumer.n);
    case CommitSkip => ConsumeKeeps(s, s.consumer.at, s.consumer.n);
    case _ =>
  }

  /** A byte of an open write handle lies in no cell that is still unread. */
  lemma HandleMissesUnread(s: State, i: nat, k: nat)
    requires Inv(s) && s.producer.Writing? && i < s.producer.n
    requires s.Fits(s.producer.at, s.producer.n) && s.head <= k < s.tail
    ensures s.Offset(s.producer.at) + i == (s.tail + i) % s.Cap() != k % s.Cap()
  {
    MaskIsRemainder(s.tail, s.order);
    SliceCells(s.tail, i, s.Cap());
    CellsDiffer(k, s.tail + i, s.Cap());
  }

  lemma StoreKeeps(s: State, i: nat, b: Byte)
    requires Inv(s) && Enabled(s, Store(i, b))
    ensures Inv(After(s, Store(i, b)))
  {
    var t := After(s, Store(i, b));
    forall k: nat | t.head <= k < t.tail ensures t.buf[k % t.Cap()] == t.committed[k] {
      HandleMissesUnread(s, i, k);
    }
  }

  lemma CommitKeeps(s: State)
    requires Inv(s) && s.producer.Writing?
    ensures Inv(After(s, CommitWrite))
  {
  }

  lemma ConsumeKeeps(s: State, at: nat, n: nat)
    requires Inv(s) && at == s.head && at + n <= s.shadowTail
    ensures Inv(Consume(s, at, n))
  {
  }

  lemma UnreadCells(s: State, at: nat, n: nat)
    requires Inv(s) && s.head <= at && at + n <= s.tail
    ensures Cells(s.buf, at, n) == s.committed[at..at + n]
  {
  }

  // ----- handles seen as slices -----

  /** A handle that fits is one slice of the buffer. */
  lemma SliceOfHandle(s: State, at: nat, n: nat)
    requires |s.buf| == s.Cap() && s.Fits(at, n)
    ensures s.buf[s.Offset(at)..s.Offset(at) + n] == Cells(s.buf, at, n)
  {
    MaskIsRemainder(at, s.order);
    forall i | 0 <= i < n ensures s.buf[s.Offset(at)..s.Offset(at) + n][i] == Cells(s.buf, at, n)[i] {
      SliceCells(at, i, s.Cap());
    }
  }

  /** What a reader sees through its handle, at any moment it is open, is what was committed there. */
  lemma ReaderSees(s: State)
    requires Inv(s) && s.consumer.Reading? && s.Fits(s.head, s.consumer.n)
    ensures s.head + s.consumer.n <= |s.committed|
    ensures s.buf[s.Offset(s.head)..s.Offset(s.head) + s.consumer.n] == s.committed[s.head..s.head + s.consumer.n]
  {
    SliceOfHandle(s, s.head, s.consumer.n);
    UnreadCells(s, s.head, s.consumer.n);
  }

  // ----- runs -----

  ghost predicate StepAt(states: seq<State>, steps: seq<Step>, i: nat)
    requires i < |steps| && |states| == |steps| + 1
  {
    && Enabled(states[i], steps[i]) && |states[i].buf| == states[i].Cap()
    && states[i + 1] == After(states[i], steps[i])
  }

  /** Any interleaving of the producer's and the consumer's steps, from an empty ring. */
  ghost predicate Trace(states: seq<State>, steps: seq<Step>) {
    && |states| == |steps| + 1 && Start(states[0])
    && forall i :: 0 <= i < |steps| ==> StepAt(states, steps, i)
  }

  lemma {:induction false} TraceInv(states: seq<State>, steps: seq<Step>, i: nat)
    requires Trace(states, steps) && i < |states|
    ensures Inv(states[i])
  {
    if i > 0 {
      TraceInv(states, steps, i - 1);
      assert StepAt(states, steps, i - 1);
      KeepInv(states[i - 1], steps[i - 1]);
    }
  }

  /** The four counters stay in order and the ring never overfills. */
  lemma IndicesInOrder(states: seq<State>, steps: seq<Step>, i: nat)
    requires Trace(states, steps) && i < |states|
    ensures var s := states[i]; s.shadowHead <= s.head <= s.shadowTail <= s.tail < s.shadowHead + s.Cap()
  {
    TraceInv(states, steps, i);
  }

  lemma {:induction false} CommittedOnlyGrows(states: seq<State>, steps: seq<Step>, i: nat, j: nat)
    requires Trace(states, steps) && i <= j < |states|
    ensures states[i].committed <= states[j].committed
    ensures states[i].consumed <= states[j].consumed
    decreases j - i
  {
    if i < j {
      CommittedOnlyGrows(states, steps, i, j - 1);
      assert StepAt(states, steps, j - 1);
    }
  }

  /**
    * First in, first out, nothing lost or repeated: what was consumed up to any moment is a prefix
    * of what had been committed by that moment, and of everything committed later.
    */
  lemma ConsumedIsPrefix(states: seq<State>, steps: seq<Step>, i: nat, j: nat)
    requires Trace(states, steps) && i <= j < |states|
    ensures states[i].consumed <= states[i].committed <= states[j].committed
    ensures |states[i].consumed| == states[i].head && |states[i].committed| == states[i].tail
  {
    TraceInv(states, steps, i);
    CommittedOnlyGrows(states, steps, i, j);
  }

  /** A reader's handle shows the same bytes for as long as it is open, whatever the producer does. */
  lemma ReaderUndisturbed(s: State, step: Step)
    requires Inv(s) && Enabled(s, step) && s.consumer.Reading? && step != CommitRead
    requires s.Fits(s.head, s.consumer.n)
    ensures var t := After(s, step);
      t.consumer == s.consumer && Cells(t.buf, t.head, t.consumer.n) == Cells(s.buf, s.head, s.consumer.n)
  {
    var t := After(s, step);
    KeepInv(s, step);
    UnreadCells(s, s.head, s.consumer.n);
    UnreadCells(t, s.head, s.consumer.n);
  }

  // ----- how often a call looks -----

  /** How many of the steps from `j` up to `i` are `step`. */
  function Times(steps: seq<Step>, step: Step, j: nat, i: nat): nat
    requires j <= i <= |steps|
  {
    if i == j then 0 else Times(steps, step, j, i - 1) + if steps[i - 1] == step then 1 else 0
  }

  /** The call begun by step `b` is still checking in state `i`. */
  ghost predicate StillWriting(states: seq<State>, steps: seq<Step>, b: nat, i: nat)
    requires b < i < |states| == |steps| + 1
  {
    steps[b].BeginWrite? && forall k :: b < k <= i ==> states[k].producer.Checking?
  }

  ghost predicate StillReading(states: seq<State>, steps: seq<Step>, b: nat, i: nat)
    requires b < i < |states| == |steps| + 1
  {
    steps[b].BeginRead? && forall k :: b < k <= i ==> states[k].consumer.Looking?
  }

  lemma {:induction false} WriteLoads(states: seq<State>, steps: seq<Step>, b: nat, i: nat)
    requires Trace(states, steps) && b < i < |states| && StillWriting(states, steps, b, i)
    ensures states[i].producer.n == steps[b].n && states[i].producer.at == states[b].tail
    ensures if steps[b].blocking then states[i].producer.tries == None
            else Times(steps, RefreshHead, b, i) <= 1
                 && states[i].producer.tries == Some(1 - Times(steps, RefreshHead, b, i))
    decreases i
  {
    assert StepAt(states, steps, i - 1);
    if b < i - 1 {
      WriteLoads(states, steps, b, i - 1);
    }
  }

  /** `write` never gives up; `try_write` does after exactly one load of the head. */
  lemma RefusesAfterOneLoad(states: seq<State>, steps: seq<Step>, b: nat, i: nat)
    requires Trace(states, steps) && b < i < |steps| && StillWriting(states, steps, b, i) && steps[i] == RefuseWrite
    ensures !steps[b].blocking && Times(steps, RefreshHead, b, i) == 1
  {
    assert StepAt(states, steps, i);
    WriteLoads(states, steps, b, i);
  }

  lemma {:induction false} ReadLoads(states: seq<State>, steps: seq<Step>, b: nat, i: nat)
    requires Trace(states, steps) && b < i < |states| && StillReading(states, steps, b, i)
    ensures states[i].consumer.n == steps[b].n && states[i].consumer.at == states[b].head
    ensures if steps[b].tries == None then states[i].consumer.tries == None
            else Times(steps, RefreshTail, b, i) <= steps[b].tries.value
                 && states[i].consumer.tries == Some(steps[b].tries.value - Times(steps, RefreshTail, b, i))
    decreases i
  {
    assert StepAt(states, steps, i - 1);
    if b < i - 1 {
      ReadLoads(states, steps, b, i - 1);
    }
  }

  /** `read` never gives up; `try_read` given `t` does exactly with load `t + 1` of the tail. */
  lemma GivesUpExactly(states: seq<State>, steps: seq<Step>, b: nat, i: nat)
    requires Trace(states, steps) && b < i < |steps| && StillReading(states, steps, b, i) && steps[i] == RefreshTail
    ensures states[i + 1].consumer == Resting <==>
              steps[b].tries.Some? && Times(steps, RefreshTail, b, i) == steps[b].tries.value
  {
    assert StepAt(states, steps, i);
    ReadLoads(states, steps, b, i);
  }

  /** `skip_n` drops what is there, at most `n` bytes. */
  lemma {:induction false} SkipsExactly(states: seq<State>, steps: seq<Step>, b: nat, i: nat)
    requires Trace(states, steps) && b < i < |states| && steps[b].BeginSkip?
    requires forall k :: b < k <= i ==> states[k].consumer.Skipping?
    ensures var there := states[b].tail - states[b].head;
            && there > 0 && states[i].head == states[b].head
            && states[i].consumer == Skipping(if there > steps[b].n then steps[b].n else there, states[b].head)
    decreases i
  {
    TraceInv(states, steps, b);
    assert StepAt(states, steps, i - 1);
    if b < i - 1 {
      SkipsExactly(states, steps, b, i - 1);
    }
  }

  // ----- refusals -----

  /** From state `j` to state `i` the producer is in one call for `n` bytes, and no other begins. */
  ghost predicate OneCall(states: seq<State>, steps: seq<Step>, j: nat, i: nat, n: nat)
    requires j <= i < |states| == |steps| + 1
  {
    && (forall k :: j <= k <= i ==> states[k].producer.Checking? && states[k].producer.n == n)
    && forall k :: j <= k < i ==> !steps[k].BeginWrite?
  }

  /** The last check of a bounded write follows a load of the head made during the same call. */
  lemma {:induction false} LastLoad(states: seq<State>, steps: seq<Step>, i: nat) returns (j: nat)
    requires Trace(states, steps) && i < |states|
    requires states[i].producer.Checking? && states[i].producer.tries == Some(0)
    ensures j < i && steps[j] == RefreshHead && states[i].shadowHead == states[j].head
    ensures OneCall(states, steps, j, i, states[i].producer.n)
    ensures states[j].tail == states[i].tail && states[j].Cap() == states[i].Cap()
  {
    j := i - 1;
    assert StepAt(states, steps, j);
    if steps[j] != RefreshHead {
      j := LastLoad(states, steps, j);
    }
  }

  predicate NoRoom(s: State, n: nat) { s.tail - s.head + n >= s.Cap() }

  /** A write is refused only if, at a moment of the same call, the ring really had no room for it. */
  lemma RefusedOnlyWhenFull(states: seq<State>, steps: seq<Step>, i: nat)
    requires Trace(states, steps) && i < |steps| && steps[i] == RefuseWrite
    ensures states[i].producer.Checking?
    ensures var n := states[i].producer.n;
            exists j :: 0 <= j < i && OneCall(states, steps, j, i, n) && NoRoom(states[j], n)
  {
    assert StepAt(states, steps, i);
    TraceInv(states, steps, i);
    var j := LastLoad(states, steps, i);
  }

  /** A blocking write of the capacity or more never opens: the call never ends, whatever the consumer does. */
  lemma {:induction false} TooLongNeverEnds(states: seq<State>, steps: seq<Step>, i: nat, j: nat)
    requires Trace(states, steps) && i <= j < |states|
    requires states[i].producer.Checking? && states[i].producer.tries.None? && states[i].producer.n >= states[i].Cap()
    ensures states[j].producer == states[i].producer && states[j].Cap() == states[i].Cap()
    ensures !Enabled(states[j], OpenWrite) && Enabled(states[j], RefreshHead)
    decreases j - i
  {
    TraceInv(states, steps, j);
    if i < j {
      TooLongNeverEnds(states, steps, i, j - 1);
      assert StepAt(states, steps, j - 1);
    }
  }

  /** A request below the capacity opens once the consumer has caught up and the head is loaded. */
  lemma OpensOnceDrained(s: State)
    requires Inv(s) && s.producer.Checking? && s.producer.n < s.Cap() && s.head == s.tail
    ensures Enabled(s, OpenWrite) || (s.producer.tries != Some(0) ==>
      Enabled(s, RefreshHead) && Enabled(After(s, RefreshHead), OpenWrite))
  {
  }
}
