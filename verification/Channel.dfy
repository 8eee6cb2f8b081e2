/**
  * Messages over a ring: the sender's `write_msg` and the receive loop of the interrupt handler
  * (kernel/src/devices/ivshmem.rs), with the header layout of ivshrpcd/ivshrpc/src/lib.rs.
  */
module Channel {
  import opened Wrappers
  import opened LittleEndian
  import opened RingMask
  import Ring

  const HEADER_SIZE: nat := 13

  // ----- message types and headers -----

  datatype MsgType = Cast | Fuse | Return | Error

  function ToByte(t: MsgType): Byte {
    match t case Cast => 0 case Fuse => 1 case Return => 2 case Error => 3
  }

  function FromByte(b: Byte): Option<MsgType> {
    if b == 0 then Some(Cast) else if b == 1 then Some(Fuse)
    else if b == 2 then Some(Return) else if b == 3 then Some(Error) else None
  }

  /** Exactly the bytes of the four types are recognised, each as its own type. */
  lemma TypeBytes(b: Byte, t: MsgType)
    ensures FromByte(b) == Some(t) <==> b == ToByte(t)
    ensures b == ToByte(t) <==> b == if t.Cast? then 0 else if t.Fuse? then 1 else if t.Return? then 2 else 3
  {
  }

  datatype Header = Header(msgtype: Byte, length: nat, callId: nat)

  predicate HeaderFits(h: Header) { h.length < 0x1_0000_0000 && h.callId < 0x1_0000_0000_0000_0000 }

  function ToSlice(h: Header): (s: seq<Byte>)
    ensures |s| == HEADER_SIZE
  {
    [h.msgtype] + Le(h.length, 4) + Le(h.callId, 8)
  }

  function FromSlice(s: seq<Byte>): Header
    requires |s| == HEADER_SIZE
  {
    Header(s[0], FromLe(s[1..5]), FromLe(s[5..13]))
  }

  /** The type is byte 0, the length bytes 1 to 4 and the call id bytes 5 to 12, least significant byte first. */
  lemma HeaderBytes(h: Header, k: nat)
    ensures ToSlice(h)[0] == h.msgtype
    ensures 1 <= k < 5 ==> ToSlice(h)[k] == h.length / Base(k - 1) % 256
    ensures 5 <= k < 13 ==> ToSlice(h)[k] == h.callId / Base(k - 5) % 256
  {
    if 1 <= k < 5 {
      LeAt(h.length, 4, k - 1);
    } else if 5 <= k < 13 {
      LeAt(h.callId, 8, k - 5);
    }
  }

  lemma HeaderRoundTrip(h: Header)
    requires HeaderFits(h)
    ensures FromSlice(ToSlice(h)) == h
  {
    Widths();
    FromLeLe(h.length, 4);
    FromLeLe(h.callId, 8);
    assert ToSlice(h)[1..5] == Le(h.length, 4) && ToSlice(h)[5..13] == Le(h.callId, 8);
  }

  /** The other direction: no two byte strings read as the same header. */
  lemma HeaderOnto(s: seq<Byte>)
    requires |s| == HEADER_SIZE
    ensures HeaderFits(FromSlice(s)) && ToSlice(FromSlice(s)) == s
  {
    Widths();
    LeFromLe(s[1..5]);
    LeFromLe(s[5..13]);
    assert s == [s[0]] + s[1..5] + s[5..13];
  }

  datatype Message = Message(msgtype: Byte, callId: nat, payload: seq<Byte>)

  function HeaderOf(m: Message): Header { Header(m.msgtype, |m.payload|, m.callId) }

  predicate Sendable(m: Message) { HeaderFits(HeaderOf(m)) }

  function Encode(m: Message): (s: seq<Byte>)
    ensures |s| == HEADER_SIZE + |m.payload|
  {
    ToSlice(HeaderOf(m)) + m.payload
  }

  /** The bytes of the messages, one after another. */
  function Wire(ms: seq<Message>): seq<Byte> {
    if ms == [] then [] else Wire(ms[..|ms| - 1]) + Encode(ms[|ms| - 1])
  }

  // ----- the machine -----

  datatype Receiver = AwaitHeader | AwaitPayload(header: Header)

  datatype State = State(
    ring: Ring.State,
    sent: seq<Message>, writing: Option<Message>, copied: nat,
    receiver: Receiver, received: seq<Message>)

  datatype Step =
    | Send(m: Message)
    | RefreshHead
    | OpenWrite
    | Copy
    | Commit
    | BeginHeader(tries: nat)
    | RefreshTail
    | OpenRead
    | TakeHeader
    | BeginPayload
    | TakePayload

  predicate Start(s: State) {
    && Ring.Start(s.ring) && s.sent == s.received == [] && s.writing == None && s.copied == 0
    && s.receiver == AwaitHeader
  }

  predicate Ready(s: State, step: Step) {
    match step
    case Send(m) => s.writing == None && Sendable(m)
    case Copy => s.writing.Some? && s.copied < |Encode(s.writing.value)|
    case Commit => s.writing.Some? && s.copied == |Encode(s.writing.value)|
    case BeginHeader(_) => s.receiver.AwaitHeader?
    case TakeHeader => s.receiver.AwaitHeader?
    case BeginPayload => s.receiver.AwaitPayload?
    case TakePayload => s.receiver.AwaitPayload?
    case _ => true
  }

  function OnRing(s: State, step: Step): Ring.Step
    requires Ready(s, step)
  {
    match step
    case Send(m) => Ring.BeginWrite(|Encode(m)|, true)
    case RefreshHead => Ring.RefreshHead
    case OpenWrite => Ring.OpenWrite
    case Copy => Ring.Store(s.copied, Encode(s.writing.value)[s.copied])
    case Commit => Ring.CommitWrite
    case BeginHeader(tries) => Ring.BeginRead(HEADER_SIZE, Some(tries))
    case RefreshTail => Ring.RefreshTail
    case OpenRead => Ring.OpenRead
    case TakeHeader => Ring.CommitRead
    case BeginPayload => Ring.BeginRead(s.receiver.header.length, None)
    case TakePayload => Ring.CommitRead
  }

  predicate Enabled(s: State, step: Step) {
    && |s.ring.buf| == s.ring.Cap()
    && Ready(s, step) && Ring.Enabled(s.ring, OnRing(s, step))
    && (step == TakeHeader ==> s.ring.consumer.n == HEADER_SIZE)
  }

  ghost function Seen(s: State): seq<Byte>
    requires |s.ring.buf| == s.ring.Cap() && s.ring.consumer.Reading?
  {
    Ring.Cells(s.ring.buf, s.ring.consumer.at, s.ring.consumer.n)
  }

  ghost function After(s: State, step: Step): State
    requires Enabled(s, step)
  {
    var t := s.(ring := Ring.After(s.ring, OnRing(s, step)));
    match step
    case Send(m) => t.(sent := s.sent + [m], writing := Some(m), copied := 0)
    case Copy => t.(copied := s.copied + 1)
    case Commit => t.(writing := None)
    case TakeHeader => t.(receiver := AwaitPayload(FromSlice(Seen(s))))
    case TakePayload =>
      var h := s.receiver.header;
      t.(receiver := AwaitHeader, received := s.received + [Message(h.msgtype, h.callId, Seen(s))])
    case _ => t
  }

  // ----- the stream -----

  lemma {:induction false} WireAt(ms: seq<Message>, k: nat)
    requires k < |ms|
    ensures |Wire(ms[..k])| + |Encode(ms[k])| <= |Wire(ms)|
    ensures Wire(ms)[|Wire(ms[..k])|..|Wire(ms[..k])| + |Encode(ms[k])|] == Encode(ms[k])
    decreases |ms|
  {
    var short := ms[..|ms| - 1];
    if k < |short| {
      WireAt(short, k);
      assert short[..k] == ms[..k];
    }
  }

  /** A position before the end of the stream that starts message `k` starts a whole message. */
  lemma StartsMessage(ms: seq<Message>, k: nat)
    requires k <= |ms| && |Wire(ms[..k])| < |Wire(ms)|
    ensures k < |ms|
  {
    assert ms[..|ms|] == ms;
  }

  // ----- the invariant -----

  /** The messages whose write handle has been dropped. */
  function Posted(s: State): seq<Message> {
    if s.writing.Some? && |s.sent| > 0 then s.sent[..|s.sent| - 1] else s.sent
  }

  /** Every posted message lies in one piece in the buffer. */
  ghost predicate Unbroken(ms: seq<Message>, cap: nat)
    requires cap > 0
  {
    forall k {:trigger ms[k]} :: 0 <= k < |ms| ==> |Wire(ms[..k])| % cap + |Encode(ms[k])| <= cap
  }

  predicate SenderGood(s: State) {
    && |s.ring.buf| == s.ring.Cap()
    && (forall k :: 0 <= k < |s.sent| ==> Sendable(s.sent[k]))
    && match s.writing
       case None => s.ring.producer.Idle?
       case Some(m) =>
         && |s.sent| > 0 && s.sent[|s.sent| - 1] == m
         && !s.ring.producer.Idle? && s.ring.producer.n == |Encode(m)|
         && (s.ring.producer.Checking? ==> s.copied == 0 && s.ring.producer.tries.None?)
         && s.copied <= |Encode(m)|
         && (s.copied > 0 ==> s.ring.Fits(s.ring.tail, |Encode(m)|))
         && Copied(s, m)
  }

  predicate Copied(s: State, m: Message)
    requires |s.ring.buf| == s.ring.Cap() && s.copied <= |Encode(m)|
  {
    forall i: nat :: i < s.copied ==> s.ring.buf[(s.ring.tail + i) % s.ring.Cap()] == Encode(m)[i]
  }

  predicate ReceiverGood(s: State) {
    var k := |s.received|;
    && k <= |Posted(s)| && s.received == s.sent[..k]
    && (match s.ring.consumer
        case Looking(n, _, _) => n == Wanted(s)
        case Reading(n, _) => n == Wanted(s)
        case Skipping(_, _) => false
        case Resting => true)
    && match s.receiver
       case AwaitHeader => s.ring.head == |Wire(s.sent[..k])|
       case AwaitPayload(h) =>
         k < |Posted(s)| && h == HeaderOf(s.sent[k]) && s.ring.head == |Wire(s.sent[..k])| + HEADER_SIZE
  }

  function Wanted(s: State): nat {
    match s.receiver case AwaitHeader => HEADER_SIZE case AwaitPayload(h) => h.length
  }

  ghost predicate Inv(s: State) {
    && Ring.Inv(s.ring) && SenderGood(s) && ReceiverGood(s)
    && s.ring.committed == Wire(Posted(s)) && Unbroken(Posted(s), s.ring.Cap())
  }

  lemma StartInv(s: State)
    requires Start(s)
    ensures Inv(s)
  {
  }

  lemma KeepInv(s: State, step: Step)
    requires Inv(s) && Enabled(s, step)
    ensures Inv(After(s, step))
  {
    Ring.KeepInv(s.ring, OnRing(s, step));
    match step
    case Send(m) => SendKeeps(s, m);
    case Copy => CopyKeeps(s);
    case Commit => CommitKeeps(s);
    case TakeHeader => TakeHeaderKeeps(s);
    case TakePayload => TakePayloadKeeps(s);
    case _ => QuietKeeps(s, step);
  }

  /** Steps that move no bytes and no message. */
  predicate Quiet(step: Step) {
    step.RefreshHead? || step.OpenWrite? || step.BeginHeader? || step.RefreshTail? || step.OpenRead?
    || step.BeginPayload?
  }

  lemma QuietKeeps(s: State, step: Step)
    requires Inv(s) && Enabled(s, step) && Ring.Inv(After(s, step).ring) && Quiet(step)
    ensures Inv(After(s, step))
  {
    hide Wire, Encode, Ring.Inv, Unbroken, Pow2, And;
    var t := After(s, step);
    assert Posted(t) == Posted(s) && t.ring.tail == s.ring.tail && t.ring.head == s.ring.head;
    if step.RefreshHead? || step.OpenWrite? {
      SameReceiver(s, t);
    } else {
      SameSender(s, t);
    }
  }

  lemma SendKeeps(s: State, m: Message)
    requires Inv(s) && Enabled(s, Send(m)) && Ring.Inv(After(s, Send(m)).ring)
    ensures Inv(After(s, Send(m)))
  {
    hide Wire, Ring.Inv, Unbroken;
    var t := After(s, Send(m));
    assert Posted(t) == s.sent == Posted(s);
    assert t.sent[..|s.received|] == s.sent[..|s.received|];
  }

  /** The cell of byte `i` of the open write handle, which fits. */
  lemma HandleCell(ring: Ring.State, n: nat, i: nat)
    requires i < n && ring.Fits(ring.tail, n)
    ensures ring.Offset(ring.tail) + i == (ring.tail + i) % ring.Cap()
  {
    hide Pow2, And;
    MaskIsRemainder(ring.tail, ring.order);
    SliceCells(ring.tail, i, ring.Cap());
  }

  lemma CopyKeeps(s: State)
    requires Inv(s) && Enabled(s, Copy) && Ring.Inv(After(s, Copy).ring)
    ensures Inv(After(s, Copy))
  {
    hide Wire, Encode, Ring.Inv, Unbroken, ReceiverGood, Copied, Pow2, And;
    var t := After(s, Copy);
    RingFacts(s);
    HandleCell(s.ring, s.ring.producer.n, s.copied);
    CopiedMore(s, t, s.writing.value);
    SameReceiver(s, t);
  }

  lemma CopiedMore(s: State, t: State, m: Message)
    requires |s.ring.buf| == s.ring.Cap() && s.copied < |Encode(m)| < s.ring.Cap() && Copied(s, m)
    requires t.ring.tail == s.ring.tail && t.ring.order == s.ring.order && t.copied == s.copied + 1
    requires t.ring.buf == s.ring.buf[(s.ring.tail + s.copied) % s.ring.Cap() := Encode(m)[s.copied]]
    ensures Copied(t, m)
  {
    hide Encode, Pow2, And;
    forall i: nat | i < t.copied ensures t.ring.buf[(t.ring.tail + i) % t.ring.Cap()] == Encode(m)[i] {
      if i < s.copied {
        CellsDiffer(s.ring.tail + i, s.ring.tail + s.copied, s.ring.Cap());
      }
    }
  }

  lemma RingFacts(s: State)
    requires Ring.Inv(s.ring)
    ensures |s.ring.buf| == s.ring.Cap() && s.ring.shadowHead <= s.ring.head <= s.ring.shadowTail <= s.ring.tail
    ensures s.ring.tail == |s.ring.committed|
    ensures s.ring.producer.Writing? ==>
      s.ring.producer.at == s.ring.tail && s.ring.producer.n < s.ring.Cap()
    ensures s.ring.consumer.Reading? ==>
      s.ring.consumer.at == s.ring.head && s.ring.head + s.ring.consumer.n <= s.ring.tail
  {
  }

  lemma SameReceiver(s: State, t: State)
    requires ReceiverGood(s)
    requires t.sent == s.sent && t.writing == s.writing && t.received == s.received && t.receiver == s.receiver
    requires t.ring.consumer == s.ring.consumer && t.ring.head == s.ring.head
    ensures ReceiverGood(t)
  {
  }

  lemma CommitKeeps(s: State)
    requires Inv(s) && Enabled(s, Commit) && Ring.Inv(After(s, Commit).ring)
    ensures Inv(After(s, Commit))
  {
    hide Wire, Encode, Ring.Inv, Unbroken, Ring.Cells;
    var t, m := After(s, Commit), s.writing.value;
    RingFacts(s);
    assert Posted(t) == s.sent && s.sent[..|s.sent| - 1] == Posted(s);
    assert Ring.Cells(s.ring.buf, s.ring.tail, |Encode(m)|) == Encode(m) by { WholeCopy(s, m); }
    Longer(Posted(s), m, s.ring.order);
    assert Posted(t) == Posted(s) + [m];
    assert t.ring.committed == Wire(Posted(t));
    assert ReceiverGood(t);
  }

  lemma WholeCopy(s: State, m: Message)
    requires |s.ring.buf| == s.ring.Cap() && s.copied == |Encode(m)| && Copied(s, m)
    ensures Ring.Cells(s.ring.buf, s.ring.tail, |Encode(m)|) == Encode(m)
  {
    hide Encode;
  }

  /** Posting a message that fits where the stream ends. */
  lemma Longer(ms: seq<Message>, m: Message, order: nat)
    requires Unbroken(ms, Pow2(order)) && And(|Wire(ms)|, Pow2(order) - 1) + |Encode(m)| <= Pow2(order)
    ensures Wire(ms + [m]) == Wire(ms) + Encode(m) && Unbroken(ms + [m], Pow2(order))
  {
    hide Encode, And, Pow2;
    var longer, cap := ms + [m], Pow2(order);
    assert longer[..|ms|] == ms;
    MaskIsRemainder(|Wire(ms)|, order);
    forall k {:trigger longer[k]} | 0 <= k < |longer|
      ensures |Wire(longer[..k])| % cap + |Encode(longer[k])| <= cap
    {
      if k < |ms| {
        assert ms[k] == longer[k] && ms[..k] == longer[..k];
      }
    }
  }

  /** What the receiver's handle shows of the message it is at. */
  lemma SeenOfMessage(s: State)
    requires Inv(s) && s.ring.consumer.Reading?
    ensures |s.received| < |Posted(s)|
    ensures var m := s.sent[|s.received|];
      Seen(s) == if s.receiver.AwaitHeader? then ToSlice(HeaderOf(m)) else m.payload
  {
    hide Wire, ToSlice, Unbroken, SenderGood, Ring.Inv;
    var ms, k := Posted(s), |s.received|;
    var p, n := |Wire(ms[..k])|, s.ring.consumer.n;
    assert ms[..k] == s.sent[..k];
    RingFacts(s);
    Ring.UnreadCells(s.ring, s.ring.head, n);
    if s.receiver.AwaitHeader? {
      StartsMessage(ms, k);
    }
    PartOfWire(ms, k, s.ring.head - p, n);
  }

  lemma PartOfWire(ms: seq<Message>, k: nat, d: nat, n: nat)
    requires k < |ms| && d + n <= |Encode(ms[k])|
    ensures var p := |Wire(ms[..k])|; p + d + n <= |Wire(ms)| && Wire(ms)[p + d..p + d + n] == Encode(ms[k])[d..d + n]
  {
    hide Wire, Encode;
    WireAt(ms, k);
    var p := |Wire(ms[..k])|;
    SliceOfSlice(Wire(ms), p, p + |Encode(ms[k])|, d, n);
  }

  lemma TakeHeaderKeeps(s: State)
    requires Inv(s) && Enabled(s, TakeHeader) && Ring.Inv(After(s, TakeHeader).ring)
    ensures Inv(After(s, TakeHeader))
  {
    hide Wire, ToSlice, Encode, FromSlice, Ring.Inv, Unbroken, SenderGood, Pow2, And;
    RingFacts(s);
    SeenOfMessage(s);
    SentFits(s, |s.received|);
    HeaderRoundTrip(HeaderOf(s.sent[|s.received|]));
    var t := After(s, TakeHeader);
    assert Posted(t) == Posted(s);
    SameSender(s, t);
  }

  lemma SentFits(s: State, k: nat)
    requires SenderGood(s) && k < |s.sent|
    ensures HeaderFits(HeaderOf(s.sent[k]))
  {
  }

  lemma SameSender(s: State, t: State)
    requires SenderGood(s)
    requires t.sent == s.sent && t.writing == s.writing && t.copied == s.copied
    requires t.ring.producer == s.ring.producer && t.ring.tail == s.ring.tail && t.ring.buf == s.ring.buf
    requires t.ring.order == s.ring.order
    ensures SenderGood(t)
  {
    hide Encode, Pow2, And;
  }

  lemma TakePayloadKeeps(s: State)
    requires Inv(s) && Enabled(s, TakePayload) && Ring.Inv(After(s, TakePayload).ring)
    ensures Inv(After(s, TakePayload))
  {
    hide Wire, ToSlice, Encode, Ring.Inv, Unbroken, SenderGood, Pow2, And;
    RingFacts(s);
    SeenOfMessage(s);
    var t, k := After(s, TakePayload), |s.received|;
    assert t.received[k] == s.sent[k];
    assert Posted(t) == Posted(s);
    SameSender(s, t);
    OneMoreReceived(s, t);
  }

  lemma OneMoreReceived(s: State, t: State)
    requires ReceiverGood(s) && s.receiver.AwaitPayload? && |s.received| < |s.sent|
    requires t.sent == s.sent && t.writing == s.writing && t.receiver == AwaitHeader
    requires t.received == s.received + [s.sent[|s.received|]]
    requires t.ring.consumer == Ring.Resting && t.ring.head == s.ring.head + s.receiver.header.length
    ensures ReceiverGood(t)
  {
  }

  // ----- runs -----

  ghost predicate StepAt(states: seq<State>, steps: seq<Step>, i: nat)
    requires i < |steps| && |states| == |steps| + 1
  {
    Enabled(states[i], steps[i]) && states[i + 1] == After(states[i], steps[i])
  }

  /** Any interleaving of a sender and a receiver, from an empty ring. */
  ghost predicate Trace(states: seq<State>, steps: seq<Step>) {
    && |states| == |steps| + 1 && Start(states[0])
    && forall i :: 0 <= i < |steps| ==> StepAt(states, steps, i)
  }

  lemma {:induction false} TraceInv(states: seq<State>, steps: seq<Step>, i: nat)
    requires Trace(states, steps) && i < |states|
    ensures Inv(states[i])
  {
    hide Inv, Enabled, After, Start;
    if i == 0 {
      StartInv(states[0]);
    } else {
      TraceInv(states, steps, i - 1);
      assert StepAt(states, steps, i - 1);
      KeepInv(states[i - 1], steps[i - 1]);
    }
  }

  /** At every moment the messages received are a prefix of those sent: none torn, lost or repeated. */
  lemma ReceivedIsPrefix(states: seq<State>, steps: seq<Step>, i: nat)
    requires Trace(states, steps) && i < |states|
    ensures states[i].received <= states[i].sent
  {
    TraceInv(states, steps, i);
  }

  /** Once the ring is drained between messages, everything sent has been received. */
  lemma DrainedMeansReceived(states: seq<State>, steps: seq<Step>, i: nat)
    requires Trace(states, steps) && i < |states|
    requires var s := states[i]; s.ring.head == s.ring.tail && s.writing == None && s.receiver.AwaitHeader?
    ensures states[i].received == states[i].sent
  {
    TraceInv(states, steps, i);
    var s := states[i];
    var k := |s.received|;
    if k < |s.sent| {
      WireAt(s.sent, k);
    }
    assert s.sent[..|s.sent|] == s.sent;
  }

  /** Because no write handle crossed the end of the buffer, no read handle does. */
  lemma ReadHandlesFit(states: seq<State>, steps: seq<Step>, i: nat)
    requires Trace(states, steps) && i < |states|
    requires states[i].ring.consumer.Reading?
    ensures states[i].ring.Fits(states[i].ring.consumer.at, states[i].ring.consumer.n)
  {
    TraceInv(states, steps, i);
    ReadFits(states[i]);
  }

  /** An opened write can be filled and posted exactly when its bytes do not cross the end. */
  lemma WriteGoesOnIff(s: State)
    requires Inv(s) && s.writing.Some? && s.ring.producer.Writing? && s.copied == 0
    ensures Enabled(s, Copy) || Enabled(s, Commit) <==>
      s.ring.tail % s.ring.Cap() + |Encode(s.writing.value)| <= s.ring.Cap()
  {
    hide Ring.Inv, ReceiverGood, Unbroken, Copied, Pow2, And, ToSlice;
    RingFacts(s);
    MaskIsRemainder(s.ring.tail, s.ring.order);
  }

  // Two messages without payload over a ring of 16 bytes: the second crosses the end.

  const EMPTY := Message(0, 0, [])

  /** A run, one step longer. */
  lemma Onward(states: seq<State>, steps: seq<Step>, step: Step) returns (states2: seq<State>, steps2: seq<Step>)
    requires Trace(states, steps) && Enabled(states[|states| - 1], step)
    ensures Trace(states2, steps2) && |states2| > 0 && states2[|states2| - 1] == After(states[|states| - 1], step)
  {
    hide Enabled, After, Start;
    states2, steps2 := states + [After(states[|states| - 1], step)], steps + [step];
    forall i | 0 <= i < |steps2|
      ensures StepAt(states2, steps2, i)
    {
      if i < |steps| {
        assert StepAt(states, steps, i);
      }
    }
  }

  /** The indices and sides of a ring of 16 bytes. */
  predicate Stands(s: State, head: nat, tail: nat, seen: nat, producer: Ring.Producer) {
    && s.ring.order == 4 && |s.ring.buf| == s.ring.Cap() == 16 && s.ring.shadowHead == 0
    && s.ring.head == head && s.ring.tail == tail && s.ring.shadowTail == seen
    && s.ring.producer == producer && s.ring.consumer == Ring.Resting
  }

  /** The first message is being written. */
  predicate WritingFirst(s: State) {
    && Stands(s, 0, 0, 0, Ring.Writing(HEADER_SIZE, 0)) && s.writing == Some(EMPTY) && s.copied <= HEADER_SIZE
    && s.receiver == AwaitHeader && s.sent == [EMPTY] && s.received == []
  }

  lemma Opened() returns (states: seq<State>, steps: seq<Step>)
    ensures Trace(states, steps) && |states| > 0 && WritingFirst(states[|states| - 1])
  {
    hide ToSlice, And;
    var ring := Ring.State(4, seq(16, _ => 0), 0, 0, 0, 0, Ring.Idle, Ring.Resting, [], []);
    assert Pow2(4) == 16;
    states, steps := [State(ring, [], None, 0, AwaitHeader, [])], [];
    states, steps := Onward(states, steps, Send(EMPTY));
    states, steps := Onward(states, steps, OpenWrite);
  }

  /** The sender fills its handle. */
  lemma {:induction false} CopyAll(states: seq<State>, steps: seq<Step>)
      returns (states2: seq<State>, steps2: seq<Step>)
    requires Trace(states, steps) && |states| > 0 && WritingFirst(states[|states| - 1])
    ensures Trace(states2, steps2) && |states2| > 0 && WritingFirst(states2[|states2| - 1])
    ensures states2[|states2| - 1].copied == HEADER_SIZE
    decreases HEADER_SIZE - states[|states| - 1].copied
  {
    hide Trace, ToSlice, And, Pow2;
    states2, steps2 := states, steps;
    if states[|states| - 1].copied < HEADER_SIZE {
      MaskIsRemainder(0, 4);
      states2, steps2 := Onward(states, steps, Copy);
      states2, steps2 := CopyAll(states2, steps2);
    }
  }

  /** The first message was written and its header read. */
  predicate HeaderTaken(s: State) {
    && Stands(s, HEADER_SIZE, HEADER_SIZE, HEADER_SIZE, Ring.Idle) && s.writing == None
    && s.receiver.AwaitPayload? && s.sent == [EMPTY] && s.received == []
  }

  lemma FirstHeader() returns (states: seq<State>, steps: seq<Step>)
    ensures Trace(states, steps) && |states| > 0 && HeaderTaken(states[|states| - 1])
  {
    hide Trace, ToSlice, And, Pow2;
    states, steps := Opened();
    states, steps := CopyAll(states, steps);
    states, steps := Onward(states, steps, Commit);
    states, steps := Onward(states, steps, BeginHeader(1));
    states, steps := Onward(states, steps, RefreshTail);
    states, steps := Onward(states, steps, OpenRead);
    states, steps := Onward(states, steps, TakeHeader);
  }

  lemma FirstReceived() returns (states: seq<State>, steps: seq<Step>)
    ensures Trace(states, steps) && |states| > 0 && states[|states| - 1].writing == None
    ensures Stands(states[|states| - 1], HEADER_SIZE, HEADER_SIZE, HEADER_SIZE, Ring.Idle)
  {
    hide Trace, ToSlice, And, Pow2, Inv;
    states, steps := FirstHeader();
    TraceInv(states, steps, |states| - 1);
    HeaderReceived(states[|states| - 1]);
    states, steps := Onward(states, steps, BeginPayload);
    states, steps := Onward(states, steps, OpenRead);
    states, steps := Onward(states, steps, TakePayload);
  }

  lemma HeaderReceived(s: State)
    requires Inv(s) && s.receiver.AwaitPayload?
    ensures |s.received| < |s.sent| && s.receiver.header == HeaderOf(s.sent[|s.received|])
  {
  }

  /** The sender of a message that crosses the end is stuck with its handle open. */
  lemma CrossingHappens() returns (states: seq<State>, steps: seq<Step>)
    ensures Trace(states, steps) && |states| > 0
    ensures var s := states[|states| - 1];
            s.writing == Some(EMPTY) && s.ring.producer.Writing? && !Enabled(s, Copy) && !Enabled(s, Commit)
  {
    hide Trace, ToSlice, And, Pow2, Inv;
    states, steps := FirstReceived();
    states, steps := Onward(states, steps, Send(EMPTY));
    states, steps := Onward(states, steps, RefreshHead);
    states, steps := Onward(states, steps, OpenWrite);
    TraceInv(states, steps, |states| - 1);
    WriteGoesOnIff(states[|states| - 1]);
  }

  lemma ReadFits(s: State)
    requires Inv(s) && s.ring.consumer.Reading?
    ensures s.ring.Fits(s.ring.consumer.at, s.ring.consumer.n)
  {
    hide Wire, ToSlice;
    var ms, k, cap := Posted(s), |s.received|, s.ring.Cap();
    SeenOfMessage(s);
    assert ms[k] == s.sent[k] && ms[..k] == s.sent[..k];
    var p := |Wire(ms[..k])|;
    assert p % cap + |Encode(ms[k])| <= cap;
    MaskIsRemainder(s.ring.head, s.ring.order);
    if s.receiver.AwaitPayload? && s.ring.consumer.n > 0 {
      SliceCells(p, HEADER_SIZE, cap);
    }
  }
}
