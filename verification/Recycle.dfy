/**
 The frame allocator of the kernel (kernel/src/memory/recycle.rs): freed frames are
 kept in a free list and preferred; the bump allocator serves the rest.
 */
module RecycledFrames {
  import opened Wrappers
  import opened FreeList
  import opened BumpFrames

  class RecycleAllocator {
    const inner: BumpAllocator
    var noncore: bool
    var free: seq<Block>
    /** The frames handed out and not yet given back. */
    ghost var live: set<nat>

    ghost function Now(): Snap
      reads this, inner
    {
      Snap(free, live, inner.nextFree, noncore)
    }

    ghost predicate Valid()
      reads this, inner
    {
      inner.Valid() && Good(inner.areas, inner.kernelEnd, Now())
    }

    /** Every frame a request can still be served from. */
    ghost function Available(): set<nat>
      reads this, inner
    {
      AvailableIn(inner.areas, inner.kernelEnd, Now())
    }

    constructor (bump: BumpAllocator)
      requires bump.Valid()
      ensures Valid() && inner == bump && live == {} && !noncore && free == []
      ensures Available() == bump.FreeSet()
    {
      inner := bump;
      noncore := false;
      free := [];
      live := {};
    }

    method SetNoncore(enabled: bool)
      requires Valid()
      modifies this
      ensures Valid() && noncore == enabled && free == old(free) && live == old(live)
    {
      noncore := enabled;
    }

    method FreeFrames() returns (count: nat)
      requires Valid()
      ensures count == |Available()|
    {
      count := inner.FreeFrames();
      var recycled := FreeCount(free);
      count := count + recycled;
    }

    /** The subtraction never goes below zero: recycled frames are among those `inner` counts as used. */
    method UsedFrames() returns (count: nat)
      requires Valid()
      ensures count == |AllFrames(inner.areas) - Available()|
    {
      var used := inner.UsedFrames();
      var recycled := FreeCount(free);
      LessRecycled(AllFrames(inner.areas), inner.FreeSet(), PageSet(free));
      count := used - recycled;
    }

    method AllocateFrames(count: nat) returns (r: Outcome)
      requires Valid()
      modifies this, inner
      ensures Valid()
      ensures !r.Spins? ==> TakeOk(inner.areas, inner.kernelEnd, old(Now()), Now(), count, r)
      ensures r.Spins? ==> Now().(next := old(inner.nextFree)) == old(Now())
      ensures r.Spins? <==> NeverReturns(inner.areas, inner.kernelEnd, old(Now()), count)
    {
      hide Range, PageSet, Canonical, FreeFrom, PassedBy, SpinCondition, TakeOk, Good, LeastOf;
      ghost var s := Now();
      var smallest := FindSmallest(free, count);
      if smallest.Some? {
        var frame;
        ghost var b := free[smallest.value];
        GoodMeans(inner.areas, inner.kernelEnd, s);
        free, frame := TakeTop(free, smallest.value, count);
        live := live + Range(frame, count);
        r := Found(frame);
        FromList(inner.areas, inner.kernelEnd, s, Now(), b, frame, count);
      } else {
        r := inner.AllocateFrames(count);
        if r.Found? {
          live := live + Range(r.frame, count);
          FromBump(inner.areas, inner.kernelEnd, s, Now(), r.frame, count);
        } else {
          NotServed(inner.areas, inner.kernelEnd, s, Now(), count, r);
        }
      }
    }

    method DeallocateFrames(frame: nat, count: nat)
      requires Valid() && count > 0 && Range(frame, count) <= live
      modifies this
      ensures Valid() && GiveOk(inner.areas, inner.kernelEnd, old(Now()), Now(), frame, count)
    {
      if noncore {
        var r := Block(frame * PAGE_SIZE, count);
        PagesApart(free, r);
        free := Release(free, r);
      }
      live := live - Range(frame, count);
      Given(inner.areas, inner.kernelEnd, old(Now()), Now(), frame, count);
    }

    /**
     Any run of requests in which only ranges still held are given back is a history. It ends early
     exactly at a request that never returns.
     */
    method Run(ops: seq<FrameOp>)
        returns (done: nat, held: seq<Held>, ghost snaps: seq<Snap>, ghost outcomes: seq<Outcome>)
      requires Valid()
      modifies this, inner
      ensures Valid() && done <= |ops|
      ensures History(inner.areas, inner.kernelEnd, snaps, ops[..done], outcomes) && snaps[0] == old(Now())
      ensures held == HeldAfter(ops[..done], outcomes)
      ensures done == |ops| ==> snaps[done] == Now()
      ensures done < |ops| ==>
        ops[done].Take? && NeverReturns(inner.areas, inner.kernelEnd, snaps[done], ops[done].count)
    {
      hide Range, PageSet, Canonical, FreeFrom, PassedBy, SpinCondition, TakeOk, GiveOk, Good, NeverReturns;
      done, held, snaps, outcomes := 0, [], [Now()], [];
      while done < |ops|
        invariant Valid() && 0 <= done <= |ops| && |outcomes| == done
        invariant History(inner.areas, inner.kernelEnd, snaps, ops[..done], outcomes) && snaps[0] == old(Now())
        invariant snaps[done] == Now() && held == HeldAfter(ops[..done], outcomes)
      {
        var r := Exhausted;
        ghost var before := held;
        match ops[done] {
          case Take(count) =>
            r := AllocateFrames(count);
            if r.Spins? {
              return;
            }
            if r.Found? && count > 0 {
              held := held + [Held(r.frame, count)];
            }
          case Give(k) =>
            if k < |held| {
              HistoryHeld(inner.areas, inner.kernelEnd, snaps, ops[..done], outcomes);
              DeallocateFrames(held[k].first, held[k].count);
              held := RemoveAt(held, k);
            }
          case Noncore(enabled) =>
            SetNoncore(enabled);
        }
        Longer(inner.areas, inner.kernelEnd, snaps, ops[..done], outcomes, Now(), ops[done], r);
        assert ops[..done + 1] == ops[..done] + [ops[done]];
        snaps, outcomes := snaps + [Now()], outcomes + [r];
        done := done + 1;
      }
    }
  }

  // ----- what the calls do -----

  /** The free list, the frames handed out and not given back, the bump position and the mode. */
  datatype Snap = Snap(free: seq<Block>, live: set<nat>, next: nat, noncore: bool)

  /** Live and recycled frames are apart, lie in free areas above the kernel, and were issued by the bump allocator. */
  ghost predicate Good(areas: seq<MemoryArea>, kernelEnd: nat, s: Snap) {
    && Canonical(s.free) && s.live !! PageSet(s.free)
    && s.live <= PassedBy(areas, kernelEnd, s.next) && PageSet(s.free) <= PassedBy(areas, kernelEnd, s.next)
  }

  ghost function AvailableIn(areas: seq<MemoryArea>, kernelEnd: nat, s: Snap): set<nat> {
    FreeFrom(areas, kernelEnd, s.next) + PageSet(s.free)
  }

  /** What `used_frames` reports. */
  ghost function UsedIn(areas: seq<MemoryArea>, kernelEnd: nat, s: Snap): nat {
    |AllFrames(areas) - AvailableIn(areas, kernelEnd, s)|
  }

  ghost predicate NeverReturns(areas: seq<MemoryArea>, kernelEnd: nat, s: Snap, count: nat) {
    (forall b :: b in s.free ==> b.count < count) && SpinCondition(areas, kernelEnd, s.next, count)
  }

  /**
   A request that returned. The range was available and not live; used rises by exactly the count.
   It is the top of a smallest recycled block that suffices, or else starts at the least frame the
   bump allocator has left. Nothing is left to serve a request that is refused.
   */
  ghost predicate TakeOk(areas: seq<MemoryArea>, kernelEnd: nat, s: Snap, t: Snap, count: nat, r: Outcome) {
    && t.noncore == s.noncore
    && match r
       case Found(frame) =>
         && Range(frame, count) <= AvailableIn(areas, kernelEnd, s) && Range(frame, count) !! s.live
         && AvailableIn(areas, kernelEnd, t) == AvailableIn(areas, kernelEnd, s) - Range(frame, count)
         && t.live == s.live + Range(frame, count) && UsedIn(areas, kernelEnd, t) == UsedIn(areas, kernelEnd, s) + count
         && (if exists b :: b in s.free && count <= b.count
             then t.next == s.next && exists b :: TopOfFit(s.free, b, count, frame)
             else t.free == s.free && LeastOf(FreeFrom(areas, kernelEnd, s.next), frame))
       case Exhausted =>
         && t.free == s.free && t.live == s.live && AvailableIn(areas, kernelEnd, t) == AvailableIn(areas, kernelEnd, s)
         && (count > 0 ==>
               FreeFrom(areas, kernelEnd, s.next) == {} && forall first: nat :: !FreeRun(s.free, first, count))
       case Spins => false
  }

  ghost predicate TopOfFit(free: seq<Block>, b: Block, count: nat, frame: nat) {
    BestFit(free, b, count) && frame + count == b.First() + b.count
  }

  /** A live range given back becomes available, and used falls by its count, exactly in noncore mode. */
  ghost predicate GiveOk(areas: seq<MemoryArea>, kernelEnd: nat, s: Snap, t: Snap, frame: nat, count: nat) {
    && t.noncore == s.noncore && t.next == s.next && t.live == s.live - Range(frame, count)
    && (if s.noncore
        then AvailableIn(areas, kernelEnd, t) == AvailableIn(areas, kernelEnd, s) + Range(frame, count)
             && Range(frame, count) !! AvailableIn(areas, kernelEnd, s)
             && UsedIn(areas, kernelEnd, t) == UsedIn(areas, kernelEnd, s) - count
        else t.free == s.free)
  }

  lemma GoodMeans(areas: seq<MemoryArea>, kernelEnd: nat, s: Snap)
    requires Good(areas, kernelEnd, s)
    ensures Canonical(s.free)
  {
  }

  lemma FromList(areas: seq<MemoryArea>, kernelEnd: nat, s: Snap, t: Snap, b: Block, frame: nat, count: nat)
    requires Good(areas, kernelEnd, s) && t == Snap(t.free, s.live + Range(frame, count), s.next, s.noncore)
    requires Canonical(t.free)
    requires Range(frame, count) <= PageSet(s.free) && PageSet(t.free) == PageSet(s.free) - Range(frame, count)
    requires TopOfFit(s.free, b, count, frame)
    ensures Good(areas, kernelEnd, t) && TakeOk(areas, kernelEnd, s, t, count, Found(frame))
  {
    hide Range, PageSet, Canonical, FreeFrom, PassedBy, UsedIn;
    PassedApart(areas, kernelEnd, s.next, s.next);
    var ahead, passed := FreeFrom(areas, kernelEnd, s.next), PassedBy(areas, kernelEnd, s.next);
    Recycled(ahead, passed, PageSet(s.free), s.live, Range(frame, count));
    Taken(areas, kernelEnd, s, t, frame, count);
  }

  lemma FromBump(areas: seq<MemoryArea>, kernelEnd: nat, s: Snap, t: Snap, frame: nat, count: nat)
    requires Good(areas, kernelEnd, s) && t == Snap(s.free, s.live + Range(frame, count), t.next, s.noncore)
    requires s.next <= t.next == frame + count && Range(frame, count) <= FreeFrom(areas, kernelEnd, s.next)
    requires FreeFrom(areas, kernelEnd, t.next) == FreeFrom(areas, kernelEnd, s.next) - Range(frame, count)
    requires LeastOf(FreeFrom(areas, kernelEnd, s.next), frame)
    requires forall k :: 0 <= k < |s.free| ==> s.free[k].count < count
    ensures Good(areas, kernelEnd, t) && TakeOk(areas, kernelEnd, s, t, count, Found(frame))
  {
    hide Range, PageSet, Canonical, FreeFrom, PassedBy, UsedIn, LeastOf;
    PassedApart(areas, kernelEnd, s.next, t.next);
    PassedGrows(areas, kernelEnd, s.next, t.next, frame, count);
    FromInner(FreeFrom(areas, kernelEnd, s.next), PageSet(s.free), s.live, Range(frame, count));
    Taken(areas, kernelEnd, s, t, frame, count);
  }

  lemma NotServed(areas: seq<MemoryArea>, kernelEnd: nat, s: Snap, t: Snap, count: nat, r: Outcome)
    requires Good(areas, kernelEnd, s) && t == s.(next := t.next) && s.next <= t.next
    requires FreeFrom(areas, kernelEnd, t.next) == FreeFrom(areas, kernelEnd, s.next) && !r.Found?
    requires r.Exhausted? && count > 0 ==> FreeFrom(areas, kernelEnd, t.next) == {}
    requires forall k :: 0 <= k < |s.free| ==> s.free[k].count < count
    ensures Good(areas, kernelEnd, t) && (r.Exhausted? ==> TakeOk(areas, kernelEnd, s, t, count, r))
  {
    hide PageSet, Canonical, FreeFrom, PassedBy;
    PassedApart(areas, kernelEnd, s.next, t.next);
    NoRun(s.free, count);
  }

  lemma Taken(areas: seq<MemoryArea>, kernelEnd: nat, s: Snap, t: Snap, frame: nat, count: nat)
    requires Good(areas, kernelEnd, s) && Range(frame, count) <= AvailableIn(areas, kernelEnd, s)
    requires AvailableIn(areas, kernelEnd, t) == AvailableIn(areas, kernelEnd, s) - Range(frame, count)
    ensures UsedIn(areas, kernelEnd, t) == UsedIn(areas, kernelEnd, s) + count
  {
    hide Canonical, Range;
    RangeSize(frame, count);
    MovedSize(AllFrames(areas), AvailableIn(areas, kernelEnd, s), Range(frame, count));
  }

  lemma Given(areas: seq<MemoryArea>, kernelEnd: nat, s: Snap, t: Snap, frame: nat, count: nat)
    requires Good(areas, kernelEnd, s) && Range(frame, count) <= s.live && t.next == s.next
    requires PageSet(t.free) == if s.noncore then PageSet(s.free) + Range(frame, count) else PageSet(s.free)
    ensures Range(frame, count) !! AvailableIn(areas, kernelEnd, s)
    ensures s.noncore ==>
              && AvailableIn(areas, kernelEnd, t) == AvailableIn(areas, kernelEnd, s) + Range(frame, count)
              && UsedIn(areas, kernelEnd, t) == UsedIn(areas, kernelEnd, s) - count
  {
    hide Canonical, Range, PageSet;
    PassedApart(areas, kernelEnd, s.next, s.next);
    RangeSize(frame, count);
    if s.noncore {
      assert AvailableIn(areas, kernelEnd, t) == AvailableIn(areas, kernelEnd, s) + Range(frame, count);
      MovedSize(AllFrames(areas), AvailableIn(areas, kernelEnd, s), Range(frame, count));
    }
  }

  // ----- histories of calls -----

  datatype FrameOp = Take(count: nat) | Give(index: nat) | Noncore(enabled: bool)

  /** A range that was handed out and not given back. */
  datatype Held = Held(first: nat, count: nat) {
    ghost function Frames(): set<nat> { Range(first, count) }
  }

  /** The ranges held after the calls, from what the calls returned. */
  function HeldAfter(ops: seq<FrameOp>, outcomes: seq<Outcome>): seq<Held>
    requires |ops| == |outcomes|
  {
    if ops == [] then []
    else
      var last := |ops| - 1;
      var before := HeldAfter(ops[..last], outcomes[..last]);
      match ops[last]
      case Take(count) =>
        if outcomes[last].Found? && count > 0 then before + [Held(outcomes[last].frame, count)] else before
      case Give(k) => if k < |before| then RemoveAt(before, k) else before
      case Noncore(_) => before
  }

  ghost predicate StepOk(areas: seq<MemoryArea>, kernelEnd: nat, s: Snap, t: Snap, held: seq<Held>, op: FrameOp,
      r: Outcome) {
    && Good(areas, kernelEnd, t)
    && match op
       case Take(count) => TakeOk(areas, kernelEnd, s, t, count, r)
       case Give(k) => if k < |held| then GiveOk(areas, kernelEnd, s, t, held[k].first, held[k].count) else t == s
       case Noncore(enabled) => t == s.(noncore := enabled)
  }

  ghost predicate StepAt(areas: seq<MemoryArea>, kernelEnd: nat, snaps: seq<Snap>, ops: seq<FrameOp>,
      outcomes: seq<Outcome>, i: nat)
    requires i < |ops| == |outcomes| && |snaps| == |ops| + 1
  {
    StepOk(areas, kernelEnd, snaps[i], snaps[i + 1], HeldAfter(ops[..i], outcomes[..i]), ops[i], outcomes[i])
  }

  /** Calls that all returned, with the states between them; a free names one of the ranges held. */
  ghost predicate History(areas: seq<MemoryArea>, kernelEnd: nat, snaps: seq<Snap>, ops: seq<FrameOp>,
      outcomes: seq<Outcome>) {
    && |snaps| == |ops| + 1 == |outcomes| + 1 && Good(areas, kernelEnd, snaps[0])
    && forall i :: 0 <= i < |ops| ==> StepAt(areas, kernelEnd, snaps, ops, outcomes, i)
  }

  lemma Longer(areas: seq<MemoryArea>, kernelEnd: nat, snaps: seq<Snap>, ops: seq<FrameOp>, outcomes: seq<Outcome>,
               t: Snap, op: FrameOp, r: Outcome)
    requires History(areas, kernelEnd, snaps, ops, outcomes)
    requires StepOk(areas, kernelEnd, snaps[|ops|], t, HeldAfter(ops, outcomes), op, r)
    ensures History(areas, kernelEnd, snaps + [t], ops + [op], outcomes + [r])
    ensures (ops + [op])[..|ops|] == ops && (outcomes + [r])[..|ops|] == outcomes
  {
    hide StepOk, Good, HeldAfter;
    var snaps2, ops2, outcomes2 := snaps + [t], ops + [op], outcomes + [r];
    assert ops2[..|ops|] == ops && outcomes2[..|ops|] == outcomes;
    forall i | 0 <= i < |ops2|
      ensures StepAt(areas, kernelEnd, snaps2, ops2, outcomes2, i)
    {
      if i < |ops| {
        assert StepAt(areas, kernelEnd, snaps, ops, outcomes, i);
        assert ops2[..i] == ops[..i] && outcomes2[..i] == outcomes[..i];
      }
    }
  }

  lemma Shorter(areas: seq<MemoryArea>, kernelEnd: nat, snaps: seq<Snap>, ops: seq<FrameOp>, outcomes: seq<Outcome>)
    requires History(areas, kernelEnd, snaps, ops, outcomes) && ops != []
    ensures var n := |ops| - 1;
            && History(areas, kernelEnd, snaps[..n + 1], ops[..n], outcomes[..n])
            && StepAt(areas, kernelEnd, snaps, ops, outcomes, n)
  {
    hide StepOk, Good, HeldAfter;
    var n := |ops| - 1;
    var snaps2, ops2, outcomes2 := snaps[..n + 1], ops[..n], outcomes[..n];
    forall i | 0 <= i < n
      ensures StepAt(areas, kernelEnd, snaps2, ops2, outcomes2, i)
    {
      assert StepAt(areas, kernelEnd, snaps, ops, outcomes, i);
      assert ops2[..i] == ops[..i] && outcomes2[..i] == outcomes[..i];
    }
  }

  ghost function Union(held: seq<Held>): set<nat> {
    set i: nat, f: nat | i < |held| && f in held[i].Frames() :: f
  }

  /** The ranges are disjoint, and together with `others` they are the live frames. */
  ghost predicate HeldApart(held: seq<Held>, live: set<nat>, others: set<nat>) {
    && (forall i :: 0 <= i < |held| ==> held[i].count > 0 && held[i].Frames() !! others)
    && (forall i, j :: 0 <= i < j < |held| ==> held[i].Frames() !! held[j].Frames())
    && live == others + Union(held)
  }

  lemma HeldMore(held: seq<Held>, live: set<nat>, others: set<nat>, h: Held)
    requires HeldApart(held, live, others) && h.count > 0 && h.Frames() !! live
    ensures HeldApart(held + [h], live + h.Frames(), others)
  {
    hide Range;
    var more := held + [h];
    forall i | 0 <= i < |held|
      ensures held[i].Frames() <= live
    {
    }
    forall f
      ensures f in Union(more) <==> f in Union(held) || f in h.Frames()
    {
      if f in h.Frames() {
        assert more[|held|] == h;
      }
      if f in Union(held) {
        var i: nat :| i < |held| && f in held[i].Frames();
        assert more[i] == held[i];
      }
    }
  }

  lemma HeldLess(held: seq<Held>, live: set<nat>, others: set<nat>, k: nat)
    requires HeldApart(held, live, others) && k < |held|
    ensures HeldApart(RemoveAt(held, k), live - held[k].Frames(), others)
    ensures held[k].Frames() <= live
  {
    hide Range;
    var less := RemoveAt(held, k);
    forall f
      ensures f in Union(less) <==> f in Union(held) && f !in held[k].Frames()
    {
      if f in Union(held) && f !in held[k].Frames() {
        var i: nat :| i < |held| && f in held[i].Frames();
        assert less[if i < k then i else i - 1] == held[i];
      }
      if f in Union(less) {
        var i: nat :| i < |less| && f in less[i].Frames();
        assert less[i] == held[if i < k then i else i + 1];
      }
    }
    assert held[k].Frames() <= Union(held);
  }

  /**
   Over any history the ranges held are pairwise disjoint, and the live frames are exactly theirs
   and those that were live at the start.
   */
  lemma {:induction false} HistoryHeld(areas: seq<MemoryArea>, kernelEnd: nat, snaps: seq<Snap>, ops: seq<FrameOp>,
      outcomes: seq<Outcome>)
    requires History(areas, kernelEnd, snaps, ops, outcomes)
    ensures Good(areas, kernelEnd, snaps[|ops|])
    ensures HeldApart(HeldAfter(ops, outcomes), snaps[|ops|].live, snaps[0].live)
    ensures forall k :: 0 <= k < |HeldAfter(ops, outcomes)| ==>
              HeldAfter(ops, outcomes)[k].count > 0 && HeldAfter(ops, outcomes)[k].Frames() <= snaps[|ops|].live
  {
    hide Good, Range, HeldApart, AvailableIn, UsedIn, FreeFrom;
    var held := HeldAfter(ops, outcomes);
    if ops == [] {
      NoneHeld(snaps[0].live);
    } else {
      var n := |ops| - 1;
      Shorter(areas, kernelEnd, snaps, ops, outcomes);
      HistoryHeld(areas, kernelEnd, snaps[..n + 1], ops[..n], outcomes[..n]);
      var before, live, others := HeldAfter(ops[..n], outcomes[..n]), snaps[n].live, snaps[0].live;
      match ops[n] {
        case Take(count) =>
          if outcomes[n].Found? && count > 0 {
            HeldMore(before, live, others, Held(outcomes[n].frame, count));
          } else {
            NoFrames(count, outcomes[n]);
            assert snaps[n + 1].live == live;
          }
        case Give(k) =>
          if k < |before| {
            HeldLess(before, live, others, k);
          }
        case Noncore(_) =>
      }
    }
    HeldLive(held, snaps[|ops|].live, snaps[0].live);
  }

  lemma NoneHeld(live: set<nat>)
    ensures HeldApart([], live, live)
  {
    assert Union([]) == {};
  }

  lemma NoFrames(count: nat, r: Outcome)
    ensures r.Found? && count == 0 ==> Range(r.frame, count) == {}
  {
  }

  lemma HeldLive(held: seq<Held>, live: set<nat>, others: set<nat>)
    requires HeldApart(held, live, others)
    ensures forall k :: 0 <= k < |held| ==> held[k].count > 0 && held[k].Frames() <= live
  {
    hide Range;
    forall k | 0 <= k < |held|
      ensures held[k].Frames() <= live
    {
      assert held[k].Frames() <= Union(held);
    }
  }

  /** A frame in a free area, above the kernel, neither recycled nor left to the bump allocator. */
  ghost predicate SafeFrame(areas: seq<MemoryArea>, kernelEnd: nat, s: Snap, f: nat) {
    InAreas(areas, f) && kernelEnd < f && f !in AvailableIn(areas, kernelEnd, s)
  }

  /** Over any history every frame of every range held is safe. */
  lemma HistorySafe(areas: seq<MemoryArea>, kernelEnd: nat, snaps: seq<Snap>, ops: seq<FrameOp>,
      outcomes: seq<Outcome>, k: nat, f: nat)
    requires History(areas, kernelEnd, snaps, ops, outcomes)
    requires k < |HeldAfter(ops, outcomes)| && f in HeldAfter(ops, outcomes)[k].Frames()
    ensures SafeFrame(areas, kernelEnd, snaps[|ops|], f)
  {
    hide HeldAfter, Canonical;
    HistoryHeld(areas, kernelEnd, snaps, ops, outcomes);
    AllFramesMember(areas, f);
  }

  /** What used went up by over the calls: requests served, less the frees in noncore mode. */
  ghost function NetTaken(snaps: seq<Snap>, ops: seq<FrameOp>, outcomes: seq<Outcome>): int
    requires |snaps| == |ops| + 1 == |outcomes| + 1
  {
    if ops == [] then 0
    else
      var n := |ops| - 1;
      var held := HeldAfter(ops[..n], outcomes[..n]);
      NetTaken(snaps[..n + 1], ops[..n], outcomes[..n]) +
      match ops[n]
      case Take(count) => if outcomes[n].Found? then count else 0
      case Give(k) => if k < |held| && snaps[n].noncore then -(held[k].count as int) else 0
      case Noncore(_) => 0
  }

  /** Over any history free plus used is the number of frames there are, and used follows the calls. */
  lemma {:induction false} Accounting(areas: seq<MemoryArea>, kernelEnd: nat, snaps: seq<Snap>, ops: seq<FrameOp>,
      outcomes: seq<Outcome>)
    requires History(areas, kernelEnd, snaps, ops, outcomes)
    ensures var s := snaps[|ops|];
            && |AvailableIn(areas, kernelEnd, s)| + UsedIn(areas, kernelEnd, s) == |AllFrames(areas)|
            && UsedIn(areas, kernelEnd, s) == UsedIn(areas, kernelEnd, snaps[0]) + NetTaken(snaps, ops, outcomes)
  {
    hide Range, FreeFrom, Canonical, HeldAfter, PageSet;
    HistoryHeld(areas, kernelEnd, snaps, ops, outcomes);
    Balance(areas, kernelEnd, snaps[|ops|]);
    if ops != [] {
      var n := |ops| - 1;
      Shorter(areas, kernelEnd, snaps, ops, outcomes);
      Accounting(areas, kernelEnd, snaps[..n + 1], ops[..n], outcomes[..n]);
    }
  }

  lemma Balance(areas: seq<MemoryArea>, kernelEnd: nat, s: Snap)
    requires Good(areas, kernelEnd, s)
    ensures |AvailableIn(areas, kernelEnd, s)| + UsedIn(areas, kernelEnd, s) == |AllFrames(areas)|
  {
    hide Canonical;
    MovedSize(AllFrames(areas), AvailableIn(areas, kernelEnd, s), {});
  }

  // ----- arithmetic of set sizes -----

  lemma SplitSize(all: set<nat>, part: set<nat>)
    requires part <= all
    ensures |all| == |part| + |all - part|
  {
  }

  lemma LessRecycled(all: set<nat>, ahead: set<nat>, recycled: set<nat>)
    requires recycled <= all - ahead
    ensures |all - (ahead + recycled)| == |all - ahead| - |recycled|
  {
    SplitSize(all - ahead, recycled);
    assert all - ahead - recycled == all - (ahead + recycled);
  }

  lemma MovedSize(all: set<nat>, avail: set<nat>, r: set<nat>)
    requires avail <= all
    ensures |avail| + |all - avail| == |all|
    ensures r <= avail ==> |all - (avail - r)| == |all - avail| + |r|
    ensures r <= all - avail ==> |all - (avail + r)| == |all - avail| - |r|
  {
  }

  /** A range moving from the recycled frames to the live ones. */
  lemma Recycled(ahead: set<nat>, issued: set<nat>, recycled: set<nat>, live: set<nat>, r: set<nat>)
    requires ahead !! issued && recycled <= issued && live <= issued && live !! recycled && r <= recycled
    ensures ahead + (recycled - r) == (ahead + recycled) - r
    ensures recycled - r !! live + r && recycled - r <= issued && live + r <= issued
    ensures r !! live && r <= ahead + recycled
  {
  }

  /** A range leaving `ahead` leaves the union with a list it has no frame in. */
  lemma FromInner(ahead: set<nat>, recycled: set<nat>, live: set<nat>, r: set<nat>)
    requires r <= ahead && ahead !! recycled && ahead !! live
    ensures (ahead - r) + recycled == (ahead + recycled) - r
    ensures r !! live && r <= ahead + recycled && r !! recycled
  {
  }

  /** The last smallest block with at least `count` frames. */
  method FindSmallest(free: seq<Block>, count: nat) returns (smallest: Option<nat>)
    ensures smallest.Some? ==> smallest.value < |free| && BestFit(free, free[smallest.value], count)
    ensures smallest.Some? ==>
              forall k :: smallest.value < k < |free| && count <= free[k].count ==>
                free[smallest.value].count < free[k].count
    ensures smallest.None? ==> forall k :: 0 <= k < |free| ==> free[k].count < count
  {
    smallest := None;
    var small := Block(0, 0);
    for i := 0 to |free|
      invariant smallest.None? ==> forall k :: 0 <= k < i ==> free[k].count < count
      invariant smallest.Some? ==> smallest.value < i && free[smallest.value] == small && count <= small.count
      invariant smallest.Some? ==> forall k :: 0 <= k < i && count <= free[k].count ==> small.count <= free[k].count
      invariant smallest.Some? ==>
                  forall k :: smallest.value < k < i && count <= free[k].count ==> small.count < free[k].count
    {
      if free[i].count >= count {
        if free[i].count <= small.count || smallest.None? {
          smallest := Some(i);
          small := free[i];
        }
      }
    }
  }

}
