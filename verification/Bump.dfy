/**
 The bump frame allocator (kernel/src/memory/bump.rs): frames are handed out in
 ascending order from the free memory areas, skipping the kernel image.
 */
module BumpFrames {
  import opened Wrappers
  import opened FreeList

  const MEMORY_AREA_FREE: nat := 1

  datatype MemoryArea = MemoryArea(base: nat, length: nat, kind: nat) {
    predicate Free() { kind == MEMORY_AREA_FREE && length > 0 }

    function First(): nat { base / PAGE_SIZE }

    function Last(): nat
      requires length > 0
    {
      (base + length - 1) / PAGE_SIZE
    }

    predicate Holds(frame: nat) { Free() && First() <= frame <= Last() }
  }

  /** Free areas are not empty and share no frame. */
  ghost predicate GoodMap(areas: seq<MemoryArea>) {
    && (forall i :: 0 <= i < |areas| && areas[i].kind == MEMORY_AREA_FREE ==> areas[i].length > 0)
    && (forall i, j :: 0 <= i < j < |areas| && areas[i].Free() && areas[j].Free() ==>
          areas[i].Last() < areas[j].First() || areas[j].Last() < areas[i].First())
  }

  ghost predicate InAreas(areas: seq<MemoryArea>, frame: nat) {
    exists i :: 0 <= i < |areas| && areas[i].Holds(frame)
  }

  ghost function AllFrames(areas: seq<MemoryArea>): set<nat> {
    set i: nat, f: nat | i < |areas| && areas[i].Free() && f <= areas[i].Last() && areas[i].Holds(f) :: f
  }

  lemma AllFramesMember(areas: seq<MemoryArea>, f: nat)
    ensures f in AllFrames(areas) <==> InAreas(areas, f)
  {
  }

  predicate HasByte(f: nat, b: nat) { b / 4096 == f }

  /** The frames of a memory map are those that hold a byte of an area of type 1. */
  lemma FramesHoldBytes(areas: seq<MemoryArea>, f: nat)
    ensures f in AllFrames(areas) <==>
              exists i, b: nat :: 0 <= i < |areas| && areas[i].kind == 1 && HasByte(f, b)
                             && areas[i].base <= b < areas[i].base + areas[i].length
  {
    AllFramesMember(areas, f);
    if InAreas(areas, f) {
      var i :| 0 <= i < |areas| && areas[i].Holds(f);
      var b := if f == areas[i].First() then areas[i].base else f * 4096;
      assert HasByte(f, b);
    }
  }

  /** What `bump` still has to give: frames of free areas above the kernel and not passed yet. */
  ghost function FreeFrom(areas: seq<MemoryArea>, kernelEnd: nat, next: nat): set<nat> {
    set f | f in AllFrames(areas) && kernelEnd < f && next <= f
  }

  /** Frames of free areas above the kernel that `bump` has moved past. */
  ghost function PassedBy(areas: seq<MemoryArea>, kernelEnd: nat, next: nat): set<nat> {
    set f | f in AllFrames(areas) && kernelEnd < f && f < next
  }

  lemma PassedApart(areas: seq<MemoryArea>, kernelEnd: nat, before: nat, after: nat)
    requires before <= after
    ensures PassedBy(areas, kernelEnd, before) !! FreeFrom(areas, kernelEnd, before)
    ensures PassedBy(areas, kernelEnd, before) <= PassedBy(areas, kernelEnd, after)
  {
  }

  lemma PassedGrows(areas: seq<MemoryArea>, kernelEnd: nat, before: nat, after: nat, first: nat, count: nat)
    requires before <= after && first + count <= after
    requires Range(first, count) <= FreeFrom(areas, kernelEnd, before)
    ensures Range(first, count) <= PassedBy(areas, kernelEnd, after)
  {
  }

  ghost predicate LeastOf(s: set<nat>, f: nat) {
    forall g :: g in s ==> f <= g
  }

  // ----- which area serves the next request -----

  /** `a` is the lowest free area reaching up to `next` or beyond. */
  ghost predicate Serving(areas: seq<MemoryArea>, next: nat, a: MemoryArea) {
    && a in areas && a.Free() && next <= a.Last()
    && forall b :: b in areas && b.Free() && next <= b.Last() ==> a.base <= b.base
  }

  function Max(a: nat, b: nat): nat { if a < b then b else a }

  /** The serving area has frames left at `next`, but fewer than `count`. */
  ghost predicate TooTight(areas: seq<MemoryArea>, next: nat, count: nat) {
    exists a :: Serving(areas, next, a) && a.Last() < Max(next, a.First()) + count - 1
  }

  /** The first attempt would start inside the kernel. */
  ghost predicate StartsInKernel(areas: seq<MemoryArea>, kernelEnd: nat, next: nat) {
    exists a :: Serving(areas, next, a) && Max(next, a.First()) <= kernelEnd
  }

  /** The requests on which the allocator never returns. */
  ghost predicate SpinCondition(areas: seq<MemoryArea>, kernelEnd: nat, next: nat, count: nat) {
    && count > 0
    && (TooTight(areas, next, count) ||
        (StartsInKernel(areas, kernelEnd, next) && TooTight(areas, kernelEnd + 1, count)))
  }

  lemma SingleFrameNeverSpins(areas: seq<MemoryArea>, kernelEnd: nat, next: nat)
    ensures !SpinCondition(areas, kernelEnd, next, 1)
  {
  }

  /** A request for three frames never returns when the area ahead holds two, however much lies beyond. */
  lemma LargeRequestCanSpin(beyond: MemoryArea)
    requires beyond.Free() && beyond.base >= 0x10_2000
    ensures SpinCondition([MemoryArea(0x10_0000, 0x2000, MEMORY_AREA_FREE), beyond], 0, 0, 3)
    ensures FreeFrom([MemoryArea(0x10_0000, 0x2000, MEMORY_AREA_FREE), beyond], 0, 0) != {}
  {
    var a := MemoryArea(0x10_0000, 0x2000, MEMORY_AREA_FREE);
    var areas := [a, beyond];
    assert a.First() == 0x100 && a.Last() == 0x101;
    assert Serving(areas, 0, a);
    assert TooTight(areas, 0, 3);
    assert areas[0].Holds(0x100);
    AllFramesMember(areas, 0x100);
    assert 0x100 in FreeFrom(areas, 0, 0);
  }

  lemma ServingUnique(areas: seq<MemoryArea>, next: nat, a: MemoryArea, b: MemoryArea)
    requires GoodMap(areas) && Serving(areas, next, a) && Serving(areas, next, b)
    ensures a == b
  {
  }

  // ----- the spin condition along one call -----

  lemma SpinsHere(areas: seq<MemoryArea>, kernelEnd: nat, next: nat, count: nat, a: MemoryArea)
    requires Serving(areas, next, a) && a.First() <= next && a.Last() < next + count - 1 && count > 0
    ensures SpinCondition(areas, kernelEnd, next, count)
  {
  }

  lemma SpinsFromAreaStart(areas: seq<MemoryArea>, kernelEnd: nat, next: nat, count: nat, a: MemoryArea)
    requires GoodMap(areas) && Serving(areas, next, a)
    ensures Serving(areas, Max(next, a.First()), a)
    ensures SpinCondition(areas, kernelEnd, next, count) <==>
      SpinCondition(areas, kernelEnd, Max(next, a.First()), count)
  {
  }

  lemma SpinsPastKernel(areas: seq<MemoryArea>, kernelEnd: nat, next: nat, count: nat, a: MemoryArea)
    requires GoodMap(areas) && Serving(areas, next, a) && a.First() <= next && count > 0
    requires next + count - 1 <= a.Last()
    ensures next <= kernelEnd ==>
              (SpinCondition(areas, kernelEnd, next, count) <==> SpinCondition(areas, kernelEnd, kernelEnd + 1, count))
    ensures kernelEnd < next ==> !SpinCondition(areas, kernelEnd, next, count)
  {
  }

  lemma NothingInKernel(areas: seq<MemoryArea>, kernelEnd: nat, next: nat)
    requires next <= kernelEnd
    ensures FreeFrom(areas, kernelEnd, kernelEnd + 1) == FreeFrom(areas, kernelEnd, next)
  {
  }

  lemma NoFrameNoSpin(areas: seq<MemoryArea>, kernelEnd: nat, next: nat)
    ensures !SpinCondition(areas, kernelEnd, next, 0)
  {
  }

  lemma NoAreaNoSpin(areas: seq<MemoryArea>, kernelEnd: nat, next: nat, count: nat)
    requires forall b :: b in areas && b.Free() ==> b.Last() < next
    ensures !SpinCondition(areas, kernelEnd, next, count)
  {
  }

  /** Nothing free lies between `next` and the start of the serving area. */
  lemma NothingBelow(areas: seq<MemoryArea>, kernelEnd: nat, next: nat, a: MemoryArea)
    requires Serving(areas, next, a)
    ensures FreeFrom(areas, kernelEnd, Max(next, a.First())) == FreeFrom(areas, kernelEnd, next)
  {
  }

  lemma NothingLeft(areas: seq<MemoryArea>, kernelEnd: nat, next: nat)
    requires forall b :: b in areas && b.Free() ==> b.Last() < next
    ensures FreeFrom(areas, kernelEnd, next) == {}
  {
  }

  /** A range inside one area above the kernel is free, and taking it moves `next` past it. */
  lemma TakeRange(areas: seq<MemoryArea>, kernelEnd: nat, next: nat, a: MemoryArea, count: nat)
    requires a in areas && a.Free() && a.First() <= next && kernelEnd < next && count > 0
    requires next + count - 1 <= a.Last()
    ensures Range(next, count) <= FreeFrom(areas, kernelEnd, next)
    ensures LeastOf(FreeFrom(areas, kernelEnd, next), next)
    ensures FreeFrom(areas, kernelEnd, next + count) == FreeFrom(areas, kernelEnd, next) - Range(next, count)
  {
    forall f | f in Range(next, count)
      ensures f in FreeFrom(areas, kernelEnd, next)
    {
      var i :| 0 <= i < |areas| && areas[i] == a;
      assert areas[i].Holds(f);
      AllFramesMember(areas, f);
    }
  }

  /** `Spins` stands for a call that repeats itself in an unchanged state and never returns. */
  datatype Outcome = Found(frame: nat) | Exhausted | Spins

  class BumpAllocator {
    var nextFree: nat
    var currentArea: Option<MemoryArea>
    const areas: seq<MemoryArea>
    const kernelStart: nat
    const kernelEnd: nat

    /** The kernel range starts at frame 0; the current area is the lowest that may still have frames. */
    ghost predicate Valid()
      reads this
    {
      && GoodMap(areas) && kernelStart == 0
      && match currentArea
         case None => forall b :: b in areas && b.Free() ==> b.Last() < nextFree
         case Some(a) =>
           && a in areas && a.Free() && a.First() <= nextFree
           && forall b :: b in areas && b.Free() && nextFree <= b.Last() ==> a.base <= b.base
    }

    ghost function FreeSet(): set<nat>
      reads this
    {
      FreeFrom(areas, kernelEnd, nextFree)
    }

    constructor (kernelStartAddress: nat, kernelEndAddress: nat, memoryMap: seq<MemoryArea>)
      requires GoodMap(memoryMap) && kernelStartAddress == 0
      ensures Valid() && areas == memoryMap && kernelEnd == kernelEndAddress / PAGE_SIZE
      ensures FreeSet() == FreeFrom(memoryMap, kernelEnd, 0)
    {
      nextFree := 0;
      currentArea := None;
      areas := memoryMap;
      kernelStart := kernelStartAddress / PAGE_SIZE;
      kernelEnd := kernelEndAddress / PAGE_SIZE;
      new;
      ChooseNextArea();
    }

    method ChooseNextArea()
      requires GoodMap(areas) && kernelStart == 0
      modifies this
      ensures Valid()
      ensures FreeSet() == old(FreeSet())
      ensures currentArea.None? ==> nextFree == old(nextFree)
      ensures currentArea.Some? ==>
                Serving(areas, old(nextFree), currentArea.value) &&
                nextFree == Max(old(nextFree), currentArea.value.First())
    {
      currentArea := None;
      for i := 0 to |areas|
        invariant nextFree == old(nextFree)
        invariant match currentArea
                  case None => forall k :: 0 <= k < i && areas[k].Free() ==> areas[k].Last() < nextFree
                  case Some(a) =>
                    && a in areas && a.Free() && nextFree <= a.Last()
                    && forall k :: 0 <= k < i && areas[k].Free() && nextFree <= areas[k].Last() ==>
                      a.base <= areas[k].base
      {
        var area := areas[i];
        if area.kind == MEMORY_AREA_FREE {
          if area.Last() >= nextFree && (currentArea.None? || area.base < currentArea.value.base) {
            currentArea := Some(area);
          }
        }
      }
      if currentArea.Some? {
        var startFrame := currentArea.value.First();
        NothingBelow(areas, kernelEnd, nextFree, currentArea.value);
        if nextFree < startFrame {
          nextFree := startFrame;
        }
      }
    }

    method AllocateFrames(count: nat) returns (r: Outcome)
      requires Valid()
      modifies this
      ensures Valid() && old(nextFree) <= nextFree
      ensures r.Found? ==>
                && nextFree == r.frame + count
                && Range(r.frame, count) <= old(FreeSet()) && count > 0
                && LeastOf(old(FreeSet()), r.frame)
                && FreeSet() == old(FreeSet()) - Range(r.frame, count)
      ensures !r.Found? ==> FreeSet() == old(FreeSet())
      ensures r.Exhausted? ==> count == 0 || FreeSet() == {}
      ensures r.Spins? <==> SpinCondition(areas, kernelEnd, old(nextFree), count)
      decreases nextFree <= kernelEnd,
        currentArea.Some? && currentArea.value.length > 0 && currentArea.value.Last() < nextFree
    {
      hide FreeFrom, SpinCondition, Range, GoodMap;
      if count == 0 {
        NoFrameNoSpin(areas, kernelEnd, nextFree);
        return Exhausted;
      } else if currentArea.Some? {
        var area := currentArea.value;
        var startFrame := nextFree;
        var endFrame := nextFree + (count - 1);
        assert nextFree <= area.Last() ==> Serving(areas, nextFree, area);
        if endFrame > area.Last() {
          // all frames of the current area are used, switch to the next one
          ChooseNextArea();
          AfterChoosing(startFrame, area, count);
          if nextFree == startFrame && currentArea == Some(area) {
            return Spins;
          }
        } else if (startFrame >= kernelStart && startFrame <= kernelEnd)
               || (endFrame >= kernelStart && endFrame <= kernelEnd) {
          // used by the kernel
          SpinsPastKernel(areas, kernelEnd, nextFree, count, area);
          nextFree := kernelEnd + 1;
          NothingInKernel(areas, kernelEnd, startFrame);
        } else {
          SpinsPastKernel(areas, kernelEnd, nextFree, count, area);
          TakeRange(areas, kernelEnd, nextFree, area, count);
          nextFree := nextFree + count;
          return Found(startFrame);
        }
        r := AllocateFrames(count);
      } else {
        NothingLeft(areas, kernelEnd, nextFree);
        NoAreaNoSpin(areas, kernelEnd, nextFree, count);
        return Exhausted;
      }
    }

    ghost function Wanted(frames: set<nat>, wantFree: bool): set<nat>
      reads this
    {
      set f | f in frames && (kernelEnd < f && nextFree <= f) == wantFree
    }

    /** Frame by frame through every free area, as `free_frames` and `used_frames` do. */
    method CountFrames(wantFree: bool) returns (count: nat)
      requires Valid()
      ensures count == if wantFree then |FreeSet()| else |AllFrames(areas) - FreeSet()|
    {
      count := 0;
      for i := 0 to |areas|
        invariant count == |Wanted(AllFrames(areas[..i]), wantFree)|
      {
        if areas[i].kind == MEMORY_AREA_FREE {
          var inArea := CountArea(areas[i], wantFree);
          count := count + inArea;
        }
        WantedPrefix(i, wantFree);
      }
      assert areas[..|areas|] == areas;
      assert Wanted(AllFrames(areas), true) == FreeSet();
      assert Wanted(AllFrames(areas), false) == AllFrames(areas) - FreeSet();
    }

    method CountArea(area: MemoryArea, wantFree: bool) returns (count: nat)
      requires kernelStart == 0 && area.Free()
      ensures count == |Wanted(Range(area.First(), area.Last() + 1 - area.First()), wantFree)|
    {
      count := 0;
      var frame := area.First();
      while frame <= area.Last()
        invariant area.First() <= frame <= area.Last() + 1
        invariant count == |Wanted(Range(area.First(), frame - area.First()), wantFree)|
      {
        WantedNext(area.First(), frame - area.First(), wantFree);
        if frame >= kernelStart && frame <= kernelEnd {
          // inside of the kernel range
          if !wantFree { count := count + 1; }
        } else if frame >= nextFree {
          // in the free range
          if wantFree { count := count + 1; }
        } else {
          // inside of the used range
          if !wantFree { count := count + 1; }
        }
        frame := frame + 1;
      }
    }

    lemma WantedNext(first: nat, n: nat, wantFree: bool)
      ensures var frame := first + n;
              |Wanted(Range(first, n + 1), wantFree)| == |Wanted(Range(first, n), wantFree)|
                + if (kernelEnd < frame && nextFree <= frame) == wantFree then 1 else 0
    {
      var frame := first + n;
      var less, more := Wanted(Range(first, n), wantFree), Wanted(Range(first, n + 1), wantFree);
      assert frame !in less;
      if (kernelEnd < frame && nextFree <= frame) == wantFree {
        assert more == less + {frame};
      } else {
        assert more == less;
      }
    }

    lemma WantedPrefix(i: nat, wantFree: bool)
      requires GoodMap(areas) && i < |areas|
      ensures !areas[i].Free() ==> AllFrames(areas[..i + 1]) == AllFrames(areas[..i])
      ensures areas[i].Free() ==>
                |Wanted(AllFrames(areas[..i + 1]), wantFree)| == |Wanted(AllFrames(areas[..i]), wantFree)|
                  + |Wanted(Range(areas[i].First(), areas[i].Last() + 1 - areas[i].First()), wantFree)|
    {
      PrefixFrames(i);
      if areas[i].Free() {
        var here := Range(areas[i].First(), areas[i].Last() + 1 - areas[i].First());
        forall f | f in here
          ensures f !in AllFrames(areas[..i])
        {
          NotSeenBefore(i, f);
        }
        assert Wanted(AllFrames(areas[..i + 1]), wantFree) ==
               Wanted(AllFrames(areas[..i]), wantFree) + Wanted(here, wantFree);
      }
    }

    lemma NotSeenBefore(i: nat, frame: nat)
      requires GoodMap(areas) && i < |areas| && areas[i].Holds(frame)
      ensures frame !in AllFrames(areas[..i])
    {
    }

    lemma PrefixFrames(i: nat)
      requires GoodMap(areas) && i < |areas|
      ensures !areas[i].Free() ==> AllFrames(areas[..i + 1]) == AllFrames(areas[..i])
      ensures areas[i].Free() ==>
                AllFrames(areas[..i + 1]) ==
                AllFrames(areas[..i]) + Range(areas[i].First(), areas[i].Last() + 1 - areas[i].First())
    {
      var less, more := areas[..i], areas[..i + 1];
      assert forall k :: 0 <= k < i ==> more[k] == less[k];
      forall f: nat
        ensures f in AllFrames(more) <==> f in AllFrames(less) || areas[i].Holds(f)
      {
        AllFramesMember(less, f);
        AllFramesMember(more, f);
        if InAreas(less, f) {
          var k :| 0 <= k < |less| && less[k].Holds(f);
          assert more[k].Holds(f);
        }
        assert areas[i].Holds(f) ==> more[i].Holds(f);
      }
    }

    method FreeFrames() returns (count: nat)
      requires Valid()
      ensures count == |FreeSet()|
    {
      count := CountFrames(true);
    }

    method UsedFrames() returns (count: nat)
      requires Valid()
      ensures count == |AllFrames(areas) - FreeSet()|
    {
      count := CountFrames(false);
    }

    /** Looking for the next area either changes nothing, for ever, or moves to an area with frames left. */
    lemma AfterChoosing(before: nat, area: MemoryArea, count: nat)
      requires Valid() && count > 0
      requires area in areas && area.Free() && area.First() <= before && area.Last() < before + count - 1
      requires before <= area.Last() ==> Serving(areas, before, area)
      requires currentArea.None? ==> nextFree == before
      requires currentArea.Some? ==>
                 Serving(areas, before, currentArea.value) && nextFree == Max(before, currentArea.value.First())
      ensures nextFree == before && currentArea == Some(area) <==> before <= area.Last()
      ensures before <= area.Last() ==> SpinCondition(areas, kernelEnd, before, count)
      ensures SpinCondition(areas, kernelEnd, before, count) <==> SpinCondition(areas, kernelEnd, nextFree, count)
    {
      if before <= area.Last() {
        ServingUnique(areas, before, area, currentArea.value);
        SpinsHere(areas, kernelEnd, before, count, area);
      }
      if currentArea.Some? {
        SpinsFromAreaStart(areas, kernelEnd, before, count, currentArea.value);
      }
    }
  }

}
