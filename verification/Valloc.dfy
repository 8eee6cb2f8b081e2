/**
 The allocator of virtual pages (kernel/src/memory/valloc.rs): best fit over a list
 of free blocks, with merging on release.
 */
module VirtualPages {
  import opened Wrappers
  import opened FreeList

  /** `Vec::swap_remove`: the last element takes the place of the removed one. */
  function SwapRemove<T>(s: seq<T>, i: nat): (r: seq<T>)
    requires i < |s|
    ensures |r| == |s| - 1
    ensures forall k :: 0 <= k < |r| ==> r[k] == s[if k == i then |s| - 1 else k]
  {
    if i == |s| - 1 then s[..i] else s[..|s| - 1][i := s[|s| - 1]]
  }

  lemma SwapRemoveCanonical(free: seq<Block>, i: nat)
    requires Canonical(free) && i < |free|
    ensures Canonical(SwapRemove(free, i))
    ensures PageSet(SwapRemove(free, i)) == PageSet(RemoveAt(free, i))
  {
    var a, b, last := SwapRemove(free, i), RemoveAt(free, i), |free| - 1;
    forall k, l | 0 <= k < l < |a|
      ensures Apart(a[k], a[l])
    {
      assert Apart(free[k], free[l]);
      assert Apart(free[k], free[last]) && Apart(free[l], free[last]);
    }
    forall p: nat
      ensures Covered(a, p) <==> Covered(b, p)
    {
      SwapRemoveCovers(free, i, p);
    }
    PageSetCovers(a);
    PageSetCovers(b);
  }

  lemma SwapRemoveCovers(free: seq<Block>, i: nat, p: nat)
    requires i < |free|
    ensures Covered(SwapRemove(free, i), p) <==> Covered(RemoveAt(free, i), p)
  {
    var a, b, last := SwapRemove(free, i), RemoveAt(free, i), |free| - 1;
    if Covered(a, p) {
      var k :| 0 <= k < |a| && a[k].Has(p);
      assert b[if k < i then k else if k == i then last - 1 else k - 1].Has(p);
    }
    if Covered(b, p) {
      var k :| 0 <= k < |b| && b[k].Has(p);
      assert a[if k < i then k else if k + 1 == last then i else k + 1].Has(p);
    }
  }

  /** The scan for a smallest sufficient block, stopping early at an exact fit. */
  method FindBestFit(free: seq<Block>, count: nat) returns (best: Option<nat>)
    ensures best.Some? ==> best.value < |free| && BestFit(free, free[best.value], count)
    ensures best.None? ==> forall k :: 0 <= k < |free| ==> free[k].count < count
  {
    var bestFit: Option<Block> := None;
    var bestFitIndex := 0;
    var i := 0;
    while i < |free|
      invariant i <= |free|
      invariant bestFit.None? ==> forall k :: 0 <= k < i ==> free[k].count < count
      invariant bestFit.Some? ==>
        bestFitIndex < |free| && free[bestFitIndex] == bestFit.value && count <= bestFit.value.count
      invariant bestFit.Some? ==> forall k :: 0 <= k < i && count <= free[k].count ==>
        bestFit.value.count <= free[k].count
    {
      var block := free[i];
      if block.count < count {
        i := i + 1;
        continue;
      }
      if bestFit.None? {
        bestFit := Some(block);
        bestFitIndex := i;
      }
      if block.count < bestFit.value.count {
        bestFit := Some(block);
        bestFitIndex := i;
      }
      if bestFit.value.count == count {
        break;
      }
      i := i + 1;
    }
    best := if bestFit.Some? then Some(bestFitIndex) else None;
  }

  class Valloc {
    var free: seq<Block>
    /** The address range the allocator was created over. */
    ghost const region: Block
    /** The pages handed out and not yet given back. */
    ghost var live: set<nat>

    ghost predicate Valid()
      reads this
    {
      && Canonical(free) && region.Proper()
      && live !! PageSet(free)
      && live + PageSet(free) == Range(region.First(), region.count)
    }

    constructor (start: nat, size: nat)
      requires start % PAGE_SIZE == 0 && size >= PAGE_SIZE
      ensures Valid() && live == {} && free == [region]
      ensures region == Block(start, size / PAGE_SIZE)
    {
      free := [Block(start, size / PAGE_SIZE)];
      region := Block(start, size / PAGE_SIZE);
      live := {};
      new;
      PageSetPush([], region);
      assert PageSet([]) == {};
      assert [] + [region] == [region];
    }

    method AllocatePages(count: nat) returns (page: Option<nat>)
      requires Valid()
      modifies this
      ensures Valid()
      ensures page.None? ==> free == old(free) && live == old(live)
      ensures count > 0 ==> (page.Some? <==> exists first: nat :: FreeRun(old(free), first, count))
      ensures page.Some? ==>
                && Range(page.value, count) <= PageSet(old(free))
                && PageSet(free) == PageSet(old(free)) - Range(page.value, count)
                && live == old(live) + Range(page.value, count)
                && exists b :: BestFit(old(free), b, count) && page.value + count == b.First() + b.count
    {
      hide PageSet, Range, Canonical;
      var best := FindBestFit(free, count);
      if best.Some? {
        var bestFitIndex, bestFit := best.value, free[best.value];
        TopOfBlock(free, bestFitIndex, count);
        assert bestFit.start % PAGE_SIZE == 0 by { ProperBlock(free, bestFitIndex); }
        if bestFit.count > count {
          var newBlock := Block(bestFit.start, bestFit.count - count);
          Shrink(free, bestFitIndex, count);
          assert SwapRemove(free + [newBlock], bestFitIndex) == free[bestFitIndex := newBlock];
          free := free + [newBlock];
        } else {
          Drop(free, bestFitIndex);
          SwapRemoveCanonical(free, bestFitIndex);
        }
        free := SwapRemove(free, bestFitIndex);

        var start := bestFit.start + (bestFit.count - count) * PAGE_SIZE;
        page := Some(start / PAGE_SIZE);
        live := live + Range(page.value, count);
      } else {
        page := None;
        NoRun(free, count);
      }
    }

    method DeallocatePages(page: nat, count: nat)
      requires Valid() && count > 0 && Range(page, count) <= live
      modifies this
      ensures Valid()
      ensures PageSet(free) == PageSet(old(free)) + Range(page, count)
      ensures live == old(live) - Range(page, count)
    {
      var r := Block(page * PAGE_SIZE, count);
      PagesApart(free, r);
      free := Release(free, r);
      live := live - Range(page, count);
    }

    /** The free blocks are the maximal runs of free pages, and one block again when all is returned. */
    lemma FreeBlocksAreMaximalRuns(b: Block)
      requires Valid()
      ensures b in free <==> b.Proper() && MaximalRun(free, b.First(), b.count)
      ensures live == {} ==> free == [region]
    {
      BlocksAreMaximalRuns(free, b);
      if live == {} {
        OneBlock();
      }
    }

    lemma OneBlock()
      requires Valid() && live == {}
      ensures free == [region]
    {
      var whole := [region];
      PageSetPush([], region);
      assert PageSet([]) == {};
      assert [] + whole == whole;
      PageSetCovers(free);
      PageSetCovers(whole);
      SamePagesSameBlocks(free, whole, region);
      assert region in whole;
      forall k | 0 <= k < |free|
        ensures free[k] == region
      {
        SamePagesSameBlocks(free, whole, free[k]);
        assert free[k] in whole;
      }
      assert |free| > 1 ==> Apart(free[0], free[1]);
    }
  }

}
