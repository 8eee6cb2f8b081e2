/**
 The list of free blocks shared by the frame allocator and the virtual page
 allocator.  A block is a byte address and a number of pages.  The order of the
 list is significant to the code, never to its meaning: the meaning of a list is
 the set of pages it covers.
 */
module FreeList {
  import opened Wrappers

  const PAGE_SIZE: nat := 4096

  datatype Block = Block(start: nat, count: nat) {
    function End(): nat { start + count * PAGE_SIZE }

    function First(): nat { start / PAGE_SIZE }

    predicate Has(page: nat) { First() <= page < First() + count }

    /** Page aligned and not empty. */
    predicate Proper() { count > 0 && start % PAGE_SIZE == 0 }
  }

  /** No common page, and not even a common border. */
  predicate Apart(a: Block, b: Block) {
    a.End() < b.start || b.End() < a.start
  }

  predicate Disjoint(a: Block, b: Block) {
    a.End() <= b.start || b.End() <= a.start
  }

  predicate Inside(a: Block, b: Block) {
    b.start <= a.start && a.End() <= b.End()
  }

  /** The list invariant nobody wrote down: blocks never touch each other. */
  ghost predicate Canonical(free: seq<Block>) {
    && (forall i :: 0 <= i < |free| ==> free[i].Proper())
    && (forall i, j :: 0 <= i < j < |free| ==> Apart(free[i], free[j]))
  }

  lemma ProperBlock(free: seq<Block>, i: nat)
    requires Canonical(free) && i < |free|
    ensures free[i].Proper()
  {
  }

  ghost predicate Covered(free: seq<Block>, page: nat) {
    exists i :: 0 <= i < |free| && free[i].Has(page)
  }

  ghost predicate DisjointFrom(free: seq<Block>, r: Block) {
    forall i :: 0 <= i < |free| ==> Disjoint(free[i], r)
  }

  // ----- the set of pages a list covers -----

  predicate Between(first: nat, p: nat) { first <= p }

  ghost function Range(first: nat, count: nat): set<nat> {
    set p: nat | p < first + count && Between(first, p)
  }

  ghost function PageSet(free: seq<Block>): set<nat> {
    set i: nat, p: nat | i < |free| && p < free[i].First() + free[i].count && free[i].Has(p) :: p
  }

  lemma {:induction false} RangeSize(first: nat, count: nat)
    ensures |Range(first, count)| == count
  {
    if count > 0 {
      RangeSize(first, count - 1);
      assert Range(first, count) == Range(first, count - 1) + {first + count - 1};
    } else {
      assert Range(first, count) == {};
    }
  }

  lemma PageSetCovers(free: seq<Block>)
    ensures forall p: nat :: p in PageSet(free) <==> Covered(free, p)
  {
  }

  lemma PageSetPush(free: seq<Block>, b: Block)
    ensures PageSet(free + [b]) == PageSet(free) + Range(b.First(), b.count)
  {
    var more := free + [b];
    forall p: nat
      ensures p in PageSet(more) <==> p in PageSet(free) + Range(b.First(), b.count)
    {
      if p in Range(b.First(), b.count) {
        assert more[|free|].Has(p);
      }
      if p in PageSet(free) {
        var i :| 0 <= i < |free| && free[i].Has(p);
        assert more[i].Has(p);
      }
      PageSetCovers(more);
    }
  }

  /** Adding up the block sizes counts every free page exactly once. */
  method FreeCount(free: seq<Block>) returns (count: nat)
    requires Canonical(free)
    ensures count == |PageSet(free)|
  {
    count := 0;
    assert PageSet(free[..0]) == {};
    for i := 0 to |free|
      invariant count == |PageSet(free[..i])|
    {
      count := count + free[i].count;
      PrefixSize(free, i);
    }
    assert free[..|free|] == free;
  }

  lemma PrefixSize(free: seq<Block>, i: nat)
    requires Canonical(free) && i < |free|
    ensures |PageSet(free[..i + 1])| == |PageSet(free[..i])| + free[i].count
  {
    assert free[..i + 1] == free[..i] + [free[i]];
    PageSetPush(free[..i], free[i]);
    RangeSize(free[i].First(), free[i].count);
    forall p | p in PageSet(free[..i])
      ensures p !in Range(free[i].First(), free[i].count)
    {
      var k :| 0 <= k < i && free[..i][k].Has(p);
      assert Apart(free[k], free[i]);
    }
  }

  // ----- canonical lists are the maximal runs of free pages -----

  /** A stretch of free pages never runs across two blocks. */
  lemma RunInOneBlock(free: seq<Block>, first: nat, n: nat) returns (i: nat)
    requires Canonical(free) && n > 0
    requires forall p :: first <= p < first + n ==> Covered(free, p)
    ensures i < |free| && free[i].First() <= first && first + n <= free[i].First() + free[i].count
  {
    assert Covered(free, first);
    i :| 0 <= i < |free| && free[i].Has(first);
    BorderUncovered(free, i);
  }

  /** A stretch of covered pages with an uncovered page (or nothing) at each side. */
  ghost predicate MaximalRun(free: seq<Block>, first: nat, n: nat) {
    && n > 0
    && (forall p :: first <= p < first + n ==> Covered(free, p))
    && !Covered(free, first + n)
    && (first > 0 ==> !Covered(free, first - 1))
  }

  /** The blocks of a canonical list are exactly the maximal runs of free pages. */
  lemma BlocksAreMaximalRuns(free: seq<Block>, b: Block)
    requires Canonical(free)
    ensures b in free <==> b.Proper() && MaximalRun(free, b.First(), b.count)
  {
    if b in free {
      var i :| 0 <= i < |free| && free[i] == b;
      forall p | b.First() <= p < b.First() + b.count
        ensures Covered(free, p)
      {
        assert free[i].Has(p);
      }
      BorderUncovered(free, i);
    }
    if b.Proper() && MaximalRun(free, b.First(), b.count) {
      var i := RunInOneBlock(free, b.First(), b.count);
      assert !free[i].Has(b.First() + b.count);
      assert b.First() > 0 ==> !free[i].Has(b.First() - 1);
      assert free[i] == b;
    }
  }

  lemma BorderUncovered(free: seq<Block>, i: nat)
    requires Canonical(free) && i < |free|
    ensures !Covered(free, free[i].First() + free[i].count)
    ensures free[i].First() > 0 ==> !Covered(free, free[i].First() - 1)
  {
  }

  /** Equal coverage means the same blocks: the list is determined by the free pages. */
  lemma SamePagesSameBlocks(free: seq<Block>, other: seq<Block>, b: Block)
    requires Canonical(free) && Canonical(other)
    requires forall p: nat :: Covered(free, p) <==> Covered(other, p)
    ensures b in free <==> b in other
  {
    BlocksAreMaximalRuns(free, b);
    BlocksAreMaximalRuns(other, b);
  }

  // ----- freeing -----

  /** The union of a block and a range that touches it. */
  function Join(b: Block, r: Block): Block {
    if r.End() == b.start then Block(r.start, b.count + r.count) else Block(b.start, b.count + r.count)
  }

  predicate Touching(b: Block, r: Block) {
    r.End() == b.start || b.End() == r.start
  }

  /**
   What holds of the list while `merge` recurses.  Blocks already swallowed by the
   growing range are still listed; the others keep apart from each other and do
   not overlap the range.
   */
  ghost predicate MergeState(free: seq<Block>, r: Block) {
    && r.Proper()
    && (forall i :: 0 <= i < |free| ==> free[i].Proper() && (Inside(free[i], r) || Disjoint(free[i], r)))
    && (forall i, j :: 0 <= i < j < |free| && !Inside(free[i], r) && !Inside(free[j], r) ==> Apart(free[i], free[j]))
  }

  ghost function Outside(free: seq<Block>, r: Block): set<nat> {
    set i | 0 <= i < |free| && !Inside(free[i], r)
  }

  /**
   The outcome of a merge.  With no touching block the list is unchanged; with one the
   range joins it in place; with two, the later block receives everything and the
   earlier, stale one goes.  Nothing else in the list moves.
   */
  ghost predicate MergeOutcome(free: seq<Block>, r: Block, out: seq<Block>, merged: bool) {
    && (merged <==> exists i :: 0 <= i < |free| && Touching(free[i], r))
    && (!merged ==> out == free)
    && (merged ==> exists i: nat, j: nat :: i <= j < |free| && MergedInto(free, r, i, j, out))
  }

  /** `i` is the first and `j` the last block touching `r`. */
  ghost predicate MergedInto(free: seq<Block>, r: Block, i: nat, j: nat, out: seq<Block>)
    requires i <= j < |free|
  {
    && Touching(free[i], r) && Touching(free[j], r)
    && (forall k :: 0 <= k < |free| && k != i && k != j ==> !Touching(free[k], r))
    && out == if i == j then free[i := Join(free[i], r)]
              else RemoveAt(free[j := Join(free[j], Join(free[i], r))], i)
  }

  method Merge(free: seq<Block>, r: Block) returns (out: seq<Block>, merged: bool)
    requires MergeState(free, r)
    ensures MergeOutcome(free, r, out, merged)
    decreases |Outside(free, r)|
  {
    out := free;
    for i := 0 to |free|
      invariant out == free
      invariant forall k :: 0 <= k < i ==> !Touching(free[k], r)
    {
      var changed := false;
      if r.End() == out[i].start {
        out := out[i := Block(r.start, out[i].count + r.count)];
        changed := true;
      } else if out[i].End() == r.start {
        out := out[i := Block(out[i].start, out[i].count + r.count)];
        changed := true;
      }

      if changed {
        assert out == free[i := Join(free[i], r)];
        GrownState(free, r, i);
        var grown, again := Merge(out, out[i]);
        Unwind(free, r, i, grown, again);
        if again {
          out := RemoveAt(grown, i);
        } else {
          out := grown;
        }
        return out, true;
      }
    }
    merged := false;
  }

  /** Returning from the recursion: index `i` still holds the stale block, so dropping it is right. */
  lemma Unwind(free: seq<Block>, r: Block, i: nat, grown: seq<Block>, again: bool)
    requires MergeState(free, r) && i < |free| && Touching(free[i], r)
    requires forall k :: 0 <= k < i ==> !Touching(free[k], r)
    requires MergeOutcome(free[i := Join(free[i], r)], Join(free[i], r), grown, again)
    ensures again ==> i < |grown|
    ensures MergeOutcome(free, r, if again then RemoveAt(grown, i) else grown, true)
  {
    FewTouch(free, r, i);
    var big := Join(free[i], r);
    var list := free[i := big];
    if again {
      var j: nat, l: nat :| j <= l < |list| && MergedInto(list, big, j, l, grown);
      assert j == l && i < j && list[j] == free[j];
      assert grown == list[j := Join(free[j], big)];
      assert RemoveAt(grown, i) == RemoveAt(free[j := Join(free[j], big)], i);
      assert MergedInto(free, r, i, j, RemoveAt(grown, i));
    } else {
      assert MergedInto(free, r, i, i, grown);
    }
  }

  /** Joining one touching block keeps the state of the recursion and shrinks what is outside. */
  lemma GrownState(free: seq<Block>, r: Block, i: nat)
    requires MergeState(free, r) && i < |free| && Touching(free[i], r)
    ensures var j := Join(free[i], r);
            && MergeState(free[i := j], j)
            && Outside(free[i := j], j) < Outside(free, r)
            && |Outside(free[i := j], j)| < |Outside(free, r)|
  {
    var j := Join(free[i], r);
    var grown := free[i := j];
    forall k | 0 <= k < |free|
      ensures grown[k].Proper() && (Inside(grown[k], j) || Disjoint(grown[k], j))
      ensures Inside(free[k], r) ==> Inside(grown[k], j)
    {
      if k < i {
        assert Inside(free[k], r) || Apart(free[k], free[i]);
      } else if k > i {
        assert Inside(free[k], r) || Apart(free[i], free[k]);
      }
    }
    assert i in Outside(free, r) && i !in Outside(grown, j);
    StrictSubsetSize(Outside(grown, j), Outside(free, r));
  }

  lemma {:induction false} StrictSubsetSize(a: set<nat>, b: set<nat>)
    requires a < b
    ensures |a| < |b|
  {
    var x :| x in b && x !in a;
    SubsetSize(a, b - {x});
  }

  /**
   After joining block `i`, a block touches the grown range exactly if it touched the
   old one on the other side.  Hence at most one does.
   */
  lemma FewTouch(free: seq<Block>, r: Block, i: nat)
    requires MergeState(free, r) && i < |free| && Touching(free[i], r)
    ensures var j := Join(free[i], r);
            forall k :: 0 <= k < |free| ==>
              (Touching(free[i := j][k], j) <==> k != i && Touching(free[k], r))
    ensures forall k, l :: 0 <= k < l < |free| && k != i && l != i ==>
              !(Touching(free[k], r) && Touching(free[l], r))
  {
  }

  /** Freeing a range: merge it, or append it when nothing touches it. */
  method Release(free: seq<Block>, r: Block) returns (out: seq<Block>)
    requires Canonical(free) && r.Proper() && DisjointFrom(free, r)
    ensures Canonical(out)
    ensures PageSet(out) == PageSet(free) + Range(r.First(), r.count)
    ensures PageSet(free) !! Range(r.First(), r.count)
  {
    var merged;
    out, merged := Merge(free, r);
    if !merged {
      out := out + [r];
      PageSetPush(free, r);
    } else {
      ghost var i: nat, j: nat :| i <= j < |free| && MergedInto(free, r, i, j, out);
      if i == j {
        JoinedOnce(free, r, i, out);
      } else {
        JoinedTwice(free, r, i, j, out);
      }
    }
    NoCommonPage(free, r);
  }

  lemma NoCommonPage(free: seq<Block>, r: Block)
    requires Canonical(free) && r.Proper() && DisjointFrom(free, r)
    ensures PageSet(free) !! Range(r.First(), r.count)
  {
  }

  /** Taking block `i` out of the list and putting a block in its place. */
  lemma ReplaceCovers(free: seq<Block>, i: nat, b: Block)
    requires i < |free|
    ensures forall p: nat :: Covered(free[i := b], p) <==> b.Has(p) || Covered(RemoveAt(free, i), p)
    ensures forall p: nat :: Covered(free, p) <==> free[i].Has(p) || Covered(RemoveAt(free, i), p)
  {
    forall p: nat, c: Block
      ensures Covered(free[i := c], p) <==> c.Has(p) || Covered(RemoveAt(free, i), p)
    {
      ReplaceCovers1(free, i, c, p);
    }
    assert free[i := free[i]] == free;
  }

  lemma ReplaceCovers1(free: seq<Block>, i: nat, c: Block, p: nat)
    requires i < |free|
    ensures Covered(free[i := c], p) <==> c.Has(p) || Covered(RemoveAt(free, i), p)
  {
    var list, rest := free[i := c], RemoveAt(free, i);
    if Covered(list, p) && !c.Has(p) {
      var k :| 0 <= k < |list| && list[k].Has(p);
      assert rest[if k < i then k else k - 1].Has(p);
    }
    if c.Has(p) {
      assert list[i].Has(p);
    }
    if Covered(rest, p) {
      var k :| 0 <= k < |rest| && rest[k].Has(p);
      assert list[if k < i then k else k + 1].Has(p);
    }
  }

  lemma JoinHas(b: Block, r: Block)
    requires b.Proper() && r.Proper() && Touching(b, r) && Disjoint(b, r)
    ensures Join(b, r).Proper()
    ensures forall p :: Join(b, r).Has(p) <==> b.Has(p) || r.Has(p)
  {
  }

  lemma JoinedOnce(free: seq<Block>, r: Block, i: nat, out: seq<Block>)
    requires Canonical(free) && r.Proper() && DisjointFrom(free, r)
    requires i < |free| && MergedInto(free, r, i, i, out)
    ensures Canonical(out)
    ensures PageSet(out) == PageSet(free) + Range(r.First(), r.count)
  {
    JoinHas(free[i], r);
    forall k, l | 0 <= k < l < |out|
      ensures Apart(out[k], out[l])
    {
      assert Apart(free[k], free[l]);
    }
    ReplaceCovers(free, i, out[i]);
    PageSetCovers(out);
    PageSetCovers(free);
  }

  lemma JoinedTwice(free: seq<Block>, r: Block, i: nat, j: nat, out: seq<Block>)
    requires Canonical(free) && r.Proper() && DisjointFrom(free, r)
    requires i < j < |free| && MergedInto(free, r, i, j, out)
    ensures Canonical(out)
    ensures PageSet(out) == PageSet(free) + Range(r.First(), r.count)
  {
    JoinBoth(free[i], free[j], r);
    TwiceApart(free, r, i, j, out);
    TwiceCovers(free, r, i, j, out);
    PageSetCovers(out);
    PageSetCovers(free);
  }

  /** A range between two blocks that stay apart fills exactly the gap. */
  lemma JoinBoth(a: Block, b: Block, r: Block)
    requires a.Proper() && b.Proper() && r.Proper() && Apart(a, b)
    requires Touching(a, r) && Touching(b, r) && Disjoint(a, r) && Disjoint(b, r)
    ensures Join(b, Join(a, r)).Proper()
    ensures forall p :: Join(b, Join(a, r)).Has(p) <==> b.Has(p) || a.Has(p) || r.Has(p)
    ensures forall c: Block :: c.Proper() && Apart(c, a) && Apart(c, b) && Disjoint(c, r) ==>
      Apart(c, Join(b, Join(a, r)))
  {
  }

  lemma TwiceApart(free: seq<Block>, r: Block, i: nat, j: nat, out: seq<Block>)
    requires Canonical(free) && DisjointFrom(free, r) && i < j < |free|
    requires out == RemoveAt(free[j := Join(free[j], Join(free[i], r))], i)
    requires Join(free[j], Join(free[i], r)).Proper()
    requires forall c: Block :: c.Proper() && Apart(c, free[i]) && Apart(c, free[j]) && Disjoint(c, r) ==>
               Apart(c, Join(free[j], Join(free[i], r)))
    ensures Canonical(out)
  {
  }

  lemma TwiceCovers(free: seq<Block>, r: Block, i: nat, j: nat, out: seq<Block>)
    requires i < j < |free|
    requires out == RemoveAt(free[j := Join(free[j], Join(free[i], r))], i)
    requires forall p :: Join(free[j], Join(free[i], r)).Has(p) <==> free[j].Has(p) || free[i].Has(p) || r.Has(p)
    ensures forall p: nat :: Covered(out, p) <==> Covered(free, p) || r.Has(p)
  {
    forall p: nat
      ensures Covered(out, p) <==> Covered(free, p) || r.Has(p)
    {
      var all := Join(free[j], Join(free[i], r));
      assert out[j - 1] == all;
      if Covered(free, p) {
        var k :| 0 <= k < |free| && free[k].Has(p);
        assert out[if k == i || k == j then j - 1 else if k < i then k else k - 1].Has(p);
      }
      if Covered(out, p) {
        var k :| 0 <= k < |out| && out[k].Has(p);
        assert k != j - 1 ==> free[if k < i then k else k + 1].Has(p);
        assert k == j - 1 ==> r.Has(p) || free[i].Has(p) || free[j].Has(p);
      }
    }
  }

  /** Proper blocks with no page in common do not overlap as byte ranges either. */
  lemma PagesApart(free: seq<Block>, r: Block)
    requires Canonical(free) && r.Proper()
    requires PageSet(free) !! Range(r.First(), r.count)
    ensures DisjointFrom(free, r)
  {
    forall i | 0 <= i < |free|
      ensures Disjoint(free[i], r)
    {
      var p := if free[i].start < r.start then r.First() else free[i].First();
      assert free[i].Has(p) ==> p in PageSet(free);
      assert r.Has(p) ==> p in Range(r.First(), r.count);
    }
  }

  // ----- taking pages off a block -----

  /** Keep the lower part of block `i`: exactly the upper `n` pages leave the list. */
  lemma Shrink(free: seq<Block>, i: nat, n: nat)
    requires Canonical(free) && i < |free| && n < free[i].count
    ensures var out := free[i := Block(free[i].start, free[i].count - n)];
            && Canonical(out)
            && PageSet(out) == PageSet(free) - Range(free[i].First() + free[i].count - n, n)
  {
    var low := Block(free[i].start, free[i].count - n);
    var out := free[i := low];
    forall k, l | 0 <= k < l < |out|
      ensures Apart(out[k], out[l])
    {
      assert Apart(free[k], free[l]);
    }
    forall p: nat
      ensures p in PageSet(out) <==> p in PageSet(free) - Range(free[i].First() + free[i].count - n, n)
    {
      ReplaceCovers1(free, i, low, p);
      ReplaceCovers1(free, i, free[i], p);
      assert free[i := free[i]] == free;
      AloneInBlock(free, i, p);
      PageSetCovers(out);
      PageSetCovers(free);
    }
  }

  lemma AloneInBlock(free: seq<Block>, i: nat, p: nat)
    requires Canonical(free) && i < |free|
    ensures free[i].Has(p) ==> !Covered(RemoveAt(free, i), p)
  {
  }

  /** Drop block `i` altogether. */
  lemma Drop(free: seq<Block>, i: nat)
    requires Canonical(free) && i < |free|
    ensures Canonical(RemoveAt(free, i))
    ensures PageSet(RemoveAt(free, i)) == PageSet(free) - Range(free[i].First(), free[i].count)
  {
    var out := RemoveAt(free, i);
    forall k, l | 0 <= k < l < |out|
      ensures Apart(out[k], out[l])
    {
      assert Apart(free[if k < i then k else k + 1], free[if l < i then l else l + 1]);
    }
    forall p: nat
      ensures p in PageSet(out) <==> p in PageSet(free) - Range(free[i].First(), free[i].count)
    {
      ReplaceCovers1(free, i, free[i], p);
      assert free[i := free[i]] == free;
      AloneInBlock(free, i, p);
      PageSetCovers(out);
      PageSetCovers(free);
    }
  }

  /** Cut `n` pages off the top of block `i`, dropping the block when nothing is left. */
  method TakeTop(free: seq<Block>, i: nat, n: nat) returns (out: seq<Block>, page: nat)
    requires Canonical(free) && i < |free| && n <= free[i].count
    ensures Canonical(out)
    ensures page + n == free[i].First() + free[i].count
    ensures Range(page, n) <= PageSet(free)
    ensures PageSet(out) == PageSet(free) - Range(page, n)
  {
    var left := free[i].count - n;
    var address := free[i].start + left * PAGE_SIZE;
    page := address / PAGE_SIZE;
    TopOfBlock(free, i, n);
    if left == 0 {
      Drop(free, i);
      out := RemoveAt(free, i);
    } else {
      Shrink(free, i, n);
      out := free[i := Block(free[i].start, left)];
    }
  }

  /** `n` consecutive free pages. */
  ghost predicate FreeRun(free: seq<Block>, first: nat, n: nat) {
    forall p :: first <= p < first + n ==> Covered(free, p)
  }

  /** The top `n` pages of a block form a run of free pages. */
  lemma TopOfBlock(free: seq<Block>, i: nat, n: nat)
    requires i < |free| && n <= free[i].count
    ensures var first := free[i].First() + free[i].count - n;
            FreeRun(free, first, n) && Range(first, n) <= PageSet(free)
  {
    var first := free[i].First() + free[i].count - n;
    forall p | first <= p < first + n
      ensures Covered(free, p)
    {
      assert free[i].Has(p);
    }
    PageSetCovers(free);
  }

  lemma NoRun(free: seq<Block>, n: nat)
    requires Canonical(free)
    requires forall k :: 0 <= k < |free| ==> free[k].count < n
    ensures n > 0 ==> forall first: nat :: !FreeRun(free, first, n)
  {
    forall first: nat | n > 0
      ensures !FreeRun(free, first, n)
    {
      if FreeRun(free, first, n) {
        var i := RunInOneBlock(free, first, n);
        assert false;
      }
    }
  }

  /** `b` is a smallest block that can serve a request for `n` pages. */
  ghost predicate BestFit(free: seq<Block>, b: Block, n: nat) {
    && b in free && n <= b.count
    && forall c :: c in free && n <= c.count ==> b.count <= c.count
  }

}
