/**
  * Physical memory mapped into a context's grant area (kernel/src/syscall/driver.rs and the grants
  * of kernel/src/context/memory.rs), on top of the mapper.
  */
module Physmap {
  import opened Wrappers
  import opened FreeList
  import opened PageEntry
  import opened PageTables
  import opened Mapping

  /** The grant area; the stack area follows it. */
  const GRANT_START: nat := 0x100_0000_0000
  const GRANT_END: nat := 0x180_0000_0000
  /** Where canonical user addresses end. */
  const USER_END: nat := 0x8000_0000_0000
  /** The first entry of the root table that belongs to the kernel. */
  const KERNEL_PML4: nat := 256

  predicate InArea(page: nat) { GRANT_START / PAGE_SIZE <= page < GRANT_END / PAGE_SIZE }

  predicate UserPage(page: nat) { page < USER_END / PAGE_SIZE }

  lemma UserEntry(page: nat)
    requires UserPage(page)
    ensures MappablePage(page) && PathOf(page)[0] < KERNEL_PML4
  {
  }

  datatype Grant = Grant(start: nat, size: nat) {
    function End(): nat { start + size }

    function First(): nat { start / PAGE_SIZE }

    function Count(): nat { size / PAGE_SIZE }

    predicate Has(page: nat) { First() <= page < First() + Count() }
  }

  predicate GrantOk(g: Grant) {
    && g.start % PAGE_SIZE == 0 && g.size % PAGE_SIZE == 0 && g.size > 0
    && GRANT_START <= g.start && g.End() <= USER_END
  }

  /** Page-aligned, from the start of the area on, in order and apart. */
  predicate Sorted(gs: seq<Grant>) {
    && (forall i :: 0 <= i < |gs| ==> GrantOk(gs[i]))
    && forall i, j :: 0 <= i < j < |gs| ==> gs[i].End() <= gs[j].start
  }

  // ----- first fit -----

  /** Where a grant put before grant `i` would start. */
  function PrevEnd(gs: seq<Grant>, i: nat): nat
    requires i <= |gs|
  {
    if i == 0 then GRANT_START else gs[i - 1].End()
  }

  predicate FitsBefore(gs: seq<Grant>, full: nat, i: nat)
    requires i < |gs|
  {
    PrevEnd(gs, i) + full < gs[i].start
  }

  /** The first place with room to spare, or the end. */
  ghost predicate FirstFit(gs: seq<Grant>, full: nat, k: nat) {
    && k <= |gs| && (k < |gs| ==> FitsBefore(gs, full, k))
    && forall j :: 0 <= j < k ==> !FitsBefore(gs, full, j)
  }

  function InsertAt<T>(s: seq<T>, k: nat, x: T): seq<T>
    requires k <= |s|
  {
    s[..k] + [x] + s[k..]
  }

  lemma InsertSorted(gs: seq<Grant>, k: nat, g: Grant)
    requires Sorted(gs) && GrantOk(g) && k <= |gs| && PrevEnd(gs, k) <= g.start
    requires k < |gs| ==> g.End() <= gs[k].start
    ensures Sorted(InsertAt(gs, k, g))
  {
  }

  lemma RemoveSorted(gs: seq<Grant>, k: nat)
    requires Sorted(gs) && k < |gs|
    ensures Sorted(RemoveAt(gs, k))
  {
  }

  /** No page is in two grants. */
  lemma GrantsApart(gs: seq<Grant>, i: nat, j: nat, page: nat)
    requires Sorted(gs) && i < |gs| && j < |gs| && gs[i].Has(page) && gs[j].Has(page)
    ensures i == j
  {
  }

  // ----- what the tables hold for the grants -----

  /** The page table after mapping `n` consecutive pages to consecutive frames. */
  ghost function WithRun(pages: map<nat, Leaf>, first: nat, frame: nat, n: nat, flags: set<Flag>): map<nat, Leaf> {
    if n == 0 then pages
    else WithRun(pages, first, frame, n - 1, flags)[first + n - 1 := Leaf(frame + n - 1, flags + {PRESENT})]
  }

  lemma {:induction false} WithRunAt(pages: map<nat, Leaf>, first: nat, frame: nat, n: nat, flags: set<Flag>, page: nat)
    ensures var m := WithRun(pages, first, frame, n, flags);
      if first <= page < first + n then page in m && m[page] == Leaf(frame + (page - first), flags + {PRESENT})
      else if page in pages then page in m && m[page] == pages[page] else page !in m
  {
    if n > 0 {
      WithRunAt(pages, first, frame, n - 1, flags, page);
    }
  }

  /** Grant `g` maps the physical memory from `source` on. */
  ghost predicate Backed(pages: map<nat, Leaf>, g: Grant, source: nat) {
    && source % PAGE_SIZE == 0
    && forall page: nat :: g.Has(page) ==> page in pages && pages[page].frame == source / PAGE_SIZE + (page - g.First())
  }

  ghost predicate AllBacked(pages: map<nat, Leaf>, gs: seq<Grant>, sources: seq<nat>) {
    |gs| == |sources| && forall i :: 0 <= i < |gs| ==> Backed(pages, gs[i], sources[i])
  }

  predicate Granted(gs: seq<Grant>, page: nat) { exists i :: 0 <= i < |gs| && gs[i].Has(page) }

  /** In the grant area only grants are mapped. */
  ghost predicate OnlyGrants(pages: map<nat, Leaf>, gs: seq<Grant>) {
    forall page :: page in pages && InArea(page) ==> Granted(gs, page)
  }

  lemma GrantAdded(pages: map<nat, Leaf>, gs: seq<Grant>, sources: seq<nat>, k: nat, g: Grant, source: nat,
      flags: set<Flag>)
    requires Sorted(gs) && AllBacked(pages, gs, sources) && OnlyGrants(pages, gs)
    requires k <= |gs| && GrantOk(g) && Sorted(InsertAt(gs, k, g)) && source % PAGE_SIZE == 0
    ensures var after := WithRun(pages, g.First(), source / PAGE_SIZE, g.Count(), flags);
      AllBacked(after, InsertAt(gs, k, g), InsertAt(sources, k, source)) && OnlyGrants(after, InsertAt(gs, k, g))
  {
    hide WithRun, Sorted, GrantOk;
    var after := WithRun(pages, g.First(), source / PAGE_SIZE, g.Count(), flags);
    var more, from := InsertAt(gs, k, g), InsertAt(sources, k, source);
    assert more[k] == g;
    forall i | 0 <= i < |more| ensures Backed(after, more[i], from[i]) {
      forall page: nat | more[i].Has(page)
        ensures page in after && after[page].frame == from[i] / PAGE_SIZE + (page - more[i].First())
      {
        WithRunAt(pages, g.First(), source / PAGE_SIZE, g.Count(), flags, page);
        if i != k {
          if g.Has(page) {
            GrantsApart(more, i, k, page);
          }
          var j := if i < k then i else i - 1;
          assert more[i] == gs[j] && from[i] == sources[j] && Backed(pages, gs[j], sources[j]);
        }
      }
      assert from[i] % PAGE_SIZE == 0 by {
        if i != k {
          var j := if i < k then i else i - 1;
          assert from[i] == sources[j] && Backed(pages, gs[j], sources[j]);
        }
      }
    }
    forall page | page in after && InArea(page) ensures Granted(more, page) {
      WithRunAt(pages, g.First(), source / PAGE_SIZE, g.Count(), flags, page);
      if g.Has(page) {
        assert more[k].Has(page);
      } else {
        var i :| 0 <= i < |gs| && gs[i].Has(page);
        assert more[if i < k then i else i + 1].Has(page);
      }
    }
  }

  lemma GrantDropped(pages: map<nat, Leaf>, gs: seq<Grant>, sources: seq<nat>, k: nat)
    requires Sorted(gs) && AllBacked(pages, gs, sources) && OnlyGrants(pages, gs) && k < |gs|
    ensures var after := pages - Range(gs[k].First(), gs[k].Count());
      AllBacked(after, RemoveAt(gs, k), RemoveAt(sources, k)) && OnlyGrants(after, RemoveAt(gs, k))
  {
    hide Sorted;
    var after := pages - Range(gs[k].First(), gs[k].Count());
    var fewer, from := RemoveAt(gs, k), RemoveAt(sources, k);
    forall i | 0 <= i < |fewer| ensures Backed(after, fewer[i], from[i]) {
      var j := if i < k then i else i + 1;
      assert fewer[i] == gs[j] && from[i] == sources[j] && Backed(pages, gs[j], sources[j]);
      forall page: nat | gs[j].Has(page)
        ensures page in after && after[page].frame == sources[j] / PAGE_SIZE + (page - gs[j].First())
      {
        if gs[k].Has(page) {
          GrantsApart(gs, j, k, page);
        }
      }
    }
    forall page | page in after && InArea(page) ensures Granted(fewer, page) {
      var i :| 0 <= i < |gs| && gs[i].Has(page);
      assert fewer[if i < k then i else i - 1].Has(page);
    }
  }

  // ----- addresses -----

  function Translate(pages: map<nat, Leaf>, address: nat): Option<nat> {
    var page := address / PAGE_SIZE;
    if page in pages then Some(pages[page].frame * PAGE_SIZE + address % PAGE_SIZE) else None
  }

  /** Inside a grant, addresses translate byte for byte. */
  lemma WithinGrant(pages: map<nat, Leaf>, g: Grant, source: nat, address: nat)
    requires GrantOk(g) && Backed(pages, g, source) && g.start <= address < g.End()
    ensures Translate(pages, address) == Some(source + (address - g.start))
  {
  }

  function FromAddress(physical: nat): nat { physical / PAGE_SIZE * PAGE_SIZE }

  function FullSize(physical: nat, size: nat): nat {
    (physical - FromAddress(physical) + size + PAGE_SIZE - 1) / PAGE_SIZE * PAGE_SIZE
  }

  function EntryFlags(write: bool, combine: bool): set<Flag> {
    {PRESENT, NO_EXECUTE, USER_ACCESSIBLE} + (if write then {WRITABLE} else {}) + (if combine then {HUGE_PAGE} else {})
  }

  // ----- histories of calls -----

  /** Grants, the physical address each maps, and what the page tables say. */
  datatype Snap = Snap(grants: seq<Grant>, sources: seq<nat>, pages: map<nat, Leaf>)

  ghost predicate Good(s: Snap) {
    Sorted(s.grants) && AllBacked(s.pages, s.grants, s.sources) && OnlyGrants(s.pages, s.grants)
  }

  datatype Op = Map(physical: nat, size: nat, write: bool, combine: bool) | Unmap(address: nat)

  /** A lack of frames and a page already mapped are panics; the model ends where user addresses end. */
  datatype Outcome = Mapped(address: nat) | NoFrames | Clash | LeavesUser | Freed | Fault

  /** What a call returned, and the place in the list of the grant it put in or took out. */
  datatype Event = Event(outcome: Outcome, at: nat)

  function NewGrantAt(gs: seq<Grant>, at: nat, physical: nat, size: nat): Grant
    requires at <= |gs|
  {
    Grant(PrevEnd(gs, at), FullSize(physical, size))
  }

  ghost predicate NoneIn(pages: map<nat, Leaf>, first: nat, n: nat) {
    forall page :: first <= page < first + n ==> page !in pages
  }

  predicate AllUser(first: nat, n: nat) {
    forall page :: first <= page < first + n ==> UserPage(page)
  }

  /** No page of the grant is mapped. */
  ghost predicate Vacant(pages: map<nat, Leaf>, g: Grant) { NoneIn(pages, g.First(), g.Count()) }

  /** A call of `physmap` that returned. */
  ghost predicate MapOk(s: Snap, t: Snap, op: Op, e: Event)
    requires op.Map?
  {
    if op.size == 0 then e.outcome == Mapped(0) && t == s
    else
      && FirstFit(s.grants, FullSize(op.physical, op.size), e.at) && |s.sources| == |s.grants|
      && var g, from := NewGrantAt(s.grants, e.at, op.physical, op.size), FromAddress(op.physical);
         && e.outcome == Mapped(g.start + (op.physical - from)) && g.End() <= USER_END && Vacant(s.pages, g)
         && t.grants == InsertAt(s.grants, e.at, g) && t.sources == InsertAt(s.sources, e.at, from)
         && t.pages == WithRun(s.pages, g.First(), from / PAGE_SIZE, g.Count(), EntryFlags(op.write, op.combine))
  }

  /** One that did not, with `free` the frames left. */
  ghost predicate MapFails(s: Snap, op: Op, e: Event, free: set<nat>)
    requires op.Map?
  {
    && op.size > 0 && FirstFit(s.grants, FullSize(op.physical, op.size), e.at)
    && var g := NewGrantAt(s.grants, e.at, op.physical, op.size);
       match e.outcome
       case LeavesUser => g.End() > USER_END
       case NoFrames => g.End() <= USER_END && free == {}
       case Clash => g.End() <= USER_END && !Vacant(s.pages, g) && g.End() > 0x180_0000_0000
       case _ => false
  }

  ghost predicate UnmapOk(s: Snap, t: Snap, op: Op, e: Event)
    requires op.Unmap?
  {
    match e.outcome
    case Fault =>
      t == s && op.address != 0 && forall k :: 0 <= k < |s.grants| ==> !Covers(s.grants[k], op.address)
    case Freed =>
      if op.address == 0 then t == s
      else
        && e.at < |s.grants| == |s.sources| && Covers(s.grants[e.at], op.address)
        && t.grants == RemoveAt(s.grants, e.at) && t.sources == RemoveAt(s.sources, e.at)
        && t.pages == s.pages - Range(s.grants[e.at].First(), s.grants[e.at].Count())
    case _ => false
  }

  ghost predicate StepOk(s: Snap, t: Snap, op: Op, e: Event) {
    if op.Map? then MapOk(s, t, op, e) else UnmapOk(s, t, op, e)
  }

  /** Calls that all returned, with the states between them. */
  ghost predicate History(snaps: seq<Snap>, ops: seq<Op>, events: seq<Event>) {
    && |snaps| == |ops| + 1 == |events| + 1
    && forall i :: 0 <= i < |ops| ==> StepOk(snaps[i], snaps[i + 1], ops[i], events[i])
  }

  lemma MapKeeps(s: Snap, t: Snap, op: Op, e: Event)
    requires Good(s) && op.Map? && MapOk(s, t, op, e)
    ensures Good(t)
  {
    hide Sorted, AllBacked, OnlyGrants, WithRun, FullSize, FromAddress;
    if op.size > 0 {
      Offsets(op.physical, op.size);
      var g := NewGrantAt(s.grants, e.at, op.physical, op.size);
      NewGrant(s.grants, e.at, g);
      GrantAdded(s.pages, s.grants, s.sources, e.at, g, FromAddress(op.physical), EntryFlags(op.write, op.combine));
    }
  }

  lemma UnmapKeeps(s: Snap, t: Snap, op: Op, e: Event)
    requires Good(s) && op.Unmap? && UnmapOk(s, t, op, e)
    ensures Good(t)
  {
    hide Sorted, OnlyGrants;
    if e.outcome == Freed && op.address != 0 {
      GrantDropped(s.pages, s.grants, s.sources, e.at);
      RemoveSorted(s.grants, e.at);
    }
  }

  /** Over any history the grants stay sorted, aligned and disjoint, each backed by its physical memory. */
  lemma {:induction false} HistoryGood(snaps: seq<Snap>, ops: seq<Op>, events: seq<Event>, i: nat)
    requires History(snaps, ops, events) && Good(snaps[0]) && i < |snaps|
    ensures Good(snaps[i])
  {
    hide Good, MapOk, UnmapOk;
    if i > 0 {
      HistoryGood(snaps, ops, events, i - 1);
      assert StepOk(snaps[i - 1], snaps[i], ops[i - 1], events[i - 1]);
      if ops[i - 1].Map? {
        MapKeeps(snaps[i - 1], snaps[i], ops[i - 1], events[i - 1]);
      } else {
        UnmapKeeps(snaps[i - 1], snaps[i], ops[i - 1], events[i - 1]);
      }
    }
  }

  /**
   What the first `n` calls handed out, as (virtual, physical, size), without what shares a grant
   with an address that was unmapped afterwards.
   */
  ghost function LiveAfter(snaps: seq<Snap>, ops: seq<Op>, events: seq<Event>, n: nat): set<(nat, nat, nat)>
    requires n <= |ops| && |snaps| == |ops| + 1 == |events| + 1
  {
    if n == 0 then {}
    else
      var before := LiveAfter(snaps, ops, events, n - 1);
      match ops[n - 1]
      case Map(physical, size, _, _) =>
        var outcome := events[n - 1].outcome;
        if outcome.Mapped? && size > 0 then before + {(outcome.address, physical, size)} else before
      case Unmap(address) => set m | m in before && !Shared(snaps[n - 1].grants, m.0, address)
  }

  lemma {:induction false} HistoryLive(snaps: seq<Snap>, ops: seq<Op>, events: seq<Event>, n: nat, m: (nat, nat, nat))
    requires History(snaps, ops, events) && n <= |ops| && m in LiveAfter(snaps, ops, events, n)
    ensures Live(snaps[n].grants, snaps[n].sources, m.0, m.1, m.2)
  {
    hide Live, WithRun, FullSize, FromAddress, Vacant, Shared;
    var s, op, e := snaps[n - 1], ops[n - 1], events[n - 1];
    assert StepOk(s, snaps[n], op, e);
    if m in LiveAfter(snaps, ops, events, n - 1) {
      HistoryLive(snaps, ops, events, n - 1, m);
      if op.Map? && op.size > 0 {
        var g := NewGrantAt(s.grants, e.at, op.physical, op.size);
        LiveInsert(s.grants, s.sources, e.at, g, FromAddress(op.physical));
      } else if op.Unmap? && e.outcome == Freed && op.address != 0 {
        LiveRemove(s.grants, s.sources, e.at, op.address);
      }
    } else {
      LiveAt(snaps[n].grants, snaps[n].sources, e.at, m.0, m.1, m.2);
    }
  }

  /**
   Over any history, every byte of every mapping that was handed out and not unmapped translates to
   its physical byte.
   */
  lemma HistoryTranslates(snaps: seq<Snap>, ops: seq<Op>, events: seq<Event>, n: nat, m: (nat, nat, nat), x: nat)
    requires History(snaps, ops, events) && Good(snaps[0]) && n <= |ops| && m in LiveAfter(snaps, ops, events, n)
    requires x < m.2
    ensures Translate(snaps[n].pages, m.0 + x) == Some(m.1 + x)
  {
    hide OnlyGrants, StepOk;
    HistoryGood(snaps, ops, events, n);
    HistoryLive(snaps, ops, events, n, m);
    var s := snaps[n];
    var i :| 0 <= i < |s.grants| && LiveIn(s.grants, s.sources, i, m.0, m.1, m.2);
    assert Backed(s.pages, s.grants[i], s.sources[i]) && GrantOk(s.grants[i]);
    WithinGrant(s.pages, s.grants[i], s.sources[i], m.0 + x);
  }

  /** Mapping and then unmapping any address of the new mapping puts everything back. */
  lemma Undone(s: Snap, t: Snap, u: Snap, op: Op, e: Event, x: nat, f: Event)
    requires Good(s) && op.Map? && x < op.size && MapOk(s, t, op, e)
    requires UnmapOk(t, u, Unmap(e.outcome.address + x), f)
    ensures f.outcome == Freed && u == s
  {
    hide Sorted, AllBacked, OnlyGrants, WithRun, FullSize, FromAddress, NoneIn, Range;
    MapKeeps(s, t, op, e);
    Offsets(op.physical, op.size);
    var g := NewGrantAt(s.grants, e.at, op.physical, op.size);
    NewGrant(s.grants, e.at, g);
    assert t.grants[e.at] == g && Covers(g, e.outcome.address + x);
    OnlyOneCovers(t.grants, e.at, e.outcome.address + x);
    BackAgain(s.pages, g.First(), FromAddress(op.physical) / PAGE_SIZE, g.Count(), EntryFlags(op.write, op.combine));
    assert RemoveAt(t.grants, e.at) == s.grants && RemoveAt(t.sources, e.at) == s.sources;
  }

  predicate ByteIn(b: nat, page: nat) { b / 4096 == page }

  /** Some of the `size` bytes from `address` on lie in the page. */
  ghost predicate Touches(address: nat, size: nat, page: nat) {
    exists b :: address <= b < address + size && ByteIn(b, page)
  }

  /**
   A mapping adds exactly the pages that hold a byte it was asked for, each backed by the frame that holds
   the physical byte, readable by users, never executable and writable exactly on demand. The first one goes
   to the start of the grant area.
   */
  lemma MapsExactlyWhatWasAsked(s: Snap, t: Snap, op: Op, e: Event, page: nat)
    requires Good(s) && op.Map? && op.size > 0 && MapOk(s, t, op, e)
    ensures var a := e.outcome.address;
            && a % 4096 == op.physical % 4096 && (s.grants == [] ==> a == 0x100_0000_0000 + op.physical % 4096)
            && (page in t.pages <==> page in s.pages || Touches(a, op.size, page))
            && (page in s.pages ==> !Touches(a, op.size, page) && t.pages[page] == s.pages[page])
    ensures forall b :: e.outcome.address <= b < e.outcome.address + op.size && ByteIn(b, page) ==>
              && t.pages[page].frame == (op.physical + (b - e.outcome.address)) / 4096
              && t.pages[page].flags ==
                 {PRESENT, USER_ACCESSIBLE, NO_EXECUTE} + (if op.write then {WRITABLE} else {})
                 + (if op.combine then {HUGE_PAGE} else {})
  {
    hide Sorted, AllBacked, OnlyGrants, WithRun, Range;
    var g, from := NewGrantAt(s.grants, e.at, op.physical, op.size), FromAddress(op.physical);
    AlignedEnd(s.grants, e.at);
    WithRunAt(s.pages, g.First(), from / PAGE_SIZE, g.Count(), EntryFlags(op.write, op.combine), page);
    PagesTouched(g.start, op.physical, op.size, page);
  }

  lemma PagesTouched(start: nat, physical: nat, size: nat, page: nat)
    requires start % 4096 == 0 && size > 0
    ensures var offset := physical % 4096;
            Grant(start, FullSize(physical, size)).Has(page) <==> Touches(start + offset, size, page)
    ensures forall b :: start + physical % 4096 <= b && ByteIn(b, page) ==>
              (physical + (b - start - physical % 4096)) / 4096 == FromAddress(physical) / 4096 + (page - start / 4096)
  {
    var a := start + physical % 4096;
    if Grant(start, FullSize(physical, size)).Has(page) {
      var b := if page == start / 4096 then a else page * 4096;
      assert ByteIn(b, page);
    }
  }

  // ----- the calls -----

  /** A context's grants and its page tables. */
  class Space {
    const mapper: Mapper
    var grants: seq<Grant>
    /** The physical address each grant maps. */
    ghost var sources: seq<nat>

    ghost function Now(): Snap
      reads this, mapper
    {
      Snap(grants, sources, Table())
    }

    ghost function Table(): map<nat, Leaf>
      reads mapper
    {
      Pages(mapper.mem, mapper.root)
    }

    /** Only entries of the kernel were set directly in the root. */
    ghost predicate MapperOk()
      reads mapper
    {
      mapper.Valid() && forall i :: i in mapper.direct ==> KERNEL_PML4 <= i
    }

    ghost predicate Valid()
      reads this, mapper
    {
      MapperOk() && Good(Now())
    }

    constructor (m: Mapper)
      requires m.Valid() && forall i :: i in m.direct ==> KERNEL_PML4 <= i
      requires forall page :: page in Pages(m.mem, m.root) ==> !InArea(page)
      ensures Valid() && mapper == m && grants == [] && fresh(this)
    {
      mapper := m;
      grants := [];
      sources := [];
    }

    /** Map `n` pages from `first` on to the frames from `frame` on. */
    method MapRun(first: nat, frame: nat, n: nat, flags: set<Flag>) returns (r: MapResult)
      requires MapperOk() && AllUser(first, n)
      modifies mapper
      ensures MapperOk()
      ensures r.Done? ==> Table() == WithRun(old(Table()), first, frame, n, flags) && NoneIn(old(Table()), first, n)
      ensures r.AlreadyMapped? ==> !NoneIn(old(Table()), first, n)
      ensures r.OutOfFrames? ==> mapper.free == {}
    {
      hide Pages, Mapper.Valid, WithRun, MappablePage, PathOf, NoneIn, AllUser;
      var i := 0;
      EmptyRun(Table(), first, frame, flags);
      while i < n
        invariant 0 <= i <= n && MapperOk()
        invariant Table() == WithRun(old(Table()), first, frame, i, flags) && NoneIn(old(Table()), first, i)
      {
        NextInRun(old(Table()), first, i, n);
        WithRunAt(old(Table()), first, frame, i, flags, first + i);
        r := mapper.MapTo(first + i, frame + i, flags);
        if r != Done {
          return;
        }
        OneMore(old(Table()), first, frame, i, flags);
        i := i + 1;
      }
      r := Done;
    }

    /** Unmap `n` mapped pages from `first` on. */
    method UnmapRun(first: nat, n: nat)
      requires MapperOk()
      requires forall page :: first <= page < first + n ==> UserPage(page) && page in Table()
      modifies mapper
      ensures MapperOk() && Table() == old(Table()) - Range(first, n)
    {
      hide Pages, Mapper.Valid, MappablePage, PathOf, EmptiesP3;
      var i := 0;
      while i < n
        invariant 0 <= i <= n && MapperOk()
        invariant Table() == old(Table()) - Range(first, i)
      {
        UserEntry(first + i);
        var r := mapper.UnmapReturn(first + i, false);
        assert r.Unmapped?;
        assert Range(first, i + 1) == Range(first, i) + {first + i};
        i := i + 1;
      }
    }

    method Physmap(physical: nat, size: nat, write: bool, combine: bool) returns (r: Outcome, ghost at: nat)
      requires Valid()
      modifies this, mapper
      ensures r.Mapped? ==> Valid() && MapOk(old(Now()), Now(), Map(physical, size, write, combine), Event(r, at))
      ensures !r.Mapped? ==> MapFails(old(Now()), Map(physical, size, write, combine), Event(r, at), mapper.free)
      ensures r.LeavesUser? ==> Valid() && Now() == old(Now())
    {
      hide Pages, Mapper.Valid, WithRun, Sorted, Backed, OnlyGrants, FirstFit;
      if size == 0 {
        return Mapped(0), 0;
      }
      var from, full := FromAddress(physical), FullSize(physical, size);
      var k, to := FindPlace(full);
      at := k;
      var g := Grant(to, full);
      if to + full > USER_END {
        r := LeavesUser;
        return;
      }
      ghost var before := Now();
      Offsets(physical, size);
      NewGrant(grants, k, g);
      UserPages(g);
      var done := MapRun(g.First(), from / PAGE_SIZE, g.Count(), EntryFlags(write, combine));
      if done.AlreadyMapped? {
        ClashOutside(before.pages, grants, k, g);
        r := Clash;
        return;
      } else if done.OutOfFrames? {
        r := NoFrames;
        return;
      }
      grants := InsertAt(grants, k, g);
      sources := InsertAt(sources, k, from);
      r := Mapped(to + (physical - from));
      MapKeeps(before, Now(), Map(physical, size, write, combine), Event(r, at));
    }

    method FindPlace(full: nat) returns (k: nat, to: nat)
      requires Sorted(grants)
      ensures FirstFit(grants, full, k) && to == PrevEnd(grants, k)
    {
      to := GRANT_START;
      k := 0;
      while k < |grants|
        invariant k <= |grants| && to == PrevEnd(grants, k)
        invariant forall j :: 0 <= j < k ==> !FitsBefore(grants, full, j)
      {
        if to + full < grants[k].start {
          return;
        }
        assert GrantOk(grants[k]);
        to := grants[k].start + (grants[k].size + PAGE_SIZE - 1) / PAGE_SIZE * PAGE_SIZE;
        k := k + 1;
      }
    }

    method Physunmap(address: nat) returns (r: Outcome, ghost at: nat)
      requires Valid()
      modifies this, mapper
      ensures Valid() && UnmapOk(old(Now()), Now(), Unmap(address), Event(r, at))
    {
      hide Pages, Mapper.Valid, OnlyGrants;
      at := 0;
      r := Freed;
      if address == 0 {
        return;
      }
      ghost var before := Now();
      var k := 0;
      while k < |grants|
        invariant 0 <= k <= |grants| && Valid() && Now() == before
        invariant forall j :: 0 <= j < k ==> !Covers(grants[j], address)
      {
        if Covers(grants[k], address) {
          var g := grants[k];
          assert GrantOk(g) && Backed(Table(), g, sources[k]);
          UserPages(g);
          UnmapRun(g.First(), g.Count());
          grants := RemoveAt(grants, k);
          sources := RemoveAt(sources, k);
          at := k;
          UnmapKeeps(before, Now(), Unmap(address), Event(r, at));
          return;
        }
        k := k + 1;
      }
      r := Fault;
    }

    /** Any run of calls is a history, up to a call of `physmap` that fails. */
    method Run(ops: seq<Op>) returns (done: nat, ghost snaps: seq<Snap>, ghost events: seq<Event>)
      requires Valid()
      modifies this, mapper
      ensures done <= |ops| && |events| >= done && History(snaps, ops[..done], events[..done]) && snaps[0] == old(Now())
      ensures done == |ops| ==> Valid() && snaps[done] == Now()
      ensures done < |ops| ==>
        ops[done].Map? && |events| == done + 1 && MapFails(snaps[done], ops[done], events[done], mapper.free)
    {
      hide Pages, Mapper.Valid, Good, MapOk, UnmapOk, MapFails;
      done, snaps, events := 0, [Now()], [];
      while done < |ops|
        invariant 0 <= done <= |ops| && Valid() && |events| == done
        invariant History(snaps, ops[..done], events) && snaps[0] == old(Now()) && snaps[done] == Now()
      {
        ghost var at;
        var r;
        ghost var s := Now();
        match ops[done] {
          case Map(physical, size, write, combine) =>
            r, at := Physmap(physical, size, write, combine);
            if !r.Mapped? {
              ghost var so := events;
              events := events + [Event(r, at)];
              assert events[..done] == so;
              return;
            }
          case Unmap(address) =>
            r, at := Physunmap(address);
        }
        Longer(snaps, ops[..done], events, Now(), ops[done], Event(r, at));
        assert ops[..done + 1] == ops[..done] + [ops[done]];
        snaps, events := snaps + [Now()], events + [Event(r, at)];
        done := done + 1;
      }
      assert events[..done] == events;
    }

    /** Any address, those of the recursive slot included. */
    method VirtToPhys(address: nat) returns (r: Option<nat>)
      requires Valid()
      ensures var frame := FrameOf(Lookup(mapper.mem, mapper.root, PathOf(address / PAGE_SIZE)));
        r == if frame.Some? then Some(frame.value * PAGE_SIZE + address % PAGE_SIZE) else None
      ensures MappablePage(address / PAGE_SIZE) ==> r == Translate(Table(), address)
    {
      hide Pages, Mapper.Valid, MappablePage, PathOf, Lookup;
      var frame := mapper.TranslatePage(address / PAGE_SIZE);
      match frame {
        case None => r := None;
        case Some(f) => r := Some(f * PAGE_SIZE + address % PAGE_SIZE);
      }
    }
  }

  lemma Longer(snaps: seq<Snap>, ops: seq<Op>, events: seq<Event>, t: Snap, op: Op, e: Event)
    requires History(snaps, ops, events) && StepOk(snaps[|ops|], t, op, e)
    ensures History(snaps + [t], ops + [op], events + [e])
  {
    hide StepOk;
  }

  /** Grant `i` maps the `s` bytes at `a` to the physical bytes at `p`. */
  predicate LiveIn(gs: seq<Grant>, from: seq<nat>, i: nat, a: nat, p: nat, s: nat)
    requires i < |gs|
  {
    i < |from| && s > 0 && gs[i].start <= a && a + s <= gs[i].End() && p == from[i] + (a - gs[i].start)
  }

  /** A mapping handed out and not unmapped since. */
  ghost predicate Live(gs: seq<Grant>, from: seq<nat>, a: nat, p: nat, s: nat) {
    exists i :: 0 <= i < |gs| && LiveIn(gs, from, i, a, p, s)
  }

  predicate Shared(gs: seq<Grant>, a: nat, b: nat) {
    exists i :: 0 <= i < |gs| && Covers(gs[i], a) && Covers(gs[i], b)
  }

  lemma LiveAt(gs: seq<Grant>, from: seq<nat>, k: nat, a: nat, physical: nat, size: nat)
    requires k < |gs| == |from| && size > 0 && gs[k].size == FullSize(physical, size)
    requires from[k] == FromAddress(physical) && a == gs[k].start + (physical - FromAddress(physical))
    ensures Live(gs, from, a, physical, size)
  {
    assert LiveIn(gs, from, k, a, physical, size);
  }

  lemma LiveInsert(gs: seq<Grant>, from: seq<nat>, k: nat, g: Grant, source: nat)
    requires k <= |gs| == |from|
    ensures forall a, p, s :: Live(gs, from, a, p, s) ==> Live(InsertAt(gs, k, g), InsertAt(from, k, source), a, p, s)
  {
    forall a, p, s | Live(gs, from, a, p, s) ensures Live(InsertAt(gs, k, g), InsertAt(from, k, source), a, p, s) {
      var i :| 0 <= i < |gs| && LiveIn(gs, from, i, a, p, s);
      assert LiveIn(InsertAt(gs, k, g), InsertAt(from, k, source), if i < k then i else i + 1, a, p, s);
    }
  }

  lemma LiveRemove(gs: seq<Grant>, from: seq<nat>, k: nat, address: nat)
    requires k < |gs| == |from| && Covers(gs[k], address)
    ensures forall a, p, s :: Live(gs, from, a, p, s) && !Shared(gs, a, address) ==>
      Live(RemoveAt(gs, k), RemoveAt(from, k), a, p, s)
  {
    forall a, p, s | Live(gs, from, a, p, s) && !Shared(gs, a, address)
      ensures Live(RemoveAt(gs, k), RemoveAt(from, k), a, p, s)
    {
      var i :| 0 <= i < |gs| && LiveIn(gs, from, i, a, p, s);
      assert Covers(gs[i], a) && i != k;
      assert LiveIn(RemoveAt(gs, k), RemoveAt(from, k), if i < k then i else i - 1, a, p, s);
    }
  }

  lemma Offsets(physical: nat, size: nat)
    requires size > 0
    ensures FullSize(physical, size) % PAGE_SIZE == 0 && FromAddress(physical) % PAGE_SIZE == 0
    ensures 0 <= physical - FromAddress(physical) && physical - FromAddress(physical) + size <= FullSize(physical, size)
  {
  }

  lemma OnlyOneCovers(gs: seq<Grant>, k: nat, address: nat)
    requires Sorted(gs) && k < |gs| && Covers(gs[k], address)
    ensures forall j :: 0 <= j < |gs| && Covers(gs[j], address) ==> j == k
  {
  }

  lemma BackAgain(pages: map<nat, Leaf>, first: nat, frame: nat, n: nat, flags: set<Flag>)
    requires NoneIn(pages, first, n)
    ensures WithRun(pages, first, frame, n, flags) - Range(first, n) == pages
  {
  }

  predicate Covers(g: Grant, address: nat) { g.start <= address < g.End() }

  lemma UserPages(g: Grant)
    requires GrantOk(g)
    ensures AllUser(g.First(), g.Count())
  {
  }

  lemma EmptyRun(pages: map<nat, Leaf>, first: nat, frame: nat, flags: set<Flag>)
    ensures WithRun(pages, first, frame, 0, flags) == pages && NoneIn(pages, first, 0)
  {
  }

  lemma NextInRun(pages: map<nat, Leaf>, first: nat, i: nat, n: nat)
    requires AllUser(first, n) && i < n && NoneIn(pages, first, i)
    ensures MappablePage(first + i) && (first + i in pages ==> !NoneIn(pages, first, n))
    ensures first + i !in pages ==> NoneIn(pages, first, i + 1)
  {
    UserEntry(first + i);
  }

  lemma OneMore(pages: map<nat, Leaf>, first: nat, frame: nat, n: nat, flags: set<Flag>)
    ensures WithRun(pages, first, frame, n + 1, flags) ==
      WithRun(pages, first, frame, n, flags)[first + n := Leaf(frame + n, flags + {PRESENT})]
  {
  }

  lemma NewGrant(gs: seq<Grant>, k: nat, g: Grant)
    requires Sorted(gs) && FirstFit(gs, g.size, k) && g.start == PrevEnd(gs, k)
    requires g.size > 0 && g.size % PAGE_SIZE == 0 && g.End() <= USER_END
    ensures GrantOk(g) && Sorted(InsertAt(gs, k, g))
  {
    hide Sorted;
    AlignedEnd(gs, k);
    InsertSorted(gs, k, g);
  }

  /** A gap of exactly the wanted size would take the grant, and is passed over. */
  lemma ExactGapPassedOver(gs: seq<Grant>, full: nat, i: nat, k: nat)
    requires Sorted(gs) && full > 0 && full % PAGE_SIZE == 0 && FirstFit(gs, full, k)
    requires i < |gs| && PrevEnd(gs, i) + full == gs[i].start
    ensures Sorted(InsertAt(gs, i, Grant(PrevEnd(gs, i), full))) && k != i
  {
    AlignedEnd(gs, i);
    assert GrantOk(gs[i]);
    InsertSorted(gs, i, Grant(PrevEnd(gs, i), full));
  }

  /** It happens for every size: the grant goes to the end, behind the one that leaves the gap. */
  lemma ExactGap(full: nat) returns (gs: seq<Grant>)
    requires full % PAGE_SIZE == 0 && full < USER_END - GRANT_START - PAGE_SIZE
    ensures Sorted(gs) && |gs| == 1 && PrevEnd(gs, 0) + full == gs[0].start && FirstFit(gs, full, 1)
  {
    gs := [Grant(GRANT_START + full, PAGE_SIZE)];
  }

  lemma AlignedEnd(gs: seq<Grant>, k: nat)
    requires Sorted(gs) && k <= |gs|
    ensures PrevEnd(gs, k) % PAGE_SIZE == 0 && GRANT_START <= PrevEnd(gs, k)
  {
  }

  /** In the grant area the pages of a grant that fits among the others are free. */
  lemma ClashOutside(pages: map<nat, Leaf>, gs: seq<Grant>, k: nat, g: Grant)
    requires k <= |gs| && GrantOk(g) && Sorted(InsertAt(gs, k, g)) && OnlyGrants(pages, gs)
    requires !Vacant(pages, g)
    ensures g.End() > GRANT_END
  {
    hide Sorted;
    var page :| g.First() <= page < g.First() + g.Count() && page in pages;
    if InArea(page) {
      var more := InsertAt(gs, k, g);
      assert Granted(gs, page);
      var i :| 0 <= i < |gs| && gs[i].Has(page);
      assert more[k] == g && more[if i < k then i else i + 1] == gs[i];
      GrantsApart(more, k, if i < k then i else i + 1, page);
    }
  }
}
