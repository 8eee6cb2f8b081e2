/**
 The mapper (kernel/src/arch/x86_64/paging/mapper.rs) over the tables of one address
 space.  Table frames come from and return to the frame allocator, of which the mapper
 needs only that it never hands out a frame that is still in use.
 */
module Mapping {
  import opened Wrappers
  import opened PageEntry
  import opened PageTables

  // ----- pages -----

  const PAGE_NUMBERS: nat := 0x10_0000_0000_0000

  /** The page numbers of canonical addresses: bits 47 to 63 of the address are equal. */
  predicate CanonicalPage(page: nat) {
    page < 0x8_0000_0000 || PAGE_NUMBERS - 0x8_0000_0000 <= page < PAGE_NUMBERS
  }

  /** `p4_index`, `p3_index`, `p2_index` and `p1_index`. */
  function PathOf(page: nat): (path: Path)
    ensures |path| == 4 && forall k :: 0 <= k < 4 ==> path[k] < ENTRY_COUNT
  {
    [(page / 0x800_0000) % 512, (page / 0x4_0000) % 512, (page / 0x200) % 512, page % 512]
  }

  /** A canonical page outside the recursive slot. */
  predicate MappablePage(page: nat) {
    CanonicalPage(page) && PathOf(page)[0] != RECURSIVE_PML4
  }

  lemma PathGood(page: nat)
    requires MappablePage(page)
    ensures GoodPath(PathOf(page)) && |PathOf(page)| == 4
  {
  }

  lemma Digits(n: nat)
    ensures n / 0x4_0000 == (n / 0x200) / 0x200
    ensures n / 0x800_0000 == (n / 0x4_0000) / 0x200
    ensures n / 0x10_0000_0000 == (n / 0x800_0000) / 0x200
  {
  }

  /** The low 36 bits of a page number are its four indices. */
  lemma LowBits(n: nat)
    ensures n == (n / 0x10_0000_0000) * 0x10_0000_0000
                 + PathOf(n)[0] * 0x800_0000 + PathOf(n)[1] * 0x4_0000 + PathOf(n)[2] * 0x200 + PathOf(n)[3]
  {
    Digits(n);
    var a := n / 0x200;
    var b := n / 0x4_0000;
    var c := n / 0x800_0000;
    var d := n / 0x10_0000_0000;
    assert n == a * 0x200 + n % 512;
    assert a == b * 0x200 + a % 512;
    assert b == c * 0x200 + b % 512;
    assert c == d * 0x200 + c % 512;
  }

  /** The four indices determine a canonical page. */
  lemma PathInjective(a: nat, b: nat)
    requires CanonicalPage(a) && CanonicalPage(b) && PathOf(a) == PathOf(b)
    ensures a == b
  {
    LowBits(a);
    LowBits(b);
    var pa, pb := PathOf(a), PathOf(b);
    hide PathOf;
    assert pa[0] == pb[0] && pa[1] == pb[1] && pa[2] == pb[2] && pa[3] == pb[3];
    assert a - b == (a / 0x10_0000_0000 - b / 0x10_0000_0000) * 0x10_0000_0000;
  }

  /** The page with the given indices. */
  function PageOf(path: Path): nat
    requires |path| == 4
  {
    (if path[0] < 256 then 0 else PAGE_NUMBERS - 0x10_0000_0000)
    + path[0] * 0x800_0000 + path[1] * 0x4_0000 + path[2] * 0x200 + path[3]
  }

  /** Every four indices outside the recursive slot are those of a page. */
  lemma PathOnto(path: Path)
    requires |path| == 4 && GoodPath(path)
    ensures MappablePage(PageOf(path)) && PathOf(PageOf(path)) == path
  {
    var top := if path[0] < 256 then 0 else 0xffff;
    var x1 := top * 512 + path[0];
    var x2 := x1 * 512 + path[1];
    var x3 := x2 * 512 + path[2];
    var n := PageOf(path);
    assert n == x3 * 512 + path[3];
    Digit(x3, path[3]);
    Digit(x2, path[2]);
    Digit(x1, path[1]);
    Digit(top, path[0]);
    Digits(n);
  }

  lemma Digit(q: nat, r: nat)
    requires r < 512
    ensures (q * 512 + r) / 512 == q && (q * 512 + r) % 512 == r
  {
  }

  // ----- counting -----

  /** The counter tells the number of entries in use, leaving out those in `skip`. */
  ghost predicate CountOk(t: Table, skip: set<nat>) {
    |t| == ENTRY_COUNT && EntryCount(t) == |Used(t) - skip|
  }

  lemma CountOccupy(t: Table, i: nat, frame: nat, flags: set<Flag>, skip: set<nat>)
    requires CountOk(t, skip) && i < ENTRY_COUNT && t[i].IsUnused() && flags != {} && i !in skip
    ensures CountOk(Occupy(t, i, frame, flags), skip)
  {
    OccupyEffect(t, i, frame, flags);
    hide Used;
    assert Used(t) + {i} - skip == (Used(t) - skip) + {i};
  }

  lemma CountVacate(t: Table, i: nat, skip: set<nat>)
    requires CountOk(t, skip) && i < ENTRY_COUNT && !t[i].IsUnused() && i !in skip
    ensures EntryCount(t) > 0 && CountOk(Vacate(t, i), skip)
  {
    assert i in Used(t) - skip;
    VacateEffect(t, i);
    hide Used;
    assert Used(t) - {i} - skip == (Used(t) - skip) - {i};
  }

  /**
   An entry that was set directly was never counted. Removing it takes one off a count of the
   other entries: that underflows exactly when there are no others, and is wrong when there are.
   */
  lemma DirectEntryMiscounts(t: Table, i: nat, skip: set<nat>)
    requires CountOk(t, skip) && i < ENTRY_COUNT && !t[i].IsUnused() && i in skip
    ensures EntryCount(t) == 0 <==> Used(t) <= skip
    ensures EntryCount(t) > 0 ==> !CountOk(Vacate(t, i), skip) && !CountOk(Vacate(t, i), skip - {i})
  {
    assert Used(t) - skip == {} <==> Used(t) <= skip;
    if EntryCount(t) > 0 {
      VacateEffect(t, i);
      hide Used;
      assert Used(t) - {i} - skip == Used(t) - skip;
      assert Used(t) - {i} - (skip - {i}) == Used(t) - skip;
    }
  }

  lemma EmptyExactly(t: Table)
    requires CountOk(t, {})
    ensures EntryCount(t) == 0 <==> AllUnused(t)
    ensures EntryCount(t) == 0 <==> Used(t) == {}
  {
    assert Used(t) - {} == Used(t);
    if i: nat :| i < |t| && !t[i].IsUnused() {
      assert i in Used(t);
    }
  }

  ghost predicate CountedAt(mem: Memory, root: nat, direct: set<nat>, f: nat) {
    f in mem ==> CountOk(mem[f], if f == root then direct else {})
  }

  /** Every table counts exactly; only the directly set entries of the root are left out. */
  ghost predicate Counted(mem: Memory, root: nat, direct: set<nat>) {
    forall f :: CountedAt(mem, root, direct, f)
  }

  lemma CountedUpdate(mem: Memory, root: nat, direct: set<nat>, f: nat, t: Table)
    requires Counted(mem, root, direct) && CountOk(t, if f == root then direct else {})
    ensures Counted(mem[f := t], root, direct)
  {
    var mem2 := mem[f := t];
    forall g
      ensures CountedAt(mem2, root, direct, g)
    {
      assert CountedAt(mem, root, direct, g);
    }
  }

  lemma CountedLess(mem: Memory, root: nat, direct: set<nat>, h: nat)
    requires Counted(mem, root, direct)
    ensures Counted(mem - {h}, root, direct)
  {
    var mem2 := mem - {h};
    forall g
      ensures CountedAt(mem2, root, direct, g)
    {
      assert CountedAt(mem, root, direct, g);
    }
  }

  lemma CountEmpty()
    ensures CountOk(EmptyTable(), {})
  {
  }

  /** No page of the address space resolves differently. */
  ghost predicate SamePages(mem: Memory, mem2: Memory, root: nat) {
    forall path :: |path| == 4 && GoodPath(path) ==> Lookup(mem2, root, path) == Lookup(mem, root, path)
  }

  /** Exactly one page resolves differently, to `leaf`. */
  ghost predicate OnlyPage(mem: Memory, mem2: Memory, root: nat, path: Path, leaf: Option<Leaf>)
    requires |path| == 4
  {
    forall q :: |q| == 4 && GoodPath(q) ==> Lookup(mem2, root, q) == if q == path then leaf else Lookup(mem, root, q)
  }

  /** The finite map the tables stand for. */
  ghost function Pages(mem: Memory, root: nat): map<nat, Leaf> {
    map page: nat | page < PAGE_NUMBERS && MappablePage(page) && Lookup(mem, root, PathOf(page)).Some? ::
      Lookup(mem, root, PathOf(page)).value
  }

  lemma SamePagesMap(mem: Memory, mem2: Memory, root: nat)
    requires SamePages(mem, mem2, root)
    ensures Pages(mem2, root) == Pages(mem, root)
  {
  }

  lemma OnlyPageMap(mem: Memory, mem2: Memory, root: nat, page: nat, leaf: Option<Leaf>)
    requires MappablePage(page) && OnlyPage(mem, mem2, root, PathOf(page), leaf)
    ensures Pages(mem2, root) == if leaf.Some? then Pages(mem, root)[page := leaf.value] else Pages(mem, root) - {page}
  {
    hide Lookup, PathOf, GoodPath;
    forall other: nat | other < PAGE_NUMBERS && MappablePage(other)
      ensures Lookup(mem2, root, PathOf(other)) == if other == page then leaf else Lookup(mem, root, PathOf(other))
    {
      PathGood(other);
      if PathOf(other) == PathOf(page) {
        PathInjective(other, page);
      }
    }
  }

  lemma AddSamePages(mem: Memory, pos: map<nat, Path>, root: nat, f: nat, i: nat, g: nat)
    requires CanAdd(mem, pos, root, f, i, g)
    ensures TreeShape(WithTable(mem, f, i, g), pos[g := pos[f] + [i]], root)
    ensures SamePages(mem, WithTable(mem, f, i, g), root)
  {
    hide TreeShape, Lookup;
    AddTable(mem, pos, root, f, i, g, [0, 0, 0, 0]);
    forall path | |path| == 4 && GoodPath(path)
      ensures Lookup(WithTable(mem, f, i, g), root, path) == Lookup(mem, root, path)
    {
      AddTable(mem, pos, root, f, i, g, path);
    }
  }

  lemma AddCounted(mem: Memory, root: nat, direct: set<nat>, f: nat, i: nat, g: nat)
    requires Counted(mem, root, direct) && f in mem && |mem[f]| == ENTRY_COUNT && i < ENTRY_COUNT
    requires mem[f][i].IsUnused()
    requires g != root && (f == root ==> i !in direct)
    ensures Counted(WithTable(mem, f, i, g), root, direct)
  {
    hide Counted, CountOk;
    assert CountedAt(mem, root, direct, f) by { CountedThere(mem, root, direct, f); }
    CountOccupy(mem[f], i, g, TableFlags(), if f == root then direct else {});
    CountEmpty();
    CountedUpdate(mem, root, direct, f, Occupy(mem[f], i, g, TableFlags()));
    CountedUpdate(mem[f := Occupy(mem[f], i, g, TableFlags())], root, direct, g, EmptyTable());
  }

  lemma LeafCounted(mem: Memory, root: nat, direct: set<nat>, f: nat, i: nat, frame: nat, flags: set<Flag>)
    requires Counted(mem, root, direct) && f in mem && |mem[f]| == ENTRY_COUNT && i < ENTRY_COUNT && f != root
    requires flags != {}
    ensures mem[f][i].IsUnused() ==> Counted(mem[f := Occupy(mem[f], i, frame, flags)], root, direct)
    ensures !mem[f][i].IsUnused() ==> EntryCount(mem[f]) > 0 && Counted(mem[f := Vacate(mem[f], i)], root, direct)
    ensures !mem[f][i].IsUnused() ==> Counted(mem[f := mem[f][i := mem[f][i].Set(frame, flags)]], root, direct)
  {
    hide Counted, CountOk;
    CountedThere(mem, root, direct, f);
    if mem[f][i].IsUnused() {
      CountOccupy(mem[f], i, frame, flags, {});
      CountedUpdate(mem, root, direct, f, Occupy(mem[f], i, frame, flags));
    } else {
      CountVacate(mem[f], i, {});
      CountedUpdate(mem, root, direct, f, Vacate(mem[f], i));
      CountReset(mem[f], i, frame, flags);
      CountedUpdate(mem, root, direct, f, mem[f][i := mem[f][i].Set(frame, flags)]);
    }
  }

  lemma CountReset(t: Table, i: nat, frame: nat, flags: set<Flag>)
    requires CountOk(t, {}) && i < ENTRY_COUNT && !t[i].IsUnused() && flags != {}
    ensures CountOk(t[i := t[i].Set(frame, flags)], {})
  {
    assert Used(t[i := t[i].Set(frame, flags)]) == Used(t);
  }

  lemma CountedThere(mem: Memory, root: nat, direct: set<nat>, f: nat)
    requires Counted(mem, root, direct)
    ensures CountedAt(mem, root, direct, f)
  {
  }

  /** No table loses entries, and every new table but `last` has one in use. */
  ghost predicate Grown(mem: Memory, mem2: Memory, last: nat) {
    && (forall h :: h in mem ==> h in mem2 && Used(mem[h]) <= Used(mem2[h]))
    && (forall h :: h in mem2 && h !in mem && h != last ==> Used(mem2[h]) != {})
  }

  /** Every table but the root has an entry in use. */
  ghost predicate Tight(mem: Memory, root: nat) {
    forall f :: f in mem && f != root ==> Used(mem[f]) != {}
  }

  lemma GrownRefl(mem: Memory)
    ensures forall last :: Grown(mem, mem, last)
  {
  }

  lemma SamePagesRefl(mem: Memory, root: nat)
    ensures SamePages(mem, mem, root)
  {
  }

  /** A slot above the last level either is free or leads to a table. */
  lemma SlotState(mem: Memory, pos: map<nat, Path>, root: nat, f: nat, i: nat)
    requires TreeShape(mem, pos, root) && f in mem && f in pos && |pos[f]| < 3 && i < ENTRY_COUNT
    requires GoodPath(pos[f] + [i])
    ensures |mem[f]| == ENTRY_COUNT && pos.Keys == mem.Keys && root in mem
    ensures NextTable(mem[f], i).None? ==> mem[f][i].IsUnused() && i !in Used(mem[f])
    ensures NextTable(mem[f], i).Some? ==>
              var g := NextTable(mem[f], i).value;
              i in Used(mem[f]) && g in mem && g in pos && pos[g] == pos[f] + [i] && |mem[g]| == ENTRY_COUNT
  {
    hide TreeShape;
    ShapeRoot(mem, pos, root);
    ShapeSlot(mem, pos, root, f, i);
    ShapeSizes(mem, pos, root);
  }

  lemma CreateTable(mem: Memory, pos: map<nat, Path>, root: nat, direct: set<nat>, f: nat, i: nat, g: nat)
    requires CanAdd(mem, pos, root, f, i, g) && Counted(mem, root, direct) && SelfMapped(mem, root)
    requires direct <= Used(mem[root])
    requires RECURSIVE_PML4 in direct
    ensures var mem2 := WithTable(mem, f, i, g);
            && TreeShape(mem2, pos[g := pos[f] + [i]], root) && Counted(mem2, root, direct)
            && SamePages(mem, mem2, root) && Grown(mem, mem2, g)
            && |mem2[f]| == |mem2[g]| == ENTRY_COUNT && NextTable(mem2[f], i) == Some(g) && i in Used(mem2[f])
            && (forall h :: h in mem && h != f ==> mem2[h] == mem[h]) && direct <= Used(mem2[root])
            && SelfMapped(mem2, root)
  {
    hide TreeShape, Counted, SamePages;
    AddSamePages(mem, pos, root, f, i, g);
    assert i !in Used(mem[f]);
    AddCounted(mem, root, direct, f, i, g);
    OccupyEffect(mem[f], i, g, TableFlags());
    hide Used;
  }

  lemma FreshSpace(mem: Memory, pos: map<nat, Path>, root: nat, t: Table)
    requires |t| == ENTRY_COUNT && mem == map[root := t] && pos == map[root := []]
    requires forall i :: 0 <= i < ENTRY_COUNT && i != RECURSIVE_PML4 ==> t[i] == ZERO
    requires NextTable(t, RECURSIVE_PML4) == Some(root) && t[RECURSIVE_PML4].counter == 0
    ensures TreeShape(mem, pos, root) && Counted(mem, root, {RECURSIVE_PML4})
    ensures Permissive(mem, pos, root, {RECURSIVE_PML4})
    ensures {RECURSIVE_PML4} <= Used(t) && Pages(mem, root) == map[]
  {
    assert Used(t) == {RECURSIVE_PML4};
    assert Used(t) - {RECURSIVE_PML4} == {};
    assert TreeShape(mem, pos, root);
    forall page: nat | page < PAGE_NUMBERS && MappablePage(page)
      ensures Lookup(mem, root, PathOf(page)).None?
    {
      PathGood(page);
      hide PathOf, TreeShape;
      LookupNone(mem, pos, root, PathOf(page));
    }
  }

  // ----- rights -----

  ghost predicate PermissiveAt(mem: Memory, pos: map<nat, Path>, root: nat, direct: set<nat>, f: nat, i: nat) {
    && f in mem && f in pos && |pos[f]| < 3 && i < |mem[f]| && !mem[f][i].IsUnused() && (f == root ==> i !in direct)
    ==> mem[f][i].flags == {PRESENT, WRITABLE, USER_ACCESSIBLE}
  }

  /**
   Every entry above the last level, but those of the root that were set directly, lets users read, write
   and execute: what a page allows is up to its own entry.
   */
  ghost predicate Permissive(mem: Memory, pos: map<nat, Path>, root: nat, direct: set<nat>) {
    forall f, i :: PermissiveAt(mem, pos, root, direct, f, i)
  }

  lemma AddPermissive(mem: Memory, pos: map<nat, Path>, root: nat, direct: set<nat>, f: nat, i: nat, g: nat)
    requires Permissive(mem, pos, root, direct) && f in mem && f in pos && g !in mem
    requires |mem[f]| == ENTRY_COUNT && i < ENTRY_COUNT && mem[f][i].IsUnused()
    ensures Permissive(WithTable(mem, f, i, g), pos[g := pos[f] + [i]], root, direct)
  {
    hide Permissive, Occupy;
    OccupyEffect(mem[f], i, g, TableFlags());
    var mem2, pos2 := WithTable(mem, f, i, g), pos[g := pos[f] + [i]];
    forall h, j
      ensures PermissiveAt(mem2, pos2, root, direct, h, j)
    {
      PermissiveThere(mem, pos, root, direct, h, j);
    }
    PermissiveAll(mem2, pos2, root, direct);
  }

  lemma PermissiveThere(mem: Memory, pos: map<nat, Path>, root: nat, direct: set<nat>, f: nat, i: nat)
    requires Permissive(mem, pos, root, direct)
    ensures PermissiveAt(mem, pos, root, direct, f, i)
  {
  }

  lemma PermissiveAll(mem: Memory, pos: map<nat, Path>, root: nat, direct: set<nat>)
    requires forall f, i :: PermissiveAt(mem, pos, root, direct, f, i)
    ensures Permissive(mem, pos, root, direct)
  {
  }

  lemma LeafPermissive(mem: Memory, pos: map<nat, Path>, root: nat, direct: set<nat>, f: nat, t: Table)
    requires Permissive(mem, pos, root, direct) && f in mem && f in pos && |pos[f]| == 3
    ensures Permissive(mem[f := t], pos, root, direct)
  {
    var mem2 := mem[f := t];
    forall h, j
      ensures PermissiveAt(mem2, pos, root, direct, h, j)
    {
      assert PermissiveAt(mem, pos, root, direct, h, j);
    }
  }

  lemma DropPermissive(mem: Memory, pos: map<nat, Path>, root: nat, direct: set<nat>, f: nat, i: nat, g: nat)
    requires Permissive(mem, pos, root, direct) && f in mem && |mem[f]| == ENTRY_COUNT && i < ENTRY_COUNT
    requires !mem[f][i].IsUnused() && EntryCount(mem[f]) > 0
    ensures Permissive(WithoutTable(mem, f, i, g), pos - {g}, root, direct)
  {
    hide Permissive, Vacate;
    VacateEffect(mem[f], i);
    var mem2, pos2 := WithoutTable(mem, f, i, g), pos - {g};
    forall h, j
      ensures PermissiveAt(mem2, pos2, root, direct, h, j)
    {
      PermissiveThere(mem, pos, root, direct, h, j);
    }
    PermissiveAll(mem2, pos2, root, direct);
  }

  /** The entry the processor reads at level `k` of a walk, the root being level 0. */
  function EntryAt(mem: Memory, root: nat, path: Path, k: nat): Option<Entry>
    requires k < |path|
  {
    match TableAt(mem, root, path[..k])
    case None => None
    case Some(f) => if f in mem && path[k] < |mem[f]| then Some(mem[f][path[k]]) else None
  }

  /** All four entries of the walk exist and carry the flag. */
  predicate AllCarry(mem: Memory, root: nat, path: Path, flag: Flag)
    requires |path| == 4
  {
    forall k :: 0 <= k < 4 ==>
      EntryAt(mem, root, path, k).Some? && flag in EntryAt(mem, root, path, k).value.flags
  }

  /** None of the four entries carries the flag. */
  predicate NoneCarries(mem: Memory, root: nat, path: Path, flag: Flag)
    requires |path| == 4
  {
    forall k :: 0 <= k < 4 ==>
      EntryAt(mem, root, path, k).Some? && flag !in EntryAt(mem, root, path, k).value.flags
  }

  /** What the processor lets a user do with the page is what the given flags say. */
  predicate AccessAs(mem: Memory, root: nat, page: nat, flags: set<Flag>) {
    && AllCarry(mem, root, PathOf(page), PRESENT)
    && (AllCarry(mem, root, PathOf(page), USER_ACCESSIBLE) <==> USER_ACCESSIBLE in flags)
    && (AllCarry(mem, root, PathOf(page), WRITABLE) <==> WRITABLE in flags)
    && (NoneCarries(mem, root, PathOf(page), NO_EXECUTE) <==> NO_EXECUTE !in flags)
  }

  lemma LookupAt(mem: Memory, root: nat, path: Path, p1: nat)
    requires |path| == 4 && TableAt(mem, root, path[..3]) == Some(p1) && Lookup(mem, root, path).Some?
    ensures p1 in mem && path[3] < |mem[p1]| && PRESENT in mem[p1][path[3]].flags
    ensures Lookup(mem, root, path).value.flags == mem[p1][path[3]].flags
  {
  }

  /** Three permissive entries leave the decision to the fourth. */
  lemma FourEntries(mem: Memory, root: nat, path: Path, p3: nat, p2: nat, p1: nat)
    requires |path| == 4 && TableAt(mem, root, path[..0]) == Some(root) && TableAt(mem, root, path[..1]) == Some(p3)
    requires TableAt(mem, root, path[..2]) == Some(p2) && TableAt(mem, root, path[..3]) == Some(p1)
    requires root in mem && p3 in mem && p2 in mem && p1 in mem
    requires path[0] < |mem[root]| && path[1] < |mem[p3]| && path[2] < |mem[p2]| && path[3] < |mem[p1]|
    requires mem[root][path[0]].flags == mem[p3][path[1]].flags == mem[p2][path[2]].flags
    requires mem[root][path[0]].flags == {PRESENT, WRITABLE, USER_ACCESSIBLE}
    ensures forall flag :: flag in {PRESENT, WRITABLE, USER_ACCESSIBLE} ==>
              (AllCarry(mem, root, path, flag) <==> flag in mem[p1][path[3]].flags)
    ensures NoneCarries(mem, root, path, NO_EXECUTE) <==> NO_EXECUTE !in mem[p1][path[3]].flags
  {
    hide TableAt;
    assert EntryAt(mem, root, path, 0) == Some(mem[root][path[0]]);
    assert EntryAt(mem, root, path, 1) == Some(mem[p3][path[1]]);
    assert EntryAt(mem, root, path, 2) == Some(mem[p2][path[2]]);
    assert EntryAt(mem, root, path, 3) == Some(mem[p1][path[3]]);
  }

  function FrameOf(leaf: Option<Leaf>): Option<nat> {
    if leaf.Some? then Some(leaf.value.frame) else None
  }

  ghost predicate Separate(free: set<nat>, lost: set<nat>, tables: set<nat>) {
    free !! tables && lost !! free && lost !! tables
  }

  ghost function Together(free: set<nat>, lost: set<nat>, tables: set<nat>): set<nat> { free + lost + tables }

  lemma TakeFrame(free: set<nat>, lost: set<nat>, tables: set<nat>, g: nat)
    requires Separate(free, lost, tables) && g in free
    ensures g !in tables && Separate(free - {g}, lost, tables + {g})
    ensures Together(free - {g}, lost, tables + {g}) == Together(free, lost, tables) && |free - {g}| == |free| - 1
  {
  }

  lemma GiveFrame(free: set<nat>, lost: set<nat>, tables: set<nat>, g: nat)
    requires Separate(free, lost, tables) && g in tables
    ensures Separate(free + {g}, lost, tables - {g}) && Separate(free, lost + {g}, tables - {g})
    ensures Together(free + {g}, lost, tables - {g}) == Together(free, lost, tables)
    ensures Together(free, lost + {g}, tables - {g}) == Together(free, lost, tables)
  {
  }

  class Mapper {
    var mem: Memory
    const root: nat
    /** The frames the allocator can still hand out. */
    var free: set<nat>
    /** Whether freed frames can be handed out again. */
    var noncore: bool
    /** The table frames given up while they could not. */
    ghost var lost: set<nat>
    /** How to reach each table. */
    ghost var pos: map<nat, Path>
    /** The entries of the root that were set directly, the recursive one among them; the code keeps no such list. */
    var direct: set<nat>

    ghost predicate Valid()
      reads this
    {
      && TreeShape(mem, pos, root) && Counted(mem, root, direct) && Separate(free, lost, mem.Keys)
      && RECURSIVE_PML4 in direct && SelfMapped(mem, root) && direct <= Used(mem[root])
      && Permissive(mem, pos, root, direct)
    }

    /** Every frame the mapper has or had. */
    ghost function Frames(): set<nat>
      reads this
    {
      Together(free, lost, mem.Keys)
    }

    /** A fresh address space: all entries zero but the recursive one. */
    constructor (frame: nat, available: set<nat>, recycle: bool)
      requires frame !in available
      ensures Valid() && root == frame && free == available && lost == {} && direct == {RECURSIVE_PML4}
      ensures noncore == recycle
      ensures mem.Keys == {frame} && Pages(mem, root) == map[] && Tight(mem, root)
      ensures |mem[root]| == ENTRY_COUNT && EntryCount(mem[root]) == 0
      ensures mem[root][511].frame == frame && mem[root][511].flags == {PRESENT, WRITABLE, NO_EXECUTE}
    {
      var table := EmptyTable();
      mem := map[frame := table[RECURSIVE_PML4 := table[RECURSIVE_PML4].Set(frame, {PRESENT, WRITABLE, NO_EXECUTE})]];
      root := frame;
      free := available;
      noncore := recycle;
      lost := {};
      pos := map[frame := []];
      direct := {RECURSIVE_PML4};
      new;
      FreshSpace(mem, pos, frame, mem[frame]);
    }

    /** Frame `f` holds the table reached by `path`. */
    ghost predicate IsTable(f: nat, path: Path)
      reads this
    {
      f in mem && f in pos && |mem[f]| == ENTRY_COUNT && pos[f] == path
    }

    method NextTableCreate(f: nat, i: nat, ghost path: Path) returns (r: Option<nat>)
      requires Valid() && IsTable(f, path) && |path| < 3 && i < ENTRY_COUNT && GoodPath(path + [i])
      modifies this`mem, this`free, this`pos
      ensures Valid()
      ensures r.None? ==> free == old(free) == {} && mem == old(mem) && pos == old(pos) && NextTable(mem[f], i).None?
      ensures r.Some? ==> IsTable(r.value, path + [i]) && IsTable(f, path) && NextTable(mem[f], i) == r
      ensures forall h, q :: old(IsTable(h, q)) ==> IsTable(h, q)
      ensures r.Some? ==> Grown(old(mem), mem, r.value) && i in Used(mem[f])
      ensures Frames() == old(Frames()) && |old(free)| <= |free| + 1
      ensures SamePages(old(mem), mem, root)
    {
      hide TreeShape, Counted, Permissive, GoodPath, SamePages, Used, Grown, SelfMapped, Occupy, EmptyTable;
      hide Separate, Together;
      SamePagesRefl(mem, root);
      GrownRefl(mem);
      SlotState(mem, pos, root, f, i);
      if NextTable(mem[f], i).None? {
        if free == {} {
          return None;
        }
        var g :| g in free;
        TakeFrame(free, lost, mem.Keys, g);
        CreateTable(mem, pos, root, direct, f, i, g);
        AddPermissive(mem, pos, root, direct, f, i, g);
        mem := mem[f := Occupy(mem[f], i, g, TableFlags())];
        mem := mem[g := EmptyTable()];
        assert mem.Keys == old(mem).Keys + {g};
        pos := pos[g := pos[f] + [i]];
        free := free - {g};
      }
      r := NextTable(mem[f], i);
    }

    /** The chain of tables down to the one holding the page's own entry, created as far as missing. */
    method WalkCreate(page: nat) returns (p1: Option<nat>)
      requires Valid() && MappablePage(page)
      modifies this`mem, this`free, this`pos
      ensures Valid() && SamePages(old(mem), mem, root)
      ensures p1.Some? ==> IsTable(p1.value, PathOf(page)[..3]) && Grown(old(mem), mem, p1.value)
      ensures p1.None? ==> free == {} && |old(free)| < 3 && Lookup(mem, root, PathOf(page)) == None
      ensures Frames() == old(Frames())
    {
      hide TreeShape, Counted, Permissive, Lookup, GoodPath, PathOf, SamePages, Used, Separate, Together;
      var path := PathOf(page);
      PathGood(page);
      Prefixes(path);
      RootTable();
      var p3 := NextTableCreate(root, path[0], path[..0]);
      if p3.None? {
        MissingTable(root, path, 0);
        return None;
      }
      ghost var mem3 := mem;
      var p2 := NextTableCreate(p3.value, path[1], path[..1]);
      SamePagesTrans(old(mem), mem3, mem, root);
      if p2.None? {
        MissingTable(p3.value, path, 1);
        return None;
      }
      ghost var mem2 := mem;
      p1 := NextTableCreate(p2.value, path[2], path[..2]);
      SamePagesTrans(old(mem), mem2, mem, root);
      if p1.None? {
        MissingTable(p2.value, path, 2);
      }
    }

    lemma RootTable()
      requires Valid()
      ensures IsTable(root, [])
    {
    }

    lemma MissingTable(f: nat, path: Path, k: nat)
      requires Valid() && |path| == 4 && GoodPath(path) && k < 3 && IsTable(f, path[..k])
      requires NextTable(mem[f], path[k]).None?
      ensures Lookup(mem, root, path) == None
    {
      hide TreeShape, Counted, Permissive;
      WalkExact(mem, pos, root, path[..k], f);
      assert path[..k + 1][..k] == path[..k];
      assert TableAt(mem, root, path[..k + 1]) == None;
      NothingBelow(mem, root, path, k + 1, 3);
    }

    method MapTo(page: nat, frame: nat, flags: set<Flag>) returns (r: MapResult)
      requires Valid() && MappablePage(page)
      modifies this`mem, this`free, this`pos
      ensures Valid()
      ensures r.AlreadyMapped? <==> page in Pages(old(mem), root)
      ensures r.OutOfFrames? ==> free == {} && |old(free)| < 3
      ensures r.Done? ==> Pages(mem, root) == Pages(old(mem), root)[page := Leaf(frame, flags + {PRESENT})]
      ensures r.Done? && PathOf(page)[0] !in direct ==> AccessAs(mem, root, page, flags)
      ensures r.Done? && Tight(old(mem), root) ==> Tight(mem, root)
      ensures !r.Done? ==> Pages(mem, root) == Pages(old(mem), root)
      ensures Frames() == old(Frames())
    {
      hide TreeShape, Counted, Permissive, Lookup, GoodPath, PathOf, Pages, SamePages, Used;
      hide Occupy, Separate, Together, AccessAs;
      var p1 := WalkCreate(page);
      SamePagesMap(old(mem), mem, root);
      InPages(mem, root, page);
      if p1.None? {
        return OutOfFrames;
      }
      ghost var path := PathOf(page);
      PathGood(page);
      var f, i := p1.value, PathOf(page)[3];
      LookupIn(mem, pos, root, path, f);
      LeafSlot(mem, pos, root, f, path);
      if !mem[f][i].IsUnused() {
        return AlreadyMapped;
      }
      var t := Occupy(mem[f], i, frame, flags + {PRESENT});
      OccupyEffect(mem[f], i, frame, flags + {PRESENT});
      SetLeafPage(mem, pos, root, f, page, t);
      LeafCounted(mem, root, direct, f, i, frame, flags + {PRESENT});
      LeafPermissive(mem, pos, root, direct, f, t);
      assert mem[f := t].Keys == mem.Keys;
      mem := mem[f := t];
      r := Done;
      AccessGiven(page, flags);
    }

    /**
     In every valid state, what the processor allows with a page, going by all four entries of its walk,
     is what the flags of the page say, unless the page lies below an entry of the root set directly.
     */
    lemma AccessExact(page: nat)
      requires Valid() && page in Pages(mem, root) && PathOf(page)[0] !in direct
      ensures AccessAs(mem, root, page, Pages(mem, root)[page].flags)
    {
      hide TreeShape, Counted, Permissive, PathOf, Pages, MappablePage, GoodPath;
      PageMappable(page);
      RootSlot(page);
      InPages(mem, root, page);
      var path := PathOf(page);
      var p3, p2, p1 := Chain(page);
      assert path[..0] == [];
      PermissiveThere(mem, pos, root, direct, root, path[0]);
      PermissiveThere(mem, pos, root, direct, p3, path[1]);
      PermissiveThere(mem, pos, root, direct, p2, path[2]);
      RootTable();
      LookupAt(mem, root, path, p1);
      FourEntries(mem, root, path, p3, p2, p1);
    }

    lemma AccessGiven(page: nat, flags: set<Flag>)
      requires Valid() && page in Pages(mem, root) && Pages(mem, root)[page].flags == flags + {PRESENT}
      ensures PathOf(page)[0] !in direct ==> AccessAs(mem, root, page, flags)
    {
      hide TreeShape, Counted, Permissive, PathOf, Pages, AllCarry, NoneCarries;
      if PathOf(page)[0] !in direct {
        AccessExact(page);
      }
    }

    /** The tables on the way to a page, or nothing when one is missing. */
    method FindTables(page: nat) returns (found: bool, p3: nat, p2: nat, p1: nat)
      requires Valid() && MappablePage(page)
      ensures !found ==> Lookup(mem, root, PathOf(page)) == None
      ensures found ==> OnPath(p3, p2, p1, PathOf(page))
    {
      hide TreeShape, Counted, Permissive, Lookup, GoodPath, PathOf;
      var path := PathOf(page);
      PathGood(page);
      Prefixes(path);
      RootTable();
      found, p3, p2, p1 := false, 0, 0, 0;
      var t3 := NextTable(mem[root], path[0]);
      if t3.None? { MissingTable(root, path, 0); return; }
      p3 := t3.value;
      ChildTable(root, path, 0);
      var t2 := NextTable(mem[p3], path[1]);
      if t2.None? { MissingTable(p3, path, 1); return; }
      p2 := t2.value;
      ChildTable(p3, path, 1);
      var t1 := NextTable(mem[p2], path[2]);
      if t1.None? { MissingTable(p2, path, 2); return; }
      p1 := t1.value;
      ChildTable(p2, path, 2);
      found := true;
    }

    ghost predicate OnPath(p3: nat, p2: nat, p1: nat, path: Path)
      reads this
    {
      && |path| == 4 && IsTable(p3, path[..1]) && IsTable(p2, path[..2]) && IsTable(p1, path[..3])
      && path[0] < ENTRY_COUNT && path[1] < ENTRY_COUNT && path[2] < ENTRY_COUNT && path[3] < ENTRY_COUNT
      && root in mem && |mem[root]| == ENTRY_COUNT
      && NextTable(mem[root], path[0]) == Some(p3) && NextTable(mem[p3], path[1]) == Some(p2)
      && NextTable(mem[p2], path[2]) == Some(p1)
    }

    lemma ChildTable(f: nat, path: Path, k: nat)
      requires Valid() && |path| == 4 && GoodPath(path) && k < 3 && IsTable(f, path[..k])
      requires NextTable(mem[f], path[k]).Some?
      ensures IsTable(NextTable(mem[f], path[k]).value, path[..k + 1])
    {
      hide TreeShape, Counted, Permissive;
      assert path[..k] + [path[k]] == path[..k + 1];
      ShapeSlot(mem, pos, root, f, path[k]);
      ShapeSizes(mem, pos, root);
    }

    /** Any page number, those in the recursive slot included. */
    method TranslatePage(page: nat) returns (frame: Option<nat>)
      requires Valid()
      ensures frame == FrameOf(Lookup(mem, root, PathOf(page)))
      ensures MappablePage(page) ==>
        frame == if page in Pages(mem, root) then Some(Pages(mem, root)[page].frame) else None
    {
      hide TreeShape, Counted, Permissive, Lookup, GoodPath, PathOf, Pages, MappablePage;
      var path := PathOf(page);
      assert path == [path[0], path[1], path[2], path[3]];
      WalkBySlots(mem, root, path[0], path[1], path[2], path[3]);
      if MappablePage(page) {
        InPages(mem, root, page);
      }
      RootTable();
      var t3 := NextTable(mem[root], path[0]);
      if t3.None? { return None; }
      StaysInside(root, path[0]);
      var t2 := NextTable(mem[t3.value], path[1]);
      if t2.None? { return None; }
      StaysInside(t3.value, path[1]);
      var t1 := NextTable(mem[t2.value], path[2]);
      if t1.None? { return None; }
      StaysInside(t2.value, path[2]);
      frame := mem[t1.value][path[3]].PointedFrame();
    }

    /** Following an entry above the last level leads to a table, at most one level down. */
    lemma StaysInside(f: nat, i: nat)
      requires Valid() && f in mem && f in pos && |mem[f]| == ENTRY_COUNT && |pos[f]| < 3 && i < ENTRY_COUNT
      requires NextTable(mem[f], i).Some?
      ensures var g := NextTable(mem[f], i).value;
              g in mem && g in pos && |mem[g]| == ENTRY_COUNT && |pos[g]| <= |pos[f]| + 1
    {
      hide TreeShape, Counted, Permissive;
      RootTable();
      ShapeTable(mem, pos, root, f);
      if f != root || i != RECURSIVE_PML4 {
        SlotState(mem, pos, root, f, i);
      }
    }

    method Remap(page: nat, flags: set<Flag>) returns (ok: bool)
      requires Valid() && MappablePage(page)
      modifies this`mem
      ensures Valid()
      ensures ok <==> page in Pages(old(mem), root)
      ensures ok ==>
        Pages(mem, root) == Pages(old(mem), root)[page := Leaf(Pages(old(mem), root)[page].frame, flags + {PRESENT})]
      ensures ok && PathOf(page)[0] !in direct ==> AccessAs(mem, root, page, flags)
      ensures !ok ==> mem == old(mem)
      ensures mem.Keys == old(mem).Keys && (Tight(old(mem), root) ==> Tight(mem, root))
    {
      hide TreeShape, Counted, Permissive, Lookup, GoodPath, PathOf, Pages, AccessAs;
      InPages(mem, root, page);
      var found, p3, p2, p1 := FindTables(page);
      if !found {
        return false;
      }
      ghost var path := PathOf(page);
      PathGood(page);
      var i := PathOf(page)[3];
      LookupIn(mem, pos, root, path, p1);
      LeafSlot(mem, pos, root, p1, path);
      var frame := mem[p1][i].PointedFrame();
      if frame.None? {
        return false;
      }
      var t := mem[p1][i := mem[p1][i].Set(frame.value, flags + {PRESENT})];
      SetLeafPage(mem, pos, root, p1, page, t);
      LeafCounted(mem, root, direct, p1, i, frame.value, flags + {PRESENT});
      LeafPermissive(mem, pos, root, direct, p1, t);
      assert i in Used(t);
      mem := mem[p1 := t];
      ok := true;
      AccessGiven(page, flags);
    }

    /** `deallocate_frames`: in core mode the frame is not kept for reuse. */
    method Deallocate(g: nat)
      modifies this`free, this`lost
      ensures free == if noncore then old(free) + {g} else old(free)
      ensures lost == if noncore then old(lost) else old(lost) + {g}
    {
      if noncore {
        free := free + {g};
      } else {
        lost := lost + {g};
      }
    }

    /** Give the empty table below slot `i` of `f` back to the allocator. */
    method DropChild(f: nat, i: nat, g: nat, ghost path: Path)
      requires Valid() && IsTable(f, path) && |path| < 3 && i < ENTRY_COUNT && GoodPath(path + [i])
      requires NextTable(mem[f], i) == Some(g) && g in mem && AllUnused(mem[g]) && (f == root ==> i !in direct)
      modifies this`mem, this`free, this`lost, this`pos
      ensures Valid() && SamePages(old(mem), mem, root)
      ensures f in old(mem) && |old(mem)[f]| == ENTRY_COUNT && EntryCount(old(mem)[f]) > 0
      ensures mem == WithoutTable(old(mem), f, i, g) && pos == old(pos) - {g} && g != f && g != root
      ensures Frames() == old(Frames()) && (noncore ==> free == old(free) + {g} && lost == old(lost))
      ensures f in mem && i in Used(old(mem)[f]) && Used(mem[f]) == Used(old(mem)[f]) - {i}
      ensures Used(mem[f]) == {} <==> Used(old(mem)[f]) == {i}
    {
      hide TreeShape, Counted, Permissive, Lookup, GoodPath, AllUnused, Separate, Together;
      GiveFrame(free, lost, mem.Keys, g);
      DropCounted(mem, root, direct, f, i, g);
      DropSamePages(mem, pos, root, f, i, g);
      DropFacts(mem, pos, root, f, i, g);
      DropPermissive(mem, pos, root, direct, f, i, g);
      VacateEffect(mem[f], i);
      mem := mem[f := Vacate(mem[f], i)] - {g};
      pos := pos - {g};
      assert mem.Keys == old(mem).Keys - {g};
      Deallocate(g);
    }

    /** The tree is sound but the count of the root is wrong, whether or not entry `i` is left out of it. */
    ghost predicate Miscounted(i: nat)
      reads this
    {
      && TreeShape(mem, pos, root) && root in mem && |mem[root]| == ENTRY_COUNT && i < ENTRY_COUNT
      && mem[root][i].IsUnused() && Permissive(mem, pos, root, direct)
      && !CountOk(mem[root], direct) && !CountOk(mem[root], direct - {i})
    }

    /** `p1.decrement_entry_count(); p1[..].set_unused()`. */
    method ClearLeaf(p1: nat, page: nat)
      requires Valid() && MappablePage(page) && IsTable(p1, PathOf(page)[..3]) && !mem[p1][PathOf(page)[3]].IsUnused()
      modifies this`mem
      ensures Valid() && Pages(mem, root) == Pages(old(mem), root) - {page}
      ensures p1 in old(mem) && p1 in mem && p1 != root && mem == old(mem)[p1 := mem[p1]] && |mem[p1]| == ENTRY_COUNT
      ensures mem.Keys == old(mem).Keys
      ensures PathOf(page)[3] in Used(old(mem)[p1]) && Used(mem[p1]) == Used(old(mem)[p1]) - {PathOf(page)[3]}
      ensures Used(mem[p1]) == {} <==> Used(old(mem)[p1]) == {PathOf(page)[3]}
    {
      hide TreeShape, Counted, Permissive, Lookup, GoodPath, PathOf, Pages;
      var i := PathOf(page)[3];
      PathGood(page);
      LeafSlot(mem, pos, root, p1, PathOf(page));
      LeafCounted(mem, root, direct, p1, i, 0, {PRESENT});
      VacateEffect(mem[p1], i);
      LeafPermissive(mem, pos, root, direct, p1, Vacate(mem[p1], i));
      SetLeafPage(mem, pos, root, p1, page, Vacate(mem[p1], i));
      mem := mem[p1 := Vacate(mem[p1], i)];
    }

    lemma CountTells(f: nat)
      requires Valid() && f in mem && f != root
      ensures |mem[f]| == ENTRY_COUNT && (EntryCount(mem[f]) == 0 <==> Used(mem[f]) == {})
      ensures EntryCount(mem[f]) == 0 <==> AllUnused(mem[f])
    {
      hide TreeShape, Counted, Permissive;
      CountedThere(mem, root, direct, f);
      EmptyExactly(mem[f]);
    }

    /** With the page's own entry gone, tables left without entries are freed from the last level up. */
    method Prune(p3: nat, p2: nat, p1: nat, page: nat) returns (underflow: bool)
      requires Valid() && MappablePage(page) && OnPath(p3, p2, p1, PathOf(page))
      modifies this`mem, this`free, this`lost, this`pos
      ensures Pages(mem, root) == Pages(old(mem), root) && Frames() == old(Frames())
      ensures OnPathValues(old(mem), p3, p2, p1) && root in old(mem) && |old(mem)[root]| == ENTRY_COUNT
      ensures var freed := Emptied(old(mem), p3, p2, p1, PathOf(page), {});
              var spoils := p3 in freed && PathOf(page)[0] in direct;
              && underflow == (spoils && EntryCount(old(mem)[root]) == 0)
              && mem.Keys == old(mem).Keys - (if underflow then freed - {p3} else freed)
              && (if spoils && !underflow then Miscounted(PathOf(page)[0]) else Valid())
              && (!spoils && (forall f :: f in old(mem) && f != root && f != p1 ==> Used(old(mem)[f]) != {}) ==>
                    Tight(mem, root))
      ensures noncore ==> free == old(free) + (old(mem).Keys - mem.Keys) && lost == old(lost)
    {
      hide TreeShape, Counted, Permissive, Lookup, GoodPath, PathOf, Pages, SamePages, AllUnused;
      hide Used, Separate, Together, Emptied;
      PathGood(page);
      TablesApart(p3, p2, p1, PathOf(page));
      var empty := PruneLower(p3, p2, p1, page);
      underflow := false;
      if empty {
        RootTable();
        GoodSlotPath(PathOf(page));
        underflow := PruneRoot(PathOf(page)[0], p3);
      }
    }

    lemma GoodSlotPath(path: Path)
      requires |path| == 4 && GoodPath(path)
      ensures GoodPath([path[0]]) && path[0] < ENTRY_COUNT
    {
    }

    /** The last-level table and the one above it; true when the P3 table is left empty. */
    method PruneLower(p3: nat, p2: nat, p1: nat, page: nat) returns (empty: bool)
      requires Valid() && MappablePage(page) && OnPath(p3, p2, p1, PathOf(page))
      modifies this`mem, this`free, this`lost, this`pos
      ensures Valid() && Pages(mem, root) == Pages(old(mem), root) && Frames() == old(Frames())
      ensures OnPathValues(old(mem), p3, p2, p1) && root in old(mem) && root in mem && mem[root] == old(mem)[root]
      ensures p3 in mem && p3 != root && NextTable(mem[root], PathOf(page)[0]) == Some(p3)
      ensures var freed := Emptied(old(mem), p3, p2, p1, PathOf(page), {});
              empty == (p3 in freed) && mem.Keys == old(mem).Keys - (freed - {p3})
      ensures empty ==> AllUnused(mem[p3])
      ensures noncore ==> free == old(free) + (old(mem).Keys - mem.Keys) && lost == old(lost)
      ensures (forall f :: f in old(mem) && f != root && f != p1 ==> Used(old(mem)[f]) != {}) ==>
                forall f :: f in mem && f != root && (empty ==> f != p3) ==> Used(mem[f]) != {}
    {
      hide TreeShape, Counted, Permissive, Lookup, GoodPath, PathOf, Pages, SamePages, AllUnused;
      hide Used, Separate, Together;
      var path := PathOf(page);
      PathGood(page);
      Prefixes(path);
      RootTable();
      TablesApart(p3, p2, p1, path);
      CountTells(p1);
      empty := false;
      if EntryCount(mem[p1]) > 0 {
        return;
      }
      DropChild(p2, path[2], p1, path[..2]);
      SamePagesMap(old(mem), mem, root);
      CountTells(p2);
      if EntryCount(mem[p2]) > 0 {
        return;
      }
      ghost var mem2 := mem;
      DropChild(p3, path[1], p2, path[..1]);
      SamePagesMap(mem2, mem, root);
      CountTells(p3);
      empty := EntryCount(mem[p3]) == 0;
    }

    /** The last step of `Prune`, on the root. */
    method PruneRoot(i: nat, p3: nat) returns (underflow: bool)
      requires Valid() && IsTable(root, []) && i < ENTRY_COUNT && GoodPath([i])
      requires NextTable(mem[root], i) == Some(p3) && p3 in mem && p3 != root && AllUnused(mem[p3])
      modifies this`mem, this`free, this`lost, this`pos
      ensures Pages(mem, root) == Pages(old(mem), root) && Frames() == old(Frames())
      ensures root in old(mem) && |old(mem)[root]| == ENTRY_COUNT
      ensures underflow == (i in direct && EntryCount(old(mem)[root]) == 0)
      ensures mem.Keys == old(mem).Keys - (if underflow then {} else {p3})
      ensures if i in direct && !underflow then Miscounted(i) else Valid()
      ensures noncore ==> free == old(free) + (old(mem).Keys - mem.Keys) && lost == old(lost)
      ensures forall f :: f in mem && f != root ==> mem[f] == old(mem)[f]
    {
      hide TreeShape, Counted, Permissive, Lookup, GoodPath, Pages, SamePages, AllUnused;
      hide Separate, Together, CountOk, Used;
      GiveFrame(free, lost, mem.Keys, p3);
      RootDrop(mem, pos, root, direct, i, p3);
      if EntryCount(mem[root]) == 0 {
        return true;
      }
      DropPermissive(mem, pos, root, direct, root, i, p3);
      mem := mem[root := Vacate(mem[root], i)] - {p3};
      pos := pos - {p3};
      assert mem.Keys == old(mem).Keys - {p3};
      Deallocate(p3);
      SamePagesMap(old(mem), mem, root);
      underflow := false;
    }

    lemma TablesApart(p3: nat, p2: nat, p1: nat, path: Path)
      requires Valid() && OnPath(p3, p2, p1, path)
      ensures p1 != p2 && p1 != p3 && p2 != p3 && p1 != root && p2 != root && p3 != root
    {
    }

    lemma OnPathTables(p3: nat, p2: nat, p1: nat, page: nat)
      requires Valid() && MappablePage(page) && OnPath(p3, p2, p1, PathOf(page))
      ensures FreedBy(mem, root, page) == Emptied(mem, p3, p2, p1, PathOf(page), {PathOf(page)[3]})
      ensures EmptiesP3(mem, root, page) <==> p3 in FreedBy(mem, root, page)
    {
      hide TreeShape, Counted, Permissive, PathOf, GoodPath, Emptied;
      var path := PathOf(page);
      PathGood(page);
      Prefixes(path);
      WalkExact(mem, pos, root, path[..1], p3);
      WalkExact(mem, pos, root, path[..2], p2);
      WalkExact(mem, pos, root, path[..3], p1);
    }

    /** Unmapping the page would take out an entry of the root that was never counted. */
    ghost predicate Spoils(page: nat)
      reads this
    {
      PathOf(page)[0] in direct && EmptiesP3(mem, root, page)
    }

    method UnmapReturn(page: nat, keepParents: bool) returns (r: UnmapResult)
      requires Valid() && MappablePage(page)
      modifies this`mem, this`free, this`lost, this`pos
      ensures root in old(mem) && |old(mem)[root]| == ENTRY_COUNT
      ensures r == if page !in Pages(old(mem), root) then NotMapped
                   else if !keepParents && old(Spoils(page)) && EntryCount(old(mem)[root]) == 0 then Underflow
                   else Unmapped(Pages(old(mem), root)[page].frame)
      ensures if r.Unmapped? && !keepParents && old(Spoils(page)) then Miscounted(PathOf(page)[0]) else Valid()
      ensures Pages(mem, root) == Pages(old(mem), root) - {page}
      ensures r.Unmapped? && !keepParents && !old(Spoils(page)) && Tight(old(mem), root) ==> Tight(mem, root)
      ensures r.NotMapped? ==> mem == old(mem)
      ensures r.NotMapped? || keepParents ==> mem.Keys == old(mem).Keys && free == old(free)
      ensures r.Unmapped? && !keepParents ==> mem.Keys == old(mem).Keys - FreedBy(old(mem), root, page)
      ensures Frames() == old(Frames())
      ensures noncore ==> free == old(free) + (old(mem).Keys - mem.Keys) && lost == old(lost)
    {
      hide TreeShape, Counted, Permissive, Lookup, GoodPath, PathOf, Pages, Used, FreedBy;
      hide EmptiesP3, Separate, Together;
      InPages(mem, root, page);
      RootTable();
      var found, p3, p2, p1 := FindTables(page);
      if !found {
        return NotMapped;
      }
      PathGood(page);
      TablesApart(p3, p2, p1, PathOf(page));
      LookupIn(mem, pos, root, PathOf(page), p1);
      LeafSlot(mem, pos, root, p1, PathOf(page));
      OnPathTables(p3, p2, p1, page);
      var frame := mem[p1][PathOf(page)[3]].PointedFrame();
      if frame.None? {
        return NotMapped;
      }
      ClearLeaf(p1, page);
      r := Unmapped(frame.value);
      if !keepParents {
        var underflow := Prune(p3, p2, p1, page);
        if underflow {
          r := Underflow;
        }
      }
    }

    /**
     Any run of mapper calls does to the tables what the same run does to a finite map. It stops at
     the first call that panics, or that takes out the last page below an entry of the root that
     was never counted. `pages` is the map before that call.
     */
    method Run(ops: seq<MapOp>) returns (n: nat, ghost pages: map<nat, Leaf>)
      requires Valid()
      requires forall k :: 0 <= k < |ops| ==> MappablePage(ops[k].page)
      modifies this`mem, this`free, this`lost, this`pos
      ensures n <= |ops| && Frames() == old(Frames()) && (noncore ==> lost == old(lost))
      ensures ApplyAll(Pages(old(mem), root), ops[..n]) == Some(pages)
      ensures n == |ops| ==> Valid() && Pages(mem, root) == pages
      ensures n < |ops| ==>
        || (Apply(pages, ops[n]).None? && Valid() && Pages(mem, root) == pages)
        || (ops[n].MapPage? && free == {} && Valid() && Pages(mem, root) == pages)
        || (DropsLast(pages, ops[n], direct) && (Valid() || Miscounted(PathOf(ops[n].page)[0]))
            && Pages(mem, root) == pages - {ops[n].page})
      ensures n == |ops| && Tight(old(mem), root) && NoneKept(ops) ==>
        Tight(mem, root) && (pages == map[] ==> mem.Keys == {root})
    {
      hide TreeShape, Counted, Permissive, Pages, PathOf, Tight, DropsLast;
      n, pages := 0, Pages(mem, root);
      while n < |ops|
        invariant Valid() && n <= |ops| && pages == Pages(mem, root)
        invariant ApplyAll(Pages(old(mem), root), ops[..n]) == Some(pages)
        invariant Frames() == old(Frames()) && (noncore ==> lost == old(lost))
        invariant Tight(old(mem), root) && NoneKept(ops) ==> Tight(mem, root)
      {
        var ok := Step(ops[n]);
        if !ok {
          return;
        }
        assert ops[..n + 1][..n] == ops[..n];
        n := n + 1;
        pages := Pages(mem, root);
      }
      assert ops[..n] == ops;
      if Tight(mem, root) && pages == map[] {
        NoTableLeaks();
      }
    }

    /** One call; false when it panics or spoils the count. */
    method Step(op: MapOp) returns (ok: bool)
      requires Valid() && MappablePage(op.page)
      modifies this`mem, this`free, this`lost, this`pos
      ensures ok ==> Valid() && Apply(Pages(old(mem), root), op) == Some(Pages(mem, root))
      ensures ok && Tight(old(mem), root) && (op.Drop? ==> !op.keepParents) ==> Tight(mem, root)
      ensures ok && op.Drop? && !op.keepParents ==> !old(Spoils(op.page))
      ensures !ok ==>
        || (Apply(Pages(old(mem), root), op).None? && Valid() && Pages(mem, root) == Pages(old(mem), root))
        || (op.MapPage? && free == {} && Valid() && Pages(mem, root) == Pages(old(mem), root))
        || (DropsLast(Pages(old(mem), root), op, direct) && old(Spoils(op.page))
            && (Valid() || Miscounted(PathOf(op.page)[0]))
            && Pages(mem, root) == Pages(old(mem), root) - {op.page})
      ensures Frames() == old(Frames()) && (noncore ==> lost == old(lost))
    {
      hide TreeShape, Counted, Permissive, PathOf, Pages, EmptiesP3, Used;
      match op
      case MapPage(page, frame, flags) =>
        var r := MapTo(page, frame, flags);
        ok := r.Done?;
      case Reflag(page, flags) =>
        ok := Remap(page, flags);
      case Drop(page, keepParents) =>
        ghost var spoils := !keepParents && Spoils(page);
        if spoils && page in Pages(mem, root) {
          EmptiedIsLast(page);
        }
        var r := UnmapReturn(page, keepParents);
        var i := PathOf(page)[0];
        if r.Unmapped? && (keepParents || !spoils) {
          DirectInUse(page);
        }
        ok := r.Unmapped? && !(i in direct && mem[root][i].IsUnused());
    }

    lemma DirectInUse(page: nat)
      requires Valid()
      ensures root in mem && |mem[root]| == ENTRY_COUNT
      ensures PathOf(page)[0] in direct ==> !mem[root][PathOf(page)[0]].IsUnused()
    {
      hide TreeShape, Counted, Permissive, PathOf;
      assert PathOf(page)[0] in direct ==> PathOf(page)[0] in Used(mem[root]);
    }

    // ----- which tables are left -----

    /** When no page is mapped and no table was kept, only the root is left. */
    lemma NoTableLeaks()
      requires Valid() && Tight(mem, root) && Pages(mem, root) == map[]
      ensures mem.Keys == {root}
    {
      hide TreeShape, Counted, Permissive, Lookup, Used, Pages, PathOf, MappablePage;
      ShapeRoot(mem, pos, root);
      forall f | f in mem
        ensures f == root
      {
        if f != root {
          ShapeTable(mem, pos, root, f);
          var page := PageBelow(f);
        }
      }
    }

    /** Below a table there is a mapped page, if no table was kept empty. */
    lemma PageBelow(f: nat) returns (page: nat)
      requires Valid() && Tight(mem, root) && f in mem && f != root && f in pos && |pos[f]| <= 3
      ensures MappablePage(page) && page in Pages(mem, root) && pos[f] == PathOf(page)[..|pos[f]|]
      decreases 3 - |pos[f]|
    {
      hide TreeShape, Counted, Permissive, Lookup, Pages, PathOf, MappablePage, Used;
      ShapeTable(mem, pos, root, f);
      var i :| i in Used(mem[f]);
      page := PageBelowSlot(f, i);
    }

    lemma PageBelowSlot(f: nat, i: nat) returns (page: nat)
      requires Valid() && Tight(mem, root) && f in mem && f != root && f in pos && |pos[f]| <= 3 && i in Used(mem[f])
      ensures MappablePage(page) && page in Pages(mem, root) && pos[f] + [i] == PathOf(page)[..|pos[f]| + 1]
      decreases 3 - |pos[f]|, 0
    {
      hide TreeShape, Counted, Permissive, Lookup, Pages, PathOf, MappablePage;
      ShapeTable(mem, pos, root, f);
      var path := pos[f] + [i];
      assert GoodPath(path);
      ShapeSlot(mem, pos, root, f, i);
      if |pos[f]| == 3 {
        assert path[..3] == pos[f];
        LookupIn(mem, pos, root, path, f);
        PathOnto(path);
        page := PageOf(path);
        InPages(mem, root, page);
        assert path[..4] == path;
      } else {
        var g := mem[f][i].frame;
        ShapeRoot(mem, pos, root);
        page := PageBelow(g);
      }
    }

    /** The tables on the way to a mapped page. */
    lemma Chain(page: nat) returns (p3: nat, p2: nat, p1: nat)
      requires Valid() && MappablePage(page) && page in Pages(mem, root)
      ensures p3 in mem && p2 in mem && p1 in mem && p3 in pos && p2 in pos && p1 in pos
      ensures var path := PathOf(page);
              && TableAt(mem, root, path[..1]) == Some(p3) && TableAt(mem, root, path[..2]) == Some(p2)
              && TableAt(mem, root, path[..3]) == Some(p1)
              && path[1] in Used(mem[p3]) && path[2] in Used(mem[p2]) && path[3] in Used(mem[p1])
              && pos[p3] == path[..1] && pos[p2] == path[..2] && pos[p1] == path[..3]
    {
      hide TreeShape, Counted, Permissive, PathOf, Pages, GoodPath, MappablePage;
      var path := PathOf(page);
      PathGood(page);
      Prefixes(path);
      InPages(mem, root, page);
      if TableAt(mem, root, path[..1]).None? {
        NothingBelow(mem, root, path, 1, 3);
      }
      assert path[..3][..2] == path[..2] && path[..2][..1] == path[..1];
      p3, p2 := TableAt(mem, root, path[..1]).value, TableAt(mem, root, path[..2]).value;
      p1 := TableAt(mem, root, path[..3]).value;
      WalkLands(mem, pos, root, path[..1]);
      WalkLands(mem, pos, root, path[..2]);
      WalkLands(mem, pos, root, path[..3]);
    }

    /** The P3 table goes with the page only if no other page is mapped below its entry of the root. */
    lemma EmptiedIsLast(page: nat)
      requires Valid() && MappablePage(page) && page in Pages(mem, root) && EmptiesP3(mem, root, page)
      ensures LastUnder(Pages(mem, root), page)
    {
      hide TreeShape, Counted, Permissive, Pages, PathOf, GoodPath, TableAt, Used;
      var p3, p2, p1 := Chain(page);
      var a := PathOf(page);
      assert |a[..1]| == 1 && |a[..2]| == 2 && |a[..3]| == 3;
      assert Used(mem[p1]) == {a[3]} && Used(mem[p2]) == {a[2]} && Used(mem[p3]) == {a[1]};
      forall other | other in Pages(mem, root) && PathOf(other)[0] == a[0]
        ensures other == page
      {
        var b := PathOf(other);
        PageMappable(other);
        var q3, q2, q1 := Chain(other);
        assert b[..1] == a[..1];
        assert b[..2] == b[..1] + [b[1]] && a[..2] == a[..1] + [a[1]];
        assert b[..3] == b[..2] + [b[2]] && a[..3] == a[..2] + [a[2]];
        assert b == a;
        PathInjective(page, other);
      }
    }

    lemma PageMappable(page: nat)
      requires page in Pages(mem, root)
      ensures MappablePage(page)
    {
    }

    /** And it does so if that is so and no table was kept empty. */
    lemma LastEmpties(page: nat)
      requires Valid() && Tight(mem, root) && page in Pages(mem, root) && LastUnder(Pages(mem, root), page)
      ensures MappablePage(page) && EmptiesP3(mem, root, page)
    {
      hide TreeShape, Counted, Permissive, Pages, PathOf, GoodPath, TableAt, Used, Tight, MappablePage;
      PageMappable(page);
      var p3, p2, p1 := Chain(page);
      var a := PathOf(page);
      OnlySlot(page, p3, 1);
      OnlySlot(page, p2, 2);
      OnlySlot(page, p1, 3);
      assert Used(mem[p1]) == {a[3]} && Used(mem[p2]) == {a[2]} && Used(mem[p3]) == {a[1]};
    }

    lemma OnlySlot(page: nat, f: nat, k: nat)
      requires Valid() && Tight(mem, root) && page in Pages(mem, root) && LastUnder(Pages(mem, root), page)
      requires f in mem && f in pos && 1 <= k <= 3 && pos[f] == PathOf(page)[..k] && PathOf(page)[k] in Used(mem[f])
      ensures Used(mem[f]) == {PathOf(page)[k]}
    {
      hide TreeShape, Counted, Permissive, Pages, PathOf, GoodPath, TableAt, Used, Tight, MappablePage;
      RootTable();
      forall j | j in Used(mem[f])
        ensures j == PathOf(page)[k]
      {
        var other := PageBelowSlot(f, j);
        assert PathOf(other)[..k + 1][0] == (pos[f] + [j])[0] == PathOf(page)[0];
        assert PathOf(other)[..k + 1][k] == j;
      }
    }

    /**
     Unmapping without keeping parents spoils the count of the root exactly when the page is the
     last one mapped below an entry of the root that was never counted.
     */
    lemma SpoilsExactly(page: nat)
      requires Valid() && Tight(mem, root) && page in Pages(mem, root)
      ensures Spoils(page) <==> PathOf(page)[0] in direct && LastUnder(Pages(mem, root), page)
    {
      hide TreeShape, Counted, Permissive, Pages, PathOf, EmptiesP3, Tight, LastUnder;
      PageMappable(page);
      if EmptiesP3(mem, root, page) {
        EmptiedIsLast(page);
      }
      if LastUnder(Pages(mem, root), page) {
        LastEmpties(page);
      }
    }

    /** An entry of the root in use, other than the recursive one, has a mapped page below it. */
    lemma PageBelowRoot(i: nat) returns (page: nat)
      requires Valid() && Tight(mem, root) && root in mem && i in Used(mem[root]) && i != RECURSIVE_PML4
      ensures page in Pages(mem, root) && PathOf(page)[0] == i
    {
      hide TreeShape, Counted, Permissive, Pages, PathOf, Tight, MappablePage;
      ShapeRoot(mem, pos, root);
      ShapeTable(mem, pos, root, root);
      assert pos[root] + [i] == [i];
      SlotState(mem, pos, root, root, i);
      var g := NextTable(mem[root], i).value;
      page := PageBelow(g);
      assert pos[g][0] == i;
    }

    /** The count of the root is zero exactly when all mapped pages lie below entries that were never counted. */
    lemma ZeroExactly()
      requires Valid() && Tight(mem, root)
      ensures root in mem && |mem[root]| == ENTRY_COUNT
      ensures EntryCount(mem[root]) == 0 <==> forall page :: page in Pages(mem, root) ==> PathOf(page)[0] in direct
    {
      hide TreeShape, Counted, Permissive, Pages, PathOf, Tight, MappablePage, Used;
      RootTable();
      CountedThere(mem, root, direct, root);
      assert EntryCount(mem[root]) == 0 <==> Used(mem[root]) - direct == {};
      if i :| i in Used(mem[root]) - direct {
        var page := PageBelowRoot(i);
      }
      forall page | page in Pages(mem, root)
        ensures PathOf(page)[0] in Used(mem[root])
      {
        RootSlot(page);
      }
    }

    lemma RootSlot(page: nat)
      requires Valid() && page in Pages(mem, root)
      ensures root in mem && |mem[root]| == ENTRY_COUNT && NextTable(mem[root], PathOf(page)[0]).Some?
      ensures PathOf(page)[0] in Used(mem[root])
    {
      hide TreeShape, Counted, Permissive, Pages, PathOf, MappablePage, GoodPath;
      PageMappable(page);
      RootTable();
      var p3, p2, p1 := Chain(page);
      assert PathOf(page)[..1][..0] == [];
    }

    /** The P3 table above a mapped page; unmapping frees it if that spoils the root. */
    lemma TopTable(page: nat) returns (f: nat)
      requires Valid() && page in Pages(mem, root)
      ensures root in mem && PathOf(page)[0] < |mem[root]|
      ensures NextTable(mem[root], PathOf(page)[0]) == Some(f) && f in mem
      ensures Spoils(page) ==> f in FreedBy(mem, root, page)
    {
      hide TreeShape, Counted, Permissive, Pages, PathOf, MappablePage, GoodPath, FreedBy;
      RootSlot(page);
      PageMappable(page);
      var p3, p2, p1 := Chain(page);
      assert PathOf(page)[..1][..0] == [];
      f := p3;
    }

    /** With a single page mapped, all tables lie below its entry of the root. */
    lemma OneSlot(page: nat)
      requires Valid() && Tight(mem, root) && Pages(mem, root).Keys == {page}
      ensures root in mem && PathOf(page)[0] < |mem[root]| && NextTable(mem[root], PathOf(page)[0]).Some?
      ensures Below(pos, PathOf(page)[0]) == mem.Keys - {root}
    {
      hide TreeShape, Counted, Permissive, Pages, PathOf, Tight, MappablePage, GoodPath;
      RootSlot(page);
      ShapeRoot(mem, pos, root);
      forall f | f in mem
        ensures f in Below(pos, PathOf(page)[0]) <==> f != root
      {
        ShapeTable(mem, pos, root, f);
        if f != root {
          var other := PageBelow(f);
          assert other == page;
        }
      }
    }

    // ----- entries of the root shared with another address space -----

    /**
     Entry `i` of another root, copied without counting; `tables` are the tables below it, which the
     two address spaces share from then on.
     */
    method ShareEntry(i: nat, other: Mapper, tables: set<nat>)
      requires Valid() && other.Valid() && i < ENTRY_COUNT && i != RECURSIVE_PML4
      requires root in mem && i < |mem[root]| && mem[root][i].IsUnused()
      requires other.root in other.mem && i < |other.mem[other.root]| && NextTable(other.mem[other.root], i).Some?
      requires tables == Below(other.pos, i) && tables !! Frames()
      modifies this`mem, this`pos, this`direct
      ensures Valid() && direct == old(direct) + {i}
      ensures Pages(mem, root) == SharedPages(Pages(old(mem), root), Pages(other.mem, other.root), i)
      ensures mem.Keys == old(mem).Keys + tables && EntryCount(mem[root]) == EntryCount(old(mem)[root])
      ensures |mem[root]| == ENTRY_COUNT && SameSlot(mem[root][i], old(other.mem[other.root][i]))
      ensures Tight(old(mem), root) && Tight(other.mem, other.root) ==> Tight(mem, root)
      ensures unchanged(other) || other == this
    {
      hide TreeShape, Counted, Permissive, Pages, Lookup, SelfMapped, Separate, Together, Used, Tight;
      hide WithShared, PosShared, SharedPages;
      SeparateMore(free, lost, mem.Keys, tables);
      ShapeSizes(mem, pos, root);
      ShapeSizes(other.mem, other.pos, other.root);
      ShareShape(mem, pos, root, other.mem, other.pos, other.root, i);
      SharePages(mem, pos, root, other.mem, other.pos, other.root, i);
      ShapeRoot(mem, pos, root);
      ShapeRoot(other.mem, other.pos, other.root);
      NotBelow(other.pos, other.root, i);
      ShareCounted(mem, root, direct, other.mem, other.root, other.direct, i, tables);
      ShareEffect(mem, root, other.mem, other.root, i, tables);
      SharePermissive(mem, pos, root, direct, other.mem, other.pos, other.root, other.direct, i, tables);
      mem := WithShared(mem, root, other.mem, other.root, i, tables);
      pos := PosShared(pos, other.pos, tables);
      direct := direct + {i};
    }
  }

  lemma SharePermissive(mem: Memory, pos: map<nat, Path>, root: nat, direct: set<nat>,
      from: Memory, fromPos: map<nat, Path>, fromRoot: nat, fromDirect: set<nat>, i: nat, tables: set<nat>)
    requires Permissive(mem, pos, root, direct) && Permissive(from, fromPos, fromRoot, fromDirect)
    requires root in mem && i < |mem[root]| && fromRoot in from && i < |from[fromRoot]|
    requires tables <= from.Keys && tables <= fromPos.Keys && root !in tables && fromRoot !in tables
    ensures var mem2, pos2 := WithShared(mem, root, from, fromRoot, i, tables), PosShared(pos, fromPos, tables);
            Permissive(mem2, pos2, root, direct + {i})
  {
    var mem2, pos2 := WithShared(mem, root, from, fromRoot, i, tables), PosShared(pos, fromPos, tables);
    forall h, j
      ensures PermissiveAt(mem2, pos2, root, direct + {i}, h, j)
    {
      assert PermissiveAt(mem, pos, root, direct, h, j) && PermissiveAt(from, fromPos, fromRoot, fromDirect, h, j);
    }
  }

  /** What sharing does to the root and to the set of tables. */
  lemma ShareEffect(mem: Memory, root: nat, from: Memory, fromRoot: nat, i: nat, tables: set<nat>)
    requires root in mem && |mem[root]| == ENTRY_COUNT && SelfMapped(mem, root) && tables <= from.Keys
    requires i < ENTRY_COUNT && i != RECURSIVE_PML4 && mem[root][i].IsUnused() && tables !! mem.Keys
    requires fromRoot in from && i < |from[fromRoot]| && NextTable(from[fromRoot], i).Some? && fromRoot !in tables
    ensures var mem2 := WithShared(mem, root, from, fromRoot, i, tables);
            && mem2.Keys == mem.Keys + tables && SelfMapped(mem2, root) && |mem2[root]| == ENTRY_COUNT
            && EntryCount(mem2[root]) == EntryCount(mem[root]) && Used(mem2[root]) == Used(mem[root]) + {i}
            && SameSlot(mem2[root][i], from[fromRoot][i])
            && (Tight(mem, root) && Tight(from, fromRoot) ==> Tight(mem2, root))
  {
  }

  lemma SeparateMore(free: set<nat>, lost: set<nat>, tables: set<nat>, more: set<nat>)
    requires Separate(free, lost, tables) && more !! Together(free, lost, tables)
    ensures Separate(free, lost, tables + more) && more !! tables
  {
  }

  /**
   An address space that shares one kernel page, as every spawned context does, is valid, and
   unmapping that page spoils the count of the root: with no page of its own it underflows, with
   one the count goes wrong.
   */
  method SpoilWitness(own: bool) returns (m: Mapper, kernel: Mapper, page: nat)
    ensures m.Valid() && page in Pages(m.mem, m.root) && MappablePage(page) && m.Spoils(page) && m.noncore
    ensures m.root in m.mem && |m.mem[m.root]| == ENTRY_COUNT && (EntryCount(m.mem[m.root]) > 0 <==> own)
    ensures kernel.Valid() && page in Pages(kernel.mem, kernel.root) && m != kernel && SameTop(m, kernel, page)
    ensures fresh(m)
  {
    hide TreeShape, Counted, PathOf, Pages, Used, Separate, Together, Tight, MappablePage;
    hide EmptiesP3, SharedPages, LastUnder, SameTop;
    PathOnto([510, 0, 0, 0]);
    PathOnto([0, 0, 0, 0]);
    page := PageOf([510, 0, 0, 0]);
    kernel := OnePage(0, [510, 0, 0, 0]);
    if own {
      m := OnePage(10, [0, 0, 0, 0]);
    } else {
      m := new Mapper(10, {}, true);
      FramesWithin({}, {}, {10}, 10);
    }
    ShareOne(m, kernel, page);
  }

  /** Both roots have the same P3 table above the page. */
  ghost predicate SameTop(m: Mapper, other: Mapper, page: nat)
    reads m, other
  {
    var i := PathOf(page)[0];
    && m.root in m.mem && i < |m.mem[m.root]| && other.root in other.mem && i < |other.mem[other.root]|
    && NextTable(m.mem[m.root], i) == NextTable(other.mem[other.root], i)
  }

  /**
   And with a page of its own, unmapping the shared page hands out a frame that is still a table of the
   kernel's: the P3 above the same page there.
   */
  method SharedTableFreed() returns (m: Mapper, kernel: Mapper, page: nat)
    ensures kernel.Valid() && page in Pages(kernel.mem, kernel.root)
    ensures kernel.root in kernel.mem && PathOf(page)[0] < |kernel.mem[kernel.root]|
    ensures var p3 := NextTable(kernel.mem[kernel.root], PathOf(page)[0]);
            p3.Some? && p3.value in m.free && p3.value in kernel.mem
  {
    hide TreeShape, Counted, PathOf, Pages, Separate, Together, Tight, MappablePage, EmptiesP3, FreedBy;
    m, kernel, page := SpoilWitness(true);
    ghost var mine := m.TopTable(page);
    ghost var shared := kernel.TopTable(page);
    var r := m.UnmapReturn(page, false);
  }

  /** A fresh address space with the page of the given indices mapped. */
  method OnePage(frame: nat, path: Path) returns (m: Mapper)
    requires |path| == 4 && GoodPath(path)
    ensures fresh(m) && m.Valid() && Tight(m.mem, m.root) && m.root == frame && m.direct == {RECURSIVE_PML4}
    ensures m.noncore
    ensures Pages(m.mem, m.root).Keys == {PageOf(path)} && m.Frames() <= {frame, frame + 1, frame + 2, frame + 3}
  {
    hide TreeShape, Counted, PathOf, Pages, Used, Separate, Together, Tight, MappablePage;
    PathOnto(path);
    var available := {frame + 1, frame + 2, frame + 3};
    assert |available| == 3;
    m := new Mapper(frame, available, true);
    FramesWithin(available, {}, {frame}, frame);
    var r := m.MapTo(PageOf(path), 9, {});
    assert r == Done;
  }

  lemma FramesWithin(free: set<nat>, lost: set<nat>, tables: set<nat>, n: nat)
    requires free <= {n + 1, n + 2, n + 3} && lost == {} && tables == {n}
    ensures Together(free, lost, tables) <= {n, n + 1, n + 2, n + 3}
  {
  }

  /** The kernel's only page shared into an address space that maps nothing below the same entry. */
  method ShareOne(m: Mapper, kernel: Mapper, page: nat)
    requires m.Valid() && kernel.Valid() && m != kernel && Tight(m.mem, m.root) && Tight(kernel.mem, kernel.root)
    requires Pages(kernel.mem, kernel.root).Keys == {page} && PathOf(page)[0] == 510 && 510 !in m.direct
    requires kernel.root == 0 && kernel.Frames() <= {0, 1, 2, 3} && m.Frames() <= {10, 11, 12, 13}
    requires forall p :: p in Pages(m.mem, m.root) ==> PathOf(p)[0] == 0 && 0 !in m.direct
    modifies m
    ensures m.Valid() && page in Pages(m.mem, m.root) && MappablePage(page) && m.Spoils(page)
    ensures m.root in m.mem && |m.mem[m.root]| == ENTRY_COUNT
    ensures EntryCount(m.mem[m.root]) > 0 <==> old(Pages(m.mem, m.root)) != map[]
    ensures m.noncore == old(m.noncore) && SameTop(m, kernel, page)
  {
    hide TreeShape, Counted, PathOf, Pages, Used, Separate, Together, Tight, MappablePage;
    hide EmptiesP3, SharedPages, LastUnder;
    ghost var pages := Pages(m.mem, m.root);
    kernel.OneSlot(page);
    m.RootTable();
    if 510 in Used(m.mem[m.root]) {
      var other := m.PageBelowRoot(510);
    }
    NotInUse(m.mem[m.root], 510);
    OwnFrames(kernel.free, kernel.lost, kernel.mem.Keys);
    m.ShareEntry(510, kernel, kernel.mem.Keys - {0});
    SharedOne(pages, Pages(kernel.mem, kernel.root), 510, page);
    m.PageMappable(page);
    m.SpoilsExactly(page);
    m.ZeroExactly();
  }

  lemma OwnFrames(free: set<nat>, lost: set<nat>, tables: set<nat>)
    ensures tables <= Together(free, lost, tables)
  {
  }

  lemma NotInUse(t: Table, i: nat)
    requires i < |t|
    ensures i in Used(t) <==> !t[i].IsUnused()
  {
  }

  lemma SharedOne(pages: map<nat, Leaf>, from: map<nat, Leaf>, i: nat, page: nat)
    requires from.Keys == {page} && PathOf(page)[0] == i && forall p :: p in pages ==> PathOf(p)[0] != i
    ensures SharedPages(pages, from, i).Keys == pages.Keys + {page} && LastUnder(SharedPages(pages, from, i), page)
  {
    hide PathOf;
  }

  /** No other page is mapped below the same entry of the root. */
  ghost predicate LastUnder(pages: map<nat, Leaf>, page: nat) {
    forall other :: other in pages && PathOf(other)[0] == PathOf(page)[0] ==> other == page
  }

  /** A call that unmaps the last page below an entry of the root that was never counted. */
  ghost predicate DropsLast(pages: map<nat, Leaf>, op: MapOp, direct: set<nat>) {
    op.Drop? && !op.keepParents && op.page in pages && PathOf(op.page)[0] in direct && LastUnder(pages, op.page)
  }

  predicate NoneKept(ops: seq<MapOp>) {
    forall k :: 0 <= k < |ops| && ops[k].Drop? ==> !ops[k].keepParents
  }

  ghost function SharedPages(pages: map<nat, Leaf>, from: map<nat, Leaf>, i: nat): map<nat, Leaf> {
    map page | page in pages.Keys + from.Keys && page in (if PathOf(page)[0] == i then from else pages) ::
      (if PathOf(page)[0] == i then from else pages)[page]
  }

  lemma SharePages(mem: Memory, pos: map<nat, Path>, root: nat, from: Memory, fromPos: map<nat, Path>,
      fromRoot: nat, i: nat)
    requires CanShare(mem, pos, root, from, fromPos, fromRoot, i)
    ensures Pages(WithShared(mem, root, from, fromRoot, i, Below(fromPos, i)), root) ==
            SharedPages(Pages(mem, root), Pages(from, fromRoot), i)
  {
    hide TreeShape, Lookup, PathOf, GoodPath;
    var mem2 := WithShared(mem, root, from, fromRoot, i, Below(fromPos, i));
    forall page: nat | page < PAGE_NUMBERS && MappablePage(page)
      ensures Lookup(mem2, root, PathOf(page)) ==
              if PathOf(page)[0] == i then Lookup(from, fromRoot, PathOf(page)) else Lookup(mem, root, PathOf(page))
    {
      PathGood(page);
      ShareLookup(mem, pos, root, from, fromPos, fromRoot, i, PathOf(page));
    }
  }

  lemma NotBelow(pos: map<nat, Path>, root: nat, i: nat)
    requires root in pos && pos[root] == []
    ensures root !in Below(pos, i)
  {
  }

  lemma ShareCounted(mem: Memory, root: nat, direct: set<nat>, from: Memory, fromRoot: nat, fromDirect: set<nat>,
      i: nat, tables: set<nat>)
    requires Counted(mem, root, direct) && Counted(from, fromRoot, fromDirect)
    requires root in mem && |mem[root]| == ENTRY_COUNT && i < ENTRY_COUNT && mem[root][i].IsUnused()
    requires fromRoot in from && |from[fromRoot]| == ENTRY_COUNT && PRESENT in from[fromRoot][i].flags
    requires tables <= from.Keys && fromRoot !in tables && root !in tables
    ensures Counted(WithShared(mem, root, from, fromRoot, i, tables), root, direct + {i})
  {
    var mem2 := WithShared(mem, root, from, fromRoot, i, tables);
    assert CountedAt(mem, root, direct, root);
    assert Used(mem2[root]) == Used(mem[root]) + {i};
    assert Used(mem2[root]) - (direct + {i}) == Used(mem[root]) - direct;
    forall f
      ensures CountedAt(mem2, root, direct + {i}, f)
    {
      assert CountedAt(mem, root, direct, f) && CountedAt(from, fromRoot, fromDirect, f);
    }
  }

  datatype MapOp =
    | MapPage(page: nat, frame: nat, flags: set<Flag>)
    | Reflag(page: nat, flags: set<Flag>)
    | Drop(page: nat, keepParents: bool)

  /** The mapper's operations on a finite map; `None` where the kernel panics. */
  function Apply(pages: map<nat, Leaf>, op: MapOp): Option<map<nat, Leaf>> {
    match op
    case MapPage(page, frame, flags) =>
      if page in pages then None else Some(pages[page := Leaf(frame, flags + {PRESENT})])
    case Reflag(page, flags) =>
      if page in pages then Some(pages[page := Leaf(pages[page].frame, flags + {PRESENT})]) else None
    case Drop(page, _) =>
      if page in pages then Some(pages - {page}) else None
  }

  function ApplyAll(pages: map<nat, Leaf>, ops: seq<MapOp>): Option<map<nat, Leaf>> {
    if ops == [] then Some(pages)
    else
      var before := ApplyAll(pages, ops[..|ops| - 1]);
      if before.None? then None else Apply(before.value, ops[|ops| - 1])
  }

  /**
   The tables on the path of a page that have no entry in use besides the page's:
   `rest` is what the last-level table may still hold.
   */
  ghost function Emptied(mem: Memory, p3: nat, p2: nat, p1: nat, path: Path, rest: set<nat>): set<nat>
    requires |path| == 4 && p3 in mem && p2 in mem && p1 in mem
  {
    if Used(mem[p1]) != rest then {}
    else if Used(mem[p2]) != {path[2]} then {p1}
    else if Used(mem[p3]) != {path[1]} then {p1, p2}
    else {p1, p2, p3}
  }

  /** The tables that go when the page is unmapped without keeping parents. */
  ghost function FreedBy(mem: Memory, root: nat, page: nat): set<nat> {
    var path := PathOf(page);
    match (TableAt(mem, root, path[..1]), TableAt(mem, root, path[..2]), TableAt(mem, root, path[..3]))
    case (Some(p3), Some(p2), Some(p1)) =>
      if p3 in mem && p2 in mem && p1 in mem then Emptied(mem, p3, p2, p1, path, {path[3]}) else {}
    case _ => {}
  }

  /** The P3 table of the page is among them. */
  ghost predicate EmptiesP3(mem: Memory, root: nat, page: nat) {
    var p3 := TableAt(mem, root, PathOf(page)[..1]);
    p3.Some? && p3.value in FreedBy(mem, root, page)
  }

  predicate OnPathValues(mem: Memory, p3: nat, p2: nat, p1: nat) {
    p3 in mem && p2 in mem && p1 in mem
  }

  lemma DropCounted(mem: Memory, root: nat, direct: set<nat>, f: nat, i: nat, g: nat)
    requires Counted(mem, root, direct) && f in mem && |mem[f]| == ENTRY_COUNT && i < ENTRY_COUNT
    requires !mem[f][i].IsUnused()
    requires f == root ==> i !in direct
    ensures EntryCount(mem[f]) > 0 && Counted(WithoutTable(mem, f, i, g), root, direct)
  {
    hide Counted, CountOk;
    CountedThere(mem, root, direct, f);
    CountVacate(mem[f], i, if f == root then direct else {});
    CountedUpdate(mem, root, direct, f, Vacate(mem[f], i));
    CountedLess(mem[f := Vacate(mem[f], i)], root, direct, g);
  }

  /** Taking an empty table out of the root: what becomes of tree, translations and count. */
  lemma RootDrop(mem: Memory, pos: map<nat, Path>, root: nat, direct: set<nat>, i: nat, g: nat)
    requires TreeShape(mem, pos, root) && Counted(mem, root, direct) && SelfMapped(mem, root)
    requires direct <= Used(mem[root]) && RECURSIVE_PML4 in direct
    requires root in pos && pos[root] == [] && i < ENTRY_COUNT && GoodPath([i])
    requires NextTable(mem[root], i) == Some(g) && g in mem && g != root && AllUnused(mem[g])
    ensures EntryCount(mem[root]) == 0 ==> i in direct
    ensures EntryCount(mem[root]) > 0 ==>
              var mem2 := WithoutTable(mem, root, i, g);
              && TreeShape(mem2, pos - {g}, root) && SamePages(mem, mem2, root) && SelfMapped(mem2, root)
              && root in mem2 && |mem2[root]| == ENTRY_COUNT && mem2[root][i].IsUnused()
              && (if i in direct then !CountOk(mem2[root], direct) && !CountOk(mem2[root], direct - {i})
                  else Counted(mem2, root, direct) && direct <= Used(mem2[root]))
  {
    hide TreeShape, Counted, Lookup, AllUnused, SamePages, Used, CountOk;
    assert [] + [i] == [i];
    ShapeSizes(mem, pos, root);
    InUse(mem[root], i);
    RootCount(mem, root, direct, i, g);
    if EntryCount(mem[root]) > 0 {
      DropSamePages(mem, pos, root, root, i, g);
      DropFacts(mem, pos, root, root, i, g);
      VacateEffect(mem[root], i);
    }
  }

  lemma InUse(t: Table, i: nat)
    requires i < |t| && NextTable(t, i).Some?
    ensures i in Used(t) && !t[i].IsUnused()
  {
  }

  lemma RootCount(mem: Memory, root: nat, direct: set<nat>, i: nat, g: nat)
    requires Counted(mem, root, direct) && root in mem && |mem[root]| == ENTRY_COUNT && i < ENTRY_COUNT
    requires !mem[root][i].IsUnused() && g != root
    ensures EntryCount(mem[root]) == 0 ==> i in direct
    ensures EntryCount(mem[root]) > 0 ==>
              var mem2 := WithoutTable(mem, root, i, g);
              if i in direct then !CountOk(mem2[root], direct) && !CountOk(mem2[root], direct - {i})
              else Counted(mem2, root, direct)
  {
    hide Counted, CountOk, Used;
    CountedThere(mem, root, direct, root);
    if i in direct {
      DirectEntryMiscounts(mem[root], i, direct);
    } else {
      DropCounted(mem, root, direct, root, i, g);
    }
  }

  lemma DropSamePages(mem: Memory, pos: map<nat, Path>, root: nat, f: nat, i: nat, g: nat)
    requires CanDrop(mem, pos, root, f, i, g)
    ensures TreeShape(WithoutTable(mem, f, i, g), pos - {g}, root)
    ensures SamePages(mem, WithoutTable(mem, f, i, g), root)
  {
    hide TreeShape, Lookup;
    DropTable(mem, pos, root, f, i, g, [0, 0, 0, 0]);
    forall path | |path| == 4 && GoodPath(path)
      ensures Lookup(WithoutTable(mem, f, i, g), root, path) == Lookup(mem, root, path)
    {
      DropTable(mem, pos, root, f, i, g, path);
    }
  }

  lemma {:induction false} NothingBelow(mem: Memory, root: nat, path: Path, k: nat, j: nat)
    requires k <= j <= |path| && TableAt(mem, root, path[..k]) == None
    ensures TableAt(mem, root, path[..j]) == None
    decreases j
  {
    if k < j {
      NothingBelow(mem, root, path, k, j - 1);
      assert path[..j][..j - 1] == path[..j - 1];
    }
  }

  lemma LeafSlot(mem: Memory, pos: map<nat, Path>, root: nat, f: nat, path: Path)
    requires TreeShape(mem, pos, root) && |path| == 4 && GoodPath(path) && f in mem && f in pos && pos[f] == path[..3]
    ensures |mem[f]| == ENTRY_COUNT && (mem[f][path[3]].IsUnused() <==> PRESENT !in mem[f][path[3]].flags)
    ensures f != root
  {
    hide TreeShape;
    assert path == path[..3] + [path[3]];
    ShapeTable(mem, pos, root, f);
    ShapeSlot(mem, pos, root, f, path[3]);
  }

  lemma SetLeafPage(mem: Memory, pos: map<nat, Path>, root: nat, f: nat, page: nat, t: Table)
    requires MappablePage(page) && f in pos && pos[f] == PathOf(page)[..3]
    requires CanSetLeaf(mem, pos, root, f, PathOf(page)[3], t)
    ensures TreeShape(mem[f := t], pos, root)
    ensures var leaf := LeafOf(t[PathOf(page)[3]]);
            Pages(mem[f := t], root) ==
            if leaf.Some? then Pages(mem, root)[page := leaf.value] else Pages(mem, root) - {page}
  {
    hide TreeShape, Lookup, PathOf, Pages, GoodPath;
    var path := PathOf(page);
    PathGood(page);
    assert path == path[..3] + [path[3]];
    SetLeafShape(mem, pos, root, f, path[3], t);
    forall q | |q| == 4 && GoodPath(q)
      ensures Lookup(mem[f := t], root, q) == if q == path then LeafOf(t[path[3]]) else Lookup(mem, root, q)
    {
      SetLeaf(mem, pos, root, f, path[3], t, q);
    }
    OnlyPageMap(mem, mem[f := t], root, page, LeafOf(t[path[3]]));
  }

  datatype UnmapResult = Unmapped(frame: nat) | NotMapped | Underflow

  datatype MapResult = Done | AlreadyMapped | OutOfFrames

  lemma Prefixes(path: Path)
    requires |path| == 4 && GoodPath(path)
    ensures path[..0] == []
    ensures path[..0] + [path[0]] == path[..1] && path[..1] + [path[1]] == path[..2]
    ensures path[..2] + [path[2]] == path[..3]
    ensures GoodPath(path[..1]) && GoodPath(path[..2]) && GoodPath(path[..3])
  {
  }

  lemma SamePagesTrans(a: Memory, b: Memory, c: Memory, root: nat)
    requires SamePages(a, b, root) && SamePages(b, c, root)
    ensures SamePages(a, c, root)
  {
  }

  lemma InPages(mem: Memory, root: nat, page: nat)
    requires MappablePage(page)
    ensures page in Pages(mem, root) <==> Lookup(mem, root, PathOf(page)).Some?
    ensures page in Pages(mem, root) ==> Lookup(mem, root, PathOf(page)) == Some(Pages(mem, root)[page])
  {
  }

}
