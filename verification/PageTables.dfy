/**
 Page tables in memory (kernel/src/arch/x86_64/paging/table.rs and mapper.rs).

 Memory is a map from table frames to 512 entries.  A table counts its entries in use
 in the spare bits of its entry 0.  `pos` records, for the proofs only, the indices that
 lead from the root (the P4 table) to each table.
 */
module PageTables {
  import opened Wrappers
  import opened PageEntry

  const ENTRY_COUNT: nat := 512
  /** The P4 slot through which the tables map themselves. */
  const RECURSIVE_PML4: nat := 511

  type Table = seq<Entry>
  type Memory = map<nat, Table>
  type Path = seq<nat>

  // ----- one table -----

  ghost function Used(t: Table): set<nat> {
    set i: nat | i < |t| && !t[i].IsUnused()
  }

  function EntryCount(t: Table): nat
    requires |t| == ENTRY_COUNT
  {
    t[0].counter
  }

  /** A table after `zero`. */
  function EmptyTable(): (t: Table)
    ensures |t| == ENTRY_COUNT && (forall i :: 0 <= i < ENTRY_COUNT ==> t[i] == ZERO)
  {
    seq(ENTRY_COUNT, _ => ZERO)
  }

  /** `increment_entry_count` and then `set`: the order the code uses. */
  function Occupy(t: Table, i: nat, frame: nat, flags: set<Flag>): Table
    requires |t| == ENTRY_COUNT && i < ENTRY_COUNT
  {
    var counted := t[0 := t[0].SetCounter(EntryCount(t) + 1)];
    counted[i := counted[i].Set(frame, flags)]
  }

  /** `decrement_entry_count` and then `set_unused`. */
  function Vacate(t: Table, i: nat): Table
    requires |t| == ENTRY_COUNT && i < ENTRY_COUNT && EntryCount(t) > 0
  {
    var counted := t[0 := t[0].SetCounter(EntryCount(t) - 1)];
    counted[i := counted[i].SetUnused()]
  }

  predicate SameSlot(a: Entry, b: Entry) { a.frame == b.frame && a.flags == b.flags }

  lemma OccupyEffect(t: Table, i: nat, frame: nat, flags: set<Flag>)
    requires |t| == ENTRY_COUNT && i < ENTRY_COUNT && t[i].IsUnused() && flags != {}
    ensures var u := Occupy(t, i, frame, flags);
            && |u| == ENTRY_COUNT && EntryCount(u) == EntryCount(t) + 1
            && u[i].frame == frame && u[i].flags == flags
            && (forall j :: 0 <= j < ENTRY_COUNT && j != i ==> SameSlot(u[j], t[j]))
            && i !in Used(t) && Used(u) == Used(t) + {i} && |Used(u)| == |Used(t)| + 1
  {
  }

  lemma VacateEffect(t: Table, i: nat)
    requires |t| == ENTRY_COUNT && i < ENTRY_COUNT && !t[i].IsUnused() && EntryCount(t) > 0
    ensures var u := Vacate(t, i);
            && |u| == ENTRY_COUNT && EntryCount(u) == EntryCount(t) - 1
            && u[i].IsUnused()
            && (forall j :: 0 <= j < ENTRY_COUNT && j != i ==> SameSlot(u[j], t[j]))
            && i in Used(t) && Used(u) == Used(t) - {i} && |Used(u)| == |Used(t)| - 1
  {
  }

  // ----- walking the tables -----

  /** `next_table`: present and not huge. */
  function NextTable(t: Table, i: nat): Option<nat>
    requires i < |t|
  {
    if PRESENT in t[i].flags && HUGE_PAGE !in t[i].flags then Some(t[i].frame) else None
  }

  /** The table reached from the root by following `path`. */
  function TableAt(mem: Memory, root: nat, path: Path): Option<nat> {
    if path == [] then Some(root)
    else
      var last := |path| - 1;
      match TableAt(mem, root, path[..last])
      case None => None
      case Some(f) =>
        if f in mem && path[last] < |mem[f]| then NextTable(mem[f], path[last]) else None
  }

  datatype Leaf = Leaf(frame: nat, flags: set<Flag>)

  /** What the tables say about the page with the four indices `path`. */
  function Lookup(mem: Memory, root: nat, path: Path): Option<Leaf>
    requires |path| == 4
  {
    match TableAt(mem, root, path[..3])
    case None => None
    case Some(f) =>
      if f in mem && path[3] < |mem[f]| && PRESENT in mem[f][path[3]].flags
      then Some(Leaf(mem[f][path[3]].frame, mem[f][path[3]].flags)) else None
  }

  function Child(mem: Memory, t: Option<nat>, i: nat): Option<nat> {
    match t
    case None => None
    case Some(f) => if f in mem && i < |mem[f]| then NextTable(mem[f], i) else None
  }

  /** A walk, one table at a time. */
  lemma WalkBySlots(mem: Memory, root: nat, a: nat, b: nat, c: nat, d: nat)
    ensures Lookup(mem, root, [a, b, c, d]) ==
            match TableAt(mem, root, [a, b, c])
            case None => None
            case Some(f) => if f in mem && d < |mem[f]| then LeafOf(mem[f][d]) else None
    ensures TableAt(mem, root, [a, b, c]) == Child(mem, TableAt(mem, root, [a, b]), c)
    ensures TableAt(mem, root, [a, b]) == Child(mem, TableAt(mem, root, [a]), b)
    ensures TableAt(mem, root, [a]) == Child(mem, Some(root), a)
  {
    assert [a, b, c, d][..3] == [a, b, c];
    assert [a, b, c][..2] == [a, b];
    assert [a, b][..1] == [a];
    assert [a][..0] == [];
  }

  /** Slot 511 of the P4 table points to the P4 table. */
  predicate SelfMapped(mem: Memory, root: nat) {
    root in mem && |mem[root]| == ENTRY_COUNT && NextTable(mem[root], RECURSIVE_PML4) == Some(root)
  }

  // ----- the shape of the tree -----

  predicate GoodPath(path: Path) {
    && |path| <= 4
    && (forall k :: 0 <= k < |path| ==> path[k] < ENTRY_COUNT)
    && (path != [] ==> path[0] != RECURSIVE_PML4)
  }

  /** The slot is part of the tree: everything but the recursive slot of the root. */
  predicate TreeSlot(pos: map<nat, Path>, f: nat, i: nat)
    requires f in pos
  {
    i < ENTRY_COUNT && GoodPath(pos[f] + [i])
  }

  ghost predicate GoodSlot(mem: Memory, pos: map<nat, Path>, f: nat, i: nat)
    requires f in mem && f in pos && i < |mem[f]| && |pos[f]| <= 3
  {
    var e := mem[f][i];
    || e.IsUnused()
    || (|pos[f]| == 3 && PRESENT in e.flags)
    || (|pos[f]| < 3 && PRESENT in e.flags && HUGE_PAGE !in e.flags
        && e.frame in mem && e.frame in pos && pos[e.frame] == pos[f] + [i])
  }

  /** `f` holds the slot that points to `g`. */
  ghost predicate ParentOf(mem: Memory, pos: map<nat, Path>, f: nat, g: nat)
    requires g in pos && pos[g] != []
  {
    var last := |pos[g]| - 1;
    && f in mem && f in pos && pos[f] == pos[g][..last]
    && pos[g][last] < |mem[f]| && !mem[f][pos[g][last]].IsUnused() && mem[f][pos[g][last]].frame == g
  }

  // Each part quantifies over a named predicate, so that it is used only where it is named.

  ghost predicate SizedAt(mem: Memory, pos: map<nat, Path>, f: nat) {
    f in mem ==> f in pos && |mem[f]| == ENTRY_COUNT && |pos[f]| <= 3 && GoodPath(pos[f])
  }

  ghost predicate Sized(mem: Memory, pos: map<nat, Path>, root: nat) {
    && pos.Keys == mem.Keys && root in mem && root in pos && pos[root] == []
    && forall f :: SizedAt(mem, pos, f)
  }

  ghost predicate Unique(mem: Memory, pos: map<nat, Path>, f: nat, g: nat) {
    f in mem && f in pos && g in mem && g in pos && pos[f] == pos[g] ==> f == g
  }

  ghost predicate Injective(mem: Memory, pos: map<nat, Path>) {
    forall f, g :: Unique(mem, pos, f, g)
  }

  ghost predicate SlotOk(mem: Memory, pos: map<nat, Path>, f: nat, i: nat) {
    f in mem && f in pos && |pos[f]| <= 3 && i < |mem[f]| && TreeSlot(pos, f, i) ==> GoodSlot(mem, pos, f, i)
  }

  ghost predicate SlotsGood(mem: Memory, pos: map<nat, Path>) {
    forall f, i :: SlotOk(mem, pos, f, i)
  }

  ghost predicate ParentOk(mem: Memory, pos: map<nat, Path>, root: nat, g: nat) {
    g in mem && g in pos && g != root ==> pos[g] != [] && exists f :: ParentOf(mem, pos, f, g)
  }

  ghost predicate Parented(mem: Memory, pos: map<nat, Path>, root: nat) {
    forall g :: ParentOk(mem, pos, root, g)
  }

  ghost predicate TreeShape(mem: Memory, pos: map<nat, Path>, root: nat) {
    Sized(mem, pos, root) && Injective(mem, pos) && SlotsGood(mem, pos) && Parented(mem, pos, root)
  }

  // The parts of the shape, one at a time.

  lemma ShapeTable(mem: Memory, pos: map<nat, Path>, root: nat, f: nat)
    requires TreeShape(mem, pos, root) && f in mem
    ensures f in pos && |mem[f]| == ENTRY_COUNT && |pos[f]| <= 3 && GoodPath(pos[f])
    ensures f == root <==> pos[f] == []
  {
    assert SizedAt(mem, pos, f);
    assert Unique(mem, pos, f, root);
  }

  lemma ShapeRoot(mem: Memory, pos: map<nat, Path>, root: nat)
    requires TreeShape(mem, pos, root)
    ensures pos.Keys == mem.Keys && root in mem && root in pos && pos[root] == []
  {
  }

  lemma ShapeSlot(mem: Memory, pos: map<nat, Path>, root: nat, f: nat, i: nat)
    requires TreeShape(mem, pos, root) && f in mem && i < ENTRY_COUNT && f in pos && GoodPath(pos[f] + [i])
    ensures |mem[f]| == ENTRY_COUNT && |pos[f]| <= 3 && GoodSlot(mem, pos, f, i)
  {
    assert SizedAt(mem, pos, f);
    assert SlotOk(mem, pos, f, i);
  }

  lemma ShapeParent(mem: Memory, pos: map<nat, Path>, root: nat, g: nat) returns (f: nat)
    requires TreeShape(mem, pos, root) && g in mem && g != root
    ensures g in pos && pos[g] != [] && ParentOf(mem, pos, f, g)
  {
    assert ParentOk(mem, pos, root, g);
    f :| ParentOf(mem, pos, f, g);
  }

  lemma ShapeInjective(mem: Memory, pos: map<nat, Path>, root: nat, f: nat, g: nat)
    requires TreeShape(mem, pos, root) && f in mem && g in mem && f in pos && g in pos && pos[f] == pos[g]
    ensures f == g
  {
    assert Unique(mem, pos, f, g);
  }

  /** In a well-shaped tree `pos` is the inverse of walking. */
  lemma {:induction false} WalkReaches(mem: Memory, pos: map<nat, Path>, root: nat, g: nat)
    requires TreeShape(mem, pos, root) && g in mem && g in pos
    ensures TableAt(mem, root, pos[g]) == Some(g)
    decreases |pos[g]|
  {
    hide TreeShape;
    ShapeTable(mem, pos, root, g);
    if g != root {
      var f := ShapeParent(mem, pos, root, g);
      WalkReaches(mem, pos, root, f);
      var i := pos[g][|pos[g]| - 1];
      assert pos[g] == pos[f] + [i];
      ShapeSlot(mem, pos, root, f, i);
    }
  }

  lemma {:induction false} WalkLands(mem: Memory, pos: map<nat, Path>, root: nat, path: Path)
    requires TreeShape(mem, pos, root) && GoodPath(path) && |path| <= 3
    ensures match TableAt(mem, root, path)
            case None => true
            case Some(f) => f in mem && f in pos && pos[f] == path
    decreases |path|
  {
    hide TreeShape;
    if path == [] {
      ShapeRoot(mem, pos, root);
    } else {
      var last := |path| - 1;
      WalkLands(mem, pos, root, path[..last]);
      assert path == path[..last] + [path[last]];
      if TableAt(mem, root, path[..last]).Some? {
        var f := TableAt(mem, root, path[..last]).value;
        ShapeSlot(mem, pos, root, f, path[last]);
      }
    }
  }

  /** The table of the last level that holds page `path`, if any. */
  lemma WalkExact(mem: Memory, pos: map<nat, Path>, root: nat, path: Path, f: nat)
    requires TreeShape(mem, pos, root) && GoodPath(path) && |path| <= 3
    ensures TableAt(mem, root, path) == Some(f) <==> f in mem && f in pos && pos[f] == path
  {
    WalkLands(mem, pos, root, path);
    if f in mem && f in pos && pos[f] == path {
      WalkReaches(mem, pos, root, f);
    }
  }

  // ----- what a page resolves to, by position -----

  lemma LookupIn(mem: Memory, pos: map<nat, Path>, root: nat, path: Path, f: nat)
    requires TreeShape(mem, pos, root) && GoodPath(path) && |path| == 4
    requires f in mem && f in pos && pos[f] == path[..3]
    ensures |mem[f]| == ENTRY_COUNT
    ensures Lookup(mem, root, path) ==
            if PRESENT in mem[f][path[3]].flags then Some(Leaf(mem[f][path[3]].frame, mem[f][path[3]].flags)) else None
  {
    hide TreeShape;
    ShapeTable(mem, pos, root, f);
    WalkExact(mem, pos, root, path[..3], f);
  }

  lemma LookupNone(mem: Memory, pos: map<nat, Path>, root: nat, path: Path)
    requires TreeShape(mem, pos, root) && GoodPath(path) && |path| == 4
    requires forall f :: f in mem && f in pos ==> pos[f] != path[..3]
    ensures Lookup(mem, root, path) == None
  {
    hide TreeShape;
    WalkLands(mem, pos, root, path[..3]);
  }

  predicate AllUnused(t: Table) { forall i :: 0 <= i < |t| ==> t[i].IsUnused() }

  /** A last-level table of one tree is in the other with the same slots, or is empty. */
  ghost predicate LeafKept(mem: Memory, pos: map<nat, Path>, mem2: Memory, pos2: map<nat, Path>, f: nat) {
    f in mem && f in pos && |pos[f]| == 3 ==>
      || AllUnused(mem[f])
      || (&& f in mem2 && f in pos2 && pos2[f] == pos[f] && |mem2[f]| == |mem[f]|
          && forall i :: 0 <= i < |mem[f]| ==> SameSlot(mem2[f][i], mem[f][i]))
  }

  ghost predicate LeavesKept(mem: Memory, pos: map<nat, Path>, mem2: Memory, pos2: map<nat, Path>) {
    forall f :: LeafKept(mem, pos, mem2, pos2, f)
  }

  /** Tables that come or go empty change no translation. */
  lemma SameTranslation(mem: Memory, pos: map<nat, Path>, mem2: Memory, pos2: map<nat, Path>, root: nat, path: Path)
    requires TreeShape(mem, pos, root) && TreeShape(mem2, pos2, root) && GoodPath(path) && |path| == 4
    requires LeavesKept(mem, pos, mem2, pos2) && LeavesKept(mem2, pos2, mem, pos)
    ensures Lookup(mem2, root, path) == Lookup(mem, root, path)
  {
    hide TreeShape;
    OneWay(mem, pos, mem2, pos2, root, path);
    OneWay(mem2, pos2, mem, pos, root, path);
  }

  lemma OneWay(mem: Memory, pos: map<nat, Path>, mem2: Memory, pos2: map<nat, Path>, root: nat, path: Path)
    requires TreeShape(mem, pos, root) && TreeShape(mem2, pos2, root) && GoodPath(path) && |path| == 4
    requires LeavesKept(mem, pos, mem2, pos2)
    ensures Lookup(mem, root, path).Some? ==> Lookup(mem2, root, path) == Lookup(mem, root, path)
  {
    hide TreeShape;
    WalkLands(mem, pos, root, path[..3]);
    if Lookup(mem, root, path).Some? {
      var f := TableAt(mem, root, path[..3]).value;
      assert LeafKept(mem, pos, mem2, pos2, f);
      assert !mem[f][path[3]].IsUnused();
      LookupIn(mem, pos, root, path, f);
      LookupIn(mem2, pos2, root, path, f);
      assert SameSlot(mem2[f][path[3]], mem[f][path[3]]);
    }
  }

  // ----- a new empty table -----

  /** The flags of an entry that points to a table. */
  function TableFlags(): set<Flag> { {PRESENT, WRITABLE, USER_ACCESSIBLE} }

  function WithTable(mem: Memory, f: nat, i: nat, g: nat): Memory
    requires f in mem && |mem[f]| == ENTRY_COUNT && i < ENTRY_COUNT
  {
    mem[f := Occupy(mem[f], i, g, TableFlags())][g := EmptyTable()]
  }

  lemma NoTableThere(mem: Memory, pos: map<nat, Path>, root: nat, f: nat, i: nat, h: nat)
    requires TreeShape(mem, pos, root) && f in mem && f in pos && |mem[f]| == ENTRY_COUNT && i < ENTRY_COUNT
    requires mem[f][i].IsUnused() && h in mem && h in pos
    ensures pos[h] != pos[f] + [i]
  {
    hide TreeShape;
    ShapeTable(mem, pos, root, h);
    if h != root {
      var k := ShapeParent(mem, pos, root, h);
      if pos[h] == pos[f] + [i] {
        assert pos[h][..|pos[h]| - 1] == pos[f];
        ShapeInjective(mem, pos, root, f, k);
        assert false;
      }
    }
  }

  /** The precondition of adding table `g` below slot `i` of table `f`. */
  ghost predicate CanAdd(mem: Memory, pos: map<nat, Path>, root: nat, f: nat, i: nat, g: nat) {
    && TreeShape(mem, pos, root) && f in mem && f in pos && |pos[f]| < 3 && |mem[f]| == ENTRY_COUNT && i < ENTRY_COUNT
    && GoodPath(pos[f] + [i]) && mem[f][i].IsUnused() && g !in mem
  }

  lemma AddTable(mem: Memory, pos: map<nat, Path>, root: nat, f: nat, i: nat, g: nat, path: Path)
    requires CanAdd(mem, pos, root, f, i, g) && |path| == 4 && GoodPath(path)
    ensures TreeShape(WithTable(mem, f, i, g), pos[g := pos[f] + [i]], root)
    ensures Lookup(WithTable(mem, f, i, g), root, path) == Lookup(mem, root, path)
  {
    hide TreeShape, LeavesKept;
    var mem2, pos2 := WithTable(mem, f, i, g), pos[g := pos[f] + [i]];
    AddTableShape(mem, pos, root, f, i, g);
    AddTableLeaves(mem, pos, root, f, i, g);
    SameTranslation(mem, pos, mem2, pos2, root, path);
  }

  lemma AddTableLeaves(mem: Memory, pos: map<nat, Path>, root: nat, f: nat, i: nat, g: nat)
    requires CanAdd(mem, pos, root, f, i, g)
    ensures LeavesKept(mem, pos, WithTable(mem, f, i, g), pos[g := pos[f] + [i]])
    ensures LeavesKept(WithTable(mem, f, i, g), pos[g := pos[f] + [i]], mem, pos)
  {
  }

  lemma ShapeSizes(mem: Memory, pos: map<nat, Path>, root: nat)
    requires TreeShape(mem, pos, root)
    ensures pos.Keys == mem.Keys && forall f :: f in mem ==> |mem[f]| == ENTRY_COUNT
  {
    forall f | f in mem
      ensures |mem[f]| == ENTRY_COUNT
    {
      assert SizedAt(mem, pos, f);
    }
  }

  lemma AddTableShape(mem: Memory, pos: map<nat, Path>, root: nat, f: nat, i: nat, g: nat)
    requires CanAdd(mem, pos, root, f, i, g)
    ensures TreeShape(WithTable(mem, f, i, g), pos[g := pos[f] + [i]], root)
  {
    hide TreeShape, Sized, Injective, SlotsGood, Parented;
    AddSized(mem, pos, root, f, i, g);
    AddInjective(mem, pos, root, f, i, g);
    AddSlots(mem, pos, root, f, i, g);
    AddParents(mem, pos, root, f, i, g);
    MakeShape(WithTable(mem, f, i, g), pos[g := pos[f] + [i]], root);
  }

  lemma AddSized(mem: Memory, pos: map<nat, Path>, root: nat, f: nat, i: nat, g: nat)
    requires CanAdd(mem, pos, root, f, i, g)
    ensures Sized(WithTable(mem, f, i, g), pos[g := pos[f] + [i]], root)
  {
    var mem2, pos2 := WithTable(mem, f, i, g), pos[g := pos[f] + [i]];
    OccupyEffect(mem[f], i, g, TableFlags());
    forall h
      ensures SizedAt(mem2, pos2, h)
    {
      assert SizedAt(mem, pos, h);
    }
  }

  lemma AddInjective(mem: Memory, pos: map<nat, Path>, root: nat, f: nat, i: nat, g: nat)
    requires CanAdd(mem, pos, root, f, i, g)
    ensures Injective(WithTable(mem, f, i, g), pos[g := pos[f] + [i]])
  {
    hide TreeShape;
    var mem2, pos2 := WithTable(mem, f, i, g), pos[g := pos[f] + [i]];
    ShapeRoot(mem, pos, root);
    forall h, k
      ensures Unique(mem2, pos2, h, k)
    {
      if h in mem { NoTableThere(mem, pos, root, f, i, h); }
      if k in mem { NoTableThere(mem, pos, root, f, i, k); }
      if h in mem && k in mem && pos[h] == pos[k] { ShapeInjective(mem, pos, root, h, k); }
    }
  }

  lemma AddSlots(mem: Memory, pos: map<nat, Path>, root: nat, f: nat, i: nat, g: nat)
    requires CanAdd(mem, pos, root, f, i, g)
    ensures SlotsGood(WithTable(mem, f, i, g), pos[g := pos[f] + [i]])
  {
    hide TreeShape;
    var mem2, pos2 := WithTable(mem, f, i, g), pos[g := pos[f] + [i]];
    OccupyEffect(mem[f], i, g, TableFlags());
    ShapeSizes(mem, pos, root);
    forall h, j
      ensures SlotOk(mem2, pos2, h, j)
    {
      if h in mem && TreeSlot(pos, h, j) { ShapeSlot(mem, pos, root, h, j); }
    }
  }

  lemma AddParents(mem: Memory, pos: map<nat, Path>, root: nat, f: nat, i: nat, g: nat)
    requires CanAdd(mem, pos, root, f, i, g)
    ensures Parented(WithTable(mem, f, i, g), pos[g := pos[f] + [i]], root)
  {
    hide TreeShape;
    var mem2, pos2 := WithTable(mem, f, i, g), pos[g := pos[f] + [i]];
    OccupyEffect(mem[f], i, g, TableFlags());
    ShapeSizes(mem, pos, root);
    forall h
      ensures ParentOk(mem2, pos2, root, h)
    {
      if h == g {
        assert (pos[f] + [i])[..|pos[f]|] == pos[f];
        assert ParentOf(mem2, pos2, f, g);
      } else if h in mem && h != root {
        var k := ShapeParent(mem, pos, root, h);
        assert ParentOf(mem2, pos2, k, h);
      }
    }
  }

  // ----- an empty table goes -----

  /** Slot `i` of table `f` points to `g`, and nothing in `g` is in use. */
  ghost predicate CanDrop(mem: Memory, pos: map<nat, Path>, root: nat, f: nat, i: nat, g: nat) {
    && TreeShape(mem, pos, root) && f in mem && f in pos && |pos[f]| < 3 && |mem[f]| == ENTRY_COUNT && i < ENTRY_COUNT
    && GoodPath(pos[f] + [i]) && EntryCount(mem[f]) > 0 && !mem[f][i].IsUnused() && mem[f][i].frame == g
    && g in mem && AllUnused(mem[g])
  }

  function WithoutTable(mem: Memory, f: nat, i: nat, g: nat): Memory
    requires f in mem && |mem[f]| == ENTRY_COUNT && i < ENTRY_COUNT && EntryCount(mem[f]) > 0
  {
    mem[f := Vacate(mem[f], i)] - {g}
  }

  lemma DropFacts(mem: Memory, pos: map<nat, Path>, root: nat, f: nat, i: nat, g: nat)
    requires CanDrop(mem, pos, root, f, i, g)
    ensures g in pos && pos[g] == pos[f] + [i] && g != f && g != root
    ensures pos.Keys == mem.Keys && |mem[g]| == ENTRY_COUNT
  {
    hide TreeShape;
    ShapeSlot(mem, pos, root, f, i);
    ShapeSizes(mem, pos, root);
    ShapeRoot(mem, pos, root);
  }

  lemma DropTable(mem: Memory, pos: map<nat, Path>, root: nat, f: nat, i: nat, g: nat, path: Path)
    requires CanDrop(mem, pos, root, f, i, g) && |path| == 4 && GoodPath(path)
    ensures TreeShape(WithoutTable(mem, f, i, g), pos - {g}, root)
    ensures Lookup(WithoutTable(mem, f, i, g), root, path) == Lookup(mem, root, path)
  {
    hide TreeShape, LeavesKept;
    DropTableShape(mem, pos, root, f, i, g);
    DropTableLeaves(mem, pos, root, f, i, g);
    SameTranslation(mem, pos, WithoutTable(mem, f, i, g), pos - {g}, root, path);
  }

  lemma DropTableLeaves(mem: Memory, pos: map<nat, Path>, root: nat, f: nat, i: nat, g: nat)
    requires CanDrop(mem, pos, root, f, i, g)
    ensures LeavesKept(mem, pos, WithoutTable(mem, f, i, g), pos - {g})
    ensures LeavesKept(WithoutTable(mem, f, i, g), pos - {g}, mem, pos)
  {
  }

  lemma DropTableShape(mem: Memory, pos: map<nat, Path>, root: nat, f: nat, i: nat, g: nat)
    requires CanDrop(mem, pos, root, f, i, g)
    ensures TreeShape(WithoutTable(mem, f, i, g), pos - {g}, root)
  {
    hide TreeShape, Sized, Injective, SlotsGood, Parented;
    DropSized(mem, pos, root, f, i, g);
    DropInjective(mem, pos, root, f, i, g);
    DropSlots(mem, pos, root, f, i, g);
    DropParents(mem, pos, root, f, i, g);
    MakeShape(WithoutTable(mem, f, i, g), pos - {g}, root);
  }

  lemma DropSized(mem: Memory, pos: map<nat, Path>, root: nat, f: nat, i: nat, g: nat)
    requires CanDrop(mem, pos, root, f, i, g)
    ensures Sized(WithoutTable(mem, f, i, g), pos - {g}, root)
  {
    var mem2, pos2 := WithoutTable(mem, f, i, g), pos - {g};
    DropFacts(mem, pos, root, f, i, g);
    VacateEffect(mem[f], i);
    forall h
      ensures SizedAt(mem2, pos2, h)
    {
      assert SizedAt(mem, pos, h);
    }
  }

  lemma DropInjective(mem: Memory, pos: map<nat, Path>, root: nat, f: nat, i: nat, g: nat)
    requires CanDrop(mem, pos, root, f, i, g)
    ensures Injective(WithoutTable(mem, f, i, g), pos - {g})
  {
    forall h, k
      ensures Unique(WithoutTable(mem, f, i, g), pos - {g}, h, k)
    {
      assert Unique(mem, pos, h, k);
    }
  }

  lemma DropSlots(mem: Memory, pos: map<nat, Path>, root: nat, f: nat, i: nat, g: nat)
    requires CanDrop(mem, pos, root, f, i, g)
    ensures SlotsGood(WithoutTable(mem, f, i, g), pos - {g})
  {
    hide TreeShape;
    var mem2, pos2 := WithoutTable(mem, f, i, g), pos - {g};
    DropFacts(mem, pos, root, f, i, g);
    VacateEffect(mem[f], i);
    ShapeSizes(mem, pos, root);
    forall h, j
      ensures SlotOk(mem2, pos2, h, j)
    {
      if h in mem && TreeSlot(pos, h, j) {
        ShapeSlot(mem, pos, root, h, j);
        if pos[h] + [j] == pos[f] + [i] {
          assert pos[h] == (pos[h] + [j])[..|pos[h]|] == pos[f];
          ShapeInjective(mem, pos, root, h, f);
        }
      }
    }
  }

  lemma DropParents(mem: Memory, pos: map<nat, Path>, root: nat, f: nat, i: nat, g: nat)
    requires CanDrop(mem, pos, root, f, i, g)
    ensures Parented(WithoutTable(mem, f, i, g), pos - {g}, root)
  {
    hide TreeShape;
    var mem2, pos2 := WithoutTable(mem, f, i, g), pos - {g};
    DropFacts(mem, pos, root, f, i, g);
    VacateEffect(mem[f], i);
    ShapeSizes(mem, pos, root);
    forall h
      ensures ParentOk(mem2, pos2, root, h)
    {
      if h in mem2 && h != root {
        var k := ShapeParent(mem, pos, root, h);
        assert ParentOf(mem2, pos2, k, h);
      }
    }
  }

  // ----- a slot of a last-level table changes -----

  /** `t` is table `f` with only slot `i` changed. */
  ghost predicate CanSetLeaf(mem: Memory, pos: map<nat, Path>, root: nat, f: nat, i: nat, t: Table) {
    && TreeShape(mem, pos, root) && f in mem && f in pos && |pos[f]| == 3 && |mem[f]| == |t| == ENTRY_COUNT
    && i < ENTRY_COUNT
    && (t[i].IsUnused() || PRESENT in t[i].flags)
    && (forall j :: 0 <= j < ENTRY_COUNT && j != i ==> SameSlot(t[j], mem[f][j]))
  }

  function LeafOf(e: Entry): Option<Leaf> {
    if PRESENT in e.flags then Some(Leaf(e.frame, e.flags)) else None
  }

  lemma SetLeafShape(mem: Memory, pos: map<nat, Path>, root: nat, f: nat, i: nat, t: Table)
    requires CanSetLeaf(mem, pos, root, f, i, t)
    ensures TreeShape(mem[f := t], pos, root)
  {
    hide TreeShape, SlotsGood, Parented;
    SetLeafRest(mem, pos, root, f, i, t);
    SetLeafSlots(mem, pos, root, f, i, t);
    SetLeafParents(mem, pos, root, f, i, t);
    MakeShape(mem[f := t], pos, root);
  }

  lemma MakeShape(mem: Memory, pos: map<nat, Path>, root: nat)
    requires Sized(mem, pos, root) && Injective(mem, pos) && SlotsGood(mem, pos) && Parented(mem, pos, root)
    ensures TreeShape(mem, pos, root)
  {
  }

  lemma SetLeafRest(mem: Memory, pos: map<nat, Path>, root: nat, f: nat, i: nat, t: Table)
    requires CanSetLeaf(mem, pos, root, f, i, t)
    ensures Sized(mem[f := t], pos, root) && Injective(mem[f := t], pos)
  {
    var mem2 := mem[f := t];
    forall h
      ensures SizedAt(mem2, pos, h)
    {
      assert SizedAt(mem, pos, h);
    }
    forall h, k
      ensures Unique(mem2, pos, h, k)
    {
      assert Unique(mem, pos, h, k);
    }
  }

  lemma SetLeafSlots(mem: Memory, pos: map<nat, Path>, root: nat, f: nat, i: nat, t: Table)
    requires CanSetLeaf(mem, pos, root, f, i, t)
    ensures SlotsGood(mem[f := t], pos)
  {
    hide TreeShape;
    var mem2 := mem[f := t];
    ShapeSizes(mem, pos, root);
    forall h, j
      ensures SlotOk(mem2, pos, h, j)
    {
      if h in mem && TreeSlot(pos, h, j) { ShapeSlot(mem, pos, root, h, j); }
    }
  }

  lemma SetLeafParents(mem: Memory, pos: map<nat, Path>, root: nat, f: nat, i: nat, t: Table)
    requires CanSetLeaf(mem, pos, root, f, i, t)
    ensures Parented(mem[f := t], pos, root)
  {
    hide TreeShape;
    var mem2 := mem[f := t];
    forall h
      ensures ParentOk(mem2, pos, root, h)
    {
      if h in mem && h != root {
        ShapeTable(mem, pos, root, h);
        var k := ShapeParent(mem, pos, root, h);
        assert ParentOf(mem2, pos, k, h);
      }
    }
  }

  /** Exactly the page at slot `i` resolves anew. */
  lemma SetLeaf(mem: Memory, pos: map<nat, Path>, root: nat, f: nat, i: nat, t: Table, path: Path)
    requires CanSetLeaf(mem, pos, root, f, i, t) && |path| == 4 && GoodPath(path)
    ensures TreeShape(mem[f := t], pos, root)
    ensures Lookup(mem[f := t], root, path) ==
            if path == pos[f] + [i] then LeafOf(t[i]) else Lookup(mem, root, path)
  {
    hide TreeShape;
    SetLeafShape(mem, pos, root, f, i, t);
    ShapeSizes(mem, pos, root);
    assert path == path[..3] + [path[3]];
    WalkLands(mem, pos, root, path[..3]);
    WalkLands(mem[f := t], pos, root, path[..3]);
    if h :| h in mem && pos[h] == path[..3] {
      LookupIn(mem, pos, root, path, h);
      LookupIn(mem[f := t], pos, root, path, h);
      if pos[h] == pos[f] {
        ShapeInjective(mem, pos, root, h, f);
      }
    } else {
      LookupNone(mem, pos, root, path);
      LookupNone(mem[f := t], pos, root, path);
    }
  }

  // ----- sharing a subtree of another root -----

  ghost predicate UnderSlot(pos: map<nat, Path>, i: nat, f: nat) {
    f in pos && pos[f] != [] && pos[f][0] == i
  }

  /** The tables below slot `i` of the root. */
  ghost function Below(pos: map<nat, Path>, i: nat): set<nat> {
    set f | f in pos && UnderSlot(pos, i, f)
  }

  /** Below an unused slot of the root there is no table. */
  lemma {:induction false} NoneUnder(mem: Memory, pos: map<nat, Path>, root: nat, i: nat, f: nat)
    requires TreeShape(mem, pos, root) && root in mem && i < |mem[root]| && mem[root][i].IsUnused() && f in mem
    ensures !UnderSlot(pos, i, f)
    decreases if f in pos then |pos[f]| else 0
  {
    hide TreeShape;
    ShapeTable(mem, pos, root, f);
    if f != root {
      var h := ShapeParent(mem, pos, root, f);
      ShapeTable(mem, pos, root, h);
      NoneUnder(mem, pos, root, i, h);
      if h != root {
        assert pos[f][0] == pos[h][0];
      }
    }
  }

  /** The tables of another root below its slot `i`, hung into the free slot `i` of this root. */
  ghost predicate CanShare(mem: Memory, pos: map<nat, Path>, root: nat, from: Memory, fromPos: map<nat, Path>,
      fromRoot: nat, i: nat) {
    && TreeShape(mem, pos, root) && TreeShape(from, fromPos, fromRoot)
    && i < ENTRY_COUNT && i != RECURSIVE_PML4 && root in mem && |mem[root]| == ENTRY_COUNT && mem[root][i].IsUnused()
    && fromRoot in from && |from[fromRoot]| == ENTRY_COUNT && NextTable(from[fromRoot], i).Some?
    && Below(fromPos, i) !! mem.Keys && Below(fromPos, i) <= from.Keys
  }

  function SharedRoot(t: Table, i: nat, e: Entry): Table
    requires i < |t|
  {
    t[i := t[i].Set(e.frame, e.flags)]
  }

  function WithShared(mem: Memory, root: nat, from: Memory, fromRoot: nat, i: nat, tables: set<nat>): Memory
    requires root in mem && i < |mem[root]| && fromRoot in from && i < |from[fromRoot]| && tables <= from.Keys
  {
    mem[root := SharedRoot(mem[root], i, from[fromRoot][i])] + (map f | f in tables :: from[f])
  }

  ghost function PosShared(pos: map<nat, Path>, fromPos: map<nat, Path>, tables: set<nat>): map<nat, Path>
    requires tables <= fromPos.Keys
  {
    pos + (map f | f in tables :: fromPos[f])
  }

  lemma ShareSized(mem: Memory, pos: map<nat, Path>, root: nat, from: Memory, fromPos: map<nat, Path>,
      fromRoot: nat, i: nat)
    requires CanShare(mem, pos, root, from, fromPos, fromRoot, i)
    ensures var tables := Below(fromPos, i);
            var mem2, pos2 := WithShared(mem, root, from, fromRoot, i, tables), PosShared(pos, fromPos, tables);
            Sized(mem2, pos2, root) && Injective(mem2, pos2)
  {
    hide TreeShape;
    var tables := Below(fromPos, i);
    var mem2, pos2 := WithShared(mem, root, from, fromRoot, i, tables), PosShared(pos, fromPos, tables);
    ShapeRoot(mem, pos, root);
    forall f
      ensures SizedAt(mem2, pos2, f)
    {
      if f in tables {
        ShapeTable(from, fromPos, fromRoot, f);
      } else if f in mem {
        ShapeTable(mem, pos, root, f);
      }
    }
    forall f, g
      ensures Unique(mem2, pos2, f, g)
    {
      if f in mem2 && g in mem2 && pos2[f] == pos2[g] {
        if f in tables && g in tables {
          ShapeInjective(from, fromPos, fromRoot, f, g);
        } else if f in mem && g in mem {
          ShapeInjective(mem, pos, root, f, g);
        } else {
          NoneUnder(mem, pos, root, i, if f in mem then f else g);
        }
      }
    }
  }

  lemma ShareSlots(mem: Memory, pos: map<nat, Path>, root: nat, from: Memory, fromPos: map<nat, Path>,
      fromRoot: nat, i: nat)
    requires CanShare(mem, pos, root, from, fromPos, fromRoot, i)
    ensures var tables := Below(fromPos, i);
            SlotsGood(WithShared(mem, root, from, fromRoot, i, tables), PosShared(pos, fromPos, tables))
  {
    hide TreeShape;
    var tables := Below(fromPos, i);
    var mem2, pos2 := WithShared(mem, root, from, fromRoot, i, tables), PosShared(pos, fromPos, tables);
    ShapeRoot(mem, pos, root);
    ShapeRoot(from, fromPos, fromRoot);
    forall f: nat, j: nat
      ensures SlotOk(mem2, pos2, f, j)
    {
      if f in mem2 && j < |mem2[f]| && TreeSlot(pos2, f, j) {
        if f in tables {
          ShapeSlot(from, fromPos, fromRoot, f, j);
          ChildUnder(from, fromPos, i, f, j);
        } else if f == root && j == i {
          assert fromPos[fromRoot] + [i] == [i] == pos[root] + [i];
          ShapeSlot(from, fromPos, fromRoot, fromRoot, i);
        } else {
          ShapeSlot(mem, pos, root, f, j);
        }
      }
    }
  }

  lemma ChildUnder(mem: Memory, pos: map<nat, Path>, i: nat, f: nat, j: nat)
    requires f in mem && UnderSlot(pos, i, f) && j < |mem[f]| && |pos[f]| <= 3 && GoodSlot(mem, pos, f, j)
    ensures !mem[f][j].IsUnused() && |pos[f]| < 3 ==> mem[f][j].frame in Below(pos, i)
  {
    if !mem[f][j].IsUnused() && |pos[f]| < 3 {
      assert (pos[f] + [j])[0] == i;
    }
  }

  lemma ShareParents(mem: Memory, pos: map<nat, Path>, root: nat, from: Memory, fromPos: map<nat, Path>,
      fromRoot: nat, i: nat)
    requires CanShare(mem, pos, root, from, fromPos, fromRoot, i)
    ensures var tables := Below(fromPos, i);
            Parented(WithShared(mem, root, from, fromRoot, i, tables), PosShared(pos, fromPos, tables), root)
  {
    hide TreeShape;
    var tables := Below(fromPos, i);
    var mem2, pos2 := WithShared(mem, root, from, fromRoot, i, tables), PosShared(pos, fromPos, tables);
    ShapeRoot(mem, pos, root);
    ShapeRoot(from, fromPos, fromRoot);
    forall g
      ensures ParentOk(mem2, pos2, root, g)
    {
      if g in tables {
        ShapeTable(from, fromPos, fromRoot, fromRoot);
        var f := ShapeParent(from, fromPos, fromRoot, g);
        ShapeTable(from, fromPos, fromRoot, f);
        if f == fromRoot {
          assert ParentOf(mem2, pos2, root, g);
        } else {
          assert fromPos[f][0] == fromPos[g][0];
          assert ParentOf(mem2, pos2, f, g);
        }
      } else if g in mem && g != root {
        var f := ShapeParent(mem, pos, root, g);
        ShapeTable(mem, pos, root, f);
        assert ParentOf(mem2, pos2, f, g);
      }
    }
  }

  /** Sharing keeps the tree shape. */
  lemma ShareShape(mem: Memory, pos: map<nat, Path>, root: nat, from: Memory, fromPos: map<nat, Path>,
      fromRoot: nat, i: nat)
    requires CanShare(mem, pos, root, from, fromPos, fromRoot, i)
    ensures var tables := Below(fromPos, i);
            TreeShape(WithShared(mem, root, from, fromRoot, i, tables), PosShared(pos, fromPos, tables), root)
  {
    hide Sized, Injective, SlotsGood, Parented, TreeShape;
    ShareSized(mem, pos, root, from, fromPos, fromRoot, i);
    ShareSlots(mem, pos, root, from, fromPos, fromRoot, i);
    ShareParents(mem, pos, root, from, fromPos, fromRoot, i);
    var tables := Below(fromPos, i);
    MakeShape(WithShared(mem, root, from, fromRoot, i, tables), PosShared(pos, fromPos, tables), root);
  }

  /** Below the shared slot pages resolve as with the other root, elsewhere as before. */
  lemma ShareLookup(mem: Memory, pos: map<nat, Path>, root: nat, from: Memory, fromPos: map<nat, Path>,
      fromRoot: nat, i: nat, path: Path)
    requires CanShare(mem, pos, root, from, fromPos, fromRoot, i) && |path| == 4 && GoodPath(path)
    ensures Lookup(WithShared(mem, root, from, fromRoot, i, Below(fromPos, i)), root, path) ==
            if path[0] == i then Lookup(from, fromRoot, path) else Lookup(mem, root, path)
  {
    hide TreeShape, Lookup;
    var tables := Below(fromPos, i);
    var mem2, pos2 := WithShared(mem, root, from, fromRoot, i, tables), PosShared(pos, fromPos, tables);
    ShareShape(mem, pos, root, from, fromPos, fromRoot, i);
    ShapeRoot(mem, pos, root);
    ShapeRoot(from, fromPos, fromRoot);
    ShapeRoot(mem2, pos2, root);
    var (m, p, r) := if path[0] == i then (from, fromPos, fromRoot) else (mem, pos, root);
    assert path[..3][0] == path[0];
    if f :| f in m && p[f] == path[..3] {
      assert f in tables <==> path[0] == i;
      ShapeTable(m, p, r, f);
      LookupIn(m, p, r, path, f);
      LookupIn(mem2, pos2, root, path, f);
    } else {
      LookupNone(m, p, r, path);
      forall f | f in mem2 && f in pos2
        ensures pos2[f] != path[..3]
      {
        if f in mem && path[0] == i {
          NoneUnder(mem, pos, root, i, f);
        }
      }
      LookupNone(mem2, pos2, root, path);
    }
  }
}
