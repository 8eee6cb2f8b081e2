/**
 The kernel reaches its page tables through virtual addresses: slot 511 of the P4 table
 points to the P4 table itself, and `next_table_address`
 (kernel/src/arch/x86_64/paging/table.rs) derives the address of each table from that of
 its parent.  Here these addresses are walked as the processor does (4-level paging,
 section 4.5 of volume 3A of the Intel SDM).
 */
module RecursiveSlot {
  import opened Wrappers
  import opened PageEntry
  import opened PageTables

  const P4_ADDRESS: bv64 := 0xffff_ffff_ffff_f000

  /** `(table_address << 9) | (index << 12)`. */
  function NextAddress(table: bv64, index: bv64): bv64 {
    (table << 9) | (index << 12)
  }

  /** Bits 47 to 63 are equal. */
  predicate CanonicalAddress(a: bv64) {
    a >> 47 == 0 || a >> 47 == 0x1_ffff
  }

  // The four index fields of an address, from bit 39 down.

  function Field4(a: bv64): bv64 { (a >> 39) & 0x1ff }

  function Field3(a: bv64): bv64 { (a >> 30) & 0x1ff }

  function Field2(a: bv64): bv64 { (a >> 21) & 0x1ff }

  function Field1(a: bv64): bv64 { (a >> 12) & 0x1ff }

  /** `p4_index` to `p1_index` of the page containing the address, by shifts of the page number. */
  lemma FieldsArePageIndices(a: bv64)
    ensures Field4(a) == ((a >> 12) >> 27) & 0x1ff
    ensures Field3(a) == ((a >> 12) >> 18) & 0x1ff
    ensures Field2(a) == ((a >> 12) >> 9) & 0x1ff
    ensures Field1(a) == (a >> 12) & 0x1ff
  {
  }

  /** What the processor finds at an address: the frame of the page, by a walk from the P4 table. */
  function HardwareWalk(mem: Memory, root: nat, a: bv64): Option<nat> {
    var leaf := Lookup(mem, root, [Field4(a) as nat, Field3(a) as nat, Field2(a) as nat, Field1(a) as nat]);
    if leaf.Some? then Some(leaf.value.frame) else None
  }

  // ----- the fields of the derived addresses -----

  predicate HasFields(a: bv64, f4: bv64, f3: bv64, f2: bv64, f1: bv64) {
    CanonicalAddress(a) && Field4(a) == f4 && Field3(a) == f3 && Field2(a) == f2 && Field1(a) == f1
  }

  lemma Window4()
    ensures HasFields(P4_ADDRESS, 511, 511, 511, 511)
  {
  }

  lemma Window3(i4: bv64)
    requires i4 < 512
    ensures NextAddress(P4_ADDRESS, i4) == 0xffff_ffff_ffe0_0000 | (i4 << 12)
    ensures HasFields(NextAddress(P4_ADDRESS, i4), 511, 511, 511, i4)
  {
  }

  lemma Window2(a: bv64, i4: bv64, i3: bv64)
    requires i4 < 512 && i3 < 512 && a == 0xffff_ffff_ffe0_0000 | (i4 << 12)
    ensures NextAddress(a, i3) == 0xffff_ffff_c000_0000 | (i4 << 21) | (i3 << 12)
    ensures HasFields(NextAddress(a, i3), 511, 511, i4, i3)
  {
  }

  lemma Window1(a: bv64, i4: bv64, i3: bv64, i2: bv64)
    requires i4 < 512 && i3 < 512 && i2 < 512 && a == 0xffff_ffff_c000_0000 | (i4 << 21) | (i3 << 12)
    ensures HasFields(NextAddress(a, i2), 511, i4, i3, i2)
  {
  }

  // ----- walking through the recursive slot -----

  /** A walk is decided by the four fields of the address. */
  lemma WalkByFields(mem: Memory, root: nat, a: bv64, f4: bv64, f3: bv64, f2: bv64, f1: bv64)
    requires HasFields(a, f4, f3, f2, f1)
    ensures HardwareWalk(mem, root, a) ==
            match Child(mem, Child(mem, Child(mem, Some(root), f4 as nat), f3 as nat), f2 as nat)
            case None => None
            case Some(f) => if f in mem && f1 as nat < |mem[f]| then mem[f][f1 as nat].PointedFrame() else None
  {
    hide CanonicalAddress, Field4, Field3, Field2, Field1, Lookup, TableAt;
    WalkBySlots(mem, root, f4 as nat, f3 as nat, f2 as nat, f1 as nat);
  }

  /**
   Following the derived addresses by a page's indices, the processor ends at the frame of
   the P4 table, of the page's P3 table, of its P2 table and of its P1 table.
   */
  lemma WindowsReachTables(mem: Memory, root: nat, i4: bv64, i3: bv64, i2: bv64)
    requires SelfMapped(mem, root) && i4 < 512 && i3 < 512 && i2 < 512
    ensures HardwareWalk(mem, root, P4_ADDRESS) == Some(root) && CanonicalAddress(P4_ADDRESS)
    ensures var a3 := NextAddress(P4_ADDRESS, i4);
            var a2 := NextAddress(a3, i3);
            var a1 := NextAddress(a2, i2);
            var p3 := Child(mem, Some(root), i4 as nat);
            var p2 := Child(mem, p3, i3 as nat);
            var p1 := Child(mem, p2, i2 as nat);
            && CanonicalAddress(a3) && CanonicalAddress(a2) && CanonicalAddress(a1)
            && (p3.Some? ==> HardwareWalk(mem, root, a3) == p3)
            && (p2.Some? ==> HardwareWalk(mem, root, a2) == p2)
            && (p1.Some? ==> HardwareWalk(mem, root, a1) == p1)
  {
    hide CanonicalAddress, NextAddress, HardwareWalk, HasFields, Child;
    var a3 := NextAddress(P4_ADDRESS, i4);
    var a2 := NextAddress(a3, i3);
    var a1 := NextAddress(a2, i2);
    Windows(i4, i3, i2);
    var p3 := Child(mem, Some(root), i4 as nat);
    var p2 := Child(mem, p3, i3 as nat);
    ThroughSelf(mem, root);
    Reaches(mem, root, P4_ADDRESS, 511, 511, 511, 511);
    Reaches(mem, root, a3, 511, 511, 511, i4);
    Reaches(mem, root, a2, 511, 511, i4, i3);
    Reaches(mem, root, a1, 511, i4, i3, i2);
  }

  lemma Windows(i4: bv64, i3: bv64, i2: bv64)
    requires i4 < 512 && i3 < 512 && i2 < 512
    ensures HasFields(P4_ADDRESS, 511, 511, 511, 511)
    ensures var a3 := NextAddress(P4_ADDRESS, i4);
            var a2 := NextAddress(a3, i3);
            && HasFields(a3, 511, 511, 511, i4) && HasFields(a2, 511, 511, i4, i3)
            && HasFields(NextAddress(a2, i2), 511, i4, i3, i2)
  {
    hide HasFields, NextAddress;
    Window4();
    Window3(i4);
    Window2(NextAddress(P4_ADDRESS, i4), i4, i3);
    Window1(NextAddress(NextAddress(P4_ADDRESS, i4), i3), i4, i3, i2);
  }

  lemma ThroughSelf(mem: Memory, root: nat)
    requires SelfMapped(mem, root)
    ensures Child(mem, Some(root), (511 as bv64) as nat) == Some(root)
  {
  }

  /** A walk ends at the frame the last table points to. */
  lemma Reaches(mem: Memory, root: nat, a: bv64, f4: bv64, f3: bv64, f2: bv64, f1: bv64)
    requires HasFields(a, f4, f3, f2, f1)
    ensures CanonicalAddress(a)
    ensures var p2 := Child(mem, Child(mem, Some(root), f4 as nat), f3 as nat);
            var end := Child(mem, Child(mem, p2, f2 as nat), f1 as nat);
            end.Some? ==> HardwareWalk(mem, root, a) == end
  {
    hide CanonicalAddress, HardwareWalk, Field4, Field3, Field2, Field1;
    WalkByFields(mem, root, a, f4, f3, f2, f1);
    PointsThere(mem, Child(mem, Child(mem, Child(mem, Some(root), f4 as nat), f3 as nat), f2 as nat), f1 as nat);
  }

  lemma PointsThere(mem: Memory, t: Option<nat>, i: nat)
    ensures Child(mem, t, i).Some? ==>
      t.Some? && t.value in mem && i < |mem[t.value]| && mem[t.value][i].PointedFrame() == Child(mem, t, i)
  {
  }

}
