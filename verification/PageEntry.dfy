/**
 One page table entry (kernel/src/arch/x86_64/paging/entry.rs).  The kernel packs a
 frame, a set of flags and a counter into one 64-bit word.  The record below is what
 the rest of the model works with; the second half shows that every bit operation on
 the word does to the record exactly what its name says and touches nothing else.
 */
module PageEntry {
  import opened Wrappers

  datatype Flag =
    | PRESENT | WRITABLE | USER_ACCESSIBLE | WRITE_THROUGH | NO_CACHE
    | ACCESSED | DIRTY | HUGE_PAGE | GLOBAL | NO_EXECUTE

  datatype Entry = Entry(frame: nat, flags: set<Flag>, counter: nat) {
    predicate IsUnused() { frame == 0 && flags == {} }

    function PointedFrame(): Option<nat> {
      if PRESENT in flags then Some(frame) else None
    }

    function Set(f: nat, fs: set<Flag>): Entry { Entry(f, fs, counter) }

    function SetUnused(): Entry { Entry(0, {}, counter) }

    function SetCounter(c: nat): Entry { Entry(frame, flags, c) }
  }

  const ZERO := Entry(0, {}, 0)

  // ----- the 64-bit word -----

  const ADDRESS_MASK: bv64 := 0x000f_ffff_ffff_f000
  const COUNTER_MASK: bv64 := 0x3ff0_0000_0000_0000
  /** Bits 9 to 11 and 62 belong to nothing and stay clear. */
  const SPARE_MASK: bv64 := 0x4000_0000_0000_0e00

  /** All flag bits: the words of type `EntryFlags` have no others. */
  const FLAGS_MASK: bv64 := 0x8000_0000_0000_01ff

  predicate HasFlag(w: bv64, f: Flag) {
    match f
    case PRESENT => w & 0x1 != 0
    case WRITABLE => w & 0x2 != 0
    case USER_ACCESSIBLE => w & 0x4 != 0
    case WRITE_THROUGH => w & 0x8 != 0
    case NO_CACHE => w & 0x10 != 0
    case ACCESSED => w & 0x20 != 0
    case DIRTY => w & 0x40 != 0
    case HUGE_PAGE => w & 0x80 != 0
    case GLOBAL => w & 0x100 != 0
    case NO_EXECUTE => w & 0x8000_0000_0000_0000 != 0
  }

  /** `EntryFlags::from_bits_truncate`. */
  function FlagsOf(w: bv64): set<Flag> { set f: Flag | HasFlag(w, f) }

  function FrameBits(w: bv64): bv64 { (w & ADDRESS_MASK) >> 12 }

  function CounterBits(w: bv64): bv64 { (w & COUNTER_MASK) >> 52 }

  predicate Clean(w: bv64) { w & SPARE_MASK == 0 }

  function Decode(w: bv64): Entry {
    Entry(FrameBits(w) as nat, FlagsOf(w), CounterBits(w) as nat)
  }

  predicate WordIsUnused(w: bv64) { w == w & COUNTER_MASK }

  function WordSetUnused(w: bv64): bv64 { w & COUNTER_MASK }

  /** `Entry::set`, the frame given by its number. */
  function WordSet(w: bv64, frame: bv64, flags: bv64): bv64 {
    (frame << 12) | flags | (w & COUNTER_MASK)
  }

  function WordSetCounter(w: bv64, count: bv64): bv64 {
    (w & !COUNTER_MASK) | (count << 52)
  }

  // ----- the word operations refine the record operations -----

  predicate SameFlagBits(w: bv64, v: bv64) { w & FLAGS_MASK == v & FLAGS_MASK }

  lemma SameFlag(w: bv64, v: bv64, f: Flag)
    requires SameFlagBits(w, v)
    ensures HasFlag(w, f) <==> HasFlag(v, f)
  {
  }

  /** A bit operation that leaves the flag bits of a word alone leaves its flags alone. */
  lemma SameFlags(w: bv64, v: bv64)
    requires SameFlagBits(w, v)
    ensures FlagsOf(w) == FlagsOf(v)
  {
    hide HasFlag, SameFlagBits;
    forall f: Flag
      ensures HasFlag(w, f) <==> HasFlag(v, f)
    {
      SameFlag(w, v, f);
    }
  }

  lemma FlagMember(w: bv64, f: Flag)
    ensures f in FlagsOf(w) <==> HasFlag(w, f)
  {
  }

  lemma NoFlags(w: bv64)
    ensures FlagsOf(w) == {} <==> w & FLAGS_MASK == 0
  {
    if FlagsOf(w) == {} {
      forall f: Flag
        ensures !HasFlag(w, f)
      {
        FlagMember(w, f);
      }
      assert !HasFlag(w, PRESENT) && !HasFlag(w, WRITABLE);
      assert !HasFlag(w, USER_ACCESSIBLE) && !HasFlag(w, WRITE_THROUGH);
      assert !HasFlag(w, NO_CACHE) && !HasFlag(w, ACCESSED) && !HasFlag(w, DIRTY) && !HasFlag(w, HUGE_PAGE);
      assert !HasFlag(w, GLOBAL) && !HasFlag(w, NO_EXECUTE);
    }
    if w & FLAGS_MASK == 0 {
      SameFlags(w, 0);
    }
  }

  predicate Bit(w: bv64, k: bv7)
    requires k < 64
  {
    (w >> k) & 1 == 1
  }

  /** Which bit each flag is. */
  lemma FlagBits(w: bv64)
    ensures (PRESENT in FlagsOf(w) <==> Bit(w, 0)) && (WRITABLE in FlagsOf(w) <==> Bit(w, 1))
    ensures (USER_ACCESSIBLE in FlagsOf(w) <==> Bit(w, 2)) && (WRITE_THROUGH in FlagsOf(w) <==> Bit(w, 3))
    ensures (NO_CACHE in FlagsOf(w) <==> Bit(w, 4)) && (ACCESSED in FlagsOf(w) <==> Bit(w, 5))
    ensures (DIRTY in FlagsOf(w) <==> Bit(w, 6)) && (HUGE_PAGE in FlagsOf(w) <==> Bit(w, 7))
    ensures (GLOBAL in FlagsOf(w) <==> Bit(w, 8)) && (NO_EXECUTE in FlagsOf(w) <==> Bit(w, 63))
  {
  }

  /** The frame is bits 12 to 51 and the counter bits 52 to 61. */
  lemma FieldBits(w: bv64)
    ensures FrameBits(w) == (w << 12) >> 24 && CounterBits(w) == (w << 2) >> 54
  {
  }

  lemma SameFlagsSameBits(w: bv64, v: bv64)
    requires FlagsOf(w) == FlagsOf(v)
    ensures w & FLAGS_MASK == v & FLAGS_MASK
  {
    hide FlagsOf, HasFlag, Bit;
    FlagBits(w);
    FlagBits(v);
    SameLowBits(w, v);
  }

  lemma SameLowBits(w: bv64, v: bv64)
    requires (Bit(w, 0) <==> Bit(v, 0)) && (Bit(w, 1) <==> Bit(v, 1)) && (Bit(w, 2) <==> Bit(v, 2))
    requires (Bit(w, 3) <==> Bit(v, 3)) && (Bit(w, 4) <==> Bit(v, 4)) && (Bit(w, 5) <==> Bit(v, 5))
    requires (Bit(w, 6) <==> Bit(v, 6)) && (Bit(w, 7) <==> Bit(v, 7)) && (Bit(w, 8) <==> Bit(v, 8))
    requires Bit(w, 63) <==> Bit(v, 63)
    ensures w & FLAGS_MASK == v & FLAGS_MASK
  {
  }

  /** Nothing is lost: a word with its spare bits clear is determined by its frame, flags and counter. */
  lemma DecodeInjective(w: bv64, v: bv64)
    requires Clean(w) && Clean(v) && Decode(w) == Decode(v)
    ensures w == v
  {
    hide HasFlag, FlagsOf, Clean, FrameBits, CounterBits;
    SameFlagsSameBits(w, v);
    SameNumber(FrameBits(w), FrameBits(v));
    SameNumber(CounterBits(w), CounterBits(v));
    SameParts(w, v);
  }

  lemma SameNumber(a: bv64, b: bv64)
    requires a as nat == b as nat
    ensures a == b
  {
    assert (a as nat) as bv64 == a && (b as nat) as bv64 == b;
  }

  lemma SameParts(w: bv64, v: bv64)
    requires Clean(w) && Clean(v) && w & FLAGS_MASK == v & FLAGS_MASK
    requires FrameBits(w) == FrameBits(v) && CounterBits(w) == CounterBits(v)
    ensures w == v
  {
  }

  function WithPresent(flags: bv64): bv64 { flags | 1 }

  /** `flags | EntryFlags::PRESENT` adds exactly the present flag. */
  lemma WithPresentAdds(flags: bv64)
    ensures FlagsOf(WithPresent(flags)) == FlagsOf(flags) + {PRESENT}
  {
  }

  lemma SetRefines(w: bv64, frame: bv64, flags: bv64)
    requires frame < 0x100_0000_0000 && flags & FLAGS_MASK == flags
    ensures Clean(WordSet(w, frame, flags))
    ensures Decode(WordSet(w, frame, flags)) == Decode(w).Set(frame as nat, FlagsOf(flags))
  {
    hide FlagsOf;
    SetFields(w, frame, flags);
    SameFlags(WordSet(w, frame, flags), flags);
  }

  lemma SetFields(w: bv64, frame: bv64, flags: bv64)
    requires frame < 0x100_0000_0000 && flags & FLAGS_MASK == flags
    ensures var v := WordSet(w, frame, flags);
            FrameBits(v) == frame && CounterBits(v) == CounterBits(w) && Clean(v) && SameFlagBits(v, flags)
  {
  }

  lemma SetUnusedRefines(w: bv64)
    ensures Clean(WordSetUnused(w)) && WordIsUnused(WordSetUnused(w))
    ensures Decode(WordSetUnused(w)) == Decode(w).SetUnused()
  {
    hide FlagsOf;
    var v := WordSetUnused(w);
    assert FrameBits(v) == 0 && CounterBits(v) == CounterBits(w);
    NoFlags(v);
  }

  lemma SetCounterRefines(w: bv64, count: bv64)
    requires Clean(w) && count < 1024
    ensures Clean(WordSetCounter(w, count))
    ensures Decode(WordSetCounter(w, count)) == Decode(w).SetCounter(count as nat)
  {
    hide FlagsOf;
    SetCounterFields(w, count);
    SameFlags(WordSetCounter(w, count), w);
  }

  lemma SetCounterFields(w: bv64, count: bv64)
    requires Clean(w) && count < 1024
    ensures var v := WordSetCounter(w, count);
            FrameBits(v) == FrameBits(w) && CounterBits(v) == count && Clean(v) && SameFlagBits(v, w)
  {
  }

  /** The counter arithmetic of a table: no carry leaves the ten counter bits. */
  lemma CountRefines(w: bv64)
    ensures CounterBits(w) < 1024
    ensures CounterBits(w) < 1023 ==> (CounterBits(w) + 1) as nat == Decode(w).counter + 1
    ensures 0 < CounterBits(w) ==> (CounterBits(w) - 1) as nat == Decode(w).counter - 1
  {
    TenBits(w);
    hide CounterBits;
    Neighbours(CounterBits(w));
  }

  lemma TenBits(w: bv64)
    ensures CounterBits(w) < 1024
  {
  }

  lemma Neighbours(c: bv64)
    requires c < 1024
    ensures (c + 1) as nat == (c as nat) + 1
    ensures 0 < c ==> (c - 1) as nat == (c as nat) - 1
  {
  }

  lemma IsUnusedRefines(w: bv64)
    requires Clean(w)
    ensures WordIsUnused(w) <==> Decode(w).IsUnused()
  {
    hide FlagsOf;
    NoFlags(w);
    UnusedFields(w);
    if FrameBits(w) as nat == 0 {
      ZeroFrame(FrameBits(w));
    }
  }

  lemma UnusedFields(w: bv64)
    requires Clean(w)
    ensures WordIsUnused(w) <==> w & FLAGS_MASK == 0 && FrameBits(w) == 0
  {
  }

  lemma ZeroFrame(x: bv64)
    requires x as nat == 0
    ensures x == 0
  {
  }

}
