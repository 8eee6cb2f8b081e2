/**
 A page table as it lies in memory: 512 words, the number of entries in use kept in spare
 bits of the first one (kernel/src/arch/x86_64/paging/table.rs).  The operations on words
 do what those on entry records do, and the count stays exact and within its bits.
 */
module WordTables {
  import opened Wrappers
  import FreeList
  import opened PageEntry
  import opened PageTables
  import opened Mapping

  type Words = seq<bv64>

  predicate CleanTable(ws: Words) {
    |ws| == ENTRY_COUNT && forall i :: 0 <= i < |ws| ==> Clean(ws[i])
  }

  function DecodeTable(ws: Words): (t: Table)
    ensures |t| == |ws| && forall i :: 0 <= i < |ws| ==> t[i] == Decode(ws[i])
  {
    seq(|ws|, i requires 0 <= i < |ws| => Decode(ws[i]))
  }

  ghost function UsedWords(ws: Words): set<nat> {
    set i: nat | i < |ws| && !WordIsUnused(ws[i])
  }

  function CountedUp(w: bv64): bv64 { WordSetCounter(w, CounterBits(w) + 1) }

  function CountedDown(w: bv64): bv64 { WordSetCounter(w, CounterBits(w) - 1) }

  predicate RoomToCount(w: bv64) { CounterBits(w) < 1023 }

  predicate SomeCounted(w: bv64) { 0 < CounterBits(w) }

  /** What `set` is called with: a 52-bit physical address and flags only. */
  predicate Settable(frame: bv64, flags: bv64) { frame < 0x100_0000_0000 && flags & FLAGS_MASK == flags }

  /** `increment_entry_count` and then `set`, on words. */
  function WordsOccupy(ws: Words, i: nat, frame: bv64, flags: bv64): Words
    requires |ws| == ENTRY_COUNT && i < ENTRY_COUNT
  {
    var counted := ws[0 := CountedUp(ws[0])];
    counted[i := WordSet(counted[i], frame, flags)]
  }

  /** `decrement_entry_count` and then `set_unused`, on words. */
  function WordsVacate(ws: Words, i: nat): Words
    requires |ws| == ENTRY_COUNT && i < ENTRY_COUNT
  {
    var counted := ws[0 := CountedDown(ws[0])];
    counted[i := WordSetUnused(counted[i])]
  }

  lemma CountedUpRefines(w: bv64)
    requires Clean(w) && RoomToCount(w)
    ensures Clean(CountedUp(w)) && Decode(CountedUp(w)) == Decode(w).SetCounter(Decode(w).counter + 1)
  {
    hide FlagsOf;
    CountUp(w);
    SetCounterRefines(w, CounterBits(w) + 1);
  }

  lemma CountedDownRefines(w: bv64)
    requires Clean(w) && SomeCounted(w)
    ensures Decode(w).counter > 0
    ensures Clean(CountedDown(w)) && Decode(CountedDown(w)) == Decode(w).SetCounter(Decode(w).counter - 1)
  {
    hide FlagsOf;
    CountDown(w);
    SetCounterRefines(w, CounterBits(w) - 1);
  }

  lemma SetWord(w: bv64, frame: bv64, flags: bv64)
    requires Settable(frame, flags)
    ensures Clean(WordSet(w, frame, flags))
    ensures Decode(WordSet(w, frame, flags)) == Decode(w).Set(frame as nat, FlagsOf(flags))
  {
    SetRefines(w, frame, flags);
  }

  lemma UsedRefines(ws: Words)
    requires CleanTable(ws)
    ensures UsedWords(ws) == Used(DecodeTable(ws))
  {
    hide WordIsUnused, Decode, Clean;
    forall i: nat | i < |ws|
      ensures WordIsUnused(ws[i]) <==> Decode(ws[i]).IsUnused()
    {
      IsUnusedRefines(ws[i]);
    }
  }

  lemma OccupyRefines(ws: Words, i: nat, frame: bv64, flags: bv64)
    requires CleanTable(ws) && i < ENTRY_COUNT && RoomToCount(ws[0]) && Settable(frame, flags)
    ensures CleanTable(WordsOccupy(ws, i, frame, flags))
    ensures DecodeTable(WordsOccupy(ws, i, frame, flags)) == Occupy(DecodeTable(ws), i, frame as nat, FlagsOf(flags))
  {
    hide Decode, Clean, CountedUp, WordSet, FlagsOf, RoomToCount, Settable;
    CountedUpRefines(ws[0]);
    var counted := ws[0 := CountedUp(ws[0])];
    SetWord(counted[i], frame, flags);
    var after, t := WordsOccupy(ws, i, frame, flags), Occupy(DecodeTable(ws), i, frame as nat, FlagsOf(flags));
    forall j | 0 <= j < ENTRY_COUNT
      ensures Clean(after[j]) && DecodeTable(after)[j] == t[j]
    {
    }
  }

  lemma CountUp(w: bv64)
    requires CounterBits(w) < 1023
    ensures CounterBits(w) + 1 < 1024 && (CounterBits(w) + 1) as nat == Decode(w).counter + 1
  {
    CountRefines(w);
    hide CounterBits;
    Plus(CounterBits(w));
  }

  lemma Plus(c: bv64)
    requires c < 1023
    ensures c + 1 < 1024
  {
  }

  lemma CountDown(w: bv64)
    requires 0 < CounterBits(w)
    ensures CounterBits(w) - 1 < 1024 && (CounterBits(w) - 1) as nat == Decode(w).counter - 1
  {
    CountRefines(w);
    hide CounterBits;
    Minus(CounterBits(w));
  }

  lemma Minus(c: bv64)
    requires 0 < c < 1024
    ensures c - 1 < 1024
  {
  }

  lemma VacateRefines(ws: Words, i: nat)
    requires CleanTable(ws) && i < ENTRY_COUNT && SomeCounted(ws[0])
    ensures CleanTable(WordsVacate(ws, i)) && EntryCount(DecodeTable(ws)) > 0
    ensures DecodeTable(WordsVacate(ws, i)) == Vacate(DecodeTable(ws), i)
  {
    hide Decode, Clean, CountedDown, WordSetUnused, SomeCounted;
    CountedDownRefines(ws[0]);
    var counted := ws[0 := CountedDown(ws[0])];
    SetUnusedRefines(counted[i]);
    var after, t := WordsVacate(ws, i), Vacate(DecodeTable(ws), i);
    forall j | 0 <= j < ENTRY_COUNT
      ensures Clean(after[j]) && DecodeTable(after)[j] == t[j]
    {
    }
  }

  /** What `entry_count` reads. */
  ghost function Count(ws: Words): nat
    requires |ws| == ENTRY_COUNT
  {
    WordCount(ws[0])
  }

  ghost function WordCount(w: bv64): nat { CounterBits(w) as nat }

  lemma DecodedCount(w: bv64)
    ensures Decode(w).counter == WordCount(w)
  {
  }

  /** The count in the words is the number of words in use, leaving out those in `skip`. */
  ghost predicate CountExact(ws: Words, skip: set<nat>) {
    CleanTable(ws) && Count(ws) == |UsedWords(ws) - skip|
  }

  lemma ExactMeansOk(ws: Words, skip: set<nat>)
    requires CleanTable(ws)
    ensures CountExact(ws, skip) <==> CountOk(DecodeTable(ws), skip)
  {
    hide WordCount, WordIsUnused, Decode, Clean, UsedWords, Used;
    UsedRefines(ws);
    DecodedCount(ws[0]);
  }

  /** At most 512, and fewer while a word is unused: the count never leaves its ten bits. */
  lemma CountFits(ws: Words, skip: set<nat>, i: nat)
    requires CountExact(ws, skip) && i < ENTRY_COUNT
    ensures Count(ws) <= ENTRY_COUNT
    ensures WordIsUnused(ws[i]) ==> Count(ws) < ENTRY_COUNT && RoomToCount(ws[0])
    ensures !WordIsUnused(ws[i]) && i !in skip ==> SomeCounted(ws[0])
  {
    hide WordCount, WordIsUnused, Clean, RoomToCount, SomeCounted;
    var all := FreeList.Range(0, ENTRY_COUNT);
    FreeList.RangeSize(0, ENTRY_COUNT);
    SubsetSize(UsedWords(ws) - skip, all);
    if WordIsUnused(ws[i]) {
      SubsetSize(UsedWords(ws) - skip, all - {i});
    } else if i !in skip {
      SubsetSize({i}, UsedWords(ws) - skip);
    }
    Small(ws[0]);
  }

  lemma Small(w: bv64)
    ensures WordCount(w) < 512 ==> RoomToCount(w)
    ensures 0 < WordCount(w) ==> SomeCounted(w)
  {
    hide CounterBits;
    SmallBits(CounterBits(w));
  }

  lemma SmallBits(c: bv64)
    ensures c as nat < 512 ==> c < 1023
    ensures 0 < c as nat ==> 0 < c
  {
  }

  /** Using an unused word: the count stays exact and at most 512. */
  lemma OccupyCounts(ws: Words, i: nat, frame: bv64, flags: bv64, skip: set<nat>)
    requires CountExact(ws, skip) && i < ENTRY_COUNT && i !in skip && WordIsUnused(ws[i])
    requires Settable(frame, flags) && FlagsOf(flags) != {}
    ensures var after := WordsOccupy(ws, i, frame, flags);
            && CountExact(after, skip) && UsedWords(after) == UsedWords(ws) + {i}
            && Count(after) == Count(ws) + 1 <= ENTRY_COUNT
  {
    hide Count, WordIsUnused, Clean, WordsOccupy, FlagsOf, Decode, Settable, RoomToCount, UsedWords, Used;
    hide CountOk, Occupy;
    CountFits(ws, skip, i);
    OccupyRefines(ws, i, frame, flags);
    var after, t := WordsOccupy(ws, i, frame, flags), DecodeTable(ws);
    UsedRefines(ws);
    UsedRefines(after);
    ExactMeansOk(ws, skip);
    ExactMeansOk(after, skip);
    UnusedAt(ws, i);
    CountOccupy(t, i, frame as nat, FlagsOf(flags), skip);
    OccupyEffect(t, i, frame as nat, FlagsOf(flags));
    assert UsedWords(after) - skip == (UsedWords(ws) - skip) + {i};
  }

  /** Clearing a word in use: the count stays exact and was positive. */
  lemma VacateCounts(ws: Words, i: nat, skip: set<nat>)
    requires CountExact(ws, skip) && i < ENTRY_COUNT && i !in skip && !WordIsUnused(ws[i])
    ensures var after := WordsVacate(ws, i);
            && SomeCounted(ws[0]) && CountExact(after, skip) && UsedWords(after) == UsedWords(ws) - {i}
            && Count(after) == Count(ws) - 1
  {
    hide Count, WordIsUnused, Clean, WordsVacate, Decode, SomeCounted, UsedWords, Used, CountOk, Vacate;
    CountFits(ws, skip, i);
    VacateRefines(ws, i);
    var after, t := WordsVacate(ws, i), DecodeTable(ws);
    UsedRefines(ws);
    UsedRefines(after);
    ExactMeansOk(ws, skip);
    ExactMeansOk(after, skip);
    UnusedAt(ws, i);
    CountVacate(t, i, skip);
    VacateEffect(t, i);
    assert UsedWords(after) - skip == (UsedWords(ws) - skip) - {i};
  }

  lemma UnusedAt(ws: Words, i: nat)
    requires CleanTable(ws) && i < ENTRY_COUNT
    ensures WordIsUnused(ws[i]) <==> DecodeTable(ws)[i].IsUnused()
  {
    hide WordIsUnused, Decode, Clean;
    IsUnusedRefines(ws[i]);
  }
}
