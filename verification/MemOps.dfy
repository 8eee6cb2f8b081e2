/** The kernel's word-at-a-time `memmove` and `memcmp` (kernel/src/externs.rs). */
module MemOps {
  import opened Wrappers
  import opened LittleEndian

  const WORD_SIZE: nat := 8

  /** The bytes that are copied in whole words. */
  function Whole(n: nat): (m: nat)
    ensures m <= n < m + WORD_SIZE && m % 8 == 0
  {
    n / 8 * 8
  }

  // ----- memmove -----

  /** What memmove promises: as if the bytes went through a temporary. */
  function CopyOf(mem: seq<Byte>, dest: nat, src: nat, n: nat): (r: seq<Byte>)
    requires dest + n <= |mem| && src + n <= |mem|
    ensures |r| == |mem|
  {
    mem[..dest] + mem[src..src + n] + mem[dest + n..]
  }

  /**
    * Where the byte that ends up at `dest + x` came from. Copying upwards, the last few bytes are
    * copied after the words, so those that the words have already overwritten come from lower down.
    */
  function Origin(dest: nat, src: nat, n: nat, x: nat): (o: nat)
    requires x < n
    ensures src <= o < src + n
  {
    if src < dest && Whole(n) <= x && dest - src <= x < dest - src + Whole(n) then x - (dest - src) + src
    else src + x
  }

  function Moved(mem: seq<Byte>, dest: nat, src: nat, n: nat): (r: seq<Byte>)
    requires dest + n <= |mem| && src + n <= |mem|
    ensures |r| == |mem|
  {
    seq(|mem|, a requires 0 <= a < |mem| =>
      if dest <= a < dest + n then mem[Origin(dest, src, n, a - dest)] else mem[a])
  }

  lemma MovedAt(mem: seq<Byte>, dest: nat, src: nat, n: nat, a: nat)
    requires dest + n <= |mem| && src + n <= |mem| && a < |mem|
    ensures Moved(mem, dest, src, n)[a] ==
      if dest <= a < dest + n then mem[Origin(dest, src, n, a - dest)] else mem[a]
  {
    hide Origin;
  }

  // ----- memmove as it runs -----

  /** Bytes `lo` to `hi` of the destination taken from the source, all at once. */
  function Shifted(mem: seq<Byte>, dest: nat, src: nat, lo: nat, hi: nat): (r: seq<Byte>)
    requires dest + hi <= |mem| && src + hi <= |mem|
    ensures |r| == |mem|
  {
    seq(|mem|, a requires 0 <= a < |mem| => if dest + lo <= a < dest + hi then mem[a - dest + src] else mem[a])
  }

  lemma NoneShifted(mem: seq<Byte>, dest: nat, src: nat, i: nat)
    requires dest + i <= |mem| && src + i <= |mem|
    ensures Shifted(mem, dest, src, i, i) == mem
  {
  }

  /** Going down the indices, the bytes read have not been overwritten yet. */
  lemma StepUp(mem: seq<Byte>, dest: nat, src: nat, i: nat, w: nat, hi: nat)
    requires dest + hi <= |mem| && src < dest && i + w <= hi
    ensures var now := Shifted(mem, dest, src, i + w, hi);
      Overwrite(now, dest + i, now[src + i..src + i + w]) == Shifted(mem, dest, src, i, hi)
  {
  }

  /** Nor going up the indices towards lower addresses. */
  lemma StepDown(mem: seq<Byte>, dest: nat, src: nat, i: nat, w: nat)
    requires src + i + w <= |mem| && dest <= src
    ensures var now := Shifted(mem, dest, src, 0, i);
      Overwrite(now, dest + i, now[src + i..src + i + w]) == Shifted(mem, dest, src, 0, i + w)
  {
  }

  /** Words first, then the last few bytes: the bytes already moved are what the second pass may read. */
  lemma TwoPasses(mem: seq<Byte>, dest: nat, src: nat, n: nat)
    requires dest + n <= |mem| && src < dest
    ensures Shifted(Shifted(mem, dest, src, 0, Whole(n)), dest, src, Whole(n), n) == Moved(mem, dest, src, n)
  {
    hide Whole, Moved;
    var twice := Shifted(Shifted(mem, dest, src, 0, Whole(n)), dest, src, Whole(n), n);
    forall a | 0 <= a < |mem| ensures twice[a] == Moved(mem, dest, src, n)[a] {
      MovedAt(mem, dest, src, n, a);
    }
  }

  lemma OnePass(mem: seq<Byte>, dest: nat, src: nat, n: nat)
    requires src + n <= |mem| && dest <= src
    ensures Shifted(mem, dest, src, 0, n) == Moved(mem, dest, src, n)
  {
    hide Whole, Moved;
    forall a | 0 <= a < |mem| ensures Shifted(mem, dest, src, 0, n)[a] == Moved(mem, dest, src, n)[a] {
      MovedAt(mem, dest, src, n, a);
    }
  }

  /** `w` bytes loaded, then stored. */
  method CopyUnit(mem: array<Byte>, to: nat, from: nat, w: nat)
    requires to + w <= mem.Length && from + w <= mem.Length
    modifies mem
    ensures mem[..] == Overwrite(old(mem[..]), to, old(mem[..])[from..from + w])
  {
    var unit := mem[from..from + w];
    forall k | 0 <= k < w {
      mem[to + k] := unit[k];
    }
  }

  method Memmove(mem: array<Byte>, dest: nat, src: nat, n: nat)
    requires dest + n <= mem.Length && src + n <= mem.Length
    modifies mem
    ensures mem[..] == Moved(old(mem[..]), dest, src, n)
  {
    hide Shifted, Moved;
    if src < dest {
      WordsUp(mem, dest, src, Whole(n));
      BytesUp(mem, dest, src, Whole(n), n);
      TwoPasses(old(mem[..]), dest, src, n);
    } else {
      MoveDown(mem, dest, src, n);
      OnePass(old(mem[..]), dest, src, n);
    }
  }

  method WordsUp(mem: array<Byte>, dest: nat, src: nat, m: nat)
    requires dest + m <= mem.Length && src < dest && m % 8 == 0
    modifies mem
    ensures mem[..] == Shifted(old(mem[..]), dest, src, 0, m)
  {
    hide Shifted, Overwrite;
    ghost var was := mem[..];
    var i := m;
    NoneShifted(was, dest, src, m);
    while i != 0
      invariant 0 <= i <= m && i % 8 == 0 && mem[..] == Shifted(was, dest, src, i, m)
      decreases i
    {
      i := i - WORD_SIZE;
      CopyUnit(mem, dest + i, src + i, WORD_SIZE);
      StepUp(was, dest, src, i, WORD_SIZE, m);
    }
  }

  method BytesUp(mem: array<Byte>, dest: nat, src: nat, m: nat, n: nat)
    requires dest + n <= mem.Length && src < dest && m <= n
    modifies mem
    ensures mem[..] == Shifted(old(mem[..]), dest, src, m, n)
  {
    hide Shifted, Overwrite;
    ghost var was := mem[..];
    var i := n;
    NoneShifted(was, dest, src, n);
    while i != m
      invariant m <= i <= n && mem[..] == Shifted(was, dest, src, i, n)
    {
      i := i - 1;
      CopyUnit(mem, dest + i, src + i, 1);
      StepUp(was, dest, src, i, 1, n);
    }
  }

  method MoveDown(mem: array<Byte>, dest: nat, src: nat, n: nat)
    requires src + n <= mem.Length && dest <= src
    modifies mem
    ensures mem[..] == Shifted(old(mem[..]), dest, src, 0, n)
  {
    hide Shifted, Overwrite, Whole;
    ghost var was := mem[..];
    var i, m := 0, Whole(n);
    NoneShifted(was, dest, src, 0);
    while i < m
      invariant 0 <= i <= m && i % 8 == 0 && mem[..] == Shifted(was, dest, src, 0, i)
    {
      CopyUnit(mem, dest + i, src + i, WORD_SIZE);
      StepDown(was, dest, src, i, WORD_SIZE);
      i := i + WORD_SIZE;
    }
    while i < n
      invariant i <= n && mem[..] == Shifted(was, dest, src, 0, i)
    {
      CopyUnit(mem, dest + i, src + i, 1);
      StepDown(was, dest, src, i, 1);
      i := i + 1;
    }
  }

  /** The overlaps for which the copy is right. */
  predicate SafeOverlap(dest: nat, src: nat, n: nat) {
    dest <= src || dest - src >= n || n < WORD_SIZE || n % WORD_SIZE == 0
  }

  ghost predicate AlwaysCopies(dest: nat, src: nat, n: nat, size: nat)
    requires dest + n <= size && src + n <= size
  {
    forall mem: seq<Byte> :: |mem| == size ==> Moved(mem, dest, src, n) == CopyOf(mem, dest, src, n)
  }

  lemma CopiesWhenSafe(mem: seq<Byte>, dest: nat, src: nat, n: nat)
    requires dest + n <= |mem| && src + n <= |mem| && SafeOverlap(dest, src, n)
    ensures Moved(mem, dest, src, n) == CopyOf(mem, dest, src, n)
  {
    hide Moved, Whole;
    var moved, copy := Moved(mem, dest, src, n), CopyOf(mem, dest, src, n);
    forall a | 0 <= a < |mem| ensures moved[a] == copy[a] {
      MovedAt(mem, dest, src, n, a);
    }
  }

  /** Otherwise some memory comes out wrong. */
  lemma GoesWrong(dest: nat, src: nat, n: nat, size: nat) returns (mem: seq<Byte>)
    requires dest + n <= size && src + n <= size && !SafeOverlap(dest, src, n)
    ensures |mem| == size && Moved(mem, dest, src, n) != CopyOf(mem, dest, src, n)
  {
    hide Moved, Whole;
    var d := dest - src;
    var x := if Whole(n) < d then d else Whole(n);
    mem := seq(size, i => if i == src + x then 1 else 0);
    MovedAt(mem, dest, src, n, dest + x);
    assert mem[Origin(dest, src, n, x)] == 0;
    assert CopyOf(mem, dest, src, n)[dest + x] == mem[src + x];
  }

  /** memmove keeps its promise for every memory exactly when the overlap is one of the safe ones. */
  lemma MemmoveExact(dest: nat, src: nat, n: nat, size: nat)
    requires dest + n <= size && src + n <= size
    ensures AlwaysCopies(dest, src, n, size) <==> SafeOverlap(dest, src, n)
  {
    if SafeOverlap(dest, src, n) {
      forall mem: seq<Byte> | |mem| == size ensures Moved(mem, dest, src, n) == CopyOf(mem, dest, src, n) {
        CopiesWhenSafe(mem, dest, src, n);
      }
    } else {
      var mem := GoesWrong(dest, src, n, size);
    }
  }

  // ----- memcmp -----

  /** Two words are equal exactly when their bytes are. */
  lemma WordsEqual(a: seq<Byte>, b: seq<Byte>)
    requires |a| == |b|
    ensures FromLe(a) == FromLe(b) <==> a == b
  {
  }

  /** The byte-by-byte comparison: the difference at the first place where they differ. */
  predicate Compares(a: seq<Byte>, b: seq<Byte>, n: nat, r: int)
    requires n <= |a| && n <= |b|
  {
    if a[..n] == b[..n] then r == 0
    else exists k :: 0 <= k < n && a[..k] == b[..k] && a[k] != b[k] && r == (a[k] as int) - (b[k] as int)
  }

  /** The byte loop: the first difference from `lo` on, or `hi`. */
  method ScanBytes(s1: seq<Byte>, s2: seq<Byte>, lo: nat, hi: nat) returns (i: nat)
    requires lo <= hi <= |s1| && hi <= |s2| && s1[..lo] == s2[..lo]
    ensures lo <= i <= hi && s1[..i] == s2[..i] && (i < hi ==> s1[i] != s2[i])
  {
    i := lo;
    while i < hi
      invariant lo <= i <= hi && s1[..i] == s2[..i]
    {
      if s1[i] != s2[i] {
        return;
      }
      i := i + 1;
    }
  }

  method Memcmp(s1: seq<Byte>, s2: seq<Byte>, n: nat) returns (r: int)
    requires n <= |s1| && n <= |s2|
    ensures Compares(s1, s2, n, r)
    ensures r == 0 <==> s1[..n] == s2[..n]
    ensures forall k :: 0 <= k < n && s1[..k] == s2[..k] && s1[k] != s2[k] ==> r == (s1[k] as int) - (s2[k] as int)
  {
    hide FromLe, Whole;
    var i, fast := 0, Whole(n);
    while i < fast
      invariant 0 <= i && (i < fast ==> i + WORD_SIZE <= fast) && i % 8 == 0 && i <= fast && s1[..i] == s2[..i]
    {
      var a, b := FromLe(s1[i..i + WORD_SIZE]), FromLe(s2[i..i + WORD_SIZE]);
      WordsEqual(s1[i..i + WORD_SIZE], s2[i..i + WORD_SIZE]);
      if a != b {
        var end := i + WORD_SIZE;
        WordDiffers(s1, s2, i, end);
        i := ScanBytes(s1, s2, i, end);
        if i < end {
          return (s1[i] as int) - (s2[i] as int);
        }
      }
      WordMatches(s1, s2, i, i + WORD_SIZE);
      i := i + WORD_SIZE;
    }
    i := ScanBytes(s1, s2, i, n);
    r := if i < n then (s1[i] as int) - (s2[i] as int) else 0;
  }

  lemma WordDiffers(s1: seq<Byte>, s2: seq<Byte>, lo: nat, hi: nat)
    requires lo <= hi <= |s1| && hi <= |s2| && s1[lo..hi] != s2[lo..hi]
    ensures s1[..hi] != s2[..hi]
  {
  }

  lemma WordMatches(s1: seq<Byte>, s2: seq<Byte>, lo: nat, hi: nat)
    requires lo <= hi <= |s1| && hi <= |s2| && s1[lo..hi] == s2[lo..hi] && s1[..lo] == s2[..lo]
    ensures s1[..hi] == s2[..hi]
  {
  }

  /** Lexicographic order of byte strings of one length. */
  predicate Less(a: seq<Byte>, b: seq<Byte>)
    requires |a| == |b|
  {
    a != [] && (a[0] < b[0] || (a[0] == b[0] && Less(a[1..], b[1..])))
  }

  /** The sign of the answer is the lexicographic order of the blocks. */
  lemma CompareIsOrder(a: seq<Byte>, b: seq<Byte>, n: nat, r: int)
    requires n <= |a| && n <= |b| && Compares(a, b, n, r)
    ensures r < 0 <==> Less(a[..n], b[..n])
    ensures r > 0 <==> Less(b[..n], a[..n])
  {
    if a[..n] == b[..n] {
      NeverLess(a[..n]);
    } else {
      var k :| 0 <= k < n && a[..k] == b[..k] && a[k] != b[k] && r == (a[k] as int) - (b[k] as int);
      assert a[..n][..k] == a[..k] && b[..n][..k] == b[..k];
      FirstDecides(a[..n], b[..n], k);
      FirstDecides(b[..n], a[..n], k);
    }
  }

  lemma {:induction false} NeverLess(a: seq<Byte>)
    ensures !Less(a, a)
  {
    if a != [] {
      NeverLess(a[1..]);
    }
  }

  lemma {:induction false} FirstDecides(a: seq<Byte>, b: seq<Byte>, k: nat)
    requires |a| == |b| && k < |a| && a[..k] == b[..k] && a[k] != b[k]
    ensures Less(a, b) <==> a[k] < b[k]
  {
    if k > 0 {
      assert a[0] == a[..k][0] && b[0] == b[..k][0];
      assert a[1..][..k - 1] == a[..k][1..] && b[1..][..k - 1] == b[..k][1..];
      FirstDecides(a[1..], b[1..], k - 1);
    }
  }

  /** The comparison has one answer. */
  lemma ComparesOnce(a: seq<Byte>, b: seq<Byte>, n: nat, r: int, q: int)
    requires n <= |a| && n <= |b| && Compares(a, b, n, r) && Compares(a, b, n, q)
    ensures r == q && (r == 0 <==> a[..n] == b[..n])
  {
  }
}
