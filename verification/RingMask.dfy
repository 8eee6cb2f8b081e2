/** The power-of-two arithmetic of the ring buffer (ringbuf/src/lib.rs). */
module RingMask {

  function Pow2(k: nat): (p: nat)
    ensures p > 0
  {
    if k == 0 then 1 else 2 * Pow2(k - 1)
  }

  /** Bitwise and of two natural numbers. */
  function And(x: nat, y: nat): nat {
    if x == 0 || y == 0 then 0 else (x % 2) * (y % 2) + 2 * And(x / 2, y / 2)
  }

  /** Masking with `capacity - 1` is the remainder, for a capacity that is a power of two. */
  lemma {:induction false} MaskIsRemainder(x: nat, k: nat)
    ensures And(x, Pow2(k) - 1) == x % Pow2(k)
    decreases k
  {
    if k > 0 {
      var p := Pow2(k - 1);
      assert (2 * p - 1) % 2 == 1 && (2 * p - 1) / 2 == p - 1;
      MaskIsRemainder(x / 2, k - 1);
      HalfRemainder(x, p);
      assert p == 1 ==> And(x / 2, 0) == 0;
    }
  }

  lemma HalfRemainder(x: nat, p: nat)
    requires p > 0
    ensures x % (2 * p) == x % 2 + 2 * ((x / 2) % p)
  {
    var q, r := (x / 2) / p, (x / 2) % p;
    assert x / 2 == p * q + r;
    assert x == 2 * (x / 2) + x % 2;
    assert x == (2 * p) * q + (2 * r + x % 2) by {
      assert 2 * (p * q) == (2 * p) * q;
    }
    Remainder(x, 2 * p, q, 2 * r + x % 2);
  }

  lemma AtLeastOne(d: nat, k: int)
    requires k >= 1
    ensures d * k >= d
  {
  }

  lemma QuotientUnique(d: nat, p: int, q: int, r: nat, s: nat)
    requires r < d && s < d && d * p + r == d * q + s
    ensures p == q && r == s
  {
    assert d * (p - q) == s - r && d * (q - p) == r - s;
    if p > q {
      AtLeastOne(d, p - q);
    } else if q > p {
      AtLeastOne(d, q - p);
    }
  }

  lemma Remainder(x: nat, d: nat, q: nat, r: nat)
    requires d > 0 && r < d && x == d * q + r
    ensures x % d == r
  {
    QuotientUnique(d, x / d, q, x % d, r);
  }

  /** Positions less than a capacity apart lie in different cells. */
  lemma CellsDiffer(x: nat, y: nat, cap: nat)
    requires cap > 0 && x < y < x + cap
    ensures x % cap != y % cap
  {
    var r := x % cap + (y - x);
    if r < cap {
      Remainder(y, cap, x / cap, r);
    } else {
      assert y == cap * (x / cap + 1) + (r - cap);
      Remainder(y, cap, x / cap + 1, r - cap);
    }
  }

  /** Within a slice that does not cross the end, cells follow each other. */
  lemma SliceCells(x: nat, i: nat, cap: nat)
    requires cap > 0 && x % cap + i < cap
    ensures (x + i) % cap == x % cap + i
  {
    Remainder(x + i, cap, x / cap, x % cap + i);
  }

  // ----- prev_power_of_two -----

  function Smeared(x: bv64): bv64 {
    var a := x | (x >> 1);
    var b := a | (a >> 2);
    var c := b | (b >> 4);
    var d := c | (c >> 8);
    d | (d >> 16)
  }

  function UpperHalf(s: bv64): bv64 { s - (s >> 1) }

  function PrevPowerOfTwo(x: bv64): bv64 { UpperHalf(Smeared(x)) }

  /** `r` is the greatest power of two not above `x`. */
  predicate IsPrevPower(x: bv64, r: bv64) {
    r != 0 && r & (r - 1) == 0 && r <= x && x - r < r
  }

  lemma PrevPowerBelow32(x: bv64)
    requires 0 < x < 0x1_0000_0000
    ensures IsPrevPower(x, PrevPowerOfTwo(x))
  {
    hide IsPrevPower, Smeared, UpperHalf, Filled;
    SmearFills(x);
    HalfOfFilled(x, Smeared(x));
  }

  /** `s` is all ones up to the top bit of `x`. */
  predicate Filled(x: bv64, s: bv64) { s & (s + 1) == 0 && x <= s && s >> 1 < x }

  lemma SmearFills(x: bv64)
    requires 0 < x < 0x1_0000_0000
    ensures Filled(x, Smeared(x))
  {
  }

  lemma HalfOfFilled(x: bv64, s: bv64)
    requires Filled(x, s)
    ensures IsPrevPower(x, UpperHalf(s))
  {
  }

  /** `m` is a single bit among the low 32. */
  predicate LowBit(m: bv64) { m != 0 && m & (m - 1) == 0 && m < 0x1_0000_0000 }

  /** From bit `m` upwards, 32 bits of `x` in a row are zero and a higher one is set. */
  predicate Gap(x: bv64, m: bv64) {
    m != 0 && m & (m - 1) == 0 && m < 0x1_0000_0000 && m << 32 <= x && x & ((m << 32) - m) == 0
  }

  /**
    * The shifts stop at 16, so the answer is the greatest power of two exactly when no run of
    * 32 zero bits lies below the top bit; every size under 2^32 qualifies.
    */
  lemma PrevPowerExact(x: bv64)
    ensures IsPrevPower(x, PrevPowerOfTwo(x)) <==> x != 0 && !exists m: bv64 :: Gap(x, m)
  {
    hide IsPrevPower, PrevPowerOfTwo, Smeared, Gap;
    forall m: bv64 | Gap(x, m) ensures !IsPrevPower(x, PrevPowerOfTwo(x)) {
      GapSpoils(x, m);
    }
    ZeroHasNone();
    if 0 < x < 0x1_0000_0000 {
      PrevPowerBelow32(x);
    } else if x != 0 {
      GapOrPower(x);
    }
  }

  lemma PrevPowerCanFail()
    ensures !IsPrevPower(0x1_0000_0000, PrevPowerOfTwo(0x1_0000_0000))
  {
  }

  lemma ZeroHasNone()
    ensures !IsPrevPower(0, PrevPowerOfTwo(0))
  {
  }

  lemma GapSpoils(x: bv64, m: bv64)
    requires Gap(x, m)
    ensures !IsPrevPower(x, PrevPowerOfTwo(x))
  {
    hide IsPrevPower, Smeared, Gap, Hole, Contains, UpperHalf;
    GapIsHole(x, m);
    SmearKeeps(x);
    HoleSpoils(x, Smeared(x), m);
  }

  /** Bit `m` of `s` is clear although a bit of `x` at least 32 above it is set. */
  predicate Hole(x: bv64, s: bv64, m: bv64) { LowBit(m) && m << 32 <= x && s & m == 0 }

  predicate Contains(s: bv64, x: bv64) { x & s == x }

  lemma GapIsHole(x: bv64, m: bv64)
    requires Gap(x, m)
    ensures Hole(x, Smeared(x), m)
  {
  }

  lemma SmearKeeps(x: bv64)
    ensures Contains(Smeared(x), x)
  {
  }

  lemma HoleSpoils(x: bv64, s: bv64, m: bv64)
    requires Hole(x, s, m) && Contains(s, x)
    ensures !IsPrevPower(x, UpperHalf(s))
  {
    hide Hole, Contains, UpperHalf, IsPrevPower, Twice, Ones;
    var r := UpperHalf(s);
    if IsPrevPower(x, r) {
      Halves(s);
      OneBitAbove(x, s, r);
      OnesBelow(x, s, r, m);
    }
  }

  predicate Twice(s: bv64, r: bv64) { s == 2 * r }

  predicate Ones(s: bv64, r: bv64) { s == 2 * r - 1 }

  lemma Halves(s: bv64)
    ensures Twice(s, UpperHalf(s)) || Ones(s, UpperHalf(s))
  {
  }

  lemma OneBitAbove(x: bv64, s: bv64, r: bv64)
    requires IsPrevPower(x, r) && Contains(s, x)
    ensures !Twice(s, r)
  {
  }

  lemma OnesBelow(x: bv64, s: bv64, r: bv64, m: bv64)
    requires IsPrevPower(x, r) && Hole(x, s, m)
    ensures !Ones(s, r)
  {
  }

  lemma GapOrPower(x: bv64)
    requires x >= 0x1_0000_0000
    ensures IsPrevPower(x, PrevPowerOfTwo(x)) || exists m: bv64 :: Gap(x, m)
  {
    hide IsPrevPower, PrevPowerOfTwo, Smeared, Gap, LowBit;
    if Smeared(x) & 0xffff_ffff == 0xffff_ffff {
      FilledBelow(x);
    } else {
      var m := LowestHole(Smeared(x));
      HoleIsGap(x, m);
    }
  }

  lemma LowestHole(s: bv64) returns (m: bv64)
    requires s & 0xffff_ffff != 0xffff_ffff
    ensures LowBit(m) && s & m == 0
  {
    var holes := 0xffff_ffff_ffff_ffff ^ s;
    m := holes & (0 - holes);
  }

  lemma FilledBelow(x: bv64)
    requires x >= 0x1_0000_0000 && Smeared(x) & 0xffff_ffff == 0xffff_ffff
    ensures IsPrevPower(x, PrevPowerOfTwo(x))
  {
  }

  lemma HoleIsGap(x: bv64, m: bv64)
    requires x >= 0x1_0000_0000 && LowBit(m) && Smeared(x) & m == 0
    ensures Gap(x, m)
  {
  }
}
