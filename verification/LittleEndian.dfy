/** Fixed-width little-endian numbers, as the message header and the SOS encoding store them. */
module LittleEndian {
  import opened Wrappers

  function Base(n: nat): (b: nat)
    ensures b > 0
  {
    if n == 0 then 1 else 256 * Base(n - 1)
  }

  function Le(x: nat, n: nat): (s: seq<Byte>)
    ensures |s| == n
  {
    if n == 0 then [] else [x % 256] + Le(x / 256, n - 1)
  }

  function FromLe(s: seq<Byte>): nat {
    if s == [] then 0 else s[0] + 256 * FromLe(s[1..])
  }

  lemma Widths()
    ensures Base(4) == 0x1_0000_0000 && Base(8) == 0x1_0000_0000_0000_0000
  {
  }

  /** Byte `k` is the digit of weight 256 to the `k`: the least significant byte comes first. */
  lemma {:induction false} LeAt(x: nat, n: nat, k: nat)
    requires k < n
    ensures Le(x, n)[k] == x / Base(k) % 256
  {
    if k > 0 {
      LeAt(x / 256, n - 1, k - 1);
      assert Le(x, n)[k] == Le(x / 256, n - 1)[k - 1];
      DivideTwice(x, Base(k - 1));
    }
  }

  lemma DivideTwice(x: nat, b: nat)
    requires b > 0
    ensures x / 256 / b == x / (256 * b)
  {
    var q, r := x / 256 / b, x / 256 % b;
    assert x / 256 == q * b + r;
    assert x == q * (256 * b) + (256 * r + x % 256);
    Quotient(x, 256 * b, q, 256 * r + x % 256);
  }

  lemma Quotient(x: nat, d: nat, q: nat, r: nat)
    requires d > 0 && x == q * d + r && r < d
    ensures x / d == q
  {
    var p := x / d;
    assert x == p * d + x % d;
    if p < q {
      Scaled(p + 1, q, d);
    } else if q < p {
      Scaled(q + 1, p, d);
    }
  }

  lemma Scaled(a: nat, b: nat, d: nat)
    requires a <= b
    ensures a * d <= b * d
  {
  }

  lemma FirstBytes()
    ensures Le(1, 4) == [1, 0, 0, 0] && Le(0x0403_0201, 4) == [1, 2, 3, 4]
    ensures Base(0) == 1 && Base(1) == 256 && Base(2) == 0x1_0000
  {
  }

  /** A number that fits the width comes back. */
  lemma {:induction false} FromLeLe(x: nat, n: nat)
    requires x < Base(n)
    ensures FromLe(Le(x, n)) == x
  {
    if n > 0 {
      assert x / 256 < Base(n - 1);
      FromLeLe(x / 256, n - 1);
      assert Le(x, n)[1..] == Le(x / 256, n - 1);
    }
  }

  /** Every byte string is the encoding of its own value. */
  lemma {:induction false} LeFromLe(s: seq<Byte>)
    ensures FromLe(s) < Base(|s|) && Le(FromLe(s), |s|) == s
  {
    if s != [] {
      LeFromLe(s[1..]);
      var rest := FromLe(s[1..]);
      assert (s[0] + 256 * rest) % 256 == s[0] && (s[0] + 256 * rest) / 256 == rest;
      assert s == [s[0]] + s[1..];
    }
  }
}
