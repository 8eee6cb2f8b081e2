/** What several components share: optional values, bytes, counting in finite sets, slices and updates of sequences. */
module Wrappers {

  datatype Option<+T> = None | Some(value: T)

  type Byte = b: nat | b < 256

  lemma {:induction false} SubsetSize<T>(a: set<T>, b: set<T>)
    requires a <= b
    ensures |a| <= |b|
  {
    if a != {} {
      var x :| x in a;
      SubsetSize(a - {x}, b - {x});
    }
  }

  lemma SliceOfSlice<T>(s: seq<T>, lo: nat, hi: nat, d: nat, n: nat)
    requires lo <= hi <= |s| && d + n <= hi - lo
    ensures s[lo..hi][d..d + n] == s[lo + d..lo + d + n]
  {
    var a, b := s[lo..hi][d..d + n], s[lo + d..lo + d + n];
    assert forall i :: 0 <= i < n ==> a[i] == s[lo..hi][d + i] == s[lo + d + i] == b[i];
  }

  /** `s` with `bytes` in place of what was at `at`. */
  function Overwrite(s: seq<Byte>, at: nat, bytes: seq<Byte>): (r: seq<Byte>)
    requires at + |bytes| <= |s|
    ensures |r| == |s|
  {
    s[..at] + bytes + s[at + |bytes|..]
  }

  function RemoveAt<T>(s: seq<T>, i: nat): (r: seq<T>)
    requires i < |s|
    ensures |r| == |s| - 1
    ensures forall k :: 0 <= k < |r| ==> r[k] == s[if k < i then k else k + 1]
  {
    s[..i] + s[i + 1..]
  }
}
