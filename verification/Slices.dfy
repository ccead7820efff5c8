/** Slices of slices, and what equal slices have in common. */
module Slices {

  lemma Associate<T>(a: seq<T>, b: seq<T>, c: seq<T>)
    ensures a + (b + c) == a + b + c
  {
  }

  /** `s` with `t` in place of what stood from `at` on. */
  function Splice<T>(s: seq<T>, at: nat, t: seq<T>): (r: seq<T>)
    requires at + |t| <= |s|
    ensures |r| == |s| && r[..at] == s[..at] && r[at..at + |t|] == t && r[at + |t|..] == s[at + |t|..]
  {
    s[..at] + t + s[at + |t|..]
  }

  lemma Subslice<T>(s: seq<T>, lo: nat, hi: nat, a: nat, b: nat)
    requires lo <= a <= b <= hi <= |s|
    ensures s[lo..hi][a - lo..b - lo] == s[a..b]
  {
    var t := s[lo..hi];
    assert forall k :: 0 <= k < b - a ==> t[a - lo..b - lo][k] == s[a..b][k];
  }

  /** A part of a common slice is common. */
  lemma Narrower<T>(s: seq<T>, r: seq<T>, lo: nat, hi: nat, a: nat, b: nat)
    requires lo <= a <= b <= hi <= |s| && hi <= |r| && r[lo..hi] == s[lo..hi]
    ensures r[a..b] == s[a..b]
  {
    Subslice(s, lo, hi, a, b);
    Subslice(r, lo, hi, a, b);
  }

  lemma SameSlice<T>(s: seq<T>, r: seq<T>, end: nat, lo: nat, hi: nat)
    requires lo <= hi <= end <= |s| && end <= |r| && r[..end] == s[..end]
    ensures r[lo..hi] == s[lo..hi]
  {
    assert s[..end][lo..hi] == s[lo..hi] && r[..end][lo..hi] == r[lo..hi];
  }

  lemma SameElement<T>(s: seq<T>, r: seq<T>, end: nat, i: nat)
    requires i < end <= |s| && end <= |r| && r[..end] == s[..end]
    ensures r[i] == s[i]
  {
    assert s[..end][i] == s[i] && r[..end][i] == r[i];
  }

  lemma SliceTail<T>(s: seq<T>, r: seq<T>, a: nat, b: nat)
    requires a <= b <= |s| && |s| == |r| && s[a..] == r[a..]
    ensures s[b..] == r[b..]
  {
    assert s[b..] == s[a..][b - a..] && r[b..] == r[a..][b - a..];
  }
}
