/** Characters of the C locale, and case. */
module Characters {
  import opened Bits

  predicate IsDigit(c: int) {
    '0' as int <= c <= '9' as int
  }

  predicate IsUpper(c: int) {
    'A' as int <= c <= 'Z' as int
  }

  predicate IsLower(c: int) {
    'a' as int <= c <= 'z' as int
  }

  function ToLower(c: int): int {
    if IsUpper(c) then c + 32 else c
  }

  function Fold(s: seq<Byte>): (r: seq<int>)
    ensures |r| == |s| && forall i :: 0 <= i < |s| ==> r[i] == ToLower(s[i])
  {
    if s == [] then [] else [ToLower(s[0])] + Fold(s[1..])
  }

  lemma {:induction false} FoldConcat(s: seq<Byte>, t: seq<Byte>)
    ensures Fold(s + t) == Fold(s) + Fold(t)
  {
    if s == [] {
      assert s + t == t;
    } else {
      assert (s + t)[1..] == s[1..] + t;
      FoldConcat(s[1..], t);
    }
  }
}
