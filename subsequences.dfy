/** Order-preserving selections from a sequence. */
module Subsequences {

  /** `r` is `s` with some entries removed and the rest in the same order. */
  predicate IsSubsequence<T(==)>(r: seq<T>, s: seq<T>)
    decreases |s|
  {
    if r == [] then true
    else if s == [] then false
    else (r[0] == s[0] && IsSubsequence(r[1..], s[1..])) || IsSubsequence(r, s[1..])
  }

  /** A subsequence never holds more copies of a value than its source. */
  lemma {:induction false} SubsequenceCounts<T>(r: seq<T>, s: seq<T>, x: T)
    requires IsSubsequence(r, s)
    ensures multiset(r)[x] <= multiset(s)[x]
    decreases |s|
  {
    if r != [] {
      assert s == [s[0]] + s[1..];
      if r[0] == s[0] && IsSubsequence(r[1..], s[1..]) {
        SubsequenceCounts(r[1..], s[1..], x);
        assert r == [r[0]] + r[1..];
      } else {
        SubsequenceCounts(r, s[1..], x);
      }
    }
  }
}
