/**
 * The two string operations the name filter relies on: lower-casing of the
 * query term (`str.lower`) and substring containment (`needle in haystack`).
 * Lower-casing is modelled on ASCII letters only.
 */
module Text {

  const Capitals: string := "ABCDEFGHIJKLMNOPQRSTUVWXYZ"
  const Smalls: string := "abcdefghijklmnopqrstuvwxyz"

  predicate IsUpper(c: char) {
    'A' <= c <= 'Z'
  }

  predicate IsSmall(c: char) {
    'a' <= c <= 'z'
  }

  /** Lower-cases one character; characters other than `A`..`Z` are kept. */
  function LowerChar(c: char): (d: char)
    ensures IsUpper(c) ==> |Capitals| == |Smalls| && Capitals[c as int - 'A' as int] == c &&
                           d == Smalls[c as int - 'A' as int]
    ensures !IsUpper(c) ==> d == c
    ensures !IsUpper(d)
    ensures IsUpper(c) || IsSmall(c) ==> IsSmall(d)
  {
    if IsUpper(c) then (c as int - 'A' as int + 'a' as int) as char else c
  }

  /** Lower-cases a string character by character; no capital remains. */
  function Lower(s: string): (r: string)
    ensures |r| == |s|
    ensures forall i :: 0 <= i < |s| ==> r[i] == LowerChar(s[i])
    ensures forall i :: 0 <= i < |r| ==> !IsUpper(r[i])
  {
    if s == [] then [] else [LowerChar(s[0])] + Lower(s[1..])
  }

  /** Lower-casing an already lower-cased string changes nothing. */
  lemma LowerIdempotent(s: string)
    ensures Lower(Lower(s)) == Lower(s)
  {
  }

  /** `needle` occurs in `haystack` starting at position `i`. */
  ghost predicate OccursAt(needle: string, haystack: string, i: int) {
    0 <= i && i + |needle| <= |haystack| && haystack[i..i + |needle|] == needle
  }

  /** Python's `needle in haystack` for strings, stated by its meaning. */
  ghost predicate IsSubstring(needle: string, haystack: string) {
    exists i :: OccursAt(needle, haystack, i)
  }

  /**
   * Substring search: is `needle` a prefix of some suffix of `haystack`? It
   * answers exactly the containment question.
   */
  function Contains(haystack: string, needle: string): (b: bool)
    ensures b <==> IsSubstring(needle, haystack)
  {
    if needle <= haystack then
      assert OccursAt(needle, haystack, 0);
      true
    else if haystack == [] then
      NotPrefixOfEmpty(needle);
      false
    else
      SubstringOfTail(haystack, needle);
      Contains(haystack[1..], needle)
  }

  /** Only the empty string occurs in the empty string, and it is a prefix of it. */
  lemma NotPrefixOfEmpty(needle: string)
    requires !(needle <= [])
    ensures !IsSubstring(needle, [])
  {
  }

  /**
   * When `needle` does not start `haystack`, it occurs in `haystack` exactly
   * when it occurs in the tail.
   */
  lemma SubstringOfTail(haystack: string, needle: string)
    requires haystack != [] && !(needle <= haystack)
    ensures IsSubstring(needle, haystack) <==> IsSubstring(needle, haystack[1..])
  {
    var tail := haystack[1..];
    if IsSubstring(needle, tail) {
      var j :| OccursAt(needle, tail, j);
      assert haystack[j + 1..j + 1 + |needle|] == tail[j..j + |needle|];
      assert OccursAt(needle, haystack, j + 1);
    }
    if IsSubstring(needle, haystack) {
      var i :| OccursAt(needle, haystack, i);
      assert i != 0;
      assert tail[i - 1..i - 1 + |needle|] == haystack[i..i + |needle|];
      assert OccursAt(needle, tail, i - 1);
    }
  }

  /** The empty string is a substring of every string (`'' in s` is true). */
  lemma EmptyIsSubstring(haystack: string)
    ensures IsSubstring([], haystack)
  {
    assert OccursAt([], haystack, 0);
  }
}
