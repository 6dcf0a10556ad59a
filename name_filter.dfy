/**
 * The name filter of the hero listing: the query term is lower-cased, and
 * every entity that has a `name` not containing the term is deleted from the
 * fetched list, walking it from the last index down to the first. Entities
 * without a `name` are kept. The stored name is compared as stored.
 */
module NameFilter {

  import opened Text
  import opened Packaging
  import opened Subsequences

  /** Whether an entity survives filtering by an (already lower-cased) term. */
  function Retained(e: Entity, term: string): (b: bool)
    ensures b <==> !HasName(e) || IsSubstring(term, e.attrs[NameAttr])
  {
    if NameAttr in e.attrs then Contains(e.attrs[NameAttr], term) else true
  }

  /** The stable filter: the retained entities, in their original order. */
  function Filter(s: seq<Entity>, term: string): (r: seq<Entity>)
    ensures |r| <= |s|
    ensures forall i :: 0 <= i < |r| ==> Retained(r[i], term)
  {
    if s == [] then [] else (if Retained(s[0], term) then [s[0]] else []) + Filter(s[1..], term)
  }

  /**
   * The loop of the listing handler. `heroList` is the fetched list; each
   * `del` replaces it by the list without the entry at `index`.
   */
  method FilterByName(fetched: seq<Entity>, query: string) returns (heroList: seq<Entity>)
    ensures heroList == Filter(fetched, Lower(query))
  {
    heroList := fetched;
    var heroName := Lower(query);
    var index := |heroList| - 1;
    while index >= 0
      invariant -1 <= index < |fetched|
      invariant heroList == fetched[..index + 1] + Filter(fetched[index + 1..], heroName)
    {
      assert heroList[index] == fetched[index];
      assert fetched[index..][1..] == fetched[index + 1..];
      assert fetched[..index + 1] == fetched[..index] + [fetched[index]];
      if NameAttr in heroList[index].attrs {
        if !Contains(heroList[index].attrs[NameAttr], heroName) {
          heroList := heroList[..index] + heroList[index + 1..];
        }
      }
      index := index - 1;
    }
    assert fetched[0..] == fetched;
  }

  /** The filter keeps the input's order: its result is a subsequence. */
  lemma {:induction false} FilterIsSubsequence(s: seq<Entity>, term: string)
    ensures IsSubsequence(Filter(s, term), s)
  {
    if s != [] {
      FilterIsSubsequence(s[1..], term);
      var rest := Filter(s[1..], term);
      if Retained(s[0], term) {
        assert Filter(s, term) == [s[0]] + rest;
        assert ([s[0]] + rest)[1..] == rest;
      } else {
        assert Filter(s, term) == rest;
      }
    }
  }

  /** An entity is in the result exactly when it is in the input and is retained. */
  lemma {:induction false} FilterMembership(s: seq<Entity>, term: string, e: Entity)
    ensures e in Filter(s, term) <==> e in s && (!HasName(e) || IsSubstring(term, e.attrs[NameAttr]))
  {
    if s != [] {
      FilterMembership(s[1..], term, e);
      assert s == [s[0]] + s[1..];
    }
  }

  /** Each retained entity keeps all its occurrences; every other entity loses them all. */
  lemma {:induction false} FilterCounts(s: seq<Entity>, term: string, e: Entity)
    ensures multiset(Filter(s, term))[e] == if Retained(e, term) then multiset(s)[e] else 0
  {
    if s != [] {
      FilterCounts(s[1..], term, e);
      assert s == [s[0]] + s[1..];
    }
  }

  /** Entities lacking a `name` are never deleted, whatever the query. */
  lemma NamelessRetained(s: seq<Entity>, query: string, e: Entity)
    requires !HasName(e)
    ensures multiset(Filter(s, Lower(query)))[e] == multiset(s)[e]
  {
    FilterCounts(s, Lower(query), e);
  }

  /**
   * The filter is the only order-preserving selection that keeps every
   * occurrence of the retained entities and none of the others.
   */
  lemma {:induction false} FilterUnique(s: seq<Entity>, term: string, r: seq<Entity>)
    requires IsSubsequence(r, s)
    requires forall e :: multiset(r)[e] == if Retained(e, term) then multiset(s)[e] else 0
    ensures r == Filter(s, term)
    decreases |s|
  {
    if s != [] {
      var h, t := s[0], s[1..];
      assert s == [h] + t;
      if Retained(h, term) {
        if r == [] || !(r[0] == h && IsSubsequence(r[1..], t)) {
          assert IsSubsequence(r, t);
          SubsequenceCounts(r, t, h);
          assert false;
        }
        assert r == [h] + r[1..];
        forall e ensures multiset(r[1..])[e] == if Retained(e, term) then multiset(t)[e] else 0 {
        }
        FilterUnique(t, term, r[1..]);
      } else {
        assert r != [] ==> r[0] in multiset(r);
        assert r == [] || r[0] != h;
        assert IsSubsequence(r, t);
        forall e ensures multiset(r)[e] == if Retained(e, term) then multiset(t)[e] else 0 {
        }
        FilterUnique(t, term, r);
      }
    }
  }

  /** Filtering keeps every entity that has no name, so their number is unchanged. */
  lemma {:induction false} FilterKeepsNameless(s: seq<Entity>, term: string)
    ensures CountNameless(Filter(s, term)) == CountNameless(s)
  {
    if s != [] {
      FilterKeepsNameless(s[1..], term);
      var rest := Filter(s[1..], term);
      if Retained(s[0], term) {
        assert Filter(s, term) == [s[0]] + rest;
        assert ([s[0]] + rest)[1..] == rest;
      } else {
        assert Filter(s, term) == rest;
      }
    }
  }

  /** An empty query keeps every entity. */
  lemma {:induction false} EmptyQueryKeepsAll(s: seq<Entity>)
    ensures Filter(s, Lower("")) == s
  {
    if s != [] {
      EmptyQueryKeepsAll(s[1..]);
      if HasName(s[0]) {
        EmptyIsSubstring(s[0].attrs[NameAttr]);
      }
    }
  }

  /** Filtering twice by the same term deletes nothing more. */
  lemma {:induction false} FilterIdempotent(s: seq<Entity>, term: string)
    ensures Filter(Filter(s, term), term) == Filter(s, term)
  {
    if s != [] {
      FilterIdempotent(s[1..], term);
      var rest := Filter(s[1..], term);
      if Retained(s[0], term) {
        assert Filter(s, term) == [s[0]] + rest;
        assert ([s[0]] + rest)[0] == s[0];
        assert ([s[0]] + rest)[1..] == rest;
      } else {
        assert Filter(s, term) == rest;
      }
    }
  }

  /**
   * Only the query is lower-cased: querying "Thor" deletes an entity stored
   * with the name "Thor", while querying "hor" keeps it.
   */
  lemma CaseFoldedOnQuerySideOnly()
    ensures Filter([Entity(map[NameAttr := "Thor"], 1)], Lower("Thor")) == []
    ensures Filter([Entity(map[NameAttr := "Thor"], 1)], Lower("hor")) == [Entity(map[NameAttr := "Thor"], 1)]
  {
  }

  /** The string holds no small ASCII letter (for instance, a name in capitals). */
  predicate HasNoSmall(name: string) {
    forall j :: 0 <= j < |name| ==> !IsSmall(name[j])
  }

  /**
   * In general: a query holding any ASCII letter deletes every named entity
   * whose stored name has no small letter, even when the query spells that
   * name exactly, because the stored name is not lower-cased.
   */
  lemma LetterQueryDeletesNamesWithoutSmall(s: seq<Entity>, query: string, k: nat, e: Entity)
    requires k < |query| && (IsUpper(query[k]) || IsSmall(query[k]))
    requires HasName(e) && HasNoSmall(e.attrs[NameAttr])
    ensures e !in Filter(s, Lower(query))
  {
  }
}
