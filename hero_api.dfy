/**
 * The two read handlers: the hero listing (optionally filtered by name) and
 * the single-hero lookup. The datastore is abstracted as its query result (a
 * sequence of entities) and as a map from key id to entity.
 */
module HeroApi {

  import opened Wrappers
  import opened Text
  import opened Packaging
  import opened NameFilter
  import opened Subsequences

  /**
   * The listing's response for a fetched list and an optional `name`
   * argument. Without `name`, every fetched entity is packaged, in order,
   * none dropped; with it, the response is never longer than the fetched list.
   */
  function ListHeroes(fetched: seq<Entity>, nameArg: Option<string>): (r: seq<Option<Hero>>)
    ensures |r| <= |fetched|
    ensures nameArg == None ==> |r| == |fetched| &&
                                forall i :: 0 <= i < |fetched| ==> r[i] == PackageHero(fetched[i])
  {
    match nameArg
    case None => PackageAll(fetched)
    case Some(query) => PackageAll(Filter(fetched, Lower(query)))
  }

  /** The listing handler: filter when `name` is given, then package. */
  method GetHeroes(fetched: seq<Entity>, nameArg: Option<string>) returns (response: seq<Option<Hero>>)
    ensures response == ListHeroes(fetched, nameArg)
  {
    var heroList := fetched;
    if nameArg.Some? {
      heroList := FilterByName(heroList, nameArg.value);
    }
    response := PackageHeroList(heroList);
  }

  /**
   * With a `name` argument, a record is listed exactly when a fetched entity
   * packages to it and the lower-cased query occurs in its name as stored.
   */
  lemma ListWithQueryRecords(fetched: seq<Entity>, query: string, h: Hero)
    ensures Some(h) in ListHeroes(fetched, Some(query)) <==>
            exists e :: e in fetched && PackageHero(e) == Some(h) && IsSubstring(Lower(query), h.name)
  {
    var kept := Filter(fetched, Lower(query));
    if Some(h) in ListHeroes(fetched, Some(query)) {
      var i :| 0 <= i < |kept| && PackageAll(kept)[i] == Some(h);
      FilterMembership(fetched, Lower(query), kept[i]);
    }
    if exists e :: e in fetched && PackageHero(e) == Some(h) && IsSubstring(Lower(query), h.name) {
      var e :| e in fetched && PackageHero(e) == Some(h) && IsSubstring(Lower(query), h.name);
      FilterMembership(fetched, Lower(query), e);
      var i :| 0 <= i < |kept| && kept[i] == e;
      assert PackageAll(kept)[i] == Some(h);
    }
  }

  /** A `name` argument never removes an absent (null) entry from the listing. */
  lemma ListWithQueryKeepsAbsent(fetched: seq<Entity>, query: string)
    ensures multiset(ListHeroes(fetched, Some(query)))[None] == multiset(ListHeroes(fetched, None))[None]
  {
    var kept := Filter(fetched, Lower(query));
    PackageAllAbsentCount(kept);
    PackageAllAbsentCount(fetched);
    FilterKeepsNameless(fetched, Lower(query));
  }

  /** The filtered listing is the unfiltered listing with some entries removed, in order. */
  lemma ListWithQueryIsSubsequence(fetched: seq<Entity>, query: string)
    ensures IsSubsequence(ListHeroes(fetched, Some(query)), ListHeroes(fetched, None))
  {
    FilterIsSubsequence(fetched, Lower(query));
    PackageAllSubsequence(Filter(fetched, Lower(query)), fetched);
  }

  /**
   * The single-hero lookup. The JSON body is `null` both for an id with no
   * entity and for an entity that packages to nothing; otherwise it is the
   * stored entity's name and key id.
   */
  function GetHero(store: map<int, Entity>, heroId: nat): (r: Option<Hero>)
    ensures r == None <==> heroId !in store || !HasName(store[heroId])
    ensures r.Some? ==> r.value == Hero(store[heroId].attrs[NameAttr], store[heroId].keyId)
  {
    if heroId in store then PackageHero(store[heroId]) else None
  }

  /** Every entity is stored under the id of its own key. */
  ghost predicate WellKeyed(store: map<int, Entity>) {
    forall k :: k in store ==> store[k].keyId == k
  }

  /** A found, named entity comes back as its name under the requested id. */
  lemma GetHeroRecord(store: map<int, Entity>, heroId: nat)
    requires WellKeyed(store)
    requires heroId in store && HasName(store[heroId])
    ensures GetHero(store, heroId) == Some(Hero(store[heroId].attrs[NameAttr], heroId))
  {
  }

  /** A hero written under its own id is read back unchanged. */
  lemma GetAfterStore(store: map<int, Entity>, h: Hero)
    requires h.id >= 0
    ensures GetHero(store[h.id := Stored(h)], h.id) == Some(h)
  {
  }
}
