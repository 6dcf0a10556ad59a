/**
 * Entity packaging: turning a stored datastore entity into the `{name, id}`
 * record the API returns, one entity at a time and for a whole list.
 */
module Packaging {

  import opened Wrappers
  import opened Subsequences

  /** The attribute that packaging requires of a stored entity. */
  const NameAttr: string := "name"

  /** A stored entity: its attributes and the integer id of its key. */
  datatype Entity = Entity(attrs: map<string, string>, keyId: int)

  /** The record returned to the caller: exactly a name and an id. */
  datatype Hero = Hero(name: string, id: int)

  predicate HasName(e: Entity) {
    NameAttr in e.attrs
  }

  /**
   * Packages one entity. A missing `name` makes the whole result absent; a
   * record is never returned partially filled in.
   */
  function PackageHero(e: Entity): (r: Option<Hero>)
    ensures r.Some? <==> HasName(e)
    ensures r.Some? ==> r.value.name == e.attrs[NameAttr] && r.value.id == e.keyId
  {
    if NameAttr in e.attrs then Some(Hero(e.attrs[NameAttr], e.keyId)) else None
  }

  /** The entity that a hero record is stored as. */
  function Stored(h: Hero): Entity {
    Entity(map[NameAttr := h.name], h.id)
  }

  /** Packaging recovers the hero that was stored. */
  lemma PackageStored(h: Hero)
    ensures PackageHero(Stored(h)) == Some(h)
  {
  }

  /** Packaging looks only at the `name` attribute and the key id. */
  lemma PackageIgnoresOtherAttributes(e: Entity, e': Entity)
    requires e.keyId == e'.keyId
    requires HasName(e) <==> HasName(e')
    requires HasName(e) ==> e.attrs[NameAttr] == e'.attrs[NameAttr]
    ensures PackageHero(e) == PackageHero(e')
  {
  }

  /** Packages every entity of a list, in order, keeping the absent results. */
  function PackageAll(s: seq<Entity>): (r: seq<Option<Hero>>)
    ensures |r| == |s|
    ensures forall i :: 0 <= i < |s| ==> r[i] == PackageHero(s[i])
  {
    if s == [] then [] else [PackageHero(s[0])] + PackageAll(s[1..])
  }

  /** The loop that appends the packaged form of each entity in turn. */
  method PackageHeroList(heroList: seq<Entity>) returns (packaged: seq<Option<Hero>>)
    ensures packaged == PackageAll(heroList)
  {
    packaged := [];
    for i := 0 to |heroList|
      invariant packaged == PackageAll(heroList[..i])
    {
      assert heroList[..i + 1] == heroList[..i] + [heroList[i]];
      packaged := packaged + [PackageHero(heroList[i])];
    }
    assert heroList[..|heroList|] == heroList;
  }

  /** The number of entities that have no `name` attribute. */
  function CountNameless(s: seq<Entity>): (n: nat)
    ensures n <= |s|
  {
    if s == [] then 0 else (if HasName(s[0]) then 0 else 1) + CountNameless(s[1..])
  }

  /** Every nameless entity, and only those, becomes an absent entry. */
  lemma {:induction false} PackageAllAbsentCount(s: seq<Entity>)
    ensures multiset(PackageAll(s))[None] == CountNameless(s)
  {
    if s != [] {
      PackageAllAbsentCount(s[1..]);
      assert PackageAll(s) == [PackageHero(s[0])] + PackageAll(s[1..]);
    }
  }

  /** Packaging maps an order-preserving selection to one. */
  lemma {:induction false} PackageAllSubsequence(r: seq<Entity>, s: seq<Entity>)
    requires IsSubsequence(r, s)
    ensures IsSubsequence(PackageAll(r), PackageAll(s))
    decreases |s|
  {
    if r != [] {
      assert PackageAll(s)[1..] == PackageAll(s[1..]);
      if r[0] == s[0] && IsSubsequence(r[1..], s[1..]) {
        PackageAllSubsequence(r[1..], s[1..]);
        assert PackageAll(r)[1..] == PackageAll(r[1..]);
      } else {
        PackageAllSubsequence(r, s[1..]);
      }
    }
  }
}
