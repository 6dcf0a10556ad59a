# Hero API: packaging and name filter

A model of the data shaping in the hero API service (`backend/main.py`): a
Flask service that lists, reads and deletes "Hero" entities held in Google
Cloud Datastore. The model covers the parts of the handlers that compute
something:

- **Packaging** (`package_hero`, `package_hero_list`): a stored entity (an
  attribute map plus the integer id of its key) becomes a `{name, id}`
  record, or `None` when it has no `name` attribute; a list is packaged
  element by element, keeping the `None` entries.
- **Name filter** (the loop in `get_heroes_api`): the `name` query argument
  is lower-cased and the fetched list is walked from its last index down to
  0; an entity is deleted when it has a `name` that does not contain the
  lower-cased term. Entities without a `name` are kept, and the stored name
  is compared as stored, not lower-cased. The loop is a method over the
  local list, proved equal to a pure stable filter, `NameFilter.Filter`,
  which is then characterised: it is an order-preserving subsequence of the
  input, it keeps every occurrence of a retained entity and none of the
  others, and it is the only selection with those two properties.
- **Lookup** (`get_hero_api`): a missing id answers `null`; a present
  entity answers its packaged form, which is itself `null` for a nameless
  entity.

The datastore is a parameter: the result of the listing query is a
`seq<Entity>`, the store seen by the lookup a `map<int, Entity>`. The
optional `name` request argument is an `Option<string>`.

Modules, one per component: `Wrappers` (`Option`), `Text` (ASCII
lower-casing and substring search), `Subsequences` (order-preserving
selections), `Packaging`, `NameFilter`, `HeroApi` (the two read handlers
composed from the others).

## Model

| member | source | states |
|---|---|---|
| Packaging.PackageHero | backend/main.py:15-22 | the result is present exactly when the entity has a `name`; a present result holds that name and the key id |
| Packaging.PackageStored | backend/main.py:15-22 | an entity stored from a hero packages back to that same hero |
| Packaging.PackageIgnoresOtherAttributes | backend/main.py:15-22 | packaging depends only on the `name` attribute and the key id; other attributes never reach the record |
| Packaging.PackageAll | backend/main.py:26-30 | the packaged list has the input's length and entry i is the packaging of input entry i |
| Packaging.PackageHeroList | backend/main.py:26-30 | the append loop builds exactly the packaged list |
| Packaging.PackageAllAbsentCount | backend/main.py:26-30 | `None` entries are kept, not dropped: there is one for every entity without a `name` |
| Packaging.PackageAllSubsequence | backend/main.py:26-30 | packaging an order-preserving selection of entities gives an order-preserving selection of the packaged list |
| Text.LowerChar | backend/main.py:44 | a capital becomes the letter at the same place of the small alphabet, any other character is kept, and no capital comes out |
| Text.Lower | backend/main.py:44 | lower-casing keeps the length, lower-cases each character in place and leaves no ASCII capital |
| Text.LowerIdempotent | backend/main.py:44 | lower-casing a lower-cased term changes nothing |
| Text.Contains | backend/main.py:48 | the search for the term in the name (Python's `in`) is true exactly when the term occurs at some position of the name |
| Text.SubstringOfTail | backend/main.py:48 | a term that does not start the name occurs in it exactly when it occurs in the name's tail |
| Text.EmptyIsSubstring | backend/main.py:48 | the empty term occurs in every name |
| NameFilter.Retained | backend/main.py:47-49 | an entity survives exactly when it has no `name` or the term occurs in its stored name |
| NameFilter.Filter | backend/main.py:45-50 | the stable filter the loop computes: never longer than the input, and every survivor is retained; its partner lemmas below pin it down |
| NameFilter.FilterByName | backend/main.py:44-50 | the backwards deleting loop leaves exactly the stable filter of the fetched list by the lower-cased query |
| NameFilter.FilterIsSubsequence | backend/main.py:45-50 | the survivors are a subsequence of the input, in the input's order |
| NameFilter.FilterMembership | backend/main.py:47-49 | an entity is in the result if and only if it is in the input and has no `name` or a `name` containing the term |
| NameFilter.FilterCounts | backend/main.py:45-50 | each retained entity keeps all its occurrences; every other entity keeps none |
| NameFilter.NamelessRetained | backend/main.py:47 | entities without a `name` are never deleted, whatever the query |
| NameFilter.FilterUnique | backend/main.py:45-50 | any order-preserving selection that keeps exactly the retained occurrences equals the filter |
| NameFilter.EmptyQueryKeepsAll | backend/main.py:44-49 | an empty query deletes nothing |
| NameFilter.FilterIdempotent | backend/main.py:45-50 | filtering the survivors again by the same term deletes nothing more |
| NameFilter.FilterKeepsNameless | backend/main.py:47 | filtering keeps the number of nameless entities |
| NameFilter.LetterQueryDeletesNamesWithoutSmall | backend/main.py:44-49 | a query with any ASCII letter deletes every entity whose stored name has no small letter, even one spelling the query exactly: only the query is lower-cased |
| NameFilter.CaseFoldedOnQuerySideOnly | backend/main.py:44-48 | the query "Thor" deletes an entity named "Thor" while "hor" keeps it: only the query is lower-cased |
| HeroApi.ListHeroes | backend/main.py:42-54 | the response is never longer than the fetched list; without `name`, it packages every fetched entity, in order, none dropped |
| HeroApi.GetHeroes | backend/main.py:42-52 | the listing filters only when `name` is given, then packages, giving the specified response |
| HeroApi.ListWithQueryRecords | backend/main.py:42-52 | with `name`, a record is listed if and only if a fetched entity packages to it and the lower-cased query occurs in its name |
| HeroApi.ListWithQueryKeepsAbsent | backend/main.py:42-52 | a `name` argument never removes a `null` entry from the listing |
| HeroApi.ListWithQueryIsSubsequence | backend/main.py:45-52 | the filtered listing is the unfiltered listing with entries removed, order kept |
| HeroApi.GetHero | backend/main.py:67-70 | the lookup answers `null` if and only if the id is missing or its entity has no `name`; otherwise it answers the entity's name and key id |
| HeroApi.GetHeroRecord | backend/main.py:61-70 | in a store keyed by entity ids, a found named entity answers its name and the requested id |
| HeroApi.GetAfterStore | backend/main.py:61-70 | a hero written under its own id is read back unchanged |

## Left out

- Flask setup, routing, CORS, `jsonify`, the `hello` route and `app.run` (backend/main.py:1-11, 102-103): web framework plumbing. The JSON encoding of `None` as `null` is taken as given.
- The datastore client (`datastore.Client()`, `query`/`fetch`, `get`, `key`): a network service; its answers are parameters (a sequence for the listing query, a map from id to entity for the lookup), in whatever order the store returns them.
- Reading `request.args`: the `name` argument is a parameter of type `Option<string>`.
- The `except ValueError` branches of `get_hero_api` and `delete_hero_api` (backend/main.py:63-65, 81-83). The `int(hero_id)` inside them cannot raise, since the `<int:hero_id>` route converter already supplies a non-negative integer. A `ValueError` raised by the datastore calls `client.key` or `client.get` is outside the model, as the datastore is. In `get_hero_api` it would answer `null`, the same answer `HeroApi.GetHero` gives for a missing id.
- `delete_hero_api` (backend/main.py:73-85): outside the modelled core; apart from the datastore call it only formats a confirmation string.
- `update_hero_api` and `add_hero_api` (backend/main.py:88-99): they only echo the request arguments and write nothing, so there is no logic to model.
- Text.Lower: models Python's `str.lower()` on ASCII capitals only; Unicode case mapping (including characters whose lower case has a different length) is not modelled.
- Attribute values are strings; a `name` of any other type is not modelled. For a list value (a datastore array property) or a dict value (an embedded entity), Python's `in` at backend/main.py:48 tests element or key membership instead of substring containment. For values such as `None`, numbers or bytes it raises `TypeError`. A key without an integer id is not modelled either.
- `del hero_list[index]` on the local Python list is modelled in the filter loop by reassigning a local sequence to the list without that entry; the list is created by the handler and not shared, so no aliasing is lost.
