/** The university catalog as the core sees it: read-only program records and
    the queries the routes run against them (by country, by id, distinct
    countries, counts). */
module Catalog {
  import opened Common

  /** The `category` enum of a university record. */
  datatype Category = Dream | Target | Safe

  datatype TuitionFee = TuitionFee(min: Option<int>, max: Option<int>)

  /** One catalog record. `id` is the store's object id as a string; optional
      numbers are `None` when the record leaves them out. */
  datatype University = University(
    id: string,
    name: string,
    country: string,
    city: string,
    ranking: Option<int>,
    degreeLevels: seq<string>,
    fieldsOfStudy: seq<string>,
    tuitionFee: TuitionFee,
    acceptanceRate: Option<real>,
    gpaRequirement: Option<real>,
    category: Category)

  /** The whole store, in the store's natural order. */
  type Catalog = seq<University>

  /** Object ids are unique in the store. */
  predicate UniqueIds(cat: Catalog) {
    forall i, j :: 0 <= i < j < |cat| ==> cat[i].id != cat[j].id
  }

  function IdsOf(unis: seq<University>): (r: set<string>)
    ensures forall i :: 0 <= i < |unis| ==> unis[i].id in r
    ensures forall id :: id in r ==> exists i :: 0 <= i < |unis| && unis[i].id == id
  {
    set u | u in unis :: u.id
  }

  /** `University.find({ country })`. */
  function InCountry(cat: Catalog, country: string): (r: seq<University>)
    ensures forall i :: 0 <= i < |r| ==> r[i] in cat && r[i].country == country
    ensures forall i :: 0 <= i < |cat| && cat[i].country == country ==> cat[i] in r
  {
    Filter(cat, (u: University) => u.country == country)
  }

  /** `University.countDocuments({ country })`. */
  function CountryCount(cat: Catalog, country: string): nat {
    |InCountry(cat, country)|
  }

  /** `University.find({ _id: { $in: ids } })`: the records whose id is listed,
      in store order (not in the order of `ids`). */
  function WithIds(cat: Catalog, ids: seq<string>): (r: seq<University>)
    ensures forall i :: 0 <= i < |r| ==> r[i] in cat && r[i].id in ids
    ensures forall i :: 0 <= i < |cat| && cat[i].id in ids ==> cat[i] in r
  {
    Filter(cat, (u: University) => u.id in ids)
  }

  /** `University.findById(id)` (also `allUnis.find(u => u._id == id)`): the first record with that id. */
  function FindById(unis: seq<University>, id: string): (r: Option<University>)
    ensures r.Some? <==> exists i :: 0 <= i < |unis| && unis[i].id == id
    ensures r.Some? ==> r.value in unis && r.value.id == id
    ensures r.Some? ==> exists i :: 0 <= i < |unis| && unis[i] == r.value
                           && forall j :: 0 <= j < i ==> unis[j].id != id
  {
    if unis == [] then None
    else if unis[0].id == id then Some(unis[0])
    else
      var r := FindById(unis[1..], id);
      assert r.Some? ==> exists i :: 1 <= i < |unis| && unis[i] == r.value
                           && forall j :: 0 <= j < i ==> unis[j].id != id;
      r
  }

  /** `University.distinct('country')`: every country of the store once, in order of first appearance. */
  function DistinctCountries(cat: Catalog): (r: seq<string>)
    ensures forall i, j :: 0 <= i < j < |r| ==> r[i] != r[j]
    ensures forall c :: c in r <==> exists i :: 0 <= i < |cat| && cat[i].country == c
  {
    DistinctFrom(cat, [])
  }

  /** Some record of the store is in `country`. */
  predicate Listed(cat: Catalog, country: string) {
    exists i :: 0 <= i < |cat| && cat[i].country == country
  }

  function DistinctFrom(cat: Catalog, seen: seq<string>): (r: seq<string>)
    requires NoDuplicates(seen)
    ensures |seen| <= |r| && r[..|seen|] == seen
    ensures NoDuplicates(r)
    ensures forall c :: c in r <==> c in seen || Listed(cat, c)
    decreases |cat|
  {
    if cat == [] then seen
    else
      var next := if cat[0].country in seen then seen else seen + [cat[0].country];
      AppendFresh(seen, cat[0].country);
      ListedSplit(cat);
      var r := DistinctFrom(cat[1..], next);
      assert r[..|seen|] == r[..|next|][..|seen|];
      r
  }

  /** The countries of a non-empty store: the first record's, and those of the rest. */
  lemma ListedSplit(cat: Catalog)
    requires cat != []
    ensures forall c :: Listed(cat, c) <==> c == cat[0].country || Listed(cat[1..], c)
  {
    forall c | Listed(cat[1..], c)
      ensures Listed(cat, c)
    {
      var i :| 0 <= i < |cat[1..]| && cat[1..][i].country == c;
      assert cat[i + 1].country == c;
    }
  }

  /** A country has a positive count exactly when some record lists it. */
  lemma CountPositiveIffListed(cat: Catalog, country: string)
    ensures CountryCount(cat, country) > 0 <==> exists i :: 0 <= i < |cat| && cat[i].country == country
  {
    if CountryCount(cat, country) > 0 {
      var r := InCountry(cat, country);
      assert r[0] in cat;
    }
  }
}
