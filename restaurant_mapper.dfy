/** RestaurantMapper: reads of RESTAURANTS through an identity cache from id to the last restaurant
    materialised. Only the reads are modelled; create is unfinished in the source. */
module Restaurants {
  import opened Store
  import opened Business

  /** The columns a restaurant carries: nom, adresse, description, site_web, fk_type, fk_vill. */
  function RowOf(r: Restaurant): RestaurantRow
    reads r
  {
    RestaurantRow(r.name, r.address, r.description, r.website, r.typeId, r.cityId)
  }

  /** The keys carried by a sequence of restaurants, in order. The business
      classes share no supertype declaring `id`, so each module states this projection for its own class. */
  ghost function Ids(rs: seq<Restaurant>): (ids: seq<int>)
    reads rs
    ensures |ids| == |rs| && forall i :: 0 <= i < |rs| ==> ids[i] == rs[i].id
  {
    if rs == [] then [] else Ids(rs[..|rs| - 1]) + [rs[|rs| - 1].id]
  }

  /** What findById(id) answers when the cache was `cache`: the cached object on a hit; on a miss a
      restaurant carrying the key and the row stored under it, or null when there is no such row. */
  ghost predicate Answers(r: Restaurant?, id: int, cache: map<int, Restaurant>, rows: map<int, RestaurantRow>)
    reads r
  {
    if id in cache then r == cache[id]
    else if id in rows then r != null && r.id == id && RowOf(r) == rows[id]
    else r == null
  }

  /** `cache` keeps every entry of `cache0`, and every entry it adds is a restaurant carrying its own
      key and the row stored under it -- what findById and findAll add on a miss. */
  ghost predicate CacheGrown(cache0: map<int, Restaurant>, cache: map<int, Restaurant>, rows: map<int, RestaurantRow>)
    reads cache.Values
  {
    (forall k :: k in cache0 ==> k in cache && cache[k] == cache0[k])
    && forall k :: k in cache && k !in cache0 ==> k in rows && cache[k].id == k && RowOf(cache[k]) == rows[k]
  }

  /** An answer given against a cache grown from `cache0` is the answer `cache0` would have given. */
  lemma AnswersFromGrownCache(r: Restaurant?, id: int, cache0: map<int, Restaurant>, cache: map<int, Restaurant>,
                              rows: map<int, RestaurantRow>)
    requires Answers(r, id, cache, rows)
    requires CacheGrown(cache0, cache, rows)
    ensures Answers(r, id, cache0, rows)
  {
  }

  class RestaurantMapper {
    const db: Database
    /** The identity cache (a HashMap<Integer, Restaurant>). */
    var cache: map<int, Restaurant>

    constructor (db: Database)
      ensures this.db == db && cache == map[]
    {
      this.db := db;
      cache := map[];
    }

    /** The materialisation of one row (mapRowToRestaurant is called but not defined in the source;
        it is taken to carry the row's key and columns into a new restaurant). */
    method MapRow(id: int, row: RestaurantRow) returns (r: Restaurant)
      ensures fresh(r) && r.id == id && RowOf(r) == row
    {
      r := new Restaurant(id, row);
    }

    /** findById: a cached id is answered from the cache without looking at the table; on a miss a
        row is materialised and cached under `id`; with no row the result is null and the cache is
        unchanged. Either way the result is what the cache now holds for `id`. */
    method FindById(id: int) returns (r: Restaurant?)
      modifies this`cache
      ensures id in old(cache) ==> r == old(cache)[id] && cache == old(cache)
      ensures id !in old(cache) && id in db.restaurants ==>
        r != null && fresh(r) && r.id == id && RowOf(r) == db.restaurants[id] && cache == old(cache)[id := r]
      ensures id !in old(cache) && id !in db.restaurants ==> r == null && cache == old(cache)
      ensures r == (if id in cache then cache[id] else null)
    {
      if id in cache {
        return cache[id];
      }
      if id in db.restaurants {
        r := MapRow(id, db.restaurants[id]);
        cache := cache[id := r];
      } else {
        r := null;
      }
    }

    /** findAll: one new restaurant per row, each also put into the cache under its own id,
        replacing whatever was cached for that id; entries of ids without a row stay as they were. */
    method FindAll() returns (restaurants: seq<Restaurant>)
      modifies this`cache
      ensures forall k :: k in db.restaurants <==> k in Ids(restaurants)
      ensures forall i :: 0 <= i < |restaurants| ==>
        fresh(restaurants[i]) && RowOf(restaurants[i]) == db.restaurants[restaurants[i].id]
      ensures forall i, j :: 0 <= i < j < |restaurants| ==> restaurants[i].id != restaurants[j].id
      ensures forall k :: k in cache <==> k in old(cache) || k in db.restaurants
      ensures forall i :: 0 <= i < |restaurants| ==> cache[restaurants[i].id] == restaurants[i]
      ensures forall k :: k in old(cache) && k !in db.restaurants ==> cache[k] == old(cache)[k]
    {
      var keys := RowOrder(db.restaurants);
      restaurants := [];
      var i := 0;
      while i < |keys|
        invariant 0 <= i <= |keys| && |restaurants| == i
        invariant forall j :: 0 <= j < i ==> restaurants[j].id == keys[j]
        invariant forall j :: 0 <= j < i ==> fresh(restaurants[j]) && RowOf(restaurants[j]) == db.restaurants[keys[j]]
        invariant forall j :: 0 <= j < i ==> keys[j] in cache && cache[keys[j]] == restaurants[j]
        invariant forall k :: k in cache <==> k in old(cache) || k in keys[..i]
        invariant forall k :: k in old(cache) && k !in keys[..i] ==> cache[k] == old(cache)[k]
      {
        var r := MapRow(keys[i], db.restaurants[keys[i]]);
        restaurants := restaurants + [r];
        cache := cache[r.id := r];
        i := i + 1;
      }
    }

    /** Two findById calls in a row for the same id return the same reference, and a non-null one
        exactly when the id was cached or has a row. */
    method FindTwice(id: int) returns (first: Restaurant?, second: Restaurant?)
      modifies this`cache
      ensures first == second
      ensures first != null <==> id in old(cache) || id in db.restaurants
    {
      first := FindById(id);
      second := FindById(id);
    }

    /** After findAll, findById of any listed restaurant's id answers that very object. */
    method FindAllThenFind(k: int) returns (all: seq<Restaurant>, found: Restaurant?)
      modifies this`cache
      ensures k in db.restaurants ==> found != null && found.id == k && found in all
      ensures k !in db.restaurants ==> found == old(if k in cache then cache[k] else null)
    {
      all := FindAll();
      found := FindById(k);
      if k in db.restaurants {
        ghost var j :| 0 <= j < |all| && Ids(all)[j] == k;
        assert all[j].id == k;
      }
    }
  }
}
