/** RestaurantTypeMapper: single-key CRUD on TYPES_RESTAURANTS, keys drawn from
    SEQ_TYPES_RESTAURANTS, with an identity cache from id to the last object read or written. The
    cache is written or evicted only after the statement it follows has succeeded. */
module RestaurantTypes {
  import opened Store
  import opened Business

  /** The columns a type is written to: libelle, description. */
  function RowOf(t: RestaurantType): TypeRow
    reads t
  {
    TypeRow(t.typeLabel, t.description)
  }

  /** The keys carried by a sequence of types, in order. The business
      classes share no supertype declaring `id`, so each module states this projection for its own class. */
  ghost function Ids(ts: seq<RestaurantType>): (ids: seq<int>)
    reads ts
    ensures |ids| == |ts| && forall i :: 0 <= i < |ts| ==> ids[i] == ts[i].id
  {
    if ts == [] then [] else Ids(ts[..|ts| - 1]) + [ts[|ts| - 1].id]
  }

  class RestaurantTypeMapper {
    const db: Database
    /** The identity cache (a HashMap<Integer, RestaurantType>). */
    var cache: map<int, RestaurantType>

    constructor (db: Database)
      ensures this.db == db && cache == map[]
    {
      this.db := db;
      cache := map[];
    }

    /** mapRowToRestaurantType: a new type carrying the row's key, label and description. */
    method MapRow(id: int, row: TypeRow) returns (t: RestaurantType)
      ensures fresh(t) && t.id == id && RowOf(t) == row
    {
      t := new RestaurantType(id, row.libelle, row.description);
    }

    /** findById: a cached id is answered from the cache without looking at the table; on a miss a
        row is materialised and cached under `id`; with no row the result is null and the cache is
        unchanged. Either way the result is what the cache now holds for `id`. */
    method FindById(id: int) returns (t: RestaurantType?)
      modifies this`cache
      ensures id in old(cache) ==> t == old(cache)[id] && cache == old(cache)
      ensures id !in old(cache) && id in db.typesRestaurants ==>
        t != null && fresh(t) && t.id == id && RowOf(t) == db.typesRestaurants[id] && cache == old(cache)[id := t]
      ensures id !in old(cache) && id !in db.typesRestaurants ==> t == null && cache == old(cache)
      ensures t == (if id in cache then cache[id] else null)
    {
      if id in cache {
        return cache[id];
      }
      if id in db.typesRestaurants {
        t := MapRow(id, db.typesRestaurants[id]);
        cache := cache[id := t];
      } else {
        t := null;
      }
    }

    /** findAll: one new object per row, each also put into the cache under its own id, replacing
        whatever was cached for that id; cache entries of ids without a row stay as they were. */
    method FindAll() returns (types: seq<RestaurantType>)
      modifies this`cache
      ensures forall k :: k in db.typesRestaurants <==> k in Ids(types)
      ensures forall i :: 0 <= i < |types| ==> fresh(types[i]) && RowOf(types[i]) == db.typesRestaurants[types[i].id]
      ensures forall i, j :: 0 <= i < j < |types| ==> types[i].id != types[j].id
      ensures forall k :: k in cache <==> k in old(cache) || k in db.typesRestaurants
      ensures forall i :: 0 <= i < |types| ==> cache[types[i].id] == types[i]
      ensures forall k :: k in old(cache) && k !in db.typesRestaurants ==> cache[k] == old(cache)[k]
    {
      var keys := RowOrder(db.typesRestaurants);
      types := [];
      var i := 0;
      while i < |keys|
        invariant 0 <= i <= |keys| && |types| == i
        invariant forall j :: 0 <= j < i ==> types[j].id == keys[j]
        invariant forall j :: 0 <= j < i ==> fresh(types[j]) && RowOf(types[j]) == db.typesRestaurants[keys[j]]
        invariant forall j :: 0 <= j < i ==> keys[j] in cache && cache[keys[j]] == types[j]
        invariant forall k :: k in cache <==> k in old(cache) || k in keys[..i]
        invariant forall k :: k in old(cache) && k !in keys[..i] ==> cache[k] == old(cache)[k]
      {
        var t := MapRow(keys[i], db.typesRestaurants[keys[i]]);
        types := types + [t];
        cache := cache[keys[i] := t];
        i := i + 1;
      }
    }

    /** create: draws a fresh id from SEQ_TYPES_RESTAURANTS; only when the INSERT adds the row does it
        set the id on the object, cache it and return it; otherwise the result is null and neither
        the object's id nor the cache changes. */
    method Create(t: RestaurantType) returns (r: RestaurantType?)
      modifies this`cache, t`id, db`typesRestaurants, db`issued
      ensures var id := old(db.Last(SeqTypesRestaurants)) + 1;
        && db.Last(SeqTypesRestaurants) == id
        && db.typesRestaurants == Store.Insert(old(db.typesRestaurants), id, RowOf(t))
        && (r != null <==> id !in old(db.typesRestaurants))
        && (r != null ==> r == t && t.id == id && cache == old(cache)[id := t])
        && (r == null ==> t.id == old(t.id) && cache == old(cache))
      ensures forall s :: s != SeqTypesRestaurants ==> db.Last(s) == old(db.Last(s))
      ensures old(KeysIssued(db.typesRestaurants, db.Last(SeqTypesRestaurants))) ==> r != null && KeysIssued(db.typesRestaurants, db.Last(SeqTypesRestaurants))
    {
      if KeysIssued(db.typesRestaurants, db.Last(SeqTypesRestaurants)) {
        NextKeyIsFree(db.typesRestaurants, db.Last(SeqTypesRestaurants), RowOf(t));
      }
      var id := db.NextVal(SeqTypesRestaurants);
      if id !in db.typesRestaurants {
        db.typesRestaurants := db.typesRestaurants[id := RowOf(t)];
        t.id := id;
        cache := cache[id := t];
        r := t;
      } else {
        r := null;
      }
    }

    /** update: writes label and description under the object's id; only when a row was affected is
        the object cached under its id and true returned. */
    method Update(t: RestaurantType) returns (ok: bool)
      modifies this`cache, db`typesRestaurants
      ensures ok <==> t.id in old(db.typesRestaurants)
      ensures db.typesRestaurants == Store.Update(old(db.typesRestaurants), t.id, RowOf(t))
      ensures cache == if ok then old(cache)[t.id := t] else old(cache)
    {
      ok := t.id in db.typesRestaurants;
      if ok {
        db.typesRestaurants := db.typesRestaurants[t.id := RowOf(t)];
        cache := cache[t.id := t];
      }
    }

    /** deleteById: evicts `id` from the cache only when a row was deleted. */
    method DeleteById(id: int) returns (ok: bool)
      modifies this`cache, db`typesRestaurants
      ensures ok <==> id in old(db.typesRestaurants)
      ensures db.typesRestaurants == Store.Delete(old(db.typesRestaurants), id)
      ensures cache == if ok then old(cache) - {id} else old(cache)
    {
      ok := id in db.typesRestaurants;
      if ok {
        db.typesRestaurants := db.typesRestaurants - {id};
        cache := cache - {id};
      }
    }

    /** delete(t) is deleteById(t.getId()). */
    method Delete(t: RestaurantType) returns (ok: bool)
      modifies this`cache, db`typesRestaurants
      ensures ok <==> t.id in old(db.typesRestaurants)
      ensures db.typesRestaurants == Store.Delete(old(db.typesRestaurants), t.id)
      ensures cache == if ok then old(cache) - {t.id} else old(cache)
    {
      ok := DeleteById(t.id);
    }

    method IsCacheEmpty() returns (empty: bool)
      ensures empty <==> |cache| == 0
    {
      empty := cache == map[];
    }

    method ResetCache()
      modifies this`cache
      ensures cache == map[]
    {
      cache := map[];
    }

    /** addToCache: binds the object's id to it; every other key keeps its entry. */
    method AddToCache(t: RestaurantType)
      modifies this`cache
      ensures cache.Keys == old(cache).Keys + {t.id} && cache[t.id] == t
      ensures forall k :: k in old(cache) && k != t.id ==> cache[k] == old(cache)[k]
    {
      cache := cache[t.id := t];
    }

    /** removeFromCache: drops `id`; every other key keeps its entry. */
    method RemoveFromCache(id: int)
      modifies this`cache
      ensures cache.Keys == old(cache).Keys - {id}
      ensures forall k :: k in cache ==> cache[k] == old(cache)[k]
    {
      cache := cache - {id};
    }

    /** Two findById calls in a row for the same id return the same reference, and a non-null one
        exactly when the id was cached or has a row. */
    method FindTwice(id: int) returns (first: RestaurantType?, second: RestaurantType?)
      modifies this`cache
      ensures first == second
      ensures first != null <==> id in old(cache) || id in db.typesRestaurants
    {
      first := FindById(id);
      second := FindById(id);
    }

    /** After a successful create, findById of the new id answers the created object itself. */
    method CreateThenFind(t: RestaurantType) returns (created: RestaurantType?, found: RestaurantType?)
      modifies this`cache, t`id, db`typesRestaurants, db`issued
      ensures created != null ==> found == created && found == t
    {
      created := Create(t);
      found := FindById(t.id);
    }
  }

  /** resetCache leaves the cache in the state isCacheEmpty reports as empty. */
  method ResetThenEmpty(m: RestaurantTypeMapper) returns (empty: bool)
    modifies m`cache
    ensures empty
  {
    m.ResetCache();
    empty := m.IsCacheEmpty();
  }
}
