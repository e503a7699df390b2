/** CityMapper: single-key CRUD on VILLES, keys drawn from SEQ_VILLES, no cache. */
module Cities {
  import opened Store
  import opened Business

  /** The columns a city is written to: code_postal, nom_ville. */
  function RowOf(c: City): CityRow
    reads c
  {
    CityRow(c.zipCode, c.cityName)
  }

  /** The keys carried by a sequence of cities, in order. The business
      classes share no supertype declaring `id`, so each module states this projection for its own class. */
  ghost function Ids(cs: seq<City>): (ids: seq<int>)
    reads cs
    ensures |ids| == |cs| && forall i :: 0 <= i < |cs| ==> ids[i] == cs[i].id
  {
    if cs == [] then [] else Ids(cs[..|cs| - 1]) + [cs[|cs| - 1].id]
  }

  class CityMapper {
    const db: Database

    constructor (db: Database)
      ensures this.db == db
    {
      this.db := db;
    }

    /** mapRow: a new City carrying the row's key, zip code and name. */
    method MapRow(id: int, row: CityRow) returns (c: City)
      ensures fresh(c) && c.id == id && RowOf(c) == row
    {
      c := new City(id, row.zipCode, row.cityName);
    }

    /** findById: the city stored under `id`, or null when no row has that key. */
    method FindById(id: int) returns (c: City?)
      ensures c == null <==> id !in db.villes
      ensures c != null ==> c.id == id && RowOf(c) == db.villes[id]
    {
      if id in db.villes {
        c := MapRow(id, db.villes[id]);
      } else {
        c := null;
      }
    }

    /** findAll: exactly one city per row, each carrying its row's key and columns. */
    method FindAll() returns (cities: seq<City>)
      ensures forall k :: k in db.villes <==> k in Ids(cities)
      ensures forall i :: 0 <= i < |cities| ==> RowOf(cities[i]) == db.villes[cities[i].id]
      ensures forall i, j :: 0 <= i < j < |cities| ==> cities[i].id != cities[j].id
    {
      var keys := RowOrder(db.villes);
      cities := [];
      var i := 0;
      while i < |keys|
        invariant 0 <= i <= |keys| && |cities| == i
        invariant forall j :: 0 <= j < i ==> cities[j].id == keys[j] && RowOf(cities[j]) == db.villes[keys[j]]
      {
        var c := MapRow(keys[i], db.villes[keys[i]]);
        cities := cities + [c];
        i := i + 1;
      }
    }

    /** create: the id is drawn from SEQ_VILLES and set on the city before the INSERT, so it stays set
        even when the INSERT fails; the city is returned exactly when its row was inserted. */
    method Create(city: City) returns (r: City?)
      modifies city`id, db`villes, db`issued
      ensures var id := old(db.Last(SeqVilles)) + 1;
        && db.Last(SeqVilles) == id && city.id == id
        && db.villes == Store.Insert(old(db.villes), id, RowOf(city))
        && (r != null <==> id !in old(db.villes))
        && (r != null ==> r == city)
      ensures forall s :: s != SeqVilles ==> db.Last(s) == old(db.Last(s))
      ensures old(KeysIssued(db.villes, db.Last(SeqVilles))) ==> r != null && KeysIssued(db.villes, db.Last(SeqVilles))
    {
      if KeysIssued(db.villes, db.Last(SeqVilles)) {
        NextKeyIsFree(db.villes, db.Last(SeqVilles), RowOf(city));
      }
      var id := db.NextVal(SeqVilles);
      city.id := id;
      if id !in db.villes {
        db.villes := db.villes[id := RowOf(city)];
        r := city;
      } else {
        r := null;
      }
    }

    /** update: writes the zip code and name under the city's id; false when no row has that id. */
    method Update(city: City) returns (ok: bool)
      modifies db`villes
      ensures ok <==> city.id in old(db.villes)
      ensures db.villes == Store.Update(old(db.villes), city.id, RowOf(city))
    {
      ok := city.id in db.villes;
      if ok {
        db.villes := db.villes[city.id := RowOf(city)];
      }
    }

    /** deleteById: true exactly when a row was removed. */
    method DeleteById(id: int) returns (ok: bool)
      modifies db`villes
      ensures ok <==> id in old(db.villes)
      ensures db.villes == Store.Delete(old(db.villes), id)
    {
      ok := id in db.villes;
      db.villes := db.villes - {id};
    }

    /** delete(c) is deleteById(c.getId()). */
    method Delete(city: City) returns (ok: bool)
      modifies db`villes
      ensures ok <==> city.id in old(db.villes)
      ensures db.villes == Store.Delete(old(db.villes), city.id)
    {
      ok := DeleteById(city.id);
    }
  }
}
