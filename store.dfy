/** The relational store behind the mappers.

    Every statement the mappers issue filters on the primary key `numero = ?`, so each table is
    modelled as a map from that key to the remaining columns of the row. An INSERT adds a key (a key
    that is already present violates the primary key: the statement raises and nothing changes), an
    UPDATE or DELETE "affects > 0 rows" exactly when the key is present. The Oracle sequences that
    hand out new keys are counters. */
module Store {

  datatype Option<+T> = None | Some(value: T)

  /** A java.util.Date / java.sql.Date, kept opaque: only its millisecond value is carried. */
  datatype Date = Date(millis: int)

  /** A column value as the JDBC setter bound it (setInt, setString, setDate). */
  datatype Cell = IntCell(i: int) | TextCell(s: string) | DateCell(d: Date)

  /** getInt / getString / getDate on a column: each reads back exactly a value bound with its own
      setter; a value bound with another setter is not read (the driver's conversions between
      numbers, text and dates are not modelled) and the read raises. */
  function AsInt(c: Cell): (r: Option<int>)
    ensures forall i :: r == Some(i) <==> c == IntCell(i)
    ensures r.None? <==> !c.IntCell?
  {
    if c.IntCell? then Some(c.i) else None
  }

  function AsText(c: Cell): (r: Option<string>)
    ensures forall s :: r == Some(s) <==> c == TextCell(s)
    ensures r.None? <==> !c.TextCell?
  {
    if c.TextCell? then Some(c.s) else None
  }

  function AsDate(c: Cell): (r: Option<Date>)
    ensures forall d :: r == Some(d) <==> c == DateCell(d)
    ensures r.None? <==> !c.DateCell?
  {
    if c.DateCell? then Some(c.d) else None
  }

  // Rows, without their key column `numero`.

  /** VILLES: code_postal, nom_ville */
  datatype CityRow = CityRow(zipCode: string, cityName: string)

  /** TYPES_RESTAURANTS: libelle, description */
  datatype TypeRow = TypeRow(libelle: string, description: string)

  /** CRITERES_EVALUATION: nom, description */
  datatype CriteriaRow = CriteriaRow(name: string, description: string)

  /** RESTAURANTS: nom, adresse, description, site_web, fk_type, fk_vill */
  datatype RestaurantRow = RestaurantRow(name: string, address: string, description: string,
                                         website: string, fkType: int, fkCity: int)

  /** LIKES: appreciation, date_eval, adresse_ip, fk_rest -- each column holds what was bound into it. */
  datatype LikeRow = LikeRow(appreciation: Cell, dateEval: Cell, ipAddress: Cell, fkRest: Cell)

  /** COMMENTAIRES: date_eval, commentaire, nom_utilisateur, fk_rest -- each column holds what was bound into it. */
  datatype CommentRow = CommentRow(dateEval: Cell, comment: Cell, username: Cell, fkRest: Cell)

  /** NOTES: note, fk_comm, fk_crit */
  datatype NoteRow = NoteRow(note: int, fkComm: int, fkCrit: int)

  /** The Oracle sequences the mappers draw keys from. LIKES and COMMENTAIRES share SEQ_EVAL. */
  datatype Sequence = SeqVilles | SeqTypesRestaurants | SeqCriteresEvaluation | SeqEval | SeqNotes

  /** INSERT of a row under key `k`: a new key adds exactly that row; an existing key violates the
      primary key and the table is left as it was. */
  function Insert<R>(t: map<int, R>, k: int, row: R): (t': map<int, R>)
    ensures k !in t ==> t'.Keys == t.Keys + {k} && t'[k] == row
    ensures k in t ==> t' == t
    ensures forall j :: j in t ==> j in t' && t'[j] == t[j]
  {
    if k in t then t else t[k := row]
  }

  /** UPDATE ... WHERE numero = k: replaces the row under `k` if there is one; no key is added or removed. */
  function Update<R>(t: map<int, R>, k: int, row: R): (t': map<int, R>)
    ensures t'.Keys == t.Keys
    ensures k in t ==> t'[k] == row
    ensures forall j :: j in t && j != k ==> t'[j] == t[j]
  {
    if k in t then t[k := row] else t
  }

  /** DELETE ... WHERE numero = k: removes key `k` and nothing else. */
  function Delete<R>(t: map<int, R>, k: int): (t': map<int, R>)
    ensures t'.Keys == t.Keys - {k}
    ensures forall j :: j in t' ==> t'[j] == t[j]
  {
    t - {k}
  }

  /** Every key of `t` was handed out by a sequence whose last value is `last` -- the discipline the
      mappers follow by drawing each new key from the table's sequence. */
  predicate KeysIssued<R>(t: map<int, R>, last: int) {
    forall k :: k in t ==> k <= last
  }

  /** Under that discipline the next value of the sequence is a free key, so the INSERT that uses it
      succeeds and the table still follows the discipline afterwards. */
  lemma NextKeyIsFree<R>(t: map<int, R>, last: int, row: R)
    requires KeysIssued(t, last)
    ensures last + 1 !in t
    ensures KeysIssued(Insert(t, last + 1, row), last + 1)
  {
  }

  /** A key of a non-empty key set, used to pick the next row a result-set loop visits. */
  lemma SomeKey(keys: set<int>) returns (k: int)
    requires keys != {}
    ensures k in keys
  {
    if forall x :: x !in keys {
      assert false;
    }
    k :| k in keys;
  }

  /** The order in which a result set over table `t` delivers its rows: each key exactly once, in an
      order the model leaves open (the queries have no ORDER BY). */
  method RowOrder<R>(t: map<int, R>) returns (keys: seq<int>)
    ensures forall k :: k in t <==> k in keys
    ensures forall i :: 0 <= i < |keys| ==> keys[i] in t
    ensures forall i, j :: 0 <= i < j < |keys| ==> keys[i] != keys[j]
  {
    keys := [];
    var pending := t.Keys;
    while pending != {}
      invariant pending <= t.Keys
      invariant forall k :: k in t <==> k in keys || k in pending
      invariant forall k :: k in keys ==> k !in pending
      invariant forall i, j :: 0 <= i < j < |keys| ==> keys[i] != keys[j]
      decreases pending
    {
      ghost var someKey := SomeKey(pending);
      var key :| key in pending;
      keys := keys + [key];
      pending := pending - {key};
    }
  }

  /** Extending the visited prefix of a row order by one key adds a key it did not hold. */
  lemma PrefixGrows(keys: seq<int>, i: int)
    requires 0 <= i < |keys|
    requires forall a, b :: 0 <= a < b < |keys| ==> keys[a] != keys[b]
    ensures keys[..i + 1] == keys[..i] + [keys[i]]
    ensures keys[i] !in keys[..i]
  {
    assert keys[..i + 1] == keys[..i] + [keys[i]];
  }

  class Database {
    var villes: map<int, CityRow>
    var typesRestaurants: map<int, TypeRow>
    var criteresEvaluation: map<int, CriteriaRow>
    var restaurants: map<int, RestaurantRow>
    var likes: map<int, LikeRow>
    var commentaires: map<int, CommentRow>
    var notes: map<int, NoteRow>
    /** The last value each sequence handed out; a sequence not in the map has handed out nothing. */
    var issued: map<Sequence, int>

    constructor ()
      ensures villes == map[] && typesRestaurants == map[] && criteresEvaluation == map[]
      ensures restaurants == map[] && likes == map[] && commentaires == map[] && notes == map[]
      ensures issued == map[]
    {
      villes, typesRestaurants, criteresEvaluation := map[], map[], map[];
      restaurants, likes, commentaires, notes := map[], map[], map[], map[];
      issued := map[];
    }

    /** The last value sequence `s` handed out (0 before its first use, so the first value is 1). */
    function Last(s: Sequence): int
      reads this
    {
      if s in issued then issued[s] else 0
    }

    /** SELECT <sequence>.NEXTVAL FROM dual: a value larger than every value `s` handed out before. */
    method NextVal(s: Sequence) returns (v: int)
      modifies this`issued
      ensures v == old(Last(s)) + 1 && Last(s) == v
      ensures forall s' :: s' != s ==> Last(s') == old(Last(s'))
    {
      v := Last(s) + 1;
      issued := issued[s := v];
    }
  }
}
