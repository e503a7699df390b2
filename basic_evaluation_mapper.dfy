/** BasicEvaluationMapper: likes and dislikes in LIKES, keys drawn from SEQ_EVAL, the sequence that
    COMMENTAIRES draws from as well. create and update bind their parameters in an order that does
    not follow the statement's column list; LIKES keeps, column by column, what was bound into it. */
module Likes {
  import opened Store
  import opened Business

  /** The like flag as written: 1 exactly when the Boolean is non-null and true, otherwise 0. */
  function LikeFlag(like: Option<bool>): (f: int)
    ensures f == 0 || f == 1
    ensures f == 1 <==> like == Some(true)
  {
    if like == Some(true) then 1 else 0
  }

  /** The encoding cannot tell a dislike from an evaluation without an opinion: two Booleans get the
      same flag exactly when both or neither are a non-null true. */
  lemma LikeFlagAgrees(a: Option<bool>, b: Option<bool>)
    ensures LikeFlag(a) == LikeFlag(b) <==> (a == Some(true) <==> b == Some(true))
    ensures LikeFlag(None) == LikeFlag(Some(false))
  {
  }

  /** The row that create and update write, column by column: the statement binds the visit date into
      appreciation, the restaurant's id into date_eval, the like flag into adresse_ip and the IP
      address into fk_rest. */
  function RowOf(e: BasicEvaluation): (row: LikeRow)
    requires e.restaurant != null
    reads e, e.restaurant
    ensures AsDate(row.appreciation) == Some(e.visitDate) && AsInt(row.dateEval) == Some(e.restaurant.id)
    ensures AsInt(row.ipAddress) == Some(LikeFlag(e.likeRestaurant)) && AsText(row.fkRest) == Some(e.ipAddress)
  {
    LikeRow(DateCell(e.visitDate), IntCell(e.restaurant.id), IntCell(LikeFlag(e.likeRestaurant)), TextCell(e.ipAddress))
  }

  /** What the written row holds where: none of date_eval, adresse_ip and fk_rest holds the value its
      name announces, and the flag, though stored, sits in adresse_ip. */
  lemma RowMisplacesColumns(e: BasicEvaluation)
    requires e.restaurant != null
    ensures AsDate(RowOf(e).dateEval).None? && AsText(RowOf(e).ipAddress).None? && AsInt(RowOf(e).fkRest).None?
    ensures AsDate(RowOf(e).appreciation) == Some(e.visitDate)
    ensures AsInt(RowOf(e).ipAddress) == Some(1) <==> e.likeRestaurant == Some(true)
  {
  }

  class BasicEvaluationMapper {
    const db: Database

    constructor (db: Database)
      ensures this.db == db
    {
      this.db := db;
    }

    /** findById: the row stored under `id`, or None (null) when no row has that key. The row is
        handed on as stored: the file ends before mapRow, so the object built from it is not part
        of this model. */
    method FindById(id: int) returns (row: Option<LikeRow>)
      ensures row.None? <==> id !in db.likes
      ensures row.Some? ==> row.value == db.likes[id]
    {
      if id in db.likes {
        row := Some(db.likes[id]);
      } else {
        row := None;
      }
    }

    /** findAll: one entry per row of LIKES, each with its key and its columns. */
    method FindAll() returns (rows: seq<(int, LikeRow)>)
      ensures forall k :: k in db.likes <==> exists i :: 0 <= i < |rows| && rows[i].0 == k
      ensures forall i :: 0 <= i < |rows| ==> rows[i].0 in db.likes && rows[i].1 == db.likes[rows[i].0]
      ensures forall i, j :: 0 <= i < j < |rows| ==> rows[i].0 != rows[j].0
    {
      var keys := RowOrder(db.likes);
      rows := [];
      var i := 0;
      while i < |keys|
        invariant 0 <= i <= |keys| && |rows| == i
        invariant forall j :: 0 <= j < i ==> rows[j] == (keys[j], db.likes[keys[j]])
      {
        rows := rows + [(keys[i], db.likes[keys[i]])];
        i := i + 1;
      }
      forall k | k in db.likes
        ensures exists i :: 0 <= i < |rows| && rows[i].0 == k
      {
        var i :| 0 <= i < |keys| && keys[i] == k;
        assert rows[i].0 == k;
      }
    }

    /** create: the id is drawn from SEQ_EVAL and set on the evaluation before the INSERT; the
        evaluation is returned exactly when its row was inserted. Drawing from SEQ_EVAL keeps the new
        key clear of every comment key that sequence handed out. */
    method Create(e: BasicEvaluation) returns (r: BasicEvaluation?)
      requires e.restaurant != null
      modifies e`id, db`likes, db`issued
      ensures var id := old(db.Last(SeqEval)) + 1;
        && db.Last(SeqEval) == id && e.id == id
        && db.likes == Store.Insert(old(db.likes), id, RowOf(e))
        && (r != null <==> id !in old(db.likes))
        && (r != null ==> r == e)
      ensures forall s :: s != SeqEval ==> db.Last(s) == old(db.Last(s))
      ensures old(KeysIssued(db.likes, db.Last(SeqEval))) ==> r != null && KeysIssued(db.likes, db.Last(SeqEval))
      ensures old(KeysIssued(db.commentaires, db.Last(SeqEval))) ==>
        e.id !in db.commentaires && KeysIssued(db.commentaires, db.Last(SeqEval))
    {
      if KeysIssued(db.likes, db.Last(SeqEval)) {
        NextKeyIsFree(db.likes, db.Last(SeqEval), RowOf(e));
      }
      var id := db.NextVal(SeqEval);
      e.id := id;
      if id !in db.likes {
        db.likes := db.likes[id := RowOf(e)];
        r := e;
      } else {
        r := null;
      }
    }

    /** update: rewrites the row under the evaluation's id with the same bindings as create; false
        when no row has that id. */
    method Update(e: BasicEvaluation) returns (ok: bool)
      requires e.restaurant != null
      modifies db`likes
      ensures ok <==> e.id in old(db.likes)
      ensures db.likes == Store.Update(old(db.likes), e.id, RowOf(e))
    {
      ok := e.id in db.likes;
      if ok {
        db.likes := db.likes[e.id := RowOf(e)];
      }
    }
  }
}
