/** EvaluationCriteriaMapper: single-key CRUD on CRITERES_EVALUATION, keys drawn from
    SEQ_CRITERES_EVALUATION, no cache. */
module Criteria {
  import opened Store
  import opened Business

  /** The columns a criteria is written to: nom, description. */
  function RowOf(c: EvaluationCriteria): CriteriaRow
    reads c
  {
    CriteriaRow(c.name, c.description)
  }

  /** The keys carried by a sequence of criteria, in order. The business
      classes share no supertype declaring `id`, so each module states this projection for its own class. */
  ghost function Ids(cs: seq<EvaluationCriteria>): (ids: seq<int>)
    reads cs
    ensures |ids| == |cs| && forall i :: 0 <= i < |cs| ==> ids[i] == cs[i].id
  {
    if cs == [] then [] else Ids(cs[..|cs| - 1]) + [cs[|cs| - 1].id]
  }

  class EvaluationCriteriaMapper {
    const db: Database

    constructor (db: Database)
      ensures this.db == db
    {
      this.db := db;
    }

    /** mapRow: a new criteria carrying the row's key, name and description. */
    method MapRow(id: int, row: CriteriaRow) returns (c: EvaluationCriteria)
      ensures fresh(c) && c.id == id && RowOf(c) == row
    {
      c := new EvaluationCriteria(id, row.name, row.description);
    }

    /** findById: the criteria stored under `id`, or null when no row has that key. */
    method FindById(id: int) returns (c: EvaluationCriteria?)
      ensures c == null <==> id !in db.criteresEvaluation
      ensures c != null ==> c.id == id && RowOf(c) == db.criteresEvaluation[id]
    {
      if id in db.criteresEvaluation {
        c := MapRow(id, db.criteresEvaluation[id]);
      } else {
        c := null;
      }
    }

    /** findAll: exactly one criteria per row, each carrying its row's key and columns. */
    method FindAll() returns (criteria: seq<EvaluationCriteria>)
      ensures forall k :: k in db.criteresEvaluation <==> k in Ids(criteria)
      ensures forall i :: 0 <= i < |criteria| ==> RowOf(criteria[i]) == db.criteresEvaluation[criteria[i].id]
      ensures forall i, j :: 0 <= i < j < |criteria| ==> criteria[i].id != criteria[j].id
    {
      var keys := RowOrder(db.criteresEvaluation);
      criteria := [];
      var i := 0;
      while i < |keys|
        invariant 0 <= i <= |keys| && |criteria| == i
        invariant forall j :: 0 <= j < i ==> criteria[j].id == keys[j] && RowOf(criteria[j]) == db.criteresEvaluation[keys[j]]
      {
        var c := MapRow(keys[i], db.criteresEvaluation[keys[i]]);
        criteria := criteria + [c];
        i := i + 1;
      }
    }

    /** create: the id is drawn from SEQ_CRITERES_EVALUATION and set on the criteria before the
        INSERT. The source returns the object whenever the statement raises no exception, ignoring
        the affected-row count; a primary-key violation raises, so it returns null exactly then. */
    method Create(crit: EvaluationCriteria) returns (r: EvaluationCriteria?)
      modifies crit`id, db`criteresEvaluation, db`issued
      ensures var id := old(db.Last(SeqCriteresEvaluation)) + 1;
        && db.Last(SeqCriteresEvaluation) == id && crit.id == id
        && db.criteresEvaluation == Store.Insert(old(db.criteresEvaluation), id, RowOf(crit))
        && (r != null <==> id !in old(db.criteresEvaluation))
        && (r != null ==> r == crit)
      ensures forall s :: s != SeqCriteresEvaluation ==> db.Last(s) == old(db.Last(s))
      ensures old(KeysIssued(db.criteresEvaluation, db.Last(SeqCriteresEvaluation))) ==> r != null && KeysIssued(db.criteresEvaluation, db.Last(SeqCriteresEvaluation))
    {
      if KeysIssued(db.criteresEvaluation, db.Last(SeqCriteresEvaluation)) {
        NextKeyIsFree(db.criteresEvaluation, db.Last(SeqCriteresEvaluation), RowOf(crit));
      }
      var id := db.NextVal(SeqCriteresEvaluation);
      crit.id := id;
      if id !in db.criteresEvaluation {
        db.criteresEvaluation := db.criteresEvaluation[id := RowOf(crit)];
        r := crit;
      } else {
        r := null;
      }
    }

    /** update: writes the name and description under the criteria's id; true exactly when a row was affected. */
    method Update(crit: EvaluationCriteria) returns (ok: bool)
      modifies db`criteresEvaluation
      ensures ok <==> crit.id in old(db.criteresEvaluation)
      ensures db.criteresEvaluation == Store.Update(old(db.criteresEvaluation), crit.id, RowOf(crit))
    {
      ok := crit.id in db.criteresEvaluation;
      if ok {
        db.criteresEvaluation := db.criteresEvaluation[crit.id := RowOf(crit)];
      }
    }

    /** deleteById: true exactly when a row was removed. */
    method DeleteById(id: int) returns (ok: bool)
      modifies db`criteresEvaluation
      ensures ok <==> id in old(db.criteresEvaluation)
      ensures db.criteresEvaluation == Store.Delete(old(db.criteresEvaluation), id)
    {
      ok := id in db.criteresEvaluation;
      db.criteresEvaluation := db.criteresEvaluation - {id};
    }

    /** delete(c) is deleteById(c.getId()). */
    method Delete(crit: EvaluationCriteria) returns (ok: bool)
      modifies db`criteresEvaluation
      ensures ok <==> crit.id in old(db.criteresEvaluation)
      ensures db.criteresEvaluation == Store.Delete(old(db.criteresEvaluation), crit.id)
    {
      ok := DeleteById(crit.id);
    }
  }
}
