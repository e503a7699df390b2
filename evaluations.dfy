/** CompleteEvaluationMapper and GradeMapper: comments in COMMENTAIRES (keys from SEQ_EVAL) with their
    grades in NOTES (keys from SEQ_NOTES, fk_comm pointing at the comment, fk_crit at a criteria).
    The two mappers refer to each other: a grade resolves its evaluation through the evaluation
    mapper, and an evaluation loads, creates, updates and deletes its grades through the grade
    mapper. */
module Evaluations {
  import opened Store
  import opened Business
  import Criteria
  import Restaurants

  // ---------------------------------------------------------------------------------------------
  // NOTES as the cascade sees it

  /** The keys of the grades whose fk_comm references evaluation `e`. */
  ghost function GradesOf(notes: map<int, NoteRow>, e: int): set<int> {
    set k | k in notes && notes[k].fkComm == e
  }

  /** NOTES after deleting every grade of evaluation `e` (deleteByEvaluationId). */
  function WithoutGradesOf(notes: map<int, NoteRow>, e: int): (r: map<int, NoteRow>)
    ensures r.Keys == notes.Keys - GradesOf(notes, e)
    ensures forall k :: k in r ==> r[k] == notes[k]
  {
    map k | k in notes && notes[k].fkComm != e :: notes[k]
  }

  /** After deleteByEvaluationId(e) no grade references `e`, and every other evaluation keeps exactly
      its grades. */
  lemma DeleteGradesOfOnlyTouchesE(notes: map<int, NoteRow>, e: int, other: int)
    requires other != e
    ensures GradesOf(WithoutGradesOf(notes, e), e) == {}
    ensures GradesOf(WithoutGradesOf(notes, e), other) == GradesOf(notes, other)
  {
    var r := WithoutGradesOf(notes, e);
    forall k | k in GradesOf(notes, other)
      ensures k in GradesOf(r, other)
    {
      assert k in r;
    }
  }

  /** NOTES after the first `n` grades of create's cascade: rows[0], ..., rows[n - 1] inserted one
      after the other under the keys last + 1, ..., last + n handed out by SEQ_NOTES. */
  function CreateNotes(notes: map<int, NoteRow>, last: int, rows: seq<NoteRow>, n: nat): map<int, NoteRow>
    requires n <= |rows|
  {
    if n == 0 then notes
    else
      var before := CreateNotes(notes, last, rows, n - 1);
      if last + n in before then before else before[last + n := rows[n - 1]]
  }

  /** When NOTES follows the sequence discipline, the first `n` grades of the cascade store the i-th
      row under key last + 1 + i, keep every grade that was there, add nothing else, and leave NOTES
      following the discipline. */
  lemma {:induction false} CascadeCreatePersistsEach(notes: map<int, NoteRow>, last: int, rows: seq<NoteRow>, n: nat)
    requires n <= |rows| && KeysIssued(notes, last)
    ensures forall k :: k in CreateNotes(notes, last, rows, n) <==> k in notes || last < k <= last + n
    ensures forall i :: 0 <= i < n ==> CreateNotes(notes, last, rows, n)[last + 1 + i] == rows[i]
    ensures forall k :: k in notes ==> CreateNotes(notes, last, rows, n)[k] == notes[k]
    ensures KeysIssued(CreateNotes(notes, last, rows, n), last + n)
  {
    if n > 0 {
      CascadeCreatePersistsEach(notes, last, rows, n - 1);
      assert last + n !in CreateNotes(notes, last, rows, n - 1);
    }
  }

  /** The cascade of create gives evaluation `e` exactly its old grades plus the new keys, and gives
      every other evaluation exactly its old grades. */
  lemma CascadeCreateGrades(notes: map<int, NoteRow>, last: int, rows: seq<NoteRow>, e: int, other: int)
    requires KeysIssued(notes, last)
    requires forall i :: 0 <= i < |rows| ==> rows[i].fkComm == e
    requires other != e
    ensures forall k :: k in GradesOf(CreateNotes(notes, last, rows, |rows|), e) <==>
                        k in GradesOf(notes, e) || last < k <= last + |rows|
    ensures GradesOf(CreateNotes(notes, last, rows, |rows|), other) == GradesOf(notes, other)
  {
    CascadeCreatePersistsEach(notes, last, rows, |rows|);
    var after := CreateNotes(notes, last, rows, |rows|);
    forall k | last < k <= last + |rows|
      ensures k in GradesOf(after, e)
    {
      assert after[last + 1 + (k - last - 1)] == rows[k - last - 1];
    }
    forall k | k in GradesOf(after, other)
      ensures k in GradesOf(notes, other)
    {
      // every new key holds a row of `e`, not of `other`
      assert after[k].fkComm == other;
      assert k !in GradesOf(after, e);
      assert k in notes && after[k] == notes[k];
    }
    forall k | k in GradesOf(notes, other)
      ensures k in GradesOf(after, other)
    {
      assert after[k] == notes[k];
    }
  }

  /** NOTES after the first `n` statements of update's cascade: one UPDATE per (key, row), in order. */
  function UpdateNotes(notes: map<int, NoteRow>, ups: seq<(int, NoteRow)>, n: nat): map<int, NoteRow>
    requires n <= |ups|
  {
    if n == 0 then notes
    else Store.Update(UpdateNotes(notes, ups, n - 1), ups[n - 1].0, ups[n - 1].1)
  }

  /** The cascade of update never adds or deletes a grade, leaves the grades it does not name as they
      were, and -- when it names each key once -- leaves each named, existing grade with its row. */
  lemma {:induction false} CascadeUpdateNeverDeletes(notes: map<int, NoteRow>, ups: seq<(int, NoteRow)>, n: nat)
    requires n <= |ups|
    ensures UpdateNotes(notes, ups, n).Keys == notes.Keys
    ensures forall k :: k in notes && (forall i :: 0 <= i < n ==> ups[i].0 != k) ==>
      UpdateNotes(notes, ups, n)[k] == notes[k]
    ensures (forall i, j :: 0 <= i < j < n ==> ups[i].0 != ups[j].0) ==>
      forall i :: 0 <= i < n && ups[i].0 in notes ==> UpdateNotes(notes, ups, n)[ups[i].0] == ups[i].1
  {
    if n > 0 {
      CascadeUpdateNeverDeletes(notes, ups, n - 1);
      forall k | k in notes && (forall i :: 0 <= i < n ==> ups[i].0 != k)
        ensures UpdateNotes(notes, ups, n)[k] == notes[k]
      {
        assert ups[n - 1].0 != k;
      }
      if forall i, j :: 0 <= i < j < n ==> ups[i].0 != ups[j].0 {
        forall i | 0 <= i < n && ups[i].0 in notes
          ensures UpdateNotes(notes, ups, n)[ups[i].0] == ups[i].1
        {
          if i < n - 1 {
            assert ups[i].0 != ups[n - 1].0;
          }
        }
      }
    }
  }

  /** fk_comm is a foreign key: every grade references an existing comment. */
  ghost predicate NotesReferenceComments(notes: map<int, NoteRow>, comments: map<int, CommentRow>) {
    forall k :: k in notes ==> notes[k].fkComm in comments
  }

  /** deleteById removes the grades first and the comment second; the references hold after each
      of the two statements. */
  lemma CascadeDeleteKeepsReferences(notes: map<int, NoteRow>, comments: map<int, CommentRow>, id: int)
    requires NotesReferenceComments(notes, comments)
    ensures NotesReferenceComments(WithoutGradesOf(notes, id), comments)
    ensures NotesReferenceComments(WithoutGradesOf(notes, id), Store.Delete(comments, id))
  {
  }

  /** The other order would not do: deleting a comment that still has grades leaves them dangling. */
  lemma ParentFirstLeavesDanglingGrades(notes: map<int, NoteRow>, comments: map<int, CommentRow>, id: int)
    requires GradesOf(notes, id) != {}
    ensures !NotesReferenceComments(notes, Store.Delete(comments, id))
  {
    var k := SomeKey(GradesOf(notes, id));
    assert notes[k].fkComm == id;
  }

  /** create inserts the comment first and its grades second; the grades then reference it. */
  lemma {:induction false} CascadeCreateKeepsReferences(notes: map<int, NoteRow>, comments: map<int, CommentRow>,
                                                        last: int, rows: seq<NoteRow>, n: nat, id: int, row: CommentRow)
    requires n <= |rows|
    requires NotesReferenceComments(notes, comments) && id !in comments
    requires forall i :: 0 <= i < |rows| ==> rows[i].fkComm == id
    ensures NotesReferenceComments(CreateNotes(notes, last, rows, n), Insert(comments, id, row))
  {
    if n > 0 {
      CascadeCreateKeepsReferences(notes, comments, last, rows, n - 1, id, row);
    }
  }

  // ---------------------------------------------------------------------------------------------
  // COMMENTAIRES rows

  /** The columns of a COMMENTAIRES row as mapRow reads them. */
  datatype CommentFields = CommentFields(visitDate: Date, comment: string, username: string, restaurantId: int)

  /** mapRow's column reads: getDate(date_eval), getString(commentaire), getString(nom_utilisateur),
      getInt(fk_rest). A column holding a value bound with another setter makes mapRow raise. */
  function ReadComment(row: CommentRow): (r: Option<CommentFields>)
    ensures r.Some? <==> row.dateEval.DateCell? && row.comment.TextCell? && row.username.TextCell? && row.fkRest.IntCell?
    ensures r.Some? ==>
              r.value.visitDate == row.dateEval.d && r.value.comment == row.comment.s
              && r.value.username == row.username.s && r.value.restaurantId == row.fkRest.i
  {
    match (AsDate(row.dateEval), AsText(row.comment), AsText(row.username), AsInt(row.fkRest))
    case (Some(d), Some(c), Some(u), Some(r)) => Some(CommentFields(d, c, u, r))
    case _ => None
  }

  /** There is a comment under `id` and mapRow can read it. */
  ghost predicate Readable(comments: map<int, CommentRow>, id: int) {
    id in comments && ReadComment(comments[id]).Some?
  }

  /** `e` holds what mapRow reads from `row`: its date, comment and user name, and as restaurant what
      the restaurant mapper's findById answers for fk_rest when its cache was `cache0`; the cache,
      now `cache`, binds fk_rest to that restaurant when there is one. */
  ghost predicate HoldsRow(e: CompleteEvaluation, row: CommentRow, cache0: map<int, Restaurant>,
                           cache: map<int, Restaurant>, restaurants: map<int, RestaurantRow>)
    reads e, e.restaurant
  {
    ReadComment(row).Some?
    && var f := ReadComment(row).value;
       e.visitDate == f.visitDate && e.comment == f.comment && e.username == f.username
       && Restaurants.Answers(e.restaurant, f.restaurantId, cache0, restaurants)
       && (e.restaurant != null ==> f.restaurantId in cache && cache[f.restaurantId] == e.restaurant)
  }

  /** What an evaluation holds stays true while the restaurant cache only grows. */
  lemma HoldsRowAsCacheGrows(e: CompleteEvaluation, row: CommentRow, cache0: map<int, Restaurant>, cache: map<int, Restaurant>,
                             cache': map<int, Restaurant>, restaurants: map<int, RestaurantRow>)
    requires HoldsRow(e, row, cache0, cache, restaurants)
    requires forall k :: k in cache ==> k in cache' && cache'[k] == cache[k]
    ensures HoldsRow(e, row, cache0, cache', restaurants)
  {
  }

  /** `e` is the evaluation materialised from the comment under `key`: the row is readable, `e` holds
      it and carries exactly the grades of `key`. */
  ghost predicate Loaded(e: CompleteEvaluation, key: int, comments: map<int, CommentRow>, notes: map<int, NoteRow>,
                         cache0: map<int, Restaurant>, cache: map<int, Restaurant>, restaurants: map<int, RestaurantRow>)
    reads e, e.grades, e.restaurant
  {
    e.id == key && Readable(comments, key) && GradesLoaded(e, notes) && HoldsRow(e, comments[key], cache0, cache, restaurants)
  }

  /** The restaurant cache after resolving fk_rest `id` once: a miss on a key with a row adds `r`. */
  ghost function CacheAfter(cache: map<int, Restaurant>, id: int, rows: map<int, RestaurantRow>, r: Restaurant?): (c: map<int, Restaurant>)
    requires id !in cache && id in rows ==> r != null
    ensures forall k :: k in cache ==> k in c && c[k] == cache[k]
    ensures forall k :: k in c ==> k in cache || k == id
  {
    if id in cache || id !in rows then cache else cache[id := r]
  }

  /** The row that create and update write, column by column: the statement binds the visit date into
      date_eval, the restaurant's id into commentaire, the comment into nom_utilisateur and the user
      name into fk_rest. */
  function CommentRowOf(e: CompleteEvaluation): (row: CommentRow)
    requires e.restaurant != null
    reads e, e.restaurant
    ensures AsDate(row.dateEval) == Some(e.visitDate) && AsInt(row.comment) == Some(e.restaurant.id)
    ensures AsText(row.username) == Some(e.comment) && AsText(row.fkRest) == Some(e.username)
  {
    CommentRow(DateCell(e.visitDate), IntCell(e.restaurant.id), TextCell(e.comment), TextCell(e.username))
  }

  /** A row written by create or update is one mapRow cannot read back with the getters of this
      model, which do not convert: commentaire holds the restaurant's id and fk_rest the user name.
      (A driver that converts a number to text and a numeric string to a number would read the row
      back when the user name is numeric.) */
  lemma WrittenCommentUnreadable(e: CompleteEvaluation)
    requires e.restaurant != null
    ensures ReadComment(CommentRowOf(e)).None?
    ensures AsInt(CommentRowOf(e).comment) == Some(e.restaurant.id) && AsText(CommentRowOf(e).fkRest) == Some(e.username)
  {
  }

  // ---------------------------------------------------------------------------------------------
  // Grades

  /** The columns a grade is written to: note, fk_comm (its evaluation's id), fk_crit (its criteria's id). */
  function NoteRowOf(g: Grade): NoteRow
    requires g.evaluation != null && g.criteria != null
    reads g, g.evaluation, g.criteria
  {
    NoteRow(g.grade, g.evaluation.id, g.criteria.id)
  }

  /** The keys carried by a sequence of grades, in order. The business
      classes share no supertype declaring `id`, so each module states this projection for its own class. */
  ghost function GradeIds(gs: seq<Grade>): (ids: seq<int>)
    reads gs`id
    ensures |ids| == |gs| && forall i :: 0 <= i < |gs| ==> ids[i] == gs[i].id
  {
    if gs == [] then [] else GradeIds(gs[..|gs| - 1]) + [gs[|gs| - 1].id]
  }

  /** The keys carried by a sequence of evaluations, in order. The business
      classes share no supertype declaring `id`, so each module states this projection for its own class. */
  ghost function EvaluationIds(es: seq<CompleteEvaluation>): (ids: seq<int>)
    reads es`id
    ensures |ids| == |es| && forall i :: 0 <= i < |es| ==> ids[i] == es[i].id
  {
    if es == [] then [] else EvaluationIds(es[..|es| - 1]) + [es[|es| - 1].id]
  }

  /** The rows the cascade of create writes for grades `gs` of evaluation `id`, in order. */
  ghost function CascadeRows(gs: seq<Grade>, id: int): (rows: seq<NoteRow>)
    requires forall g :: g in gs ==> g.criteria != null
    reads gs`grade, gs`criteria, set g | g in gs :: g.criteria
    ensures |rows| == |gs|
    ensures forall i :: 0 <= i < |gs| ==> rows[i] == NoteRow(gs[i].grade, id, gs[i].criteria.id)
  {
    if gs == [] then [] else CascadeRows(gs[..|gs| - 1], id) + [NoteRow(gs[|gs| - 1].grade, id, gs[|gs| - 1].criteria.id)]
  }

  /** The UPDATE statements the cascade of update issues for grades `gs`, in order. */
  ghost function GradeUpdates(gs: seq<Grade>): (ups: seq<(int, NoteRow)>)
    requires forall g :: g in gs ==> g.evaluation != null && g.criteria != null
    reads gs, set g | g in gs :: g.evaluation, set g | g in gs :: g.criteria
    ensures |ups| == |gs|
    ensures forall i :: 0 <= i < |gs| ==> ups[i] == (gs[i].id, NoteRowOf(gs[i]))
  {
    if gs == [] then [] else GradeUpdates(gs[..|gs| - 1]) + [(gs[|gs| - 1].id, NoteRowOf(gs[|gs| - 1]))]
  }

  /** Grades read in the order of distinct keys, each from the row under its own key, have
      distinct keys, and their keys are exactly those of the table. */
  lemma GradesRead(grades: seq<Grade>, keys: seq<int>, notes: map<int, NoteRow>, comments: map<int, CommentRow>,
                   criteria: map<int, CriteriaRow>, cache0: map<int, Restaurant>, cache: map<int, Restaurant>,
                   restaurants: map<int, RestaurantRow>)
    requires |grades| == |keys|
    requires forall k :: k in notes <==> k in keys
    requires forall j, l :: 0 <= j < l < |keys| ==> keys[j] != keys[l]
    requires forall j :: 0 <= j < |grades| ==> grades[j].id == keys[j]
    requires forall d :: d in grades ==> GradeRead(d, notes, comments, criteria, cache0, cache, restaurants)
    ensures forall k :: k in notes <==> k in GradeIds(grades)
    ensures forall j, l :: 0 <= j < l < |grades| ==> grades[j].id != grades[l].id
    ensures forall j :: 0 <= j < |grades| ==> GradeRead(grades[j], notes, comments, criteria, cache0, cache, restaurants)
  {
    assert GradeIds(grades) == keys;
  }

  /** Evaluations read in the order of distinct keys, each loaded from the row under its own id,
      have distinct ids, and when every key was read their ids are exactly the keys. */
  lemma EvaluationsRead(evals: seq<CompleteEvaluation>, keys: seq<int>, comments: map<int, CommentRow>, notes: map<int, NoteRow>,
                        cache0: map<int, Restaurant>, cache: map<int, Restaurant>, restaurants: map<int, RestaurantRow>)
    requires |evals| <= |keys|
    requires forall j, l :: 0 <= j < l < |keys| ==> keys[j] != keys[l]
    requires forall j :: 0 <= j < |evals| ==> evals[j].id == keys[j]
    requires forall d :: d in evals ==> Loaded(d, d.id, comments, notes, cache0, cache, restaurants)
    ensures forall j, l :: 0 <= j < l < |evals| ==> evals[j].id != evals[l].id
    ensures forall j :: 0 <= j < |evals| ==> Loaded(evals[j], evals[j].id, comments, notes, cache0, cache, restaurants)
    ensures |evals| == |keys| ==> forall k :: k in keys <==> k in EvaluationIds(evals)
  {
    if |evals| == |keys| {
      assert EvaluationIds(evals) == keys;
    }
  }

  /** `e` carries exactly the grades of NOTES whose fk_comm is its id, each pointing back at `e` and
      carrying its score. */
  ghost predicate GradesLoaded(e: CompleteEvaluation, notes: map<int, NoteRow>)
    reads e, e.grades
  {
    (forall k :: k in GradesOf(notes, e.id) <==> k in GradeIds(e.grades))
    && forall i :: 0 <= i < |e.grades| ==>
         e.grades[i].id in notes && e.grades[i].evaluation == e && e.grades[i].grade == notes[e.grades[i].id].note
  }

  /** What mapRow resolves for a grade read from `row`: an evaluation exactly when the comment fk_comm
      names can be read, carrying that id and its grades; a criteria exactly when fk_crit names a row,
      carrying that id and its columns. */
  ghost predicate References(g: Grade, row: NoteRow, comments: map<int, CommentRow>, notes: map<int, NoteRow>,
                             criteria: map<int, CriteriaRow>)
    reads g, g.evaluation, g.criteria, if g.evaluation != null then g.evaluation.grades else []
  {
    (g.evaluation == null <==> !Readable(comments, row.fkComm))
    && (g.evaluation != null ==> g.evaluation.id == row.fkComm && GradesLoaded(g.evaluation, notes))
    && (g.criteria == null <==> row.fkCrit !in criteria)
    && (g.criteria != null ==> g.criteria.id == row.fkCrit && Criteria.RowOf(g.criteria) == criteria[row.fkCrit])
  }

  /** `g` is the grade mapRow builds from the row of NOTES under its key: its score, its references
      as `References` states, and an evaluation holding its comment row with the restaurant the
      restaurant mapper answers when its cache was `cache0`. */
  ghost predicate GradeRead(g: Grade, notes: map<int, NoteRow>, comments: map<int, CommentRow>, criteria: map<int, CriteriaRow>,
                            cache0: map<int, Restaurant>, cache: map<int, Restaurant>, restaurants: map<int, RestaurantRow>)
    reads g, g.evaluation, g.criteria, if g.evaluation != null then g.evaluation.grades else []
    reads if g.evaluation != null then {g.evaluation.restaurant} else {}
  {
    g.id in notes && g.grade == notes[g.id].note
    && References(g, notes[g.id], comments, notes, criteria)
    && (g.evaluation != null ==> HoldsRow(g.evaluation, comments[notes[g.id].fkComm], cache0, cache, restaurants))
  }

  /** A grade keeps holding its row while the cache only gains entries. */
  lemma GradeReadAsCacheGrows(g: Grade, notes: map<int, NoteRow>, comments: map<int, CommentRow>, criteria: map<int, CriteriaRow>,
                              cache0: map<int, Restaurant>, cache: map<int, Restaurant>, cache': map<int, Restaurant>,
                              restaurants: map<int, RestaurantRow>)
    requires GradeRead(g, notes, comments, criteria, cache0, cache, restaurants)
    requires forall k :: k in cache ==> k in cache' && cache'[k] == cache[k]
    ensures GradeRead(g, notes, comments, criteria, cache0, cache', restaurants)
  {
    if g.evaluation != null {
      HoldsRowAsCacheGrows(g.evaluation, comments[notes[g.id].fkComm], cache0, cache, cache', restaurants);
    }
  }

  class GradeMapper {
    const db: Database
    const criteriaMapper: Criteria.EvaluationCriteriaMapper
    /** The evaluation mapper that resolves fk_comm; it refers back to this mapper. */
    var evaluationMapper: CompleteEvaluationMapper?

    constructor (db: Database, criteriaMapper: Criteria.EvaluationCriteriaMapper)
      ensures this.db == db && this.criteriaMapper == criteriaMapper && evaluationMapper == null
    {
      this.db := db;
      this.criteriaMapper := criteriaMapper;
      evaluationMapper := null;
    }

    /** Both mappers, and the mappers they use, work on the same database, and refer to each other. */
    ghost predicate Valid()
      reads this
    {
      evaluationMapper != null && evaluationMapper.gradeMapper == this
      && evaluationMapper.db == db && criteriaMapper.db == db && evaluationMapper.restaurantMapper.db == db
    }

    /** mapRow: a new grade with the row's key and score, whose evaluation and criteria are what the
        evaluation mapper's and the criteria mapper's findById answer for fk_comm and fk_crit; the
        restaurant cache changes as the evaluation mapper's findById changes it. */
    method MapRow(id: int, row: NoteRow) returns (g: Grade)
      requires Valid()
      modifies evaluationMapper.restaurantMapper`cache
      ensures fresh(g) && g.id == id && g.grade == row.note
      ensures References(g, row, db.commentaires, db.notes, db.criteresEvaluation)
      ensures g.evaluation == null ==> evaluationMapper.restaurantMapper.cache == old(evaluationMapper.restaurantMapper.cache)
      ensures g.evaluation != null ==>
                HoldsRow(g.evaluation, db.commentaires[row.fkComm], old(evaluationMapper.restaurantMapper.cache),
                         evaluationMapper.restaurantMapper.cache, db.restaurants)
                && evaluationMapper.restaurantMapper.cache
                     == CacheAfter(old(evaluationMapper.restaurantMapper.cache), ReadComment(db.commentaires[row.fkComm]).value.restaurantId,
                                   db.restaurants, g.evaluation.restaurant)
    {
      var evaluation := evaluationMapper.FindById(row.fkComm);
      var criteria := criteriaMapper.FindById(row.fkCrit);
      g := new Grade(id, row.note, evaluation, criteria);
    }

    /** findById: the grade stored under `id`, or null (and the cache untouched) when no row has that key. */
    method FindById(id: int) returns (g: Grade?)
      requires Valid()
      modifies evaluationMapper.restaurantMapper`cache
      ensures g == null <==> id !in db.notes
      ensures g == null ==> evaluationMapper.restaurantMapper.cache == old(evaluationMapper.restaurantMapper.cache)
      ensures g != null ==>
                fresh(g) && g.id == id
                && GradeRead(g, db.notes, db.commentaires, db.criteresEvaluation, old(evaluationMapper.restaurantMapper.cache),
                             evaluationMapper.restaurantMapper.cache, db.restaurants)
      ensures g != null && g.evaluation == null ==> evaluationMapper.restaurantMapper.cache == old(evaluationMapper.restaurantMapper.cache)
      ensures g != null && g.evaluation != null ==>
                evaluationMapper.restaurantMapper.cache
                  == CacheAfter(old(evaluationMapper.restaurantMapper.cache), ReadComment(db.commentaires[db.notes[id].fkComm]).value.restaurantId,
                                db.restaurants, g.evaluation.restaurant)
    {
      if id in db.notes {
        g := MapRow(id, db.notes[id]);
      } else {
        g := null;
      }
    }

    /** findAll: exactly one grade per row of NOTES, each with its row's key and score, and with its
        evaluation and criteria resolved from its foreign keys against the cache at the start; the
        cache only gains restaurants carrying their own key and row. */
    method FindAll() returns (grades: seq<Grade>)
      requires Valid()
      modifies evaluationMapper.restaurantMapper`cache
      ensures forall k :: k in db.notes <==> k in GradeIds(grades)
      ensures forall i, j :: 0 <= i < j < |grades| ==> grades[i].id != grades[j].id
      ensures forall i :: 0 <= i < |grades| ==> fresh(grades[i])
      ensures forall i :: 0 <= i < |grades| ==>
                GradeRead(grades[i], db.notes, db.commentaires, db.criteresEvaluation, old(evaluationMapper.restaurantMapper.cache),
                          evaluationMapper.restaurantMapper.cache, db.restaurants)
      ensures Restaurants.CacheGrown(old(evaluationMapper.restaurantMapper.cache), evaluationMapper.restaurantMapper.cache, db.restaurants)
    {
      var keys := RowOrder(db.notes);
      grades := [];
      var i := 0;
      while i < |keys|
        invariant 0 <= i <= |keys| && |grades| == i
        invariant forall j :: 0 <= j < i ==> grades[j].id == keys[j] && fresh(grades[j])
        invariant forall d :: d in grades ==>
                    GradeRead(d, db.notes, db.commentaires, db.criteresEvaluation, old(evaluationMapper.restaurantMapper.cache),
                              evaluationMapper.restaurantMapper.cache, db.restaurants)
        invariant Restaurants.CacheGrown(old(evaluationMapper.restaurantMapper.cache), evaluationMapper.restaurantMapper.cache, db.restaurants)
      {
        var g := FindAllStep(keys[i], old(evaluationMapper.restaurantMapper.cache), grades);
        grades := grades + [g];
        i := i + 1;
      }
      GradesRead(grades, keys, db.notes, db.commentaires, db.criteresEvaluation, old(evaluationMapper.restaurantMapper.cache),
                 evaluationMapper.restaurantMapper.cache, db.restaurants);
    }

    /** One step of findAll, for the row under `key`: mapRow, against a cache that has grown from
        `cache0` only by restaurants carrying their own key and row; the grades `done` read before it
        still hold their rows. */
    method FindAllStep(key: int, ghost cache0: map<int, Restaurant>, ghost done: seq<Grade>) returns (g: Grade)
      requires Valid() && key in db.notes
      requires Restaurants.CacheGrown(cache0, evaluationMapper.restaurantMapper.cache, db.restaurants)
      requires forall d :: d in done ==>
                 GradeRead(d, db.notes, db.commentaires, db.criteresEvaluation, cache0, evaluationMapper.restaurantMapper.cache, db.restaurants)
      modifies evaluationMapper.restaurantMapper`cache
      ensures Restaurants.CacheGrown(cache0, evaluationMapper.restaurantMapper.cache, db.restaurants)
      ensures forall d :: d in done ==>
                GradeRead(d, db.notes, db.commentaires, db.criteresEvaluation, cache0, evaluationMapper.restaurantMapper.cache, db.restaurants)
      ensures fresh(g) && g.id == key
      ensures GradeRead(g, db.notes, db.commentaires, db.criteresEvaluation, cache0, evaluationMapper.restaurantMapper.cache, db.restaurants)
    {
      g := MapRow(key, db.notes[key]);
      forall d | d in done
        ensures GradeRead(d, db.notes, db.commentaires, db.criteresEvaluation, cache0, evaluationMapper.restaurantMapper.cache, db.restaurants)
      {
        GradeReadAsCacheGrows(d, db.notes, db.commentaires, db.criteresEvaluation, cache0, old(evaluationMapper.restaurantMapper.cache),
                              evaluationMapper.restaurantMapper.cache, db.restaurants);
      }
      if g.evaluation != null {
        Restaurants.AnswersFromGrownCache(g.evaluation.restaurant, ReadComment(db.commentaires[db.notes[key].fkComm]).value.restaurantId,
                                          cache0, old(evaluationMapper.restaurantMapper.cache), db.restaurants);
      }
    }

    /** findByEvaluationId (called by the evaluation mapper, not defined in GradeMapper.java): the
        grades whose fk_comm is the id of `owner`, each pointing at `owner`, with its criteria resolved
        from fk_crit. */
    method FindByEvaluationId(owner: CompleteEvaluation) returns (grades: seq<Grade>)
      requires criteriaMapper.db == db
      ensures forall k :: k in GradesOf(db.notes, owner.id) <==> k in GradeIds(grades)
      ensures forall i, j :: 0 <= i < j < |grades| ==> grades[i].id != grades[j].id
      ensures forall i :: 0 <= i < |grades| ==>
        fresh(grades[i]) && grades[i].id in db.notes && grades[i].evaluation == owner
        && grades[i].grade == db.notes[grades[i].id].note
        && (grades[i].criteria != null ==> grades[i].criteria.id == db.notes[grades[i].id].fkCrit)
    {
      var keys := RowOrder(db.notes);
      grades := [];
      ghost var ids: seq<int> := [];
      var i := 0;
      while i < |keys|
        invariant 0 <= i <= |keys| && |ids| == |grades|
        invariant forall k :: k in ids <==> k in keys[..i] && db.notes[k].fkComm == owner.id
        invariant forall a, b :: 0 <= a < b < |ids| ==> ids[a] != ids[b]
        invariant forall j :: 0 <= j < |grades| ==>
          fresh(grades[j]) && grades[j].id == ids[j] && ids[j] in db.notes && grades[j].evaluation == owner
          && grades[j].grade == db.notes[ids[j]].note
          && (grades[j].criteria != null ==> grades[j].criteria.id == db.notes[ids[j]].fkCrit)
      {
        var key := keys[i];
        var row := db.notes[key];
        PrefixGrows(keys, i);
        if row.fkComm == owner.id {
          var criteria := criteriaMapper.FindById(row.fkCrit);
          var g := new Grade(key, row.note, owner, criteria);
          grades := grades + [g];
          ids := ids + [key];
        }
        i := i + 1;
      }
      assert keys[..i] == keys;
      assert GradeIds(grades) == ids;
    }

    /** create: the id is drawn from SEQ_NOTES and set on the grade before the INSERT of its score,
        evaluation id and criteria id; the grade is returned exactly when its row was inserted. */
    method Create(g: Grade) returns (r: Grade?)
      requires g.evaluation != null && g.criteria != null
      modifies g`id, db`notes, db`issued
      ensures var id := old(db.Last(SeqNotes)) + 1;
        && db.Last(SeqNotes) == id && g.id == id
        && db.notes == Store.Insert(old(db.notes), id, NoteRowOf(g))
        && (r != null <==> id !in old(db.notes))
        && (r != null ==> r == g)
      ensures forall s :: s != SeqNotes ==> db.Last(s) == old(db.Last(s))
      ensures old(KeysIssued(db.notes, db.Last(SeqNotes))) ==> r != null && KeysIssued(db.notes, db.Last(SeqNotes))
    {
      if KeysIssued(db.notes, db.Last(SeqNotes)) {
        NextKeyIsFree(db.notes, db.Last(SeqNotes), NoteRowOf(g));
      }
      var id := db.NextVal(SeqNotes);
      g.id := id;
      if id !in db.notes {
        db.notes := db.notes[id := NoteRowOf(g)];
        r := g;
      } else {
        r := null;
      }
    }

    /** update: writes score, evaluation id and criteria id under the grade's id; false when no row
        has that id. */
    method Update(g: Grade) returns (ok: bool)
      requires g.evaluation != null && g.criteria != null
      modifies db`notes
      ensures ok <==> g.id in old(db.notes)
      ensures db.notes == Store.Update(old(db.notes), g.id, NoteRowOf(g))
    {
      ok := g.id in db.notes;
      if ok {
        db.notes := db.notes[g.id := NoteRowOf(g)];
      }
    }

    /** deleteById: true exactly when a row was removed. */
    method DeleteById(id: int) returns (ok: bool)
      modifies db`notes
      ensures ok <==> id in old(db.notes)
      ensures db.notes == Store.Delete(old(db.notes), id)
    {
      ok := id in db.notes;
      db.notes := db.notes - {id};
    }

    /** delete(g) is deleteById(g.getId()). */
    method Delete(g: Grade) returns (ok: bool)
      modifies db`notes
      ensures ok <==> g.id in old(db.notes)
      ensures db.notes == Store.Delete(old(db.notes), g.id)
    {
      ok := DeleteById(g.id);
    }

    /** deleteByEvaluationId (called by the evaluation mapper, not defined in GradeMapper.java):
        deletes the grades whose fk_comm is `id`, and no other. */
    method DeleteByEvaluationId(id: int)
      modifies db`notes
      ensures db.notes == WithoutGradesOf(old(db.notes), id)
    {
      db.notes := WithoutGradesOf(db.notes, id);
    }
  }

  // ---------------------------------------------------------------------------------------------
  // Complete evaluations

  class CompleteEvaluationMapper {
    const db: Database
    /** This mapper's own restaurant mapper, with its own cache. */
    const restaurantMapper: Restaurants.RestaurantMapper
    const gradeMapper: GradeMapper

    /** The evaluation mapper and its grade mapper are built together and refer to each other (the
        source's field initialisers would build each other without end). */
    constructor (db: Database)
      ensures this.db == db && Valid() && fresh(restaurantMapper) && restaurantMapper.cache == map[]
    {
      this.db := db;
      restaurantMapper := new Restaurants.RestaurantMapper(db);
      var criteriaMapper := new Criteria.EvaluationCriteriaMapper(db);
      gradeMapper := new GradeMapper(db, criteriaMapper);
      new;
      gradeMapper.evaluationMapper := this;
    }

    ghost predicate Valid()
      reads gradeMapper
    {
      gradeMapper.evaluationMapper == this && gradeMapper.db == db
      && gradeMapper.criteriaMapper.db == db && restaurantMapper.db == db
    }

    /** mapRow: reads date_eval, commentaire, nom_utilisateur and fk_rest (null, for the exception,
        when a column cannot be read, before the restaurant is looked up), then resolves fk_rest
        through the restaurant mapper's findById. */
    method MapRow(id: int, row: CommentRow) returns (e: CompleteEvaluation?)
      requires restaurantMapper.db == db
      modifies restaurantMapper`cache
      ensures e == null <==> ReadComment(row).None?
      ensures e == null ==> restaurantMapper.cache == old(restaurantMapper.cache)
      ensures e != null ==>
                fresh(e) && e.id == id && e.grades == []
                && HoldsRow(e, row, old(restaurantMapper.cache), restaurantMapper.cache, db.restaurants)
      ensures e != null ==>
                var fid := ReadComment(row).value.restaurantId;
                (e.restaurant != null <==> fid in old(restaurantMapper.cache) || fid in db.restaurants)
                && restaurantMapper.cache == CacheAfter(old(restaurantMapper.cache), fid, db.restaurants, e.restaurant)
    {
      var fields := ReadComment(row);
      if fields.None? {
        return null;
      }
      var f := fields.value;
      var restaurant := restaurantMapper.FindById(f.restaurantId);
      e := new CompleteEvaluation(id, f.visitDate, restaurant, f.comment, f.username);
    }

    /** The two steps findById and findAll take for each row: mapRow, then the grade set replaced
        by the grades whose fk_comm is the evaluation's id. */
    method MapRowWithGrades(id: int, row: CommentRow) returns (e: CompleteEvaluation?)
      requires Valid()
      modifies restaurantMapper`cache
      ensures e == null <==> ReadComment(row).None?
      ensures e == null ==> restaurantMapper.cache == old(restaurantMapper.cache)
      ensures e != null ==>
                fresh(e) && e.id == id
                && HoldsRow(e, row, old(restaurantMapper.cache), restaurantMapper.cache, db.restaurants)
                && restaurantMapper.cache == CacheAfter(old(restaurantMapper.cache), ReadComment(row).value.restaurantId,
                                                        db.restaurants, e.restaurant)
      ensures e != null ==> GradesLoaded(e, db.notes) && forall i :: 0 <= i < |e.grades| ==> fresh(e.grades[i])
    {
      e := MapRow(id, row);
      if e != null {
        var grades := gradeMapper.FindByEvaluationId(e);
        e.grades := grades;
      }
    }

    /** findById: null when no comment has that key or its row cannot be read; otherwise the
        evaluation, its grade set replaced by the grades whose fk_comm is its id. */
    method FindById(id: int) returns (e: CompleteEvaluation?)
      requires Valid()
      modifies restaurantMapper`cache
      ensures e == null <==> !Readable(db.commentaires, id)
      ensures e == null ==> restaurantMapper.cache == old(restaurantMapper.cache)
      ensures e != null ==>
                fresh(e) && e.id == id
                && HoldsRow(e, db.commentaires[id], old(restaurantMapper.cache), restaurantMapper.cache, db.restaurants)
                && restaurantMapper.cache == CacheAfter(old(restaurantMapper.cache), ReadComment(db.commentaires[id]).value.restaurantId,
                                                        db.restaurants, e.restaurant)
      ensures e != null ==> GradesLoaded(e, db.notes) && forall i :: 0 <= i < |e.grades| ==> fresh(e.grades[i])
    {
      if id !in db.commentaires {
        return null;
      }
      e := MapRowWithGrades(id, db.commentaires[id]);
    }

    /** findAll: the evaluations of COMMENTAIRES in row order, each with its grades loaded. A row
        mapRow cannot read raises and ends the loop, so the rows before it are what is returned; when
        every row can be read, every comment is returned. */
    method FindAll() returns (evals: seq<CompleteEvaluation>)
      requires Valid()
      modifies restaurantMapper`cache
      ensures forall i, j :: 0 <= i < j < |evals| ==> evals[i].id != evals[j].id
      ensures forall i :: 0 <= i < |evals| ==> fresh(evals[i])
      ensures forall i :: 0 <= i < |evals| ==>
                Loaded(evals[i], evals[i].id, db.commentaires, db.notes, old(restaurantMapper.cache), restaurantMapper.cache, db.restaurants)
      ensures (forall k :: k in db.commentaires ==> Readable(db.commentaires, k)) ==>
                forall k :: k in db.commentaires <==> k in EvaluationIds(evals)
      ensures Restaurants.CacheGrown(old(restaurantMapper.cache), restaurantMapper.cache, db.restaurants)
    {
      var keys := RowOrder(db.commentaires);
      evals := [];
      var i := 0;
      while i < |keys|
        invariant 0 <= i <= |keys| && |evals| == i
        invariant forall j :: 0 <= j < i ==> evals[j].id == keys[j]
        invariant forall j :: 0 <= j < i ==> fresh(evals[j])
        invariant forall d :: d in evals ==>
                    Loaded(d, d.id, db.commentaires, db.notes, old(restaurantMapper.cache), restaurantMapper.cache, db.restaurants)
        invariant Restaurants.CacheGrown(old(restaurantMapper.cache), restaurantMapper.cache, db.restaurants)
      {
        var e := FindAllStep(keys[i], old(restaurantMapper.cache), evals);
        if e == null {
          EvaluationsRead(evals, keys, db.commentaires, db.notes, old(restaurantMapper.cache), restaurantMapper.cache, db.restaurants);
          return;
        }
        evals := evals + [e];
        i := i + 1;
      }
      EvaluationsRead(evals, keys, db.commentaires, db.notes, old(restaurantMapper.cache), restaurantMapper.cache, db.restaurants);
    }

    /** One step of findAll, for the comment under `key`: mapRow and the grade set, against a cache
        that has grown from `cache0` only by restaurants carrying their own key and row; the
        evaluations `done` read before it still hold their rows. */
    method FindAllStep(key: int, ghost cache0: map<int, Restaurant>, ghost done: seq<CompleteEvaluation>)
      returns (e: CompleteEvaluation?)
      requires Valid() && key in db.commentaires
      requires Restaurants.CacheGrown(cache0, restaurantMapper.cache, db.restaurants)
      requires forall d :: d in done ==> Loaded(d, d.id, db.commentaires, db.notes, cache0, restaurantMapper.cache, db.restaurants)
      modifies restaurantMapper`cache
      ensures Restaurants.CacheGrown(cache0, restaurantMapper.cache, db.restaurants)
      ensures forall d :: d in done ==> Loaded(d, d.id, db.commentaires, db.notes, cache0, restaurantMapper.cache, db.restaurants)
      ensures e == null <==> !Readable(db.commentaires, key)
      ensures e != null ==>
                fresh(e) && Loaded(e, key, db.commentaires, db.notes, cache0, restaurantMapper.cache, db.restaurants)
    {
      e := MapRowWithGrades(key, db.commentaires[key]);
      forall d | d in done
        ensures Loaded(d, d.id, db.commentaires, db.notes, cache0, restaurantMapper.cache, db.restaurants)
      {
        HoldsRowAsCacheGrows(d, db.commentaires[d.id], cache0, old(restaurantMapper.cache), restaurantMapper.cache, db.restaurants);
      }
      if e != null {
        Restaurants.AnswersFromGrownCache(e.restaurant, ReadComment(db.commentaires[key]).value.restaurantId,
                                          cache0, old(restaurantMapper.cache), db.restaurants);
      }
    }

    /** One step of create's cascade: the grade is pointed at `e` and created through the grade mapper. */
    method CreateGrade(e: CompleteEvaluation, g: Grade, ghost row: NoteRow)
      requires gradeMapper.db == db
      requires g.criteria != null && row == NoteRow(g.grade, e.id, g.criteria.id)
      modifies g`id, g`evaluation, db`notes, db`issued
      ensures g.evaluation == e && g.id == old(db.Last(SeqNotes)) + 1
      ensures db.Last(SeqNotes) == old(db.Last(SeqNotes)) + 1
      ensures forall s :: s != SeqNotes ==> db.Last(s) == old(db.Last(s))
      ensures db.notes == Store.Insert(old(db.notes), old(db.Last(SeqNotes)) + 1, row)
    {
      g.evaluation := e;
      var created := gradeMapper.Create(g);
    }

    /** The cascade of create: each grade of `gs`, in order, pointed at `e` and created through the
        grade mapper, whatever each create answers; `rows` are the rows those creates write. */
    method CreateGrades(e: CompleteEvaluation, gs: seq<Grade>, ghost rows: seq<NoteRow>)
      requires gradeMapper.db == db
      requires forall i, j :: 0 <= i < j < |gs| ==> gs[i] != gs[j]
      requires |rows| == |gs|
      requires forall i :: 0 <= i < |gs| ==> gs[i].criteria != null && rows[i] == NoteRow(gs[i].grade, e.id, gs[i].criteria.id)
      modifies gs`id, gs`evaluation, db`notes, db`issued
      ensures db.Last(SeqNotes) == old(db.Last(SeqNotes)) + |gs|
      ensures forall s :: s != SeqNotes ==> db.Last(s) == old(db.Last(s))
      ensures db.notes == CreateNotes(old(db.notes), old(db.Last(SeqNotes)), rows, |gs|)
      ensures forall i :: 0 <= i < |gs| ==> gs[i].evaluation == e && gs[i].id == old(db.Last(SeqNotes)) + 1 + i
      ensures forall i :: 0 <= i < |gs| ==> gs[i].criteria != null && rows[i] == NoteRow(gs[i].grade, e.id, gs[i].criteria.id)
    {
      ghost var last := db.Last(SeqNotes);
      ghost var keys := seq(|gs|, j => last + 1 + j);
      var i := 0;
      while i < |gs|
        invariant 0 <= i <= |gs|
        invariant db.Last(SeqNotes) == last + i
        invariant forall s :: s != SeqNotes ==> db.Last(s) == old(db.Last(s))
        invariant db.notes == CreateNotes(old(db.notes), last, rows, i)
        invariant forall j :: 0 <= j < i ==> gs[j].evaluation == e && gs[j].id == keys[j]
      {
        var g := gs[i];
        assert forall j :: 0 <= j < i ==> gs[j] != g;
        CreateGrade(e, g, rows[i]);
        assert db.notes == CreateNotes(old(db.notes), last, rows, i + 1);
        i := i + 1;
      }
    }

    /** create: the id is drawn from SEQ_EVAL and set before the INSERT. When the comment is inserted,
        each grade of the set is pointed at the evaluation and created in turn (keys from SEQ_NOTES),
        and the evaluation is returned whatever those creates answered; otherwise the result is null
        and no grade is touched, so the grades need a criteria only when the key is free. `rows` are
        the grade rows the cascade writes. */
    method Create(e: CompleteEvaluation) returns (r: CompleteEvaluation?, ghost rows: seq<NoteRow>)
      requires Valid()
      requires e.restaurant != null
      requires db.Last(SeqEval) + 1 !in db.commentaires ==> forall g :: g in e.grades ==> g.criteria != null
      requires forall i, j :: 0 <= i < j < |e.grades| ==> e.grades[i] != e.grades[j]
      modifies e`id, db`commentaires, db`notes, db`issued, e.grades`id, e.grades`evaluation
      ensures var id := old(db.Last(SeqEval)) + 1;
                && db.Last(SeqEval) == id && e.id == id
                && db.commentaires == Store.Insert(old(db.commentaires), id, CommentRowOf(e))
                && (r != null <==> id !in old(db.commentaires))
                && (r != null ==> r == e)
      ensures r == null ==>
                db.notes == old(db.notes) && db.Last(SeqNotes) == old(db.Last(SeqNotes))
                && unchanged(e.grades)
      ensures r != null ==>
                |rows| == |e.grades|
                && (forall i :: 0 <= i < |e.grades| ==>
                      e.grades[i].criteria != null && rows[i] == NoteRow(e.grades[i].grade, e.id, e.grades[i].criteria.id))
                && db.notes == CreateNotes(old(db.notes), old(db.Last(SeqNotes)), rows, |rows|)
                && db.Last(SeqNotes) == old(db.Last(SeqNotes)) + |e.grades|
                && forall i :: 0 <= i < |e.grades| ==>
                     e.grades[i].evaluation == e && e.grades[i].id == old(db.Last(SeqNotes)) + 1 + i
      ensures forall s :: s != SeqEval && s != SeqNotes ==> db.Last(s) == old(db.Last(s))
    {
      var id := db.NextVal(SeqEval);
      e.id := id;
      if id in db.commentaires {
        return null, [];
      }
      rows := InsertWithGrades(e);
      r := e;
    }

    /** The successful path of create: the comment is inserted under the evaluation's fresh id, then
        the grades are created in cascade; `rows` are the grade rows written. */
    method InsertWithGrades(e: CompleteEvaluation) returns (ghost rows: seq<NoteRow>)
      requires Valid()
      requires e.restaurant != null && e.id !in db.commentaires
      requires forall g :: g in e.grades ==> g.criteria != null
      requires forall i, j :: 0 <= i < j < |e.grades| ==> e.grades[i] != e.grades[j]
      modifies db`commentaires, db`notes, db`issued, e.grades`id, e.grades`evaluation
      ensures db.commentaires == Store.Insert(old(db.commentaires), e.id, CommentRowOf(e))
      ensures |rows| == |e.grades|
      ensures forall i :: 0 <= i < |e.grades| ==>
                e.grades[i].criteria != null && rows[i] == NoteRow(e.grades[i].grade, e.id, e.grades[i].criteria.id)
      ensures db.notes == CreateNotes(old(db.notes), old(db.Last(SeqNotes)), rows, |rows|)
      ensures db.Last(SeqNotes) == old(db.Last(SeqNotes)) + |e.grades|
      ensures forall i :: 0 <= i < |e.grades| ==>
                e.grades[i].evaluation == e && e.grades[i].id == old(db.Last(SeqNotes)) + 1 + i
      ensures forall s :: s != SeqNotes ==> db.Last(s) == old(db.Last(s))
    {
      db.commentaires := db.commentaires[e.id := CommentRowOf(e)];
      rows := CascadeRows(e.grades, e.id);
      CreateGrades(e, e.grades, rows);
    }

    /** update: rewrites the comment under the evaluation's id with the same bindings as create; only
        when a row was affected is each grade of the set updated in turn through the grade mapper,
        whatever each update answers. `ups` are the UPDATE statements of that cascade (none when no
        row was affected, so the grades need an evaluation and a criteria only in that case). */
    method Update(e: CompleteEvaluation) returns (ok: bool, ghost ups: seq<(int, NoteRow)>)
      requires Valid()
      requires e.restaurant != null
      requires e.id in db.commentaires ==> forall g :: g in e.grades ==> g.evaluation != null && g.criteria != null
      modifies db`commentaires, db`notes
      ensures ok <==> e.id in old(db.commentaires)
      ensures db.commentaires == Store.Update(old(db.commentaires), e.id, CommentRowOf(e))
      ensures ok ==> |ups| == |e.grades|
                     && forall i :: 0 <= i < |e.grades| ==> e.grades[i].evaluation != null && e.grades[i].criteria != null
                                                            && ups[i] == (e.grades[i].id, NoteRowOf(e.grades[i]))
      ensures !ok ==> ups == []
      ensures db.notes == UpdateNotes(old(db.notes), ups, |ups|)
    {
      ok := e.id in db.commentaires;
      if !ok {
        return ok, [];
      }
      ups := GradeUpdates(e.grades);
      db.commentaires := db.commentaires[e.id := CommentRowOf(e)];
      ghost var comments := db.commentaires;
      var i := 0;
      while i < |e.grades|
        invariant 0 <= i <= |e.grades|
        invariant db.commentaires == comments
        invariant db.notes == UpdateNotes(old(db.notes), ups, i)
      {
        assert ups[i] == (e.grades[i].id, NoteRowOf(e.grades[i]));
        var updated := gradeMapper.Update(e.grades[i]);
        i := i + 1;
      }
    }

    /** deleteById: the grades whose fk_comm is `id` are deleted first, then the comment; true exactly
        when a comment was removed (the grades are deleted either way). */
    method DeleteById(id: int) returns (ok: bool)
      requires Valid()
      modifies db`commentaires, db`notes
      ensures db.notes == WithoutGradesOf(old(db.notes), id)
      ensures ok <==> id in old(db.commentaires)
      ensures db.commentaires == Store.Delete(old(db.commentaires), id)
    {
      gradeMapper.DeleteByEvaluationId(id);
      ok := id in db.commentaires;
      db.commentaires := db.commentaires - {id};
    }

    /** delete(e) is deleteById(e.getId()). */
    method Delete(e: CompleteEvaluation) returns (ok: bool)
      requires Valid()
      modifies db`commentaires, db`notes
      ensures db.notes == WithoutGradesOf(old(db.notes), e.id)
      ensures ok <==> e.id in old(db.commentaires)
      ensures db.commentaires == Store.Delete(old(db.commentaires), e.id)
    {
      ok := DeleteById(e.id);
    }

    /** Because of the column bindings, an evaluation that create has just stored is not found again
        with the getters of this model: findById answers null for its id. */
    method CreateThenFind(e: CompleteEvaluation) returns (created: CompleteEvaluation?, found: CompleteEvaluation?)
      requires Valid()
      requires e.restaurant != null
      requires db.Last(SeqEval) + 1 !in db.commentaires ==> forall g :: g in e.grades ==> g.criteria != null
      requires forall i, j :: 0 <= i < j < |e.grades| ==> e.grades[i] != e.grades[j]
      modifies e`id, db`commentaires, db`notes, db`issued, e.grades`id, e.grades`evaluation, restaurantMapper`cache
      ensures created != null ==> found == null
    {
      ghost var rows;
      created, rows := Create(e);
      found := FindById(e.id);
      WrittenCommentUnreadable(e);
    }
  }
}
