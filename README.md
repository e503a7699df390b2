# GuideResto persistence mappers in Dafny

This project models the JDBC mappers of the restaurant guide, the package
`ch.hearc.ig.guideresto.persistence`. The guide has one mapper class per entity:
- cities (`VILLES`);
- restaurant types (`TYPES_RESTAURANTS`);
- evaluation criteria (`CRITERES_EVALUATION`);
- restaurants (`RESTAURANTS`);
- likes (`LIKES`);
- complete evaluations, which are comments in `COMMENTAIRES`;
- grades (`NOTES`).

Every statement a mapper issues filters on the primary key `numero = ?`. The model therefore works as follows:

- **Tables (module `Store`).** Each table is a `map<int, Row>` from the key to the remaining columns.
  - An INSERT under a key that is already present violates the primary key. The statement raises, the table is unchanged, and the mapper answers `null`.
  - An UPDATE or DELETE "affects > 0 rows" exactly when the key is present.
- **Sequences.** Each Oracle sequence (`SEQ_VILLES`, `SEQ_EVAL`, `SEQ_NOTES`, ...) is a counter: its next value is exactly one more than the last value it handed out (the first is 1).
  - `KeysIssued` states the discipline that every key of a table came from its sequence. Under that discipline every `create` succeeds in the model and keeps the discipline. The model's tables accept any value in any column, so a type mismatch cannot make an INSERT fail (see "## Left out").
  - Likes and comments share `SEQ_EVAL`. A like created under the discipline therefore never takes the key of a comment.
- **Mappers.** Each mapper is a class that shares one `Database` object.
  - The methods change the tables, the sequences and the business objects in place (`setId`, `setEvaluation`, `setGrades`), as the Java does.
  - `findAll` walks the rows in an order the model leaves open, because the queries have no ORDER BY.
- **Identity caches.** `RestaurantTypeMapper` and `RestaurantMapper` keep an identity cache (`map<int, T>`).
  - The contracts state when an entry is written or evicted, and that this happens only after the statement succeeded.
  - They also state that two `findById` calls answer the same reference.
- **The evaluation–grade pair.** `CompleteEvaluationMapper` and `GradeMapper` refer to each other.
  - Each grade's `fk_comm` is resolved through the evaluation mapper. Each evaluation's grades are loaded through the grade mapper.
  - `create` inserts the comment first and then each grade of its set, pointed at the new evaluation.
  - `update` rewrites the comment and then updates each grade in the set. It never adds or removes a grade.
  - `deleteById` deletes the grades first and the comment second. With that order the foreign key `fk_comm` holds after each statement; the other order would leave grades dangling.

## Column bindings of likes and comments

The INSERT and UPDATE statements of likes and comments bind their parameters in an order that does not follow the column list. The model stores what the code binds, column by column, as cells that remember the setter used (`setInt`, `setString`, `setDate`). The getters `AsInt`, `AsText` and `AsDate` read back exactly a value bound with their own setter; they do not convert between numbers, text and dates.

**COMMENTAIRES.** Create and update bind the columns as follows:

| column | receives |
|---|---|
| `date_eval` | the visit date |
| `commentaire` | the restaurant's id |
| `nom_utilisateur` | the comment text |
| `fk_rest` | the user name |

`mapRow` reads `commentaire` and `nom_utilisateur` as text, `date_eval` as a date and `fk_rest` as an integer. With the model's non-converting getters it cannot read such a row back (`WrittenCommentUnreadable`). As a result, in the model an evaluation that `create` has just stored is not found again by `findById` (`CreateThenFind`). A JDBC driver that converts would behave differently: `getString` on a number yields its digits, and `getInt` on a numeric string yields the number. With such a driver, and a numeric user name, `mapRow` would read the row back, with its fields in the wrong places.

**LIKES.** Create and update bind the columns as follows:

| column | receives |
|---|---|
| `appreciation` | the visit date |
| `date_eval` | the restaurant's id |
| `adresse_ip` | the like flag |
| `fk_rest` | the IP address |

`RowMisplacesColumns` states this. No field-level round trip is claimed for either entity.

The like flag is 1 exactly when the Boolean is non-null and true. A dislike and a missing opinion are therefore written alike (`LikeFlagAgrees`).

## Model

All source paths are relative to the repository root.

| member | source | states |
|---|---|---|
| Store.Insert | src/main/java/ch/hearc/ig/guideresto/persistence/GradeMapper.java:76-97 | an INSERT under a new key adds exactly that row; under an existing key the table is unchanged; no other row changes |
| Store.Update | src/main/java/ch/hearc/ig/guideresto/persistence/GradeMapper.java:100-114 | an UPDATE keeps the key set, replaces the row under a present key and leaves every other row as it was |
| Store.Delete | src/main/java/ch/hearc/ig/guideresto/persistence/GradeMapper.java:122-133 | a DELETE removes exactly the given key and keeps every other row |
| Store.AsInt | src/main/java/ch/hearc/ig/guideresto/persistence/CompleteEvaluationMapper.java:189 | getInt reads back exactly an integer bound with setInt; a value bound with another setter is not read (the read raises) |
| Store.AsText | src/main/java/ch/hearc/ig/guideresto/persistence/CompleteEvaluationMapper.java:187-188 | getString reads back exactly a text bound with setString; a value bound with another setter is not read |
| Store.AsDate | src/main/java/ch/hearc/ig/guideresto/persistence/CompleteEvaluationMapper.java:186 | getDate reads back exactly a date bound with setDate; a value bound with another setter is not read |
| Store.NextKeyIsFree | src/main/java/ch/hearc/ig/guideresto/persistence/CityMapper.java:60-67 | when every key came from the sequence, its next value is a free key and the table still follows the discipline after the INSERT |
| Store.RowOrder | src/main/java/ch/hearc/ig/guideresto/persistence/CityMapper.java:46-50 | a result set visits each key of the table exactly once |
| Store.Database.NextVal | src/main/java/ch/hearc/ig/guideresto/persistence/CityMapper.java:21 | NEXTVAL answers exactly one more than the last value of that sequence, records it as the last value, and leaves every other sequence alone |
| Cities.CityMapper.MapRow | src/main/java/ch/hearc/ig/guideresto/persistence/CityMapper.java:127-132 | a new city carrying the row's key, zip code and name |
| Cities.CityMapper.FindById | src/main/java/ch/hearc/ig/guideresto/persistence/CityMapper.java:26-39 | null exactly when no row has the key; otherwise the city with that key and the row's columns |
| Cities.CityMapper.FindAll | src/main/java/ch/hearc/ig/guideresto/persistence/CityMapper.java:42-55 | exactly one city per row, with distinct keys and each carrying its row's columns |
| Cities.CityMapper.Create | src/main/java/ch/hearc/ig/guideresto/persistence/CityMapper.java:58-76 | the next SEQ_VILLES value is set on the city before the INSERT and stays set; the city is returned exactly when the row was inserted; under the key discipline the create always succeeds |
| Cities.CityMapper.Update | src/main/java/ch/hearc/ig/guideresto/persistence/CityMapper.java:79-90 | true exactly when a row has the city's id; that row now holds the city's zip code and name |
| Cities.CityMapper.DeleteById | src/main/java/ch/hearc/ig/guideresto/persistence/CityMapper.java:98-107 | true exactly when a row was removed; only that key goes |
| Cities.CityMapper.Delete | src/main/java/ch/hearc/ig/guideresto/persistence/CityMapper.java:93-95 | the same outcome and table as deleteById of the city's id |
| Criteria.EvaluationCriteriaMapper.MapRow | src/main/java/ch/hearc/ig/guideresto/persistence/EvaluationCriteriaMapper.java:123-128 | a new criteria carrying the row's key, name and description |
| Criteria.EvaluationCriteriaMapper.FindById | src/main/java/ch/hearc/ig/guideresto/persistence/EvaluationCriteriaMapper.java:11-27 | null exactly when no row has the key; otherwise the criteria with that key and the row's columns |
| Criteria.EvaluationCriteriaMapper.FindAll | src/main/java/ch/hearc/ig/guideresto/persistence/EvaluationCriteriaMapper.java:30-45 | exactly one criteria per row, with distinct keys and each carrying its row's columns |
| Criteria.EvaluationCriteriaMapper.Create | src/main/java/ch/hearc/ig/guideresto/persistence/EvaluationCriteriaMapper.java:48-66 | the next SEQ_CRITERES_EVALUATION value is set on the object; the object is returned exactly when the INSERT did not raise |
| Criteria.EvaluationCriteriaMapper.Update | src/main/java/ch/hearc/ig/guideresto/persistence/EvaluationCriteriaMapper.java:69-83 | true exactly when a row has the criteria's id; that row now holds its name and description |
| Criteria.EvaluationCriteriaMapper.DeleteById | src/main/java/ch/hearc/ig/guideresto/persistence/EvaluationCriteriaMapper.java:91-102 | true exactly when a row was removed; only that key goes |
| Criteria.EvaluationCriteriaMapper.Delete | src/main/java/ch/hearc/ig/guideresto/persistence/EvaluationCriteriaMapper.java:86-88 | the same outcome and table as deleteById of the criteria's id |
| RestaurantTypes.RestaurantTypeMapper.MapRow | src/main/java/ch/hearc/ig/guideresto/persistence/RestaurantTypeMapper.java:152-158 | a new type carrying the row's key, label and description |
| RestaurantTypes.RestaurantTypeMapper.FindById | src/main/java/ch/hearc/ig/guideresto/persistence/RestaurantTypeMapper.java:33-50 | a cached id is answered from the cache; on a miss with a row, a new object is cached under the id; on a miss without a row, null and the cache unchanged; the result is what the cache then holds for the id |
| RestaurantTypes.RestaurantTypeMapper.FindAll | src/main/java/ch/hearc/ig/guideresto/persistence/RestaurantTypeMapper.java:53-69 | one new object per row; each is cached under its id, replacing an older entry; entries of ids without a row are kept |
| RestaurantTypes.RestaurantTypeMapper.Create | src/main/java/ch/hearc/ig/guideresto/persistence/RestaurantTypeMapper.java:72-91 | only when the INSERT adds the row are the id set, the object cached and the object returned; otherwise null, and neither the id nor the cache changes |
| RestaurantTypes.RestaurantTypeMapper.Update | src/main/java/ch/hearc/ig/guideresto/persistence/RestaurantTypeMapper.java:94-111 | true exactly when a row has the id; the object is cached only then |
| RestaurantTypes.RestaurantTypeMapper.DeleteById | src/main/java/ch/hearc/ig/guideresto/persistence/RestaurantTypeMapper.java:119-133 | true exactly when a row was removed; the id is evicted from the cache only then |
| RestaurantTypes.RestaurantTypeMapper.Delete | src/main/java/ch/hearc/ig/guideresto/persistence/RestaurantTypeMapper.java:114-116 | the same outcome, table and cache as deleteById of the type's id |
| RestaurantTypes.RestaurantTypeMapper.IsCacheEmpty | src/main/java/ch/hearc/ig/guideresto/persistence/RestaurantTypeMapper.java:162-164 | true exactly when the cache has no entry |
| RestaurantTypes.RestaurantTypeMapper.ResetCache | src/main/java/ch/hearc/ig/guideresto/persistence/RestaurantTypeMapper.java:167-169 | the cache is empty afterwards |
| RestaurantTypes.RestaurantTypeMapper.AddToCache | src/main/java/ch/hearc/ig/guideresto/persistence/RestaurantTypeMapper.java:172-174 | binds the object's id to it; every other key keeps its entry |
| RestaurantTypes.RestaurantTypeMapper.RemoveFromCache | src/main/java/ch/hearc/ig/guideresto/persistence/RestaurantTypeMapper.java:177-179 | drops exactly the given key; every other key keeps its entry |
| RestaurantTypes.RestaurantTypeMapper.FindTwice | src/main/java/ch/hearc/ig/guideresto/persistence/RestaurantTypeMapper.java:33-50 | two findById calls for one id answer the same reference, non-null exactly when the id was cached or has a row |
| RestaurantTypes.RestaurantTypeMapper.CreateThenFind | src/main/java/ch/hearc/ig/guideresto/persistence/RestaurantTypeMapper.java:72-91 | after a successful create, findById of the new id answers the created object itself |
| RestaurantTypes.ResetThenEmpty | src/main/java/ch/hearc/ig/guideresto/persistence/RestaurantTypeMapper.java:162-169 | after resetCache, isCacheEmpty answers true |
| Restaurants.RestaurantMapper.MapRow | src/main/java/ch/hearc/ig/guideresto/persistence/RestaurantMapper.java:35 | a new restaurant carrying the row's key and columns |
| Restaurants.RestaurantMapper.FindById | src/main/java/ch/hearc/ig/guideresto/persistence/RestaurantMapper.java:28-44 | a cached id is answered from the cache; on a miss with a row, the new restaurant is stored under the requested id; on a miss without a row, null and the cache unchanged |
| Restaurants.RestaurantMapper.FindAll | src/main/java/ch/hearc/ig/guideresto/persistence/RestaurantMapper.java:47-61 | one new restaurant per row, each both returned and cached under its own id; entries of ids without a row are kept |
| Restaurants.RestaurantMapper.FindTwice | src/main/java/ch/hearc/ig/guideresto/persistence/RestaurantMapper.java:29-37 | two consecutive findById calls for one id answer the same reference |
| Restaurants.RestaurantMapper.FindAllThenFind | src/main/java/ch/hearc/ig/guideresto/persistence/RestaurantMapper.java:47-61 | after findAll, findById of a row's key answers the very object findAll returned |
| Likes.LikeFlag | src/main/java/ch/hearc/ig/guideresto/persistence/BasicEvaluationMapper.java:90 | the flag is 0 or 1, and 1 exactly when the Boolean is non-null and true |
| Likes.LikeFlagAgrees | src/main/java/ch/hearc/ig/guideresto/persistence/BasicEvaluationMapper.java:112 | two Booleans get the same flag exactly when both or neither are a non-null true; null and false are written alike |
| Likes.RowOf | src/main/java/ch/hearc/ig/guideresto/persistence/BasicEvaluationMapper.java:87-91 | the row create writes holds the visit date in appreciation, the restaurant's id in date_eval, the like flag in adresse_ip and the IP address in fk_rest |
| Likes.RowMisplacesColumns | src/main/java/ch/hearc/ig/guideresto/persistence/BasicEvaluationMapper.java:87-91 | the written row holds the date in appreciation and the flag in adresse_ip; date_eval, adresse_ip and fk_rest do not hold what their names announce |
| Likes.BasicEvaluationMapper.FindById | src/main/java/ch/hearc/ig/guideresto/persistence/BasicEvaluationMapper.java:44-59 | nothing (null) exactly when no row has the key; otherwise the stored row |
| Likes.BasicEvaluationMapper.FindAll | src/main/java/ch/hearc/ig/guideresto/persistence/BasicEvaluationMapper.java:62-78 | exactly one entry per row of LIKES, with distinct keys and the stored columns |
| Likes.BasicEvaluationMapper.Create | src/main/java/ch/hearc/ig/guideresto/persistence/BasicEvaluationMapper.java:81-103 | the next SEQ_EVAL value is set before the INSERT; the evaluation is returned exactly when the row was inserted; the key drawn from the shared sequence is clear of every comment key |
| Likes.BasicEvaluationMapper.Update | src/main/java/ch/hearc/ig/guideresto/persistence/BasicEvaluationMapper.java:106-122 | keyed by the evaluation's id; true exactly when a row was affected; the row gets the same bindings as create |
| Evaluations.WithoutGradesOf | src/main/java/ch/hearc/ig/guideresto/persistence/CompleteEvaluationMapper.java:154 | deleting an evaluation's grades removes exactly the rows whose fk_comm is its id and keeps every other row |
| Evaluations.DeleteGradesOfOnlyTouchesE | src/main/java/ch/hearc/ig/guideresto/persistence/CompleteEvaluationMapper.java:154 | afterwards no grade references the evaluation, and every other evaluation keeps exactly its grades |
| Evaluations.CascadeCreatePersistsEach | src/main/java/ch/hearc/ig/guideresto/persistence/CompleteEvaluationMapper.java:104-107 | under the key discipline the i-th grade of the cascade is stored under the i-th new key, no old row changes, and the discipline holds afterwards |
| Evaluations.CascadeCreateGrades | src/main/java/ch/hearc/ig/guideresto/persistence/CompleteEvaluationMapper.java:104-107 | the cascade gives the new evaluation exactly its old grades plus the new keys, and every other evaluation exactly its old grades |
| Evaluations.CascadeCreateKeepsReferences | src/main/java/ch/hearc/ig/guideresto/persistence/CompleteEvaluationMapper.java:89-116 | inserting the comment before its grades keeps every fk_comm pointing at an existing comment |
| Evaluations.CascadeUpdateNeverDeletes | src/main/java/ch/hearc/ig/guideresto/persistence/CompleteEvaluationMapper.java:130-133 | the update cascade never adds or deletes a grade, leaves unnamed grades as they were, and gives each named existing grade its new row |
| Evaluations.CascadeDeleteKeepsReferences | src/main/java/ch/hearc/ig/guideresto/persistence/CompleteEvaluationMapper.java:149-165 | deleting the grades and then the comment keeps every fk_comm pointing at an existing comment after each statement |
| Evaluations.ParentFirstLeavesDanglingGrades | src/main/java/ch/hearc/ig/guideresto/persistence/CompleteEvaluationMapper.java:149-165 | the other order would break the reference: a comment deleted while it has grades leaves them dangling |
| Evaluations.ReadComment | src/main/java/ch/hearc/ig/guideresto/persistence/CompleteEvaluationMapper.java:184-194 | mapRow reads a row exactly when date_eval holds a date, commentaire and nom_utilisateur hold text and fk_rest holds an integer, and then yields those values |
| Evaluations.CommentRowOf | src/main/java/ch/hearc/ig/guideresto/persistence/CompleteEvaluationMapper.java:95-99 | the row create and update write holds the visit date in date_eval, the restaurant's id in commentaire, the comment in nom_utilisateur and the user name in fk_rest |
| Evaluations.WrittenCommentUnreadable | src/main/java/ch/hearc/ig/guideresto/persistence/CompleteEvaluationMapper.java:95-99 | a row written by create or update cannot be read by mapRow: commentaire holds the restaurant id and fk_rest the user name |
| Evaluations.GradeMapper.MapRow | src/main/java/ch/hearc/ig/guideresto/persistence/GradeMapper.java:153-163 | a new grade with the row's key and score; its criteria is null exactly when fk_crit names no row, else carries that row; its evaluation is null exactly when the comment fk_comm names cannot be read (and then the cache is untouched), else holds that comment's date, comment, user name and restaurant, carries its grades, and the restaurant cache afterwards is exactly the old one plus, on a miss, that restaurant |
| Evaluations.GradeMapper.FindById | src/main/java/ch/hearc/ig/guideresto/persistence/GradeMapper.java:39-54 | null, with the cache untouched, exactly when no row has the key; otherwise a grade read from that row as mapRow reads it, with the restaurant cache stated as mapRow states it |
| Evaluations.GradeMapper.FindAll | src/main/java/ch/hearc/ig/guideresto/persistence/GradeMapper.java:57-73 | exactly one grade per row of NOTES, with distinct keys, each read from its row as mapRow reads it against the cache at the start; the cache only gains restaurants carrying their own key and row |
| Evaluations.GradeMapper.FindAllStep | src/main/java/ch/hearc/ig/guideresto/persistence/GradeMapper.java:64 | one loop step: the next row mapped, and every grade read before it still holding its row while the cache grows |
| Evaluations.GradesRead | src/main/java/ch/hearc/ig/guideresto/persistence/GradeMapper.java:63-65 | grades read in row order each from the row under its own key have distinct keys, exactly the keys of NOTES |
| Evaluations.GradeMapper.FindByEvaluationId | src/main/java/ch/hearc/ig/guideresto/persistence/CompleteEvaluationMapper.java:56 | exactly the grades whose fk_comm is the evaluation's id, one per row, each pointing back at that evaluation |
| Evaluations.GradeMapper.Create | src/main/java/ch/hearc/ig/guideresto/persistence/GradeMapper.java:76-97 | the next SEQ_NOTES value is set before the INSERT of score, evaluation id and criteria id; the grade is returned exactly when the row was inserted |
| Evaluations.GradeMapper.Update | src/main/java/ch/hearc/ig/guideresto/persistence/GradeMapper.java:100-114 | true exactly when a row has the grade's id; that row now holds its score, evaluation id and criteria id |
| Evaluations.GradeMapper.DeleteById | src/main/java/ch/hearc/ig/guideresto/persistence/GradeMapper.java:122-133 | true exactly when a row was removed; only that key goes |
| Evaluations.GradeMapper.Delete | src/main/java/ch/hearc/ig/guideresto/persistence/GradeMapper.java:117-119 | the same outcome and table as deleteById of the grade's id |
| Evaluations.GradeMapper.DeleteByEvaluationId | src/main/java/ch/hearc/ig/guideresto/persistence/CompleteEvaluationMapper.java:154 | removes exactly the grades whose fk_comm is the id |
| Evaluations.CompleteEvaluationMapper.MapRow | src/main/java/ch/hearc/ig/guideresto/persistence/CompleteEvaluationMapper.java:184-194 | null exactly when a column cannot be read, with the cache unchanged; otherwise an evaluation with the row's date, comment and user name, and as restaurant what the restaurant mapper's findById answers for fk_rest: the cached object, a restaurant carrying that key and row, or null when neither exists; the new cache is the old one plus that restaurant on a miss |
| Evaluations.CompleteEvaluationMapper.MapRowWithGrades | src/main/java/ch/hearc/ig/guideresto/persistence/CompleteEvaluationMapper.java:53-57 | mapRow's result and new cache, then the grade set replaced by exactly the grades of NOTES that reference the evaluation |
| Evaluations.CompleteEvaluationMapper.FindById | src/main/java/ch/hearc/ig/guideresto/persistence/CompleteEvaluationMapper.java:47-66 | null exactly when no comment has the key or its row cannot be read, with the cache unchanged; otherwise the evaluation holding the row's fields and the restaurant findById answers, with its grades loaded, and the new cache |
| Evaluations.CompleteEvaluationMapper.FindAll | src/main/java/ch/hearc/ig/guideresto/persistence/CompleteEvaluationMapper.java:69-86 | evaluations in row order with distinct keys, each holding its row's date, comment, user name and restaurant (as the restaurant mapper answers for the cache at the start) and with its grades attached; all of them when every row can be read; the cache only gains restaurants carrying their own key and row |
| Evaluations.CompleteEvaluationMapper.FindAllStep | src/main/java/ch/hearc/ig/guideresto/persistence/CompleteEvaluationMapper.java:76-79 | one loop step: the next row mapped with its grades, and every evaluation read before it still holding its row while the cache grows |
| Evaluations.EvaluationsRead | src/main/java/ch/hearc/ig/guideresto/persistence/CompleteEvaluationMapper.java:76-83 | evaluations read in row order each from the row under its own id have distinct ids, and cover every key when the loop reached the end |
| Evaluations.CompleteEvaluationMapper.CreateGrade | src/main/java/ch/hearc/ig/guideresto/persistence/CompleteEvaluationMapper.java:105-106 | one cascade step: the grade points at the evaluation and its row is inserted under the next SEQ_NOTES key |
| Evaluations.CompleteEvaluationMapper.CreateGrades | src/main/java/ch/hearc/ig/guideresto/persistence/CompleteEvaluationMapper.java:104-107 | each grade in turn points at the evaluation and gets the next key, and NOTES is the cascade of their rows |
| Evaluations.CompleteEvaluationMapper.Create | src/main/java/ch/hearc/ig/guideresto/persistence/CompleteEvaluationMapper.java:89-116 | the SEQ_EVAL id is set before the INSERT; null and no grade touched when the comment was not inserted, whatever the grades' criteria; otherwise every grade is pointed at it and created, and the evaluation is returned whatever the grades' results |
| Evaluations.CompleteEvaluationMapper.InsertWithGrades | src/main/java/ch/hearc/ig/guideresto/persistence/CompleteEvaluationMapper.java:94-108 | the inserted path: COMMENTAIRES gains exactly the comment under the evaluation's id, the grades are pointed at it and receive consecutive SEQ_NOTES keys, and NOTES gains exactly their rows |
| Evaluations.CompleteEvaluationMapper.Update | src/main/java/ch/hearc/ig/guideresto/persistence/CompleteEvaluationMapper.java:119-141 | true exactly when the comment row was updated; only then is each grade of the set updated, in order (no grade is added or removed); when no row has the id nothing changes, whatever the grades reference |
| Evaluations.CompleteEvaluationMapper.DeleteById | src/main/java/ch/hearc/ig/guideresto/persistence/CompleteEvaluationMapper.java:149-165 | the grades referencing the id are removed first, even without a comment row; true exactly when the comment row was removed |
| Evaluations.CompleteEvaluationMapper.Delete | src/main/java/ch/hearc/ig/guideresto/persistence/CompleteEvaluationMapper.java:144-146 | the same grades, comment table and outcome as deleteById of the evaluation's id |
| Evaluations.CompleteEvaluationMapper.CreateThenFind | src/main/java/ch/hearc/ig/guideresto/persistence/CompleteEvaluationMapper.java:89-116 | an evaluation that create has just stored is not found again by findById, because of the column bindings |

## Left out

- JDBC plumbing: connections, prepared statements, result-set handling and logging are not modelled; tables are maps and `getSequenceValue` is the `NextVal` counter.
- SQL faults: the failures modelled are a primary-key collision on INSERT and a column that `mapRow` cannot read (which makes findById answer null and ends findAll's loop); other causes of `SQLException` (lost connection, constraint violations other than the key) are not modelled.
- Dates: `java.util.Date` and `java.sql.Date` are one opaque value.
- Column types: the tables are untyped, so any bound value is stored in any column. With typed columns, an INSERT that binds a non-numeric user name into a numeric `fk_rest` would raise, and create would answer null. The model does not capture that failure.
- Store.AsInt: does not model the driver's conversion of a numeric string to a number; a column bound with another setter is not read.
- Store.AsText: does not model the driver's conversion of a number or a date to text; a column bound with another setter is not read.
- Store.AsDate: does not model the driver's conversions to a date; a column bound with another setter is not read.
- Evaluations.WrittenCommentUnreadable: holds for the model's non-converting getters; with a converting driver and a numeric user name the written row would be readable.
- Evaluations.CompleteEvaluationMapper.CreateThenFind: holds for the model's non-converting getters, as WrittenCommentUnreadable does.
- Evaluations.CompleteEvaluationMapper.FindAll: a read failure ends the loop and the evaluations read so far are returned; the contract states the complete result only when every row can be read.
- Criteria.EvaluationCriteriaMapper.Create: the source ignores the affected-row count; since an INSERT either adds one row or raises, this cannot be told apart from the other mappers here.
- Likes.BasicEvaluationMapper.FindById: the file ends after `update`, so `mapRow` and `delete` of likes are not part of this model; findById and findAll hand on the stored row.
- Restaurants.RestaurantMapper.MapRow: `mapRowToRestaurant` is called but not defined in the source; it is taken as building a restaurant from its row's columns.
- RestaurantMapper `create` is unfinished in the source (it does not compile and binds more parameters than its INSERT names), and `update`/`delete` are absent: not modelled.
- Evaluations.GradeMapper.FindByEvaluationId: not defined in GradeMapper.java; specified as "the grades whose fk_comm is the id", each pointing back at the evaluation being loaded, rather than at an evaluation loaded again (which would recurse).
- Evaluations.GradeMapper.DeleteByEvaluationId: not defined in GradeMapper.java; specified as "delete the grades whose fk_comm is the id".
- Mutual construction: GradeMapper and CompleteEvaluationMapper each build the other in a field initializer, which recurses without end; the model builds the pair once and links them by shared references.
- Null references: a grade without evaluation or criteria where its row is written, or an evaluation without restaurant, would raise a NullPointerException in the source; the model takes those as preconditions, and only where the source reaches the dereference (create needs the grades' criteria only when the comment key is free, update needs the grades' references only when the comment row exists).
- Set semantics: `HashSet` results depend on `equals`/`hashCode` of business classes that are not part of this model; results are sequences with distinct keys.
- FakeItems.java (static wrappers over findAll), the query-string getters that serve AbstractMapper (which is not part of this model, nor are its exists and count operations) and concurrency (there is none) are left out.
