# Student roster manager — a Dafny model

This project models the roster manager of a student score management system
(`model/StudentDAO.java`). The data access object keeps an in-memory list of
student records, `studentlist`, in step with a `student` table. Each record has
a key `sno`, a name, four subject scores (korean, english, math, science) and
three derived fields (`total`, `average`, `grade`). Every write clamps the
four scores into [0, 100] and recomputes the derived fields. The list is loaded
lazily from the whole table whenever an operation other than `sort` finds it
empty (`sort` works on the list as it is).

Files and modules:

- `records.dfy`, module `Records`: the row and record datatypes, clamping, and
  `Total`, `Average` and `Grade`. `Record` turns a fetched row into a roster
  entry. `Normalize` does the same to a caller's record.
- `ordering.dfy`, module `Ordering`: Java's `String.compareTo` as `StrLe`, the
  three comparators `sort` picks from by a 1-based index, and an insertion sort
  `SortBy` proved to give a sorted permutation.
- `dao.dfy`, module `Dao`: the lookup helpers (`IndexOf`, `Lookup`,
  `RemoveAt`) and the class `StudentDAO`. Its one field, `students`, is the
  roster. Its methods are `Connect`, `LoadIfEmpty`, `Input`, `Update`,
  `Delete`, `Search`, `Sort` and `TotalSearch`. Two client methods,
  `InsertThenSearch` and `DeleteThenSearch`, show what callers can conclude
  from the contracts alone.

The table stays outside the model. Each operation is given what the store
answered:

- the rows of the whole-table select (`rows`);
- for a write, either an affected-row count or an SQL error (`Reply`);
- for the keyed select, either the sno of the row found, no row, or an error
  (`KeyedReply`).

`Input`, `Update`, `Delete` and `Search` return a `Status`. `Sort` returns
`ok`, which is false exactly when the index is outside 1..3. `TotalSearch` takes
one more outcome, `loadFailed`, for a `getConnection` failure during its lazy
load; its `ok` is false when the roster was empty and that load failed, and
otherwise exactly when the index is outside 1..3. The statuses are:

- `Done`: the operation took effect.
- `NotApplied`: the store reported a row count the operation does not act on.
- `MissingEntry`: the store reported success but the roster has no entry with
  that sno. In the source this is the exception from `set(-1, …)` in `update`
  or from `findAny().get()` in `delete`.
- `StoreFailure`: the statement raised an SQL error.

On a well-formed record the average is fixed by the total, so the average
tie-break of the third comparator never decides anything in a roster
(`Ordering.ScoreOrderOnWellFormed`). `Ordering.ScoreExample`, which orders totals
360, 360, 340 with averages 90, 91, 85, therefore uses records
that are not well formed under this model (`Ordering.ScoreExampleRecordNotWellFormed`);
it shows the comparator as written, not a roster that can occur.

`Dao.StudentDAO.Valid()` says every roster entry is well formed: its scores lie
in [0, 100] and its total, average and grade match them. Every method keeps it.

Two things the source does that are easy to miss, both stated in the contracts:

- `input` binds the insert statement before it clamps. The table therefore gets
  the caller's raw scores while the roster gets clamped ones (`Input` ensures
  `sent == Raw(v)`).
- `update` clamps first, so its statement carries clamped scores (`Update`
  ensures `sent == Raw(Normalize(v))`).

In the source, `update` finds the entry with `indexOf` and `delete` removes it
with `remove`. Both depend on `StudentVO.equals`, and vo/StudentVO.java is not
part of this model. The model finds the first entry with the same `sno`.

## Model

| member | source | states |
|---|---|---|
| Records.Clamp | model/StudentDAO.java:88-95 | the result lies in [0, 100]; a value already in range is unchanged; below 0 gives 0, above 100 gives 100 |
| Records.ClampIdempotent | model/StudentDAO.java:151-161 | clamping twice equals clamping once |
| Records.ClampRow | model/StudentDAO.java:190-200 | all four scores are clamped independently; sno and name are untouched; a row already in range is unchanged |
| Records.Total | model/StudentDAO.java:370-376 | on clamped scores the total lies in [0, 400] |
| Records.Average | model/StudentDAO.java:386-389 | average times 4 equals the total exactly; on totals in [0, 400] it lies in [0, 100] |
| Records.Grade | model/StudentDAO.java:404-418 | always one of A, B, C, D, F; A iff average >= 90, B iff 80 <= average < 90, C iff 70 <= average < 80, D iff 60 <= average < 70, F iff average < 60 |
| Records.Derive | model/StudentDAO.java:97-100 | the raw columns are kept; total, average and grade are consistent with them |
| Records.Record | model/StudentDAO.java:79-100 | a fetched row becomes a well-formed record with the same sno and name and clamped scores |
| Records.Normalize | model/StudentDAO.java:190-204 | a caller's record becomes well formed with the same key, name and clamped scores; a record that is already well formed is returned unchanged |
| Records.NormalizeIdempotent | model/StudentDAO.java:150-166 | recomputing a normalized record changes nothing |
| Records.TotalOfWellFormed | model/StudentDAO.java:370-389 | a well-formed record has total in [0, 400] and average in [0, 100] |
| Records.GradeOfTotal | model/StudentDAO.java:406-416 | the grade bands in terms of the integer total: A iff total >= 360, B iff 320..359, C iff 280..319, D iff 240..279, F iff total < 240 |
| Records.GradeMonotone | model/StudentDAO.java:405-417 | a higher average never earns a lower grade |
| Records.InsertExample | model/StudentDAO.java:151-166 | scores 105, -5, 70, 80 become 100, 0, 70, 80 with total 250, average 62.5 and grade D |
| Ordering.StrLe | model/StudentDAO.java:355-356 | `compareTo(..) <= 0` on strings: a proper prefix comes first, otherwise the first differing char decides |
| Ordering.StrLeTotal | model/StudentDAO.java:355 | any two strings are comparable under the name/sno order |
| Ordering.StrLeTransitive | model/StudentDAO.java:356 | the string order is transitive |
| Ordering.StrLeAntisymmetric | model/StudentDAO.java:355-356 | two strings each ordered before the other are equal |
| Ordering.CriterionAt | model/StudentDAO.java:354-359 | index 1 selects by-name, 2 by-sno, 3 by-score; any other index selects nothing |
| Ordering.Precedes | model/StudentDAO.java:355-357 | ByName and BySno: the string order on name or sno; ByScore: higher total first, then higher average |
| Ordering.PrecedesTotal | model/StudentDAO.java:357 | every comparator orders any two records one way or the other |
| Ordering.PrecedesTransitive | model/StudentDAO.java:354-358 | every comparator is transitive |
| Ordering.InsertSorted | model/StudentDAO.java:359 | inserting into a sorted sequence keeps it sorted and adds exactly that record |
| Ordering.SortBy | model/StudentDAO.java:359 | the result is sorted under the chosen comparator and is a permutation of the input |
| Ordering.ScoreOrder | model/StudentDAO.java:357 | sorted by score means non-increasing total and, for equal totals, non-increasing average |
| Ordering.ScoreOrderOnWellFormed | model/StudentDAO.java:357 | on well-formed records equal totals give equal averages, so criterion 3 orders by total alone |
| Ordering.ScoreExampleRecordNotWellFormed | model/StudentDAO.java:370-389 | the 91-average record of the ordering example disagrees with its own total, so it is not well formed |
| Ordering.ScoreExample | model/StudentDAO.java:357-359 | totals 360, 360, 340 with averages 90, 91, 85 sort as the 91, then the 90, then the 85 record |
| Dao.LoadRows | model/StudentDAO.java:78-104 | one record per fetched row, in row order, each clamped and derived |
| Dao.AfterLoad | model/StudentDAO.java:125-127 | a non-empty roster is kept as it is; an empty one becomes one record per fetched row, in row order |
| Dao.IndexOf | model/StudentDAO.java:234 | -1 iff no entry has the sno; otherwise the first position holding it |
| Dao.Lookup | model/StudentDAO.java:328-331 | an entry is found iff some roster entry has that sno, and the entry found is one of them |
| Dao.RemoveAt | model/StudentDAO.java:272 | exactly one entry is taken out; the others keep their relative order; the multiset loses exactly that entry |
| Dao.LookupAppend | model/StudentDAO.java:169 | after an append, earlier lookups are unchanged and a new sno finds the appended record |
| Dao.AppendKeepsUnique | model/StudentDAO.java:168-169 | appending a record whose sno the roster does not hold keeps snos unique |
| Dao.RemoveAtForgets | model/StudentDAO.java:267-273 | with unique snos, the removed sno is no longer found, and snos stay unique |
| Dao.ReplaceFound | model/StudentDAO.java:234-235 | after replacing the entry found for a sno, that sno finds the new record; unique snos stay unique |
| Dao.StudentDAO.constructor | model/StudentDAO.java:46 | the roster starts empty |
| Dao.StudentDAO.Connect | model/StudentDAO.java:71-110 | the loop appends LoadRows(rows) after whatever the roster held, and keeps every entry well formed |
| Dao.StudentDAO.LoadIfEmpty | model/StudentDAO.java:124-127 | the roster is loaded from the rows only when it was empty; otherwise it is untouched |
| Dao.StudentDAO.Input | model/StudentDAO.java:121-175 | the statement carries the raw scores; with a non-zero count the roster is the loaded roster plus the normalized record at the end; a zero count or an SQL error leaves the loaded roster unchanged |
| Dao.StudentDAO.Update | model/StudentDAO.java:187-241 | the statement carries clamped scores; on success the first entry with that sno is replaced at the same index and nothing else changes; a zero count or an SQL error leaves the roster unchanged; a missing entry is MissingEntry |
| Dao.StudentDAO.Delete | model/StudentDAO.java:253-279 | with exactly one affected row, the first entry with that sno is removed; any other count or an error leaves the roster unchanged; a missing entry is MissingEntry |
| Dao.StudentDAO.Search | model/StudentDAO.java:313-338 | the roster changes only by the lazy load; when the keyed select finds a row, the answer is the roster entry with that row's sno, otherwise nothing |
| Dao.StudentDAO.Sort | model/StudentDAO.java:352-360 | succeeds iff the index is 1..3; then the roster is a permutation of the old one, sorted by the chosen comparator; otherwise it is unchanged |
| Dao.StudentDAO.TotalSearch | model/StudentDAO.java:290-301 | lazy load, then sort: when the roster was empty and its load fails to connect, nothing is loaded, sorted or shown; otherwise the roster is a permutation of the loaded one, sorted when the index is valid, and the shown roster is the sorted one when the index is valid and nothing otherwise |
| Dao.InsertThenSearch | model/StudentDAO.java:168-169 | inserting a new sno and then searching it finds the clamped, derived record |
| Dao.DeleteThenSearch | model/StudentDAO.java:267-273 | with unique snos, deleting a sno and then searching it finds nothing |

## Left out

- util/DBUtil.java is not part of this model. It covers driver loading, configuration and connections, which are all I/O.
- Statement text, parameter binding, result-set iteration and `disConnect` are not modelled (model/StudentDAO.java:60-65). They are replaced by the parameters `rows`, `Reply` and `KeyedReply`.
- Console output is not modelled: the printing in `search` and `totalSearch`, and the "DB INSERT Failed!" / "DB UPDATE Failed!" messages. `Search` returns the record instead, and `TotalSearch` returns the roster it would print.
- The singleton `getInstance` is not modelled (model/StudentDAO.java:27-43). A `StudentDAO` is constructed directly.
- The two error policies are collapsed into one status. In the source, `input` and `connect` catch an SQL error raised by their statement, print the stack trace and carry on, while the other operations rethrow it. Here an SQL error from the statement becomes `StoreFailure`.
- A failed `getConnection` (util/DBUtil.java:24-35) is not caught by those handlers: it wraps the SQL error in a RuntimeException, which neither `catch (SQLException e)` (model/StudentDAO.java:105, 170) catches. A connection failure during the lazy load therefore stops the calling operation before its own statement runs. For `Input`, `Update`, `Delete` and `Search`, which take a `Reply` or `KeyedReply`, the model shows that case as `rows == []` together with `reply == StoreError` (or `QueryError`); `TotalSearch` takes it as `loadFailed` and returns `ok == false` with nothing shown, where the source throws; a connection failure in the operation's own statement is `StoreError`/`QueryError` with the rows actually loaded.
- An SQL error part way through the load loop is caught by `connect` and leaves the rows read so far in the roster. The caller models it by passing as `rows` only the rows delivered before the error.
- The `ClassCastException` from casting a `PersonVO` to `StudentVO` is not modelled.
- Records are values, not mutable `StudentVO` objects. Two effects are therefore not captured: the caller's own object is clamped in place, and the caller and the roster share that object.
- Lookup by `indexOf`/`remove` relies on `StudentVO.equals`, whose class is not available. It is modelled as "first entry with the same sno".
- `findAny` may return any match. The model returns the first one, which is the same record when snos are unique.
- Unique snos are not part of `Valid()`. The table enforces them, and the roster is never checked against the table. The lemmas that need uniqueness take it as a hypothesis.
- Java `int` width is not modelled. Scores are unbounded integers. Every total is computed after clamping, so a Java total can never overflow. A NULL column read by `getInt` (which returns 0) is not modelled.
- `average` is a `real`, not an IEEE double. Because totals are integers, `total / 4.0` is exact either way.
- Strings are compared by Dafny `char`, which is a Unicode scalar value. Java compares UTF-16 code units, so names with characters outside the Basic Multilingual Plane may sort differently. A null name or sno, which would make Java throw, is not modelled.
- Dao.StudentDAO.Sort: states only that the result is a sorted permutation, not that equal elements keep their order as Java's stable TimSort does. `SortBy` is this model's own insertion sort, not TimSort.
- When a delete empties the roster, the next operation reloads it from the table. That is the source's behaviour. In the model, the reload reads whatever `rows` that next call is given.
