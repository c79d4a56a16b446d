# Jellyfin database reconciliation, modelled in Dafny

Two one-shot scripts reconcile a *source* and a *target* Jellyfin SQLite
database that describe the same media library under different
database-local ids. Both match records across the databases by a natural
key, never by id, and act only when the match is exactly one row.

- **Timestamp copy** (`copy-dates.py`, `update_date_created`). For every
  target `BaseItems` row, the source rows equal on (Name, Type, Path) are
  looked up. With exactly one such row, the target row's `DateCreated`,
  `DateModified` and `DateLastMediaAdded` are overwritten in place. With
  none or several, the row is left alone. One commit follows the loop.
- **User-data transplant** (`copy-userdata.py`, `copy_userdata`). Every
  source `UserData` record is re-keyed. Its user goes through the source
  `Users` row's Username to exactly one target user. Its item goes through
  the source `BaseItems` row's (Name, Path, Type) to exactly one target
  item. The record is then inserted into the target `UserData` with the
  other eleven columns verbatim. An insert that repeats an existing
  (ItemId, UserId) pair is rejected, and the loop goes on. One commit
  follows the loop.

Files:

- `tables.dfy`, module `Tables`: the shared vocabulary. Column values are
  `Option<string>`, with `None` for NULL. `SqlEq` is SQL `=`: NULL equals
  nothing. It also holds the `BaseItems`/`Users` rows, the
  `fetchall`/`fetchone` lookups (`Filter`, `First`), the classification of
  a lookup as zero / one / many candidates (`Classify`), and the
  natural-key candidate search (`Candidates`).
- `copy_dates.dfy`, module `CopyDates`: the timestamp copy. It is a method
  that rewrites an `array<Item>` in place, proved against the function
  `DatePass`. A `fault` parameter says where a storage error is raised. In
  that case every row is restored and nothing is committed.
- `copy_userdata.dfy`, module `CopyUserData`: the transplant. The target
  `UserData` table is a class `UserDataTable` with the rows the open
  transaction sees (`rows`), the stored rows (`committed`) and the
  uniqueness invariant `KeysUnique`. The loop method `CopyUserData` keeps
  the source's early `continue`s and is proved against the function
  `Transplant`, a left fold over the source records. A `failing` set marks
  the records whose statements raise an error that a per-record handler
  catches. A `fatal` parameter marks an error no handler catches.

Three behaviours of the scripts that are easy to misread:

- In `copy-dates.py` a `sqlite3.Error` raised inside the `try`
  (copy-dates.py:26-69) is printed and the function returns normally. This
  covers the initial `SELECT`, the lookups, the updates and the commit. The
  process does not exit with a failure status. The model's
  `committed == false` says only that nothing was stored. An error raised
  while opening the connections or their cursors (copy-dates.py:17-24) is
  caught nowhere. It ends the process with status 1 before any write. The
  model covers only errors inside the `try`.
- In `copy-userdata.py` the per-record handlers are `except Exception`,
  and that also catches `sqlite3.Error` (copy-userdata.py:57-59, 83-85,
  115-118). A storage error during a lookup or an insert therefore skips
  only that record. The outer handler (copy-userdata.py:22, 124-126)
  catches every storage error outside those handlers. These errors end the
  run with exit status 1 and nothing committed. One can come from opening
  the two connections or their cursors, or from the initial
  `SELECT * FROM UserData` (copy-userdata.py:24-36). The model treats both
  as `FetchFails`. The other comes from the commit (copy-userdata.py:121),
  which the model treats as `CommitFails`.
- The user lookups and item lookups query the live target, not a
  snapshot. This is the same thing, because the pass never writes the
  target's `Users` or `BaseItems`. In the model these are a value of type
  `Target`, so the pass cannot write them.

## Model

| member | source | states |
|---|---|---|
| `Tables.Filter` | copy-dates.py:35-42 | a `fetchall()` under a `WHERE` returns only rows of the table that satisfy the condition, and every such row |
| `Tables.First` | copy-userdata.py:42-43 | `fetchone()` returns nothing exactly when no row satisfies the condition; otherwise the first satisfying row in scan order |
| `Tables.FilterOne` | copy-dates.py:50 | a lookup has exactly one candidate iff exactly one position of the table matches; that row is then the candidate |
| `Tables.FilterAppend` | copy-dates.py:42 | `fetchall()` over a table split in two returns the matching rows of the first part, then those of the second, in scan order |
| `Tables.FilterCount` | copy-dates.py:42 | `fetchall()` returns one row per matching position, so the number of candidates is the number of matching rows, repeats included |
| `Tables.Classify` | copy-dates.py:44-50 | a lookup is judged by its number of candidates: none, exactly one (and then that candidate is used), or several, with their number, at least two. `FilterOne` and `FilterCount` tie these cases to the matching rows |
| `Tables.Candidates` | copy-dates.py:35-39 | the candidates for a key are exactly the rows equal to it on Name, Type and Path, case-sensitively; a NULL component gives no candidate |
| `CopyDates.ProcessRow` | copy-dates.py:31-62 | processing one row rewrites that row to its `UpdatedRow`, leaves every other row as it was, and returns the row's outcome |
| `CopyDates.UpdatedRow` | copy-dates.py:44-60 | a target row after the pass keeps its id, Name, Type, Path and every other column. Its dates are its own or those of a source row with its key. `UpdatedIffUniqueSource` says which |
| `CopyDates.RowOutcome` | copy-dates.py:44-62 | each report line names its row. An update reports exactly the dates written to the row, which come from a source row with the row's key. A row not reported as updated is left unchanged. An ambiguous line counts at least two candidates. `ReportCountsMatches` gives the exact cases |
| `CopyDates.UpdateWhereId` | copy-dates.py:53-60 | `UPDATE ... WHERE id = ?` keeps the row count and every column but the dates. It writes the dates to every row whose id equals the given one under SQL `=`, and to no other. A NULL id writes nothing |
| `CopyDates.RowWriteIsUpdate` | copy-dates.py:53-60 | while the ids are those of the primary-keyed table at the start, writing the current row is the `UPDATE` by that row's id |
| `CopyDates.Restore` | copy-dates.py:68-74 | abandoning the transaction returns every row to its value before the pass |
| `CopyDates.UpdateDateCreated` | copy-dates.py:15-69 | on success the array equals `DatePass` of the original. On a storage error at any row or at the commit, the array equals the original. The report holds the outcomes of the rows processed before the error |
| `CopyDates.DatePass` | copy-dates.py:53-60 | the row count and order are unchanged. Each row keeps its id, Name, Type, Path and every other column; only the three dates may differ |
| `CopyDates.DateReport` | copy-dates.py:44-62 | one outcome per target row, tagged with that row's id |
| `CopyDates.UpdateByIdWritesOneRow` | copy-dates.py:53-60 | under the primary key, `UPDATE ... WHERE id = ?` with the current row's id rewrites that row's dates and no other row |
| `CopyDates.NonUniqueLeavesRow` | copy-dates.py:44-48 | with zero or several source candidates, the target row is entirely unchanged and not reported as updated |
| `CopyDates.NullKeyNeverUpdated` | copy-dates.py:35-39 | a target row with NULL Name, Type or Path is reported as having no match and is left unchanged |
| `CopyDates.UpdatedIffUniqueSource` | copy-dates.py:35-60 | a row is updated iff exactly one source row matches it. It then takes exactly that row's three dates, and the report carries them |
| `CopyDates.ReportCountsMatches` | copy-dates.py:42-48 | a row is reported with no match iff no source row has its key, and as ambiguous iff two or more do. The ambiguous line carries that number |
| `CopyDates.SharedKeySameDates` | copy-dates.py:31-50 | target rows sharing a key that matches one source row all take that row's dates; ambiguity is judged on the source side only |
| `CopyDates.DatePassIdempotent` | copy-dates.py:35-60 | a second pass over the result leaves the table as the first pass left it |
| `CopyDates.DatePassSplits` | copy-dates.py:31-62 | each row's result and report depend only on that row, so the pass over a split table is the concatenation of the passes over the parts |
| `CopyDates.MovieScenario` | copy-dates.py:50-60 | a unique match on ("Movie A", "Movie", "/m/a.mkv") overwrites the target's DateCreated with the source's |
| `CopyDates.ShowScenario` | copy-dates.py:44-48 | two source rows with one key leave the matching target row untouched and report it as ambiguous with count 2 |
| `CopyUserData.InsertKeepsKeysUnique` | copy-userdata.py:105-111 | an insert the uniqueness constraint admits keeps the (ItemId, UserId) keys unique |
| `CopyUserData.SourceUser` | copy-userdata.py:42-43 | a row found is a source `Users` row whose Id equals the record's UserId. `ResolveUserIff` says when none is found |
| `CopyUserData.TargetUsersNamed` | copy-userdata.py:49-50 | the target users found are exactly those whose Username equals the given one under SQL `=` |
| `CopyUserData.SourceItem` | copy-userdata.py:65-66 | a row found is a source `BaseItems` row whose Id equals the record's ItemId. `ResolveItemIff` says when none is found |
| `CopyUserData.TargetItemsKeyed` | copy-userdata.py:72-76 | the target items found are exactly those equal to the key on Name, Path and Type under SQL `=` |
| `CopyUserData.ResolveUser` | copy-userdata.py:39-59 | has no contract of its own. `ResolveUserIff`, `ResolvedIdsAreTargetIds` and `UserSkipCountsMatches` state when the user resolves, to which id, and each skip reason |
| `CopyUserData.ResolveItem` | copy-userdata.py:61-85 | has no contract of its own. `ResolveItemIff`, `ResolvedIdsAreTargetIds` and `ItemSkipCountsMatches` state when the item resolves, to which id, and each skip reason |
| `CopyUserData.Remap` | copy-userdata.py:89-103 | the row to insert carries the given target ItemId and UserId and the record's eleven other columns verbatim |
| `CopyUserData.RecordOutcome` | copy-userdata.py:87-118 | an inserted row keeps the record's eleven columns, and no row of the table has the same non-NULL pair. A duplicate names a pair already in the table. `RecordOutcomeIff` and `InsertedIffUniqueOwners` give the full case split |
| `CopyUserData.UserDataTable.constructor` | copy-userdata.py:25 | the table opens with its stored rows visible and unique |
| `CopyUserData.UserDataTable.Insert` | copy-userdata.py:105-116 | the insert is rejected iff the key exists. A rejected insert leaves the rows as they were; an accepted one appends the row. Uniqueness holds and nothing is stored yet |
| `CopyUserData.UserDataTable.Commit` | copy-userdata.py:121 | the rows the transaction sees become the stored rows |
| `CopyUserData.UserDataTable.Rollback` | copy-userdata.py:124-132 | closing without a commit discards the transaction's rows |
| `CopyUserData.Transplant` | copy-userdata.py:36-118 | one report line per source record |
| `CopyUserData.CopyUserData` | copy-userdata.py:19-126 | exits with failure iff a storage error escapes the handlers. Without one, the stored rows equal `Transplant` of the source records. With one, the stored rows are the original ones. The report is `Transplant`'s, or empty when opening the connections or the initial fetch fails |
| `CopyUserData.ResolveUserIff` | copy-userdata.py:39-59 | a UserId absent from the source `Users` skips the record as `SourceMissing`. Otherwise the user resolves iff exactly one target user has that Username, and then to that user's id. Every skip is on the user side and is `SourceMissing`, `NoMatch` or `Ambiguous` with at least two |
| `CopyUserData.ResolveItemIff` | copy-userdata.py:61-85 | an ItemId absent from the source `BaseItems` skips the record as `SourceMissing`. Otherwise the item resolves iff exactly one target item is equal on Name, Path and Type, and then to that item's id. Every skip is on the item side and is `SourceMissing`, `NoMatch` or `Ambiguous` with at least two |
| `CopyUserData.ResolvedIdsAreTargetIds` | copy-userdata.py:49-82 | a resolved user id is the id of a target user with the source user's Username. A resolved item id is the id of a target item with the source item's Name, Path and Type |
| `CopyUserData.UserSkipCountsMatches` | copy-userdata.py:49-54 | once the source user exists, the user side is `NoMatch` iff no target user has its Username, and `Ambiguous` iff two or more do, with that number |
| `CopyUserData.ItemSkipCountsMatches` | copy-userdata.py:72-80 | once the source item exists, the item side is `NoMatch` iff no target item has its Name, Path and Type, and `Ambiguous` iff two or more do, with that number |
| `CopyUserData.RecordOutcomeIff` | copy-userdata.py:87-118 | a record is inserted iff no handler caught an error, both owners resolve and the re-keyed pair is new. The row carries the target's ids and the eleven other columns verbatim. An existing pair gives `Duplicate`, an unresolved owner gives its reason, and `Failed` comes exactly from a caught error |
| `CopyUserData.InsertedIffUniqueOwners` | copy-userdata.py:39-111 | a record is inserted iff no handler caught an error, its source user and item exist, exactly one target user has the Username, exactly one target item has the Name, Path and Type, and their id pair is new. The inserted row carries exactly those two ids |
| `CopyUserData.MissingSourceUserInsertsNothing` | copy-userdata.py:42-46 | a record whose UserId has no source `Users` row inserts nothing and is reported `SourceMissing(UserSide)` |
| `CopyUserData.TransplantShape` | copy-userdata.py:36-118 | one report line per record. The existing rows stay, unchanged and in front, followed by exactly the inserted rows. The table grows by at most one row per record |
| `CopyUserData.TransplantKeepsKeysUnique` | copy-userdata.py:105-116 | the run preserves the uniqueness of (ItemId, UserId) in the target `UserData` |
| `CopyUserData.OutcomeAt` | copy-userdata.py:36-118 | every record gets an outcome. That outcome is decided by the record alone, against the rows left by the records before it, whatever they were |
| `CopyUserData.RowsGrowAlongRecords` | copy-userdata.py:105-111 | the rows after a shorter prefix of the records are a prefix of the rows after a longer one: no row is ever changed or removed |
| `CopyUserData.InsertedRowStays` | copy-userdata.py:105-116 | a row one record inserted is still in the table after every later record |
| `CopyUserData.FirstWins` | copy-userdata.py:105-116 | once a record inserted a row, a later record re-keyed to the same non-NULL pair is a `Duplicate`, and the first row stays in the table |
| `CopyUserData.CoveredInsertsNothing` | copy-userdata.py:105-116 | when every would-be insert collides with an existing row, the run inserts nothing and leaves the rows as they were |
| `CopyUserData.FirstRunCovers` | copy-userdata.py:87-116 | after a run, each record's re-keyed row collides with a row of the result, given non-NULL target ids |
| `CopyUserData.SecondRunInsertsNothing` | copy-userdata.py:36-118 | given non-NULL target ids, re-running on the result inserts nothing and leaves the table unchanged. This holds even when the re-run catches errors on more records than the first run did |
| `CopyUserData.AliceScenario` | copy-userdata.py:49-54 | a source user "alice" unknown on the target gives `NoMatch(UserSide)` and no insert |

## Left out

- Command-line parsing, the default paths, `main`, opening and closing connections and cursors, and the `finally` cleanup. These are plumbing around the passes.
- Printed messages. Each record keeps only an outcome tag with the values that matter (ids, dates, counts).
- SQL text and engine internals. Tables are sequences of rows. `SELECT ... WHERE` is `Filter` or `First` with SQL `=` semantics. The uniqueness constraint is a scan for an equal non-NULL (ItemId, UserId) pair.
- The interplay of `target_cursor` iterating `BaseItems` while `target_update_cursor` updates it (copy-dates.py:31, 53). The rows are read once, as a snapshot. Because only the three dates are ever written, what a live cursor would read agrees with the snapshot on every column the loop uses.
- Columns the passes neither read nor write appear only as the opaque `other` field. Columns of `UserData` beyond the thirteen the insert names are not modelled. Timestamps are opaque values that are copied, never interpreted.
- UpdateDateCreated: requires the target `BaseItems` primary key: ids are non-NULL and distinct. Without it, the `UPDATE ... WHERE id = ?` could touch other rows or none, and the model does not cover that case.
- Non-duplicate `IntegrityError` causes (NOT NULL, foreign key), other exceptions, and storage errors raised inside a per-record handler are not told apart. All of them are the record's membership in `failing`: the record is skipped as `Failed` and nothing is inserted for it.
- A missing column in a fetched record (a `KeyError` on `record[...]`, copy-userdata.py:40, 62) is a schema mismatch and is not modelled.
- The uniqueness key of target `UserData` is taken as (ItemId, UserId), the pair the insert re-keys. A wider key in a given schema would only admit more inserts.
- SecondRunInsertsNothing: assumes the target user and item ids are non-NULL. SQL uniqueness never treats two NULLs as equal, so without that assumption a re-run could insert again.
- SecondRunInsertsNothing: assumes the re-run catches errors on at least the records the first run did (`failing <= failing2`). A record that failed the first time and succeeds on the re-run is inserted then, as the code would do.
- A per-record error is assumed to leave the open transaction intact, so the inserts before it still commit. SQLite can roll back the whole transaction on some errors (a full disk, an I/O error). The model does not cover that case.
