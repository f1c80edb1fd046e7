# givethnotes-backend core, modelled in Dafny

givethnotes-backend is an Express/MySQL backend for a career journal. A user keeps career
paths. Each career path has one journal entry per day. Each entry holds content blocks at
positions 1, 2, 3, …. This project models the core of the backend:

- **Request handlers.** These cover career paths, journal entries and entry blocks. Each
  one checks its required fields by JavaScript truthiness, runs one or two SQL
  statements, and answers 200/201/400/404/500.
- **Daily journal job.** It runs before every request. Unless `system_jobs` says it
  already ran today, it inserts today's journal entry for every career path that lacks
  one, then records today as its last run.
- **`findOrCreateUser`.** It returns the `users` row for a Clerk user id and inserts the
  row if it is missing.

The job and `findOrCreateUser` are modelled as their authors wrote them against a
promise-based query API. As wired in `config/db.js`, every such query fails (see
"## Left out"), which is the model's failure branch.

The database is one object, `Tables.Database`. Its fields are the tables, held as
sequences of rows in storage order (`system_jobs` is a map from job name to `last_run`).
Each table also has the next `AUTO_INCREMENT` key. Its invariant `Valid` holds what the
schema enforces:
- primary keys are unique, at least 1 and below the next key;
- (`career_path_id`, `entry_date`) is unique in `journal_entries`.

Every handler keeps `Valid`.

Each SQL statement is a function of the table it reads:
- a `WHERE` is a selection (`Seqs.Filter`);
- an `UPDATE … SET` is a per-row rewrite (`Seqs.MapSeq`);
- `ORDER BY` is a sort (`Seqs.SortBy`);
- `LIMIT 1` takes the first match (`Tables.SelectOne`).

A handler is a method that changes the `Database` fields its statements write. Its
postcondition gives the response and the new table for every branch.

Inputs are modelled as follows:
- A body field that may be missing is an `Option`.
- `Http.IsTruthyNumber` and `Http.IsTruthyText` give JavaScript's `!x` test:
  - absent, `0` and `""` are falsy;
  - a query parameter is falsy only when it is absent or empty.
- Timestamps, "today" and block content are parameters of the handlers.
- A query failure is a boolean parameter (`fault`). It leads to the 500 branch.

Dates are day numbers, so they compare in calendar order.

The DELETE of entry blocks has the one real ordering invariant. It deletes the block at
(`entry_id`, `position`), then moves every later block of that entry up one place. If an
entry's positions were exactly 1..N, they become exactly 1..N-1
(`EntryBlocks.DeleteKeepsContiguous`), and the surviving blocks keep their order
(`EntryBlocks.DeleteShiftKeepsDense`).

The second statement's error is only logged, and the handler still answers 200. If that
shift fails after a delete below N, the entry is left with a gap
(`EntryBlocks.SkippedShiftLeavesGap`).

The daily job's insert is `DailyJournalJob.Provisioned`. It is proved idempotent on the
same day. After it runs, every career path has exactly one entry dated today.

## Model

| member | source | states |
|---|---|---|
| Http.Status | routes/routesJournalEntry.js:33-44 | each response kind maps to its HTTP status; a duplicate key and a missing field both answer 400 |
| Http.OrNull | routes/routesCareerPaths.js:28-34 | `x \|\| null`: an absent or empty text becomes NULL; any other value is kept |
| Seqs.Filter | routes/routesEntryBlocks.js:69-74 | a `WHERE` keeps exactly the rows that satisfy the condition, never more rows than the table holds |
| Seqs.FilterDropsOne | routes/routesJournalEntry.js:160-173 | with a unique key, a delete by that key removes exactly one row when one matches |
| Seqs.FilterKeepsDistinct | routes/routesEntryBlocks.js:148-151 | a delete keeps a unique key unique |
| Seqs.SortBy | routes/routesEntryBlocks.js:69-74 | `ORDER BY` returns a permutation of the selected rows (same multiset, same members), sorted by the key |
| Seqs.InsertByKeepsSorted | routes/routesEntryBlocks.js:73 | inserting one row into a sorted sequence keeps it sorted |
| Seqs.SortByKeepsDistinct | routes/routesEntryBlocks.js:73 | sorting keeps a unique key unique, so the sorted keys strictly increase |
| Tables.SelectOne | routes/routesJournalEntry.js:91-108 | `LIMIT 1` finds a row exactly when some row matches, and the row it returns matches and is stored |
| Tables.SelectOneUnique | routes/routesCareerPaths.js:85-102 | when the condition fixes a unique key, `LIMIT 1` returns the one row with it |
| Tables.LookupOwned | routes/routesJournalEntry.js:91-96 | the SELECT by id and user 1 (also routes/routesCareerPaths.js:85-90) finds a row exactly when user 1 has one with that id, and the row found is stored, has that id and belongs to user 1 |
| Tables.RemoveOwned | routes/routesJournalEntry.js:160-163 | the DELETE by id and user 1 (also routes/routesCareerPaths.js:152-155) keeps exactly the rows that are not user 1's row with that id, and changes nothing when there is none |
| Tables.LookupOwnedFinds | routes/routesJournalEntry.js:91-108 | with unique ids, GET of a journal entry or a career path (also routes/routesCareerPaths.js:85-102) finds a row exactly when user 1 has one with that id, and that is the row returned |
| Tables.RemoveOwnedRemovesOne | routes/routesJournalEntry.js:160-175 | with unique ids, DELETE of a journal entry or a career path (also routes/routesCareerPaths.js:152-167) removes exactly the one matching row and no other, and a GET then finds nothing |
| Tables.Database.Valid | routes/routesJournalEntry.js:33-39 | the schema's invariant: in `journal_entries`, two different rows differ both in id and in (`career_path_id`, `entry_date`), the unique key whose violation answers 400 |
| Tables.KeyedBelowAppend | routes/routesJournalEntry.js:44-45 | an insert that takes the next `AUTO_INCREMENT` id keeps the primary key unique and below the next key |
| Tables.KeyedBelowFilter | routes/routesCareerPaths.js:152-155 | a delete keeps the primary-key invariant |
| EntryBlocks.UpdateAt | routes/routesEntryBlocks.js:107-111 | the UPDATE rewrites content and `updated_at` of exactly the rows at (`entry_id`, `position`); id, entry, type, position and creation time of every row, and all other rows, are unchanged; with no match the table is unchanged |
| EntryBlocks.DeleteAt | routes/routesEntryBlocks.js:148-151 | the DELETE keeps exactly the rows not at (`entry_id`, `position`), and never adds a row |
| EntryBlocks.ShiftDown | routes/routesEntryBlocks.js:164-168 | the UPDATE keeps every row in place with all fields but the position; the entry's blocks above the deleted position move up one place; every other row keeps its position |
| EntryBlocks.RowsOfDeleteAt | routes/routesEntryBlocks.js:148-151 | deleting then taking an entry's blocks is the same as taking them and then deleting |
| EntryBlocks.RowsOfShiftDown | routes/routesEntryBlocks.js:164-168 | the shift moves no block to another entry: shifting then taking an entry's blocks is the same as taking them and then shifting |
| EntryBlocks.DeleteAtRemovesOne | routes/routesEntryBlocks.js:148-161 | among one entry's blocks with distinct positions, a delete at a held position removes exactly one block |
| EntryBlocks.ShiftKeepsOrder | routes/routesEntryBlocks.js:164-168 | the shift keeps the relative order by position of the blocks that survive the delete |
| EntryBlocks.KeptRowsInRange | routes/routesEntryBlocks.js:148-151 | every kept block lies in the entry, avoids the deleted position and stays within 1..N |
| EntryBlocks.ShiftCoversPositions | routes/routesEntryBlocks.js:163-168 | after delete-then-shift on positions 1..N, every position 1..N-1 is held |
| EntryBlocks.DeleteShiftKeepsDense | routes/routesEntryBlocks.js:148-168 | positions exactly 1..N become exactly 1..N-1 (each once); the survivors keep their order |
| EntryBlocks.DeleteKeepsContiguous | routes/routesEntryBlocks.js:148-168 | a successful DELETE keeps the entry contiguous and one block shorter, and leaves every other entry's blocks untouched |
| EntryBlocks.DeleteShiftEffect | routes/routesEntryBlocks.js:148-168 | per block: the one at p is gone; later ones of the entry move up one place; earlier ones and other entries' blocks remain as they were; nothing else appears |
| EntryBlocks.DeleteBelowTopLeavesGap | routes/routesEntryBlocks.js:170-175 | positions 1..N lose their density when a block below N is deleted and the shift does not run |
| EntryBlocks.SkippedShiftLeavesGap | routes/routesEntryBlocks.js:170-175 | when the shift fails after a delete below N, whose error is only logged, the entry is left with a gap |
| EntryBlocks.AppendKeepsContiguousIff | routes/routesEntryBlocks.js:32-40 | POST stores the client's position as given; a contiguous entry stays contiguous exactly when that position is N+1 |
| EntryBlocks.UpdateKeepsContiguous | routes/routesEntryBlocks.js:107-111 | PUT moves no block, so every entry is contiguous after it exactly when it was before |
| EntryBlocks.SamePositionsSameDensity | routes/routesEntryBlocks.js:107-111 | whether positions are 1..N depends only on the positions, not on content |
| EntryBlocks.ListedContiguousIsNumbered | routes/routesEntryBlocks.js:69-74 | GET on a contiguous entry lists its blocks at positions 1, 2, …, N in that order |
| EntryBlocks.StrictlyIncreasingBounds | routes/routesEntryBlocks.js:73 | strictly increasing positions within 1..N put position i+1 at index i |
| EntryBlocks.CreateBlock | routes/routesEntryBlocks.js:16-57 | a missing field gives 400 "Missing required fields"; a type outside the five kinds gives 400 "Invalid block type"; a failure gives 500; otherwise exactly one row is appended with the given fields and the next id, nothing else changes, and it is returned with 201; any answer other than 201 leaves the database unchanged |
| EntryBlocks.ListBlocks | routes/routesEntryBlocks.js:62-90 | a missing `entry_id` gives 400; a failure gives 500; otherwise the result holds exactly the entry's blocks (as a multiset), in non-decreasing position order |
| EntryBlocks.UpdateBlock | routes/routesEntryBlocks.js:95-134 | a missing field gives 400; a failure gives 500; no row at (`entry_id`, `position`) gives 404 and no change; otherwise the table becomes `UpdateAt` of the old one |
| EntryBlocks.DeleteRows | routes/routesEntryBlocks.js:148-161 | the DELETE row by row: the rows kept are `DeleteAt` of the table, and the affected-row count is zero exactly when no block was at the position |
| EntryBlocks.ShiftRows | routes/routesEntryBlocks.js:164-168 | the shifting UPDATE row by row: the result is `ShiftDown` of the table |
| EntryBlocks.DeleteBlock | routes/routesEntryBlocks.js:140-178 | a missing field gives 400; a failed delete gives 500; no match gives 404 with no change and no shift; otherwise 200 with the table deleted-then-shifted, or only deleted when the shift fails |
| DailyJournalJob.LastRun | functions/runDailyJournalJob.js:7-12 | `rows[0]?.last_run`: the stored `last_run` of the `daily_journal_entries` row, and unset when that row is missing |
| DailyJournalJob.MarkRun | functions/runDailyJournalJob.js:33-36 | the UPDATE sets `last_run` to today for the `daily_journal_entries` row only; with no such row it writes nothing and `last_run` stays unset |
| DailyJournalJob.Provisioned | functions/runDailyJournalJob.js:19-31 | every inserted row copies the id and `user_id` of a career path that had no entry dated today, is dated today, has no `updated_at`, and takes the next ids in turn |
| DailyJournalJob.ProvisionedCoversEveryPath | functions/runDailyJournalJob.js:19-31 | after the insert, every career path has an entry dated today |
| DailyJournalJob.ProvisionedEmptyWhenCovered | functions/runDailyJournalJob.js:26-30 | when every career path already has today's entry, the insert adds nothing |
| DailyJournalJob.ProvisionedIsIdempotent | functions/runDailyJournalJob.js:26-30 | running the insert a second time on the same day adds no row |
| DailyJournalJob.EarlierRowsOtherPaths | functions/runDailyJournalJob.js:20-26 | rows inserted for earlier career paths never belong to a later one |
| DailyJournalJob.ProvisionedKeepsKeysUnique | functions/runDailyJournalJob.js:26-30 | the insert neither duplicates an existing (career path, day) entry nor adds two for one career path |
| DailyJournalJob.ExactlyOneEntryToday | functions/runDailyJournalJob.js:19-31 | after the insert, every career path has exactly one entry dated today |
| DailyJournalJob.AtMostOneOnDay | routes/routesJournalEntry.js:33-39 | with (`career_path_id`, `entry_date`) unique, a career path has at most one entry per day |
| DailyJournalJob.MissingToday | functions/runDailyJournalJob.js:19-31 | the anti-join computed path by path equals `Provisioned` |
| DailyJournalJob.KeyedBelowProvisioned | functions/runDailyJournalJob.js:19-31 | the inserted rows take the next `AUTO_INCREMENT` ids, keeping the primary-key invariant |
| DailyJournalJob.RunDailyJournalJobIfNeeded | functions/runDailyJournalJob.js:4-39 | a failed read writes nothing; a stored `last_run` of today means no write to any table; a failed insert leaves every table and the marker as they were; otherwise the rows of `Provisioned` are appended, and then the marker is set, or left as it was if that UPDATE fails |
| DailyJournalJob.RunTwiceOnSameDay | functions/runDailyJournalJob.js:12-31 | two runs on one day insert the missing entries once; the second adds nothing; when the marker row exists the second stops at the gate |
| JournalEntries.Redate | routes/routesJournalEntry.js:129-133 | the UPDATE sets `entry_date` and `updated_at` on exactly the row with that id and user 1; ids, career paths, owners, creation times and all other rows are unchanged |
| JournalEntries.RedateKeepsKeysUnique | routes/routesJournalEntry.js:129-143 | unless the new date clashes with another entry of the same career path, the update keeps both the id and (`career_path_id`, `entry_date`) unique |
| JournalEntries.LookupAfterRedate | routes/routesJournalEntry.js:129-150 | a GET after a PUT returns the entry with the new date and `updated_at`, everything else as before |
| JournalEntries.NewestFirstIsDescending | routes/routesJournalEntry.js:71 | the listing's entry dates do not increase from first to last |
| JournalEntries.CreateEntry | routes/routesJournalEntry.js:8-52 | a missing or zero `career_path_id` or a missing `entry_date` gives 400; a failure gives 500; an existing (career path, date) gives 400 "Entry date already exists for this career path" and no change; otherwise one row for user 1 with no `updated_at` is appended with the next id, 201, and a GET then finds it; any answer other than 201 leaves the database unchanged |
| JournalEntries.ListEntries | routes/routesJournalEntry.js:57-82 | a missing `career_path_id` gives 400; a failure gives 500; otherwise exactly user 1's entries of that career path (as a multiset), newest date first |
| JournalEntries.GetEntry | routes/routesJournalEntry.js:87-110 | a failure gives 500; 404 when user 1 has no entry with that id; otherwise an entry with that id, owned by user 1 |
| JournalEntries.UpdateEntry | routes/routesJournalEntry.js:115-151 | a missing `entry_date` gives 400; a failure or a unique-key clash gives 500 and no change; no matching row gives 404; otherwise the table becomes `Redate` of the old one |
| JournalEntries.DeleteEntry | routes/routesJournalEntry.js:156-177 | a failure gives 500; no matching row gives 404 and no change; otherwise only the matching row is removed |
| CareerPaths.Revise | routes/routesCareerPaths.js:121-127 | the UPDATE sets title, description, image URL and `updated_at` on exactly the row with that id and user 1; all other rows are unchanged, and so are the ids, owners and creation times |
| CareerPaths.ReviseKeepsIds | routes/routesCareerPaths.js:121-127 | the update keeps the primary-key invariant |
| CareerPaths.LookupAfterRevise | routes/routesCareerPaths.js:121-143 | a GET after a PUT returns the career path with the new fields, its id and creation time kept |
| CareerPaths.NewestFirstIsDecreasing | routes/routesCareerPaths.js:65-67 | with unique ids, the listing's ids strictly decrease |
| CareerPaths.CreatePath | routes/routesCareerPaths.js:5-50 | a missing or empty title gives 400; a failure gives 500; otherwise one row for user 1 is appended with the next id, an absent description or image URL stored as NULL; the request's values are echoed with 201, and a GET then finds the row; any answer other than 201 leaves the database unchanged |
| CareerPaths.ListPaths | routes/routesCareerPaths.js:53-78 | a failure gives 500; otherwise exactly user 1's career paths (as a multiset), highest id first |
| CareerPaths.GetPath | routes/routesCareerPaths.js:81-104 | a failure gives 500; 404 when user 1 has no career path with that id; otherwise a path with that id, owned by user 1 |
| CareerPaths.UpdatePath | routes/routesCareerPaths.js:107-145 | a missing title gives 400; a failure gives 500; no matching row gives 404; otherwise the table becomes `Revise` of the old one, where an absent description or image URL clears the stored one |
| CareerPaths.DeletePath | routes/routesCareerPaths.js:148-169 | a failure gives 500; no matching row gives 404 and no change; otherwise only the matching row is removed |
| Users.FindUser | functions/userFunction.js:4-13 | the lookup finds a user exactly when one has the Clerk id, and returns such a user |
| Users.ClerkIdStaysUnique | functions/userFunction.js:20-24 | inserting only when the lookup found nothing keeps the Clerk id unique |
| Users.FindAfterInsert | functions/userFunction.js:20-34 | after the insert, the lookup for that Clerk id returns the new row |
| Users.FindOrCreateUser | functions/userFunction.js:3-35 | a failing query rejects with no change; an existing user is returned as `exists`, stored row as it is, with no change; otherwise exactly one row with the given Clerk id, email and creation time is appended with the next id and returned as `created`; either way a lookup then finds the returned user |
| Users.FindOrCreateTwice | functions/userFunction.js:3-35 | two calls in a row for one Clerk id: the second returns `exists` with the first call's user; `users` grows by exactly the row the first call created, or not at all when it found one |

## Left out

- **Authentication and the user id.** The `authUser` middleware depends on Clerk's `req.auth()`, which is a foreign call. It is not part of this model. The career-path and journal handlers act for the fixed user id 1, as the code does.
- **Request logging.** The logger middleware is not part of this model. It writes request logs and catches failures of the daily job, so here the job is best-effort and its `Failed` outcome is returned, not thrown.
- **Express and MySQL wiring.** The Express app and connection-pool setup are not part of this model. The entry-blocks router is not mounted in the app, but it is modelled as a component anyway.
- **Timestamps and today's date.** The GMT+3 timestamp strings, `NOW()`, `CURDATE()` and the JavaScript UTC `today` are parameters, so the model does not capture that the JavaScript day and the database day can differ. The daily job is given one `today`.
- **Types of `last_run` and of JSON fields.** `last_run` is compared to today as an abstract date. In the code, `mysql2` returns a `DATE` column as a JavaScript `Date`, and `lastRun === today` (functions/runDailyJournalJob.js:15) compares it with a string, so as written it is never true and the gate never closes: on a promise-based pool, every run would go on to the insert. The model's gate is the evidently intended date comparison. Numeric fields that arrive as strings are not distinguished from numbers.
- **Block content.** Content is an opaque value, so the model does not capture `JSON.stringify` when it is stored. A falsy JSON content (`null`, `0`, `false`, `""`) is the absent case.
- **`updated_at` backfill and next position.** The code has no backfill of `updated_at` from earlier entries. It also computes no "next position": POST stores the client's position. The model follows the code, and `EntryBlocks.AppendKeepsContiguousIff` states what that means for contiguity.
- **Concurrency.** Each handler and each run of the daily job is one atomic step. Two requests racing past the job's gate, or interleaving between the delete and the shift, are not modelled.
- **Foreign keys.** Foreign keys and cascades (entries of a deleted career path, blocks of a deleted entry) are not part of the visible schema and are not modelled.
- **Auto-increment gaps.** A failed insert does not consume an `AUTO_INCREMENT` value in the model, though MySQL may skip one. The same holds for the job's successful `INSERT … SELECT` (functions/runDailyJournalJob.js:19-31): MySQL may reserve more ids than it uses, while `RunDailyJournalJobIfNeeded` advances the next entry id by exactly the number of rows inserted.
- **Callback pool under `await`.** The job and `findOrCreateUser` are modelled on a promise-based pool. config/db.js:1-11 creates a callback-style `mysql2` pool, on which `await db.query(...)` (functions/runDailyJournalJob.js:7, 19, 33 and functions/userFunction.js:4, 20) rejects. As wired, every run of the job therefore takes the `readFault` branch and writes nothing (the logger catches the error, middleware/logger.js:6-10), and every call of `findOrCreateUser` takes the `fault` branch.
- **Which query failed.** Each `fault` flag stands for the failure of the handler's statement. It is checked before the statement's effect, so the model does not distinguish which of several failures happened. The job has one flag per statement.
- Users.FindUser: assumes a binary collation (case-sensitive, no trailing-space padding) on `clerk_user_id`, and the same for `job_name` in `system_jobs` (`DailyJournalJob.LastRun`, `DailyJournalJob.MarkRun`). Keys are compared with exact string equality. Under MySQL's default case-insensitive collation (`utf8mb4_0900_ai_ci`), `WHERE clerk_user_id = ?` (functions/userFunction.js:4-7) also matches a Clerk id that differs only in case, and `findOrCreateUser` then returns that row as `exists`; the older PAD SPACE collations also ignore trailing spaces. The same applies to `job_name = ?` (functions/runDailyJournalJob.js:8, 34).
- **Users.FindOrCreateUser and the returned email.** In the `exists` branch the returned row is the stored one. Its email is the stored email, which may differ from the `email` argument. The model states that, not equality with the argument.
- **Users.FindUser and row order.** It returns the first match in storage order, because the query has no `ORDER BY`. Uniqueness of `clerk_user_id` is not known from the schema. `FindOrCreateUser` keeps it when it already held.
- **Marker monotonicity.** Nothing enforces that `last_run` only grows. The job writes today whatever was stored before.
