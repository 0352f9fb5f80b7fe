# neverchange: the CSV line splitter and the migration registry, in Dafny

This project models two parts of neverchange, a client-side layer over SQLite compiled to WebAssembly.

- **`parseCSVLine`** (`src/parser.ts`) splits one CSV line into fields. It reads the line one character at a time with an "inside quotes" flag:
  - a `"` flips the flag;
  - inside quotes, a `""` pair stands for one literal `"`;
  - a `,` outside quotes ends a field;
  - every other character is copied into the current field.
  This is the quoting grammar of RFC 4180, section 2, rules 5 to 7, read leniently.
  - `CsvParser.Scan` specifies the loop over a suffix of the line.
  - `CsvParser.ParseCSVLine` is the loop itself, proved equal to that specification.
  - Lemmas state the properties against independent reference definitions: quote parity, comma counting, `Split`/`Join`, and a quote-when-needed encoder.
- **`NeverChangeDB`** (`src/neverchange.ts`) keeps a list of migrations sorted by version. `init` opens the database and, when migrations are active, creates the `migrations` table and applies the pending migrations in order, recording each version. `close` ends the connection, and `getPromiser` refuses every call made before `init` or after `close`.
  - The pure parts are functions in `MigrationRegistry`: the stable sort, the pending filter, the current-version rule and the apply-and-record loop.
  - The class `NeverChange.NeverChangeDB` has the source's fields. Its methods update those fields in place.
  - The SQL engine is abstracted to a `Store` value with three parts: whether the `migrations` table exists, the recorded versions, and the versions whose `up` step completed.

Files: `wrappers.dfy` (Option, Outcome, Result), `csv_parser.dfy`, `migration_registry.dfy`, `never_change_db.dfy`.

Points where the model reads the code closely:

- JavaScript's `line[i + 1]` past the end of the line is `undefined`, never `"`. The model writes this as the guard `|s| > 1`.
- `result[0]?.version || 0` maps both an absent maximum and 0 to 0 (`VersionOrZero`). The maximum of an empty table is SQL `NULL`.
- `Array.prototype.sort` is stable, so `SortByVersion` is a stable insertion sort. `SortIsStable` proves that equal versions keep their order.
- `version` is the primary key of the `migrations` table. Recording a version that is already present therefore fails (`RecordVersion`). This happens after that migration's `up` step has already run.
- `init` marks the instance initialised before it runs the migrations. A run that fails leaves the instance initialised, so a second `init` is a no-op and does not retry.
- `close` tests `if (this.dbId)`: an empty id counts as absent.

## Model

| member | source | states |
|---|---|---|
| CsvParser.Scan | src/parser.ts:6-25 | reading more of the line only appends fields: the fields already finished are never changed |
| CsvParser.ParseLine | src/parser.ts:27-29 | there is always at least one field; the empty line gives `[""]` |
| CsvParser.ParseCSVLine | src/parser.ts:1-30 | the loop (with the `i++` that skips an escaped pair) returns exactly the fields the scan specification gives |
| CsvParser.ScanQuoteParity | src/parser.ts:9-16 | the quote state after any prefix is the parity of the quotes in it: an escaped pair leaves it unchanged, any other `"` flips it |
| CsvParser.FieldCount | src/parser.ts:17-28 | the number of fields is one more than the number of commas met outside quotes |
| CsvParser.NoQuotesSplitsAtCommas | src/parser.ts:17-24 | a line with no `"` is split at every comma, in order |
| CsvParser.NoQuotesLossless | src/parser.ts:17-24 | for a line with no `"`, joining the fields with commas gives the line back |
| CsvParser.FieldsKeepContent | src/parser.ts:17-24 | field by field, with quotes removed, the fields are the line cut at its commas outside quotes (every `"` flipping the state) with its quotes dropped: each other character lands verbatim, in order, in the field between the same unquoted commas; commas inside quotes are content |
| CsvParser.EscapedPair | src/parser.ts:9-12 | after any prefix that leaves the reader inside quotes (an odd number of `"`), `""` adds exactly one `"` to the open field and keeps the quote state |
| CsvParser.LoneQuote | src/parser.ts:13-16 | a `"` that is not part of an escaped pair (inside quotes and not followed by `"`, or outside quotes and not right after a closing `"`) adds nothing and flips the quote state |
| CsvParser.LastQuoteDropped | src/parser.ts:10 | a `"` at the last index never starts an escaped pair: appending it to a line that leaves the reader inside quotes, or that does not end in `"`, changes no field |
| CsvParser.ScanConcat | src/parser.ts:6-25 | reading a line in two parts is reading it whole whenever no escaped pair straddles the split: the first part does not end in a `"` that closes a quoted section while the second starts with `"` |
| CsvParser.UnmatchedQuote | src/parser.ts:15-28 | after an opening quote that is never closed, the rest of the line, commas included, ends up in the last field |
| CsvParser.LengthBound | src/parser.ts:6-28 | the field characters plus the separating commas never exceed the line's length |
| CsvParser.RoundTrip | src/parser.ts:9-24 | fields each left bare (no comma, quote or line break) or quoted with inner quotes doubled, joined by commas, parse back to the same fields; with quoting always or only when needed |
| MigrationRegistry.Insert | src/neverchange.ts:139 | inserting into a sorted list keeps it sorted and adds exactly that migration: the result is the old list plus it, as a multiset |
| MigrationRegistry.SortByVersion | src/neverchange.ts:139 | the list is sorted by version and is a permutation of its input |
| MigrationRegistry.SortIsStable | src/neverchange.ts:139 | migrations of equal version keep their relative order |
| MigrationRegistry.SortKeepsSorted | src/neverchange.ts:139 | sorting a list that is already sorted leaves it unchanged |
| MigrationRegistry.MaxVersion | src/neverchange.ts:161-163 | `MAX(version)` is absent exactly on an empty table, otherwise a recorded version no smaller than any other |
| MigrationRegistry.VersionOrZero | src/neverchange.ts:164 | an absent maximum gives 0; a present one gives itself (0 included) |
| MigrationRegistry.CurrentVersion | src/neverchange.ts:151-165 | 0 without a `migrations` table or with an empty one, else the largest recorded version |
| MigrationRegistry.Pending | src/neverchange.ts:168-171 | a migration is pending iff it is registered and its version is strictly above the current version |
| MigrationRegistry.PendingIsSuffix | src/neverchange.ts:168-171 | on the sorted list the pending migrations are a suffix: all before the cut are at or below the current version, all after are above, in sorted order |
| MigrationRegistry.InitialNeverPending | src/migrations.ts:3-5 | with no negative version recorded, the version-0 initial migration is never pending |
| MigrationRegistry.RunUp | src/neverchange.ts:176 | the step completes iff it has no error, and then its version counts as applied; if it throws, its message is the error and nothing changes; the `migrations` table is never touched |
| MigrationRegistry.RecordVersion | src/neverchange.ts:177-179 | the insert succeeds iff the table exists and the version is not yet recorded, and then appends it; otherwise nothing changes and the error is "no such table" or the primary-key failure; the rows never gain a duplicate |
| MigrationRegistry.Apply | src/neverchange.ts:173-181 | the loop never drops or rewrites a recorded or applied version (the old rows are a prefix of the new) and never creates or drops the table |
| MigrationRegistry.ApplyKeepsKeyUnique | src/neverchange.ts:173-181 | however the run ends, the `migrations` rows still hold no version twice |
| MigrationRegistry.ApplyInOrder | src/neverchange.ts:173-181 | the steps that ran are a prefix of the pending list, in order; a version is recorded only after its step completed; a successful run ran and recorded all of them |
| MigrationRegistry.ApplyConcat | src/neverchange.ts:173-181 | the loop over `a + b` is the loop over `a` then, only if that succeeded, over `b` |
| MigrationRegistry.StopsAtFailure | src/neverchange.ts:176 | a failing `up` stops the run: only the migrations before it are applied, its version is not recorded, its error is thrown |
| MigrationRegistry.ApplyAll | src/neverchange.ts:173-181 | with every step completing and distinct unrecorded versions, all are applied and recorded in order |
| MigrationRegistry.CreateMigrationTable | src/neverchange.ts:142-149 | afterwards the table exists and no recorded version changes |
| MigrationRegistry.Migrate | src/neverchange.ts:82-85 | afterwards the `migrations` table exists and the rows and applied steps of the opened database are a prefix of the new ones |
| MigrationRegistry.MigrateTwiceAppliesNothing | src/neverchange.ts:82-85 | after a successful run, running the same migrations on the resulting database finds nothing pending and changes nothing |
| NeverChange.NeverChangeDB.constructor | src/neverchange.ts:20-31 | `debug` defaults to false and `isMigrationActive` to true; an active instance starts with just the initial migration, an inactive one with none; not initialised, no database id, no database |
| NeverChange.NeverChangeDB.AddMigrations | src/neverchange.ts:136-140 | the new list is the stable sort of the old list plus the added ones: sorted, a permutation of both, longer by exactly the number added |
| NeverChange.NeverChangeDB.GetPromiser | src/neverchange.ts:88-95 | succeeds iff initialised, otherwise fails with "Database not initialized. Call init() first." |
| NeverChange.NeverChangeDB.Execute | src/neverchange.ts:97-110 | before `init` or after `close` it fails with the guard's message; otherwise it gives the engine's answer |
| NeverChange.NeverChangeDB.Query | src/neverchange.ts:112-125 | the same guard; the engine's rows, or `[]` when it returns none |
| NeverChange.NeverChangeDB.GetCurrentVersion | src/neverchange.ts:151-165 | behind the guard, the current-version rule applied to the open database |
| NeverChange.NeverChangeDB.RunMigrations | src/neverchange.ts:167-182 | the new database and the outcome are those of applying the pending migrations to the old database |
| NeverChange.NeverChangeDB.Init | src/neverchange.ts:39-86 | a no-op once initialised; otherwise it opens the database and, if migrations are active, creates the table and runs the pending ones, else leaves the database untouched |
| NeverChange.NeverChangeDB.Close | src/neverchange.ts:127-134 | with a database id, gives the engine's answer to `close`: on success clears the id and the initialised state, on failure throws it and clears nothing; without an id, changes nothing |
| NeverChange.QueryAfterCloseFails | src/neverchange.ts:91-93 | a query after `init` then `close` fails with "Database not initialized. Call init() first." |
| NeverChange.ReopenAppliesNothing | src/neverchange.ts:167-182 | reopening a database whose migrations succeeded, with the same migrations, applies nothing and changes nothing |

## Left out

- The worker and storage setup of `init` (src/neverchange.ts:42-80) is not modelled: loading `sqlite3Worker1Promiser`, opening the database with OPFS and falling back to an in-memory one. The database that opening yields and its id are inputs to `Init`. Failure to open is not modelled.
- The engine's effect of arbitrary SQL is not modelled. `Execute` and `Query` model the `getPromiser` guard; the engine's answer is an input, and arbitrary statements do not change the modelled `Store`.
- A migration's `up` step is reduced to its outcome: it either completes or throws a message. What it does to the schema is recorded only as "this version's step completed". A step that fails part-way leaves no partial effect in the model.
- The `migrations` table has only three modelled behaviours: existence after `CREATE TABLE IF NOT EXISTS`, `MAX(version)`, and the primary-key failure on a duplicate version. Its `applied_at` column is not modelled.
- Debug logging (`log`, `console.log`, `console.warn`, `console.error`) is not modelled. `debug` is kept only as the constructor's default.
- `init` is modelled as one sequential step. The shared `dbPromise` and asynchronous interleavings are not modelled.
- `NeverChange.NeverChangeDB.GetCurrentVersion` states its value through `CurrentVersion`. The two `query` round trips (table list, then `MAX`) are folded into one read of the `Store`.
- `NeverChange.NeverChangeDB.Init` does not model engine failures on its migration path. In the source, `init` is rejected if the engine fails the `CREATE TABLE IF NOT EXISTS` of `createMigrationTable` (src/neverchange.ts:143-148) or either `getCurrentVersion` query (src/neverchange.ts:153-155, 161-163). In the model, only a migration's `up` step or the version insert can fail.
- Versions are integers. A JavaScript `number` may also be fractional or `NaN`, and the comparator `a.version - b.version` is not modelled for those values.
- Characters are Dafny `char`s. JavaScript indexes strings by UTF-16 code unit.
- `CsvParser.RoundTrip` requires at least one field. Encoding an empty list of fields gives the empty line, which parses as one empty field.
- `transaction`, `commit`, `rollback`, `dumpDatabase`, `importDump`, `dumpTableToCSV`, `importCSVToTable` and `parseCSVRecords` are declared in `src/types.ts` or used by the tests. Their code is not part of this model. The CSV encoder in `csv_parser.dfy` is the quoting rule those tests expect (e2e/csv-export-and-import.test.ts:131-132, 181-182), written so that the round trip can be stated.
