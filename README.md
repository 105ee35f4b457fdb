# sql-migrator in Dafny

This project models the migration engine of `sql-migrator`, a Go schema-migration tool. It has three parts.

- **The in-memory store** (`MockStorage`). `MockSQLStorage` keeps an insertion-ordered list of migration records (version, name, status, change time). It upserts by the pair (version, name), offers an update-only variant, and answers "last record with status S" by scanning from the back.
- **The migrator** (`Processes`, `Engine`, `EngineLemmas`). `Migrator` holds a registry numbered by position and a store. It implements `Up`, `Down`, `Redo`, `Status` and `DBVersion` through `executeMigration`, which writes a transient status, runs the body and writes a terminal status.
  - The class keeps two ghost fields: whether the store-wide lock is held, and the trace of store calls made.
  - Each method is proved to change the store, the registry, the clock and the ghost fields exactly as the matching function of `Engine` says. Every method keeps the registry numbered by position (`Valid`), which `New` establishes and `Create` preserves.
  - `EngineLemmas` proves what those functions promise: the lock protocol, the range and order of the entries `Up` writes, the single rollback of `Down`, and the guards.
- **The registry builder** (`App`). It models file-name parsing (`parseFileName`), classification by suffix (`processMigrationFile`), merging of fragments (`mergeMigrations`), the all-or-nothing fold of a listing into a version-keyed map (`getMigrations`), the largest version in a directory (`getLastVersion`), and the names of a new migration's files (`createMigrationFiles`).

The store's answers that the in-memory store does not decide are inputs of the model, gathered in `Engine.Env`:
- a refused lock;
- whether a missing status is reported with the sentinel `storage.ErrMigrationNotFound`;
- refused writes;
- failing statements;
- failing `go run` scripts.

`Engine.MockEnv` is the in-memory store itself: only script outcomes are left free. Time is a tick counter that `executeMigration` advances on each status change. A Go index-out-of-range panic is the error value `IndexOutOfRange(i)`; the deferred unlock still runs.

Where the code does something its names or comments do not suggest, the model follows the code:
- **Lookup misses.** The in-memory store reports a missing status with a fresh error, not with the sentinel. `Up` and `Down` therefore return that error instead of treating the miss as version 0 or a no-op, and `DBVersion` fails (`EngineLemmas.MissingSuccessRecord`).
- **Body errors are dropped.** After a failed body, `executeMigration` returns the result of the error-status write. A failed body whose error-status write is accepted yields no error, so `Up` carries on (`EngineLemmas.BodyErrorDiscarded`, `EngineLemmas.FailedScriptDoesNotStopUp`).
- **Bounds checks.** `Up` and `Redo` reject a last version L only when L − 1 > n. `Redo` re-applies index L with no lock held, and indexes out of range when L ≥ n (`EngineLemmas.RedoAfterDown`, `EngineLemmas.RedoIndexesPastRegistry`). `Down` indexes out of range for a stored version ≤ 0 (`EngineLemmas.DownGuards`).
- **Versions.** The registry builder accepts any leading digit run as a version. A registry need not be dense or start at 1.

## Model

| member | source | states |
|---|---|---|
| MockStorage.MockSQLStorage.constructor | storage/mock_storage.go:12-16 | a new store holds no records |
| MockStorage.MockSQLStorage.Connect | storage/mock_storage.go:18-20 | always succeeds |
| MockStorage.MockSQLStorage.Close | storage/mock_storage.go:22-24 | always succeeds |
| MockStorage.MockSQLStorage.Lock | storage/mock_storage.go:26-28 | always succeeds |
| MockStorage.MockSQLStorage.Unlock | storage/mock_storage.go:30-32 | always succeeds |
| MockStorage.MockSQLStorage.Migrate | storage/mock_storage.go:59-61 | executing a statement always succeeds and changes nothing |
| MockStorage.MockSQLStorage.InsertMigration | storage/mock_storage.go:34-46 | the forward scan leaves the list as `Upsert` of the old list; never fails |
| MockStorage.FirstMatchSpec | storage/mock_storage.go:35-36 | the index found holds r's (version, name) and no earlier record does; -1 means no record does |
| MockStorage.UpsertSpec | storage/mock_storage.go:34-46 | with a match, only the first matching record changes, it takes r's status and time, and the length is kept; without one, r is appended at the end |
| MockStorage.UpsertKeepsKeysUnique | storage/mock_storage.go:34-46 | an insert never creates a second record with the same (version, name) |
| MockStorage.InsertsKeepKeysUnique | storage/mock_storage.go:34-46 | a list built only by inserts from a list with unique keys keeps unique keys |
| MockStorage.UpsertKeys | storage/mock_storage.go:34-46 | after an insert, the keys present are the old keys plus r's |
| MockStorage.MockSQLStorage.UpdateMigration | storage/mock_storage.go:48-57 | fails with "migration not found" exactly when no record has r's key, and then changes nothing; otherwise updates the first match in place; the length never changes |
| MockStorage.MockSQLStorage.SelectMigrations | storage/mock_storage.go:63-68 | fails with "no migrations found" exactly when the list is empty; otherwise returns the list in insertion order |
| MockStorage.MockSQLStorage.SelectLastMigrationByStatus | storage/mock_storage.go:70-77 | fails with "no migrations found with status s" exactly when no record has status s; otherwise returns the record at the greatest such index |
| MockStorage.LastIndexWithStatusSpec | storage/mock_storage.go:71-75 | the index found has status s and no later record has it |
| MockStorage.MockSQLStorage.DeleteMigrations | storage/mock_storage.go:79-82 | leaves the list empty; never fails |
| Processes.Migrator.New | processes/migrator.go:43-49 | a new migrator has an empty registry, holds no lock and has made no calls |
| Processes.Migrator.Connect | processes/migrator.go:52-62 | passes on the store's result, which is success |
| Processes.Migrator.Close | processes/migrator.go:65-75 | passes on the store's result, which is success |
| Processes.Migrator.Create | processes/migrator.go:78-90 | appends one entry numbered one past the registry, in status success, and keeps the numbering by position |
| EngineLemmas.RegisterNumbers | processes/migrator.go:78-90 | the new entry has version old length + 1, earlier entries are unchanged, and every entry i has version i + 1 |
| Processes.Migrator.LockStore | processes/migrator.go:96-99 | logs a lock call and returns the lock error when the lock is refused; otherwise holds the lock |
| Processes.Migrator.UnlockStore | processes/migrator.go:100-105 | logs an unlock call and releases the lock; an unlock failure is never surfaced |
| Processes.Migrator.SelectLastSuccess | processes/migrator.go:107-114 | the query's answer classified as found, the sentinel miss, or another error |
| Processes.Migrator.SetStatus | processes/migrator.go:176-177 | entry i takes the status and a fresh, later timestamp; nothing else changes |
| Processes.Migrator.WriteEntry | processes/migrator.go:179-182 | logs the write of entry i under the current lock state; an accepted write upserts the entry's record |
| Processes.Migrator.RunBody | processes/migrator.go:184-200 | a script is run in preference to SQL, empty SQL runs nothing, and the result says whether the body succeeded |
| Processes.Migrator.RunAndRecord | processes/migrator.go:184-207 | runs the body, then writes the success status, or the error status after a failed body, and returns that write's result |
| Processes.Migrator.ExecuteMigration | processes/migrator.go:175-211 | writes the transient status; stops with that write's error if it is refused; otherwise runs the body and records the terminal status |
| Processes.Migrator.UpMigration | processes/migrator.go:214-216 | `executeMigration` of the entry's up body through process, success and error |
| Processes.Migrator.DownMigration | processes/migrator.go:219-221 | `executeMigration` of the entry's down body through cancellation, cancel and error |
| Processes.Migrator.Up | processes/migrator.go:93-131 | the loop from the last success version changes the state and returns the error exactly as `Engine.Up` does, and keeps the registry numbered; `UpAppliesAllPending` and `UpWritesAscendingFromLast` state what that is |
| Processes.Migrator.Down | processes/migrator.go:133-172 | changes the state and returns the error exactly as `Engine.Down` does |
| Processes.Migrator.Redo | processes/migrator.go:224-255 | changes the state and returns the error exactly as `Engine.Redo` does; `RedoAfterDown`, `RedoGuards` and `RedoReapplies` state what that is |
| Processes.Migrator.Status | processes/migrator.go:258-263 | returns the store's records in insertion order, or `ErrGetStatus` when the store is empty |
| Processes.Migrator.DBVersion | processes/migrator.go:285-298 | returns the last success version, 0 on the sentinel miss, or `ErrGetVersion` on any other error |
| EngineLemmas.ExecuteWritesTransientFirst | processes/migrator.go:176-182 | the transient status is written first; a refused write returns its error and nothing else happens |
| EngineLemmas.ExecuteWritesTerminalLast | processes/migrator.go:176-207 | once the transient write is accepted, the calls are exactly that write, the body's script run (else its non-empty statement, else nothing), and the terminal (or error) write; the result is None exactly when that last write is accepted |
| EngineLemmas.RunAndRecordEffect | processes/migrator.go:184-207 | after the transient write, the calls are exactly the body's script run (else its non-empty statement, else nothing) and then one terminal write, whose result is returned |
| EngineLemmas.WriteStores | processes/migrator.go:179-182 | an accepted write leaves the entry's record, with its status and time, in the store |
| EngineLemmas.BodyErrorDiscarded | processes/migrator.go:184-199 | a failed body whose error-status write is accepted yields no error, and the entry is recorded as error |
| EngineLemmas.ExecuteTouchesOneEntry | processes/migrator.go:175-211 | only entry i changes, and only its status and time; every write is of entry i's version under the caller's lock state; records of other migrations keep their place and value |
| EngineLemmas.UpMigrationSettles | processes/migrator.go:214-216 | a successful up transition leaves the entry in success or error, and in error exactly when its body failed (`FinalStatus`) |
| EngineLemmas.DownMigrationSettles | processes/migrator.go:219-221 | a successful down transition leaves the entry in cancel or error, and in error exactly when its body failed (`FinalStatus`) |
| EngineLemmas.UpFromEffect | processes/migrator.go:121-127 | the loop from i keeps entries below i, every definition and the lock state; it only writes and runs bodies; it ends in success, `ErrMigrationUp`, or a panic on a negative index; on success every entry from i on is success or error |
| EngineLemmas.UpFromAscending | processes/migrator.go:121-127 | on a registry numbered by position, the loop from i >= 0 writes only versions i+1 .. n, in ascending order |
| EngineLemmas.UpFromWritesAll | processes/migrator.go:121-127 | on a registry numbered by position, a loop from i >= 0 that succeeds has written every version i+1 .. n |
| EngineLemmas.UpFromStopsAtFailure | processes/migrator.go:122-126 | when the loop reports `ErrMigrationUp`, its last call is a refused write, so no later entry was touched |
| EngineLemmas.UpFromNeverFailsWhenWritesSucceed | processes/migrator.go:121-127 | with a store that accepts every write, the loop never reports a failure |
| EngineLemmas.UpLockProtocol | processes/migrator.go:96-105 | a refused lock returns its error before any read or write; otherwise the run is one lock, then reads and writes all under the lock, then one unlock that releases it |
| EngineLemmas.UpVersionCheck | processes/migrator.go:107-119 | `ErrUnexpectedMigrationVersion` exactly when a last success was found with version − 1 > n, and then nothing is written; version n + 1 passes and the run does nothing |
| EngineLemmas.UpKeepsEntriesBelowLast | processes/migrator.go:121-127 | after a found last success L, entries below L are unchanged |
| EngineLemmas.UpWritesAscendingFromLast | processes/migrator.go:121-127 | after a found last success L >= 0, on a numbered registry, `Up` writes only versions L+1 .. n in ascending order |
| EngineLemmas.UpAppliesAllPending | processes/migrator.go:107-128 | when `Up` succeeds, every version above the last success L (0 on a sentinel miss) up to n was written; with `UpWritesAscendingFromLast`, the writes are exactly L+1 .. n in ascending order |
| EngineLemmas.UpIgnoresBodyFailures | processes/migrator.go:121-127 | with a store that accepts every write, as the in-memory one does, `Up` never reports `ErrMigrationUp` |
| EngineLemmas.MissingSuccessRecord | processes/migrator.go:107-114 | without a success record, the in-memory store's miss is returned by `Up` and `Down` with nothing written, and `DBVersion` fails; a sentinel miss makes `Up` start at index 0, `Down` a no-op and `DBVersion` report 0 |
| EngineLemmas.DownFound | processes/migrator.go:163-168 | with a last success of version v in 1..n, `Down` is the down transition of entry v−1 between one lock and one unlock |
| EngineLemmas.DownRollsBackOne | processes/migrator.go:163-168 | that `Down` runs exactly one down transition, on entry v−1; no other entry changes and records of other migrations keep their place and value |
| EngineLemmas.DownOutcome | processes/migrator.go:163-171 | that `Down` reports success or `ErrMigrationDown`; on success entry v-1 is cancel or error, and error exactly when its down body failed (`FinalStatus`) |
| EngineLemmas.DownLockProtocol | processes/migrator.go:136-145 | after a granted lock, the calls of `Down` are one lock, the read, writes under the lock and bodies, then one unlock that releases it |
| EngineLemmas.DownWritesOneVersion | processes/migrator.go:163-164 | that `Down` writes only the version of entry v−1 |
| EngineLemmas.DownGuards | processes/migrator.go:136-163 | a refused lock returns before anything else; a last success above n yields `ErrUnexpectedMigrationVersion`; one at version 0 or below indexes out of range; neither writes |
| EngineLemmas.RedoAfterDown | processes/migrator.go:224-255 | `Redo` returns `Down`'s error unchanged; afterwards it re-reads the last success L and re-applies index L with every write unlocked; L >= n passing the loose check indexes out of range |
| EngineLemmas.RedoGuards | processes/migrator.go:233-245 | after a successful `Down`, a re-read that fails other than by the sentinel (the in-memory store's `NoMigrationsWithStatus`) returns that error, and a last success L with L − 1 > n returns `ErrUnexpectedMigrationVersion`; neither changes the store or the registry |
| EngineLemmas.RedoReapplies | processes/migrator.go:233-253 | after a successful `Down`, when the re-read last success L is a registry index, `Redo` runs the up transition of entry L and nothing else: its first write is entry L's transient status, unlocked; it reports success or `ErrMigrationRedo`, leaving the entry in success or error on success |
| EngineLemmas.ReadsWriteNothing | processes/migrator.go:258-298 | `Status` and `DBVersion` make one read and no write, leaving store and registry unchanged; `Status` fails exactly on an empty store and otherwise returns every record; `DBVersion` reports the last success version, 0 on a sentinel miss, `ErrGetVersion` on any other miss |
| EngineLemmas.UpThenDownCancelsSeededRecord | app/app_test.go:62-79 | a store seeded with a success record for version 1 and a one-migration registry: `Up` succeeds leaving the store and the registry unchanged, `Down` cancels it, and the store holds one record in status cancel |
| EngineLemmas.FailedScriptDoesNotStopUp | processes/migrator.go:184-191 | with a sentinel store and two scripted migrations, a failing first script is recorded as error, the second is still applied, `Up` succeeds and the version becomes 2 |
| EngineLemmas.RedoIndexesPastRegistry | processes/migrator.go:242-247 | a store whose success record for version 2 precedes the one for version 1, with one registered migration: `Redo` cancels version 1 (its record ends in cancel, the version-2 record untouched), then returns `IndexOutOfRange(2)` |
| App.LeadingDigitsLongest | app/app.go:36 | the match of `^\d+` is a prefix of the name, and what follows it is not a digit |
| App.Pad5Value | app/app.go:163 | `%05d` of a non-negative version is at least five digits and reads back as that version |
| App.JoinSplit | app/app.go:290-295 | joining the pieces of `strings.Split` with `_` gives back the string |
| App.SplitPiecesHaveNoSeparator | app/app.go:290 | no piece of the split holds `_` |
| App.SplitAround | app/app.go:290 | splitting around a `_` splits each side separately |
| App.ParseFileNameSpec | app/app.go:279-297 | a name is accepted exactly when it starts with a digit and has at least three `_`-pieces, else `ErrInvalidMigrationName`; the version is the value of the whole leading digit run, and the name is the text between the first and the last `_` |
| App.ClassifyNameExact | app/app.go:37-40 | the classification is the one pattern the name matches, so the order of the cases does not matter |
| App.OneKind | app/app.go:37-40 | no name ends with two of the four suffixes |
| App.ParseFileNameRoundTrip | app/app.go:163-213 | parsing a file name made by `%05d_%s_up.sql` and the other formats gives back the version and the name, for any version >= 0 and any name |
| App.ClassifyRoundTrip | app/app.go:302-345 | a created file name is classified as the kind it was created as, unless the name holds a line break |
| App.NegativeVersionRejected | app/app.go:280-283 | the name built from a negative version starts with `-`, and parsing it fails with `ErrInvalidMigrationName` |
| App.FirstSqlFileName | app/app_test.go:35-36 | version 1 of `create_users` is named `00001_create_users_up.sql` and `00001_create_users_down.sql` |
| App.ProcessMigrationFile | app/app.go:299-346 | a fragment carries the version and name given and no status |
| App.ProcessMigrationFileKinds | app/app.go:302-345 | a file is rejected with `ErrInvalidMigrationName` exactly when it matches no pattern; otherwise only the body of its kind is present: the file's content as up or down SQL, or a script run by the file's name |
| App.Merge | app/app.go:348-361 | keeps version, name, status and time; a present incoming body replaces the existing one and an absent one keeps it, so no body is ever cleared |
| App.MergeIdempotent | app/app.go:348-361 | merging the same fragment twice equals merging it once |
| App.MergeCommutes | app/app.go:348-361 | fragments with no body in common merge in either order to the same entry |
| App.DifferentKindsDisjoint | app/app.go:302-345 | files of two different kinds give fragments with no body in common |
| App.GetMigrations | app/app.go:248-277 | the loop returns the registry of the listing: the first error, or every fragment added or merged under its version |
| App.FoldStaysFailed | app/app.go:257-265 | once a file has failed, later files do not change the result |
| App.FoldAllOrNothing | app/app.go:256-277 | the build succeeds exactly when every file does; otherwise it fails with the first failing file's error |
| App.FoldKeys | app/app.go:267-273 | the registry has exactly one key per fragment version, and each entry carries its key as version |
| App.FoldFirstName | app/app.go:267-273 | the first fragment of a version fixes that entry's name |
| App.FileFragmentOf | app/app.go:257-265 | a file yields a fragment exactly when its name parses and matches a pattern, and the fragment carries the parsed version and name |
| App.RegistryAllOrNothing | app/app.go:248-277 | a listing is refused with `ErrInvalidMigrationName` exactly when one of its names is not accepted |
| App.LastVersionIsMax | app/app.go:138-158 | the last version is at least every name's leading version, and is 0 or some name's version |
| App.GetLastVersion | app/app.go:138-158 | the loop returns the largest leading version, 0 when no name has one |
| App.Create | app/app.go:50-67 | the new files are numbered one past the largest version in the directory |
| App.MigrationFilesRoundTrip | app/app.go:160-246 | only "sql" and "go" are accepted, anything else is "unsupported migration type"; otherwise one up and one down file of that type, both parsing back to the version and name given |
| App.CreateInEmptyDirectory | app/app_test.go:33-36 | in an empty directory, `sql` creates `00001_create_users_up.sql` and `00001_create_users_down.sql` |

## Left out

- File system access: `os.ReadDir`, `os.ReadFile` and `os.WriteFile` and their errors, and the Go template text of `.go` migrations. A directory is a sequence of (name, content) pairs in listing order. `createMigrationFiles` yields the names it would write. `path.Join` is dropped, so a script holds only its file name.
- `runGoMigration` (`go run`): whether a script fails is an input (`Env.failingScripts`).
- Logging throughout, and the table formatting and time layout of `Status`: presentation only. `Status` returns the rows it would print.
- `time.Now()`: a tick counter that grows on every status change.
- `context.Context`, the real storage adapters and cross-process lock contention. The lock is a ghost flag plus a possible refusal.
- `runMigrations` and `runSingleCommand` (app/app.go:100-136) are not modelled. They feed the registry map into `Migrator.Create` in Go map order, which is unspecified, so versions assigned by `Create` are not related to file versions.
- main.go is not part of this model: it is command-line parsing and dispatch.
- The storage package's migration type and status constants are not part of this model. Statuses are an enumeration, and `Create`'s literal "success" is taken to be `storage.StatusSuccess`.
- The registry entries and the store's records are not aliased: a record is a copy of its entry taken at the write. With the in-memory store, the Go code shares one object. The model's registry and store each take the same status and time at every write, but a later in-place change of an entry shows up in the store only at its next write.
- App.Merge: returns the merged entry as a value instead of updating the existing entry through a pointer; the map entry is replaced with the merged value.
- App.DecimalValue: does not model the `strconv.Atoi` overflow check, because integers are unbounded. The `-1` result of `getLastVersion` and `parseFileName`'s Atoi error are therefore not modelled.
- App.GetLastVersion: the same; it never returns -1, and `Create` never stops early.
- App.MatchesKind: `.` in the Go patterns is taken as any character except a line break, and `$` as the end of the text, as in Go's `regexp` defaults. Encodings are not modelled: names are sequences of characters.
