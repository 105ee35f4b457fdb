/**
 * The migrator's behaviour as functions on a value: the store's records,
 * the migrator's registry, a tick clock standing for `time.Now()`, whether
 * the store-wide lock is held, and the trace of calls made to the store.
 * The class `Processes.Migrator` is proved to change its state exactly as
 * these functions say.
 */
module Engine {
  import opened StorageTypes
  import MockStorage

  /** A call the migrator makes to its store (or to an external script). */
  datatype Call =
    | LockCall
    | UnlockCall
    | SelectLastCall(status: Status)
    | SelectAllCall
    | InsertCall(version: int, status: Status, underLock: bool)
    | MigrateCall(sql: string)
    | RunScriptCall(file: string)

  datatype World = World(
    records: seq<Record>,     // the store's list, in insertion order
    registry: seq<Migration>, // the migrator's migrations
    clock: nat,               // the last timestamp handed out
    locked: bool,             // the store-wide lock is held by this run
    calls: seq<Call>)         // every store call so far, oldest first

  /**
   * The answers of the storage adapter that the in-memory store does not
   * decide. The in-memory store itself is `MockEnv`: its lock never fails,
   * its writes and statements always succeed, and it reports a missing
   * status with its own error value rather than `ErrMigrationNotFound`.
   */
  datatype Env = Env(
    lockFails: bool,
    missIsSentinel: bool,
    failingWrites: set<(int, Status)>,  // a write of (version, status) is refused
    failingStatements: set<string>,     // SQL statements that fail
    failingScripts: set<string>)        // `.go` files whose `go run` fails

  function MockEnv(failingScripts: set<string>): Env {
    Env(false, false, {}, {}, failingScripts)
  }

  /** The migrator's reading of "last record with a status". */
  datatype Lookup = Found(record: Record) | NotFound | Failed(error: Error)

  function Log(w: World, c: Call): World {
    w.(calls := w.calls + [c])
  }

  /** `SelectLastMigrationByStatus` as the adapter answers it. */
  function Query(env: Env, rs: seq<Record>, s: Status): Result<Record> {
    var k := MockStorage.LastIndexWithStatus(rs, s);
    if k >= 0 then Success(rs[k])
    else if env.missIsSentinel then Failure(ErrMigrationNotFound)
    else Failure(NoMigrationsWithStatus(s))
  }

  /** `errors.Is(err, storage.ErrMigrationNotFound)` separates a miss from a failure. */
  function Classify(r: Result<Record>): Lookup {
    match r
    case Success(rec) => Found(rec)
    case Failure(e) => if e == ErrMigrationNotFound then NotFound else Failed(e)
  }

  function SelectLast(env: Env, w: World, s: Status): (World, Lookup) {
    (Log(w, SelectLastCall(s)), Classify(Query(env, w.records, s)))
  }

  function Lock(env: Env, w: World): World {
    if env.lockFails then Log(w, LockCall) else Log(w, LockCall).(locked := true)
  }

  /** The deferred unlock; its failure is only logged. */
  function Unlock(w: World): World {
    Log(w, UnlockCall).(locked := false)
  }

  /** `SetStatus` and `SetStatusChangeTime(time.Now())` on registry entry i. */
  function SetStatus(w: World, i: nat, s: Status): World
    requires i < |w.registry|
  {
    var t := w.clock + 1;
    w.(clock := t, registry := w.registry[i := w.registry[i].(status := s, changedAt := t)])
  }

  /** `InsertMigration` of registry entry i. */
  function Write(env: Env, w: World, i: nat): (World, Option<Error>)
    requires i < |w.registry|
  {
    var m := w.registry[i];
    var w' := Log(w, InsertCall(m.version, m.status, w.locked));
    if (m.version, m.status) in env.failingWrites then (w', Some(ErrWriteFailed))
    else (w'.(records := MockStorage.Upsert(w.records, RecordOf(m))), None)
  }

  /** Whether a body runs without error: a script wins over SQL; empty SQL does nothing. */
  predicate BodySucceeds(env: Env, sql: string, script: Option<Script>) {
    if script.Some? then script.value.file !in env.failingScripts
    else sql == "" || sql !in env.failingStatements
  }

  function RunBody(env: Env, w: World, sql: string, script: Option<Script>): World {
    if script.Some? then Log(w, RunScriptCall(script.value.file))
    else if sql != "" then Log(w, MigrateCall(sql))
    else w
  }

  /**
   * `executeMigration`: write the transient status, run the body, write
   * the terminal status (or the error status). After a failed body the
   * result is that of the error-status write, not the body's error.
   */
  function ExecuteMigration(env: Env, w: World, i: nat, sql: string, script: Option<Script>,
                            process: Status, success: Status, failure: Status): (r: (World, Option<Error>))
    requires i < |w.registry|
    ensures |r.0.registry| == |w.registry|
  {
    var (w1, e1) := Write(env, SetStatus(w, i, process), i);
    if e1.Some? then (w1, e1)
    else RunAndRecord(env, w1, i, sql, script, success, failure)
  }

  /** The part of `executeMigration` after the transient write succeeded. */
  function RunAndRecord(env: Env, w: World, i: nat, sql: string, script: Option<Script>,
                        success: Status, failure: Status): (r: (World, Option<Error>))
    requires i < |w.registry|
    ensures |r.0.registry| == |w.registry|
  {
    var status := if BodySucceeds(env, sql, script) then success else failure;
    Write(env, SetStatus(RunBody(env, w, sql, script), i, status), i)
  }

  function UpMigration(env: Env, w: World, i: nat): (r: (World, Option<Error>))
    requires i < |w.registry|
    ensures |r.0.registry| == |w.registry|
  {
    ExecuteMigration(env, w, i, w.registry[i].up, w.registry[i].upGo,
                     StatusProcess, StatusSuccess, StatusError)
  }

  function DownMigration(env: Env, w: World, i: nat): (r: (World, Option<Error>))
    requires i < |w.registry|
    ensures |r.0.registry| == |w.registry|
  {
    ExecuteMigration(env, w, i, w.registry[i].down, w.registry[i].downGo,
                     StatusCancellation, StatusCancel, StatusError)
  }

  /** The loop of `Up` from index i: stop at the first failure, panic on a negative index. */
  function UpFrom(env: Env, w: World, i: int): (r: (World, Option<Error>))
    ensures |r.0.registry| == |w.registry|
    decreases |w.registry| - i
  {
    if i >= |w.registry| then (w, None)
    else if i < 0 then (w, Some(IndexOutOfRange(i)))
    else
      var (w1, e) := UpMigration(env, w, i);
      if e.Some? then (w1, Some(ErrMigrationUp))
      else UpFrom(env, w1, i + 1)
  }

  /** The version found, or 0 when the store reported a miss. */
  function FoundVersion(look: Lookup): int {
    if look.Found? then look.record.version else 0
  }

  function Up(env: Env, w: World): (World, Option<Error>) {
    var w1 := Lock(env, w);
    if env.lockFails then (w1, Some(ErrLockHeld))
    else
      var (w2, look) := SelectLast(env, w1, StatusSuccess);
      if look.Failed? then (Unlock(w2), Some(look.error))
      else if look.Found? && look.record.version - 1 > |w2.registry| then
        (Unlock(w2), Some(ErrUnexpectedMigrationVersion))
      else
        var (w3, e) := UpFrom(env, w2, FoundVersion(look));
        (Unlock(w3), e)
  }

  function Down(env: Env, w: World): (World, Option<Error>) {
    var w1 := Lock(env, w);
    if env.lockFails then (w1, Some(ErrLockHeld))
    else
      var (w2, look) := SelectLast(env, w1, StatusSuccess);
      if look.NotFound? then (Unlock(w2), None)
      else if look.Failed? then (Unlock(w2), Some(look.error))
      else if look.record.version > |w2.registry| then
        (Unlock(w2), Some(ErrUnexpectedMigrationVersion))
      else if look.record.version - 1 < 0 then
        (Unlock(w2), Some(IndexOutOfRange(look.record.version - 1)))
      else
        var (w3, e) := DownMigration(env, w2, look.record.version - 1);
        (Unlock(w3), if e.Some? then Some(ErrMigrationDown) else None)
  }

  /** `Down`, then re-apply index L, L being the last success after it; no lock is held. */
  function Redo(env: Env, w: World): (World, Option<Error>) {
    var (w1, e1) := Down(env, w);
    if e1.Some? then (w1, e1) else Reapply(env, w1)
  }

  /** The part of `Redo` after a successful `Down`: re-read the last success and re-apply it. */
  function Reapply(env: Env, w: World): (World, Option<Error>) {
    var (w2, look) := SelectLast(env, w, StatusSuccess);
    if look.Failed? then (w2, Some(look.error))
    else if look.Found? && look.record.version - 1 > |w2.registry| then
      (w2, Some(ErrUnexpectedMigrationVersion))
    else
      var last := FoundVersion(look);
      if last < 0 || last >= |w2.registry| then (w2, Some(IndexOutOfRange(last)))
      else
        var (w3, e) := UpMigration(env, w2, last);
        (w3, if e.Some? then Some(ErrMigrationRedo) else None)
  }

  /** `Status`: the rows it would print, or `ErrGetStatus` when the read fails. */
  function Status(w: World): (World, Result<seq<Record>>) {
    var w' := Log(w, SelectAllCall);
    if |w.records| == 0 then (w', Failure(ErrGetStatus)) else (w', Success(w.records))
  }

  /** `DBVersion`: the version it would print, or `ErrGetVersion`. */
  function DBVersion(env: Env, w: World): (World, Result<int>) {
    var (w', look) := SelectLast(env, w, StatusSuccess);
    if look.Failed? then (w', Failure(ErrGetVersion)) else (w', Success(FoundVersion(look)))
  }

  /** Registry entries are numbered by position, as `Create` numbers them. */
  ghost predicate Numbered(registry: seq<Migration>) {
    forall j :: 0 <= j < |registry| ==> registry[j].version == j + 1
  }

  /** `Create`: append a migration numbered one past the registry, in status success. */
  function Register(registry: seq<Migration>, name: string, up: string, down: string,
                    upGo: Option<Script>, downGo: Option<Script>): seq<Migration>
  {
    registry + [Migration(|registry| + 1, name, StatusSuccess, 0, up, down, upGo, downGo)]
  }
}
