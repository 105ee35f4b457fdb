/**
 * Values shared by the store, the migrator and the registry builder:
 * migration statuses, the record the store keeps, the registry entry,
 * and the errors the core reports.
 */
module StorageTypes {

  datatype Option<+T> = None | Some(value: T)

  /** A fallible result whose failure is one of the core's errors. */
  datatype Result<+T> = Success(value: T) | Failure(error: Error)

  /**
   * The status column of a migration record. `NoStatus` is the zero
   * value a registry fragment carries before the migrator touches it.
   */
  datatype Status =
    | NoStatus
    | StatusProcess        // up in flight
    | StatusSuccess        // up completed
    | StatusCancellation   // down in flight
    | StatusCancel         // down completed
    | StatusError          // either direction failed

  /** An executable migration body: the `.go` file handed to `go run`. */
  datatype Script = Script(file: string)

  /**
   * Errors. The first group are the package-level sentinels; the second
   * are the values the in-memory store builds with `errors.New`, which
   * are NOT the sentinel `ErrMigrationNotFound`; the third are failures
   * of a storage adapter and a runtime index panic.
   */
  datatype Error =
    | ErrMigrationNotFound
    | ErrInvalidMigrationName
    | ErrMigrationUp
    | ErrMigrationDown
    | ErrMigrationRedo
    | ErrGetStatus
    | ErrGetVersion
    | ErrUnexpectedMigrationVersion
    | MigrationNotFound                  // "migration not found"
    | NoMigrationsFound                  // "no migrations found"
    | NoMigrationsWithStatus(status: Status)  // "no migrations found with status " + status
    | UnsupportedMigrationType           // "unsupported migration type"
    | ErrLockHeld                        // the store's lock could not be taken
    | ErrWriteFailed                     // a record write was refused by the store
    | IndexOutOfRange(index: int)        // a slice index panic

  /** What the store reads and writes of a migration. */
  datatype Record = Record(version: int, name: string, status: Status, changedAt: nat)

  /** One migration: identity, lifecycle fields and its two bodies per direction. */
  datatype Migration = Migration(
    version: int,
    name: string,
    status: Status,
    changedAt: nat,
    up: string,
    down: string,
    upGo: Option<Script>,
    downGo: Option<Script>)

  /** The view of a registry entry that the store keeps. */
  function RecordOf(m: Migration): Record
  {
    Record(m.version, m.name, m.status, m.changedAt)
  }
}
