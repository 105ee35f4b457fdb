/**
 * The migrator: a registry of migrations numbered by position, bound to
 * the in-memory store. Each operation changes the store, the registry and
 * the clock exactly as the corresponding `Engine` function says; the
 * ghost fields record whether the lock is held and the calls made.
 */
module Processes {
  import opened StorageTypes
  import MockStorage
  import opened Engine

  class Migrator {
    const store: MockStorage.MockSQLStorage
    const env: Env
    var migrations: seq<Migration>
    var clock: nat
    ghost var locked: bool
    ghost var calls: seq<Call>

    ghost function State(): World
      reads this, store
    {
      World(store.migrations, migrations, clock, locked, calls)
    }

    ghost predicate Valid()
      reads this
    {
      Numbered(migrations)
    }

    constructor New(store: MockStorage.MockSQLStorage, env: Env)
      ensures this.store == store && this.env == env
      ensures migrations == [] && clock == 0 && !locked && calls == []
      ensures Valid()
    {
      this.store := store;
      this.env := env;
      migrations := [];
      clock := 0;
      locked := false;
      calls := [];
    }

    method Connect() returns (err: Option<Error>)
      ensures err == None
    {
      err := store.Connect();
    }

    method Close() returns (err: Option<Error>)
      ensures err == None
    {
      err := store.Close();
    }

    method Create(name: string, up: string, down: string, upGo: Option<Script>, downGo: Option<Script>)
      modifies this
      ensures migrations == Register(old(migrations), name, up, down, upGo, downGo)
      ensures old(Valid()) ==> Valid()
      ensures clock == old(clock) && locked == old(locked) && calls == old(calls)
    {
      migrations := migrations + [Migration(|migrations| + 1, name, StatusSuccess, 0, up, down, upGo, downGo)];
    }

    method LockStore() returns (err: Option<Error>)
      requires Valid()
      modifies this
      ensures Valid()
      ensures State() == Engine.Lock(env, old(State()))
      ensures err == (if env.lockFails then Some(ErrLockHeld) else None)
    {
      calls := calls + [LockCall];
      if env.lockFails {
        err := Some(ErrLockHeld);
      } else {
        err := store.Lock();
        locked := true;
      }
    }

    method UnlockStore()
      requires Valid()
      modifies this
      ensures Valid()
      ensures State() == Engine.Unlock(old(State()))
    {
      var _ := store.Unlock();
      calls := calls + [UnlockCall];
      locked := false;
    }

    method SelectLastSuccess() returns (look: Lookup)
      requires Valid()
      modifies this
      ensures Valid()
      ensures (State(), look) == SelectLast(env, old(State()), StatusSuccess)
    {
      MockStorage.LastIndexWithStatusSpec(store.migrations, StatusSuccess);
      calls := calls + [SelectLastCall(StatusSuccess)];
      var r := store.SelectLastMigrationByStatus(StatusSuccess);
      if r.Failure? && env.missIsSentinel {
        r := Failure(ErrMigrationNotFound);
      }
      if r.Success? {
        look := Found(r.value);
      } else if r.error == ErrMigrationNotFound {
        look := NotFound;
      } else {
        look := Failed(r.error);
      }
    }

    method SetStatus(i: nat, s: Status)
      requires i < |migrations|
      requires Valid()
      modifies this
      ensures Valid()
      ensures State() == Engine.SetStatus(old(State()), i, s)
    {
      clock := clock + 1;
      migrations := migrations[i := migrations[i].(status := s, changedAt := clock)];
    }

    method WriteEntry(i: nat) returns (err: Option<Error>)
      requires i < |migrations|
      requires Valid()
      modifies this, store
      ensures Valid()
      ensures (State(), err) == Write(env, old(State()), i)
    {
      var m := migrations[i];
      calls := calls + [InsertCall(m.version, m.status, locked)];
      if (m.version, m.status) in env.failingWrites {
        err := Some(ErrWriteFailed);
      } else {
        err := store.InsertMigration(RecordOf(m));
      }
    }

    method ExecuteMigration(i: nat, sql: string, script: Option<Script>,
                            process: Status, success: Status, failure: Status) returns (err: Option<Error>)
      requires i < |migrations|
      requires Valid()
      modifies this, store
      ensures Valid()
      ensures (State(), err) == Engine.ExecuteMigration(env, old(State()), i, sql, script, process, success, failure)
    {
      SetStatus(i, process);
      err := WriteEntry(i);
      if err.Some? {
        return;
      }
      err := RunAndRecord(i, sql, script, success, failure);
    }

    /**
     * Runs the body, then records the terminal status, or the error status
     * when the body failed; either way the result is that write's result,
     * so the body's own error is dropped.
     */
    method RunAndRecord(i: nat, sql: string, script: Option<Script>,
                        success: Status, failure: Status) returns (err: Option<Error>)
      requires i < |migrations|
      requires Valid()
      modifies this, store
      ensures Valid()
      ensures (State(), err) == Engine.RunAndRecord(env, old(State()), i, sql, script, success, failure)
    {
      var ok := RunBody(sql, script);
      SetStatus(i, if ok then success else failure);
      err := WriteEntry(i);
    }

    /** A script takes precedence over SQL; empty SQL runs nothing. */
    method RunBody(sql: string, script: Option<Script>) returns (ok: bool)
      requires Valid()
      modifies this
      ensures Valid()
      ensures State() == Engine.RunBody(env, old(State()), sql, script)
      ensures ok == BodySucceeds(env, sql, script)
    {
      ok := true;
      if script.Some? {
        calls := calls + [RunScriptCall(script.value.file)];
        ok := script.value.file !in env.failingScripts;
      } else if sql != "" {
        var sqlErr := store.Migrate(sql);
        calls := calls + [MigrateCall(sql)];
        ok := sqlErr.None? && sql !in env.failingStatements;
      }
    }

    method UpMigration(i: nat) returns (err: Option<Error>)
      requires i < |migrations|
      requires Valid()
      modifies this, store
      ensures Valid()
      ensures (State(), err) == Engine.UpMigration(env, old(State()), i)
    {
      err := ExecuteMigration(i, migrations[i].up, migrations[i].upGo, StatusProcess, StatusSuccess, StatusError);
    }

    method DownMigration(i: nat) returns (err: Option<Error>)
      requires i < |migrations|
      requires Valid()
      modifies this, store
      ensures Valid()
      ensures (State(), err) == Engine.DownMigration(env, old(State()), i)
    {
      err := ExecuteMigration(i, migrations[i].down, migrations[i].downGo,
                              StatusCancellation, StatusCancel, StatusError);
    }

    method Up() returns (err: Option<Error>)
      requires Valid()
      modifies this, store
      ensures Valid()
      ensures (State(), err) == Engine.Up(env, old(State()))
    {
      err := LockStore();
      if err.Some? {
        return;
      }
      var look := SelectLastSuccess();
      if look.Failed? {
        UnlockStore();
        return Some(look.error);
      }
      if look.Found? && look.record.version - 1 > |migrations| {
        UnlockStore();
        return Some(ErrUnexpectedMigrationVersion);
      }
      var i := FoundVersion(look);
      ghost var start := State();
      while i < |migrations|
        invariant Valid() && |migrations| == |start.registry|
        invariant Engine.UpFrom(env, State(), i) == Engine.UpFrom(env, start, FoundVersion(look))
        decreases |migrations| - i
      {
        if i < 0 {
          UnlockStore();
          return Some(IndexOutOfRange(i));
        }
        err := UpMigration(i);
        if err.Some? {
          UnlockStore();
          return Some(ErrMigrationUp);
        }
        i := i + 1;
      }
      UnlockStore();
      return None;
    }

    method Down() returns (err: Option<Error>)
      requires Valid()
      modifies this, store
      ensures Valid()
      ensures (State(), err) == Engine.Down(env, old(State()))
    {
      err := LockStore();
      if err.Some? {
        return;
      }
      var look := SelectLastSuccess();
      if look.NotFound? {
        UnlockStore();
        return None;
      }
      if look.Failed? {
        UnlockStore();
        return Some(look.error);
      }
      if look.record.version > |migrations| {
        UnlockStore();
        return Some(ErrUnexpectedMigrationVersion);
      }
      var index := look.record.version - 1;
      if index < 0 {
        UnlockStore();
        return Some(IndexOutOfRange(index));
      }
      err := DownMigration(index);
      UnlockStore();
      if err.Some? {
        return Some(ErrMigrationDown);
      }
      return None;
    }

    method Redo() returns (err: Option<Error>)
      requires Valid()
      modifies this, store
      ensures Valid()
      ensures (State(), err) == Engine.Redo(env, old(State()))
    {
      err := Down();
      if err.Some? {
        return;
      }
      var look := SelectLastSuccess();
      if look.Failed? {
        return Some(look.error);
      }
      if look.Found? && look.record.version - 1 > |migrations| {
        return Some(ErrUnexpectedMigrationVersion);
      }
      var last := FoundVersion(look);
      if last < 0 || last >= |migrations| {
        return Some(IndexOutOfRange(last));
      }
      err := UpMigration(last);
      if err.Some? {
        return Some(ErrMigrationRedo);
      }
      return None;
    }

    method Status() returns (rows: Result<seq<Record>>)
      requires Valid()
      modifies this
      ensures Valid()
      ensures (State(), rows) == Engine.Status(old(State()))
    {
      calls := calls + [SelectAllCall];
      var r := store.SelectMigrations();
      if r.Failure? {
        return Failure(ErrGetStatus);
      }
      return Success(r.value);
    }

    method DBVersion() returns (version: Result<int>)
      requires Valid()
      modifies this
      ensures Valid()
      ensures (State(), version) == Engine.DBVersion(env, old(State()))
    {
      var look := SelectLastSuccess();
      if look.Failed? {
        return Failure(ErrGetVersion);
      }
      return Success(FoundVersion(look));
    }
  }
}
