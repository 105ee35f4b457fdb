/**
 * The in-memory migration store: an insertion-ordered list of records,
 * upserted by the pair (version, name) and queried from the back for
 * the last record with a given status.
 */
module MockStorage {
  import opened StorageTypes

  /** Records are identified by (version, name). */
  predicate SameKey(a: Record, b: Record) {
    a.version == b.version && a.name == b.name
  }

  /** Index of the first record with r's key, or -1 when there is none. */
  function FirstMatch(rs: seq<Record>, r: Record): (k: int)
    ensures -1 <= k < |rs|
  {
    if rs == [] then -1
    else if SameKey(rs[0], r) then 0
    else
      var k := FirstMatch(rs[1..], r);
      if k < 0 then -1 else k + 1
  }

  /** `FirstMatch` finds a record with r's key, and no earlier one has it. */
  lemma {:induction false} FirstMatchSpec(rs: seq<Record>, r: Record)
    ensures var k := FirstMatch(rs, r);
      (k >= 0 ==> SameKey(rs[k], r)) &&
      forall j :: 0 <= j < |rs| && (k < 0 || j < k) ==> !SameKey(rs[j], r)
  {
    if rs != [] && !SameKey(rs[0], r) {
      FirstMatchSpec(rs[1..], r);
      var k := FirstMatch(rs[1..], r);
      forall j | 0 <= j < |rs| && (k < 0 || j < k + 1) ensures !SameKey(rs[j], r) {
        if j > 0 { assert rs[j] == rs[1..][j - 1]; }
      }
    }
  }

  /**
   * The list after `InsertMigration(r)`: the first record with r's key
   * takes r's status and change time; without one, r is appended.
   */
  function Upsert(rs: seq<Record>, r: Record): seq<Record>
  {
    var k := FirstMatch(rs, r);
    if k >= 0 then rs[k := rs[k].(status := r.status, changedAt := r.changedAt)]
    else rs + [r]
  }

  /**
   * An insert overwrites the first record with r's key in place, leaving
   * every other record where and as it was, or appends r when none exists.
   */
  lemma UpsertSpec(rs: seq<Record>, r: Record)
    ensures var k := FirstMatch(rs, r);
      var rs' := Upsert(rs, r);
      (k >= 0 ==> |rs'| == |rs| && rs'[k] == r && forall j :: 0 <= j < |rs| && j != k ==> rs'[j] == rs[j]) &&
      (k < 0 ==> rs' == rs + [r]) &&
      forall j :: 0 <= j < |rs| && (k < 0 || j < k) ==> !SameKey(rs[j], r)
  {
    FirstMatchSpec(rs, r);
  }

  /** Index of the last record whose status is s, or -1 when there is none. */
  function LastIndexWithStatus(rs: seq<Record>, s: Status): (k: int)
    ensures -1 <= k < |rs|
  {
    if rs == [] then -1
    else if rs[|rs| - 1].status == s then |rs| - 1
    else LastIndexWithStatus(rs[..|rs| - 1], s)
  }

  /** `LastIndexWithStatus` finds a record with status s, and no later one has it. */
  lemma {:induction false} LastIndexWithStatusSpec(rs: seq<Record>, s: Status)
    ensures var k := LastIndexWithStatus(rs, s);
      (k >= 0 ==> rs[k].status == s) && forall j :: k < j < |rs| ==> rs[j].status != s
  {
    if rs != [] && rs[|rs| - 1].status != s {
      LastIndexWithStatusSpec(rs[..|rs| - 1], s);
    }
  }

  /** No two records share a (version, name) key. */
  ghost predicate UniqueKeys(rs: seq<Record>) {
    forall i, j :: 0 <= i < j < |rs| ==> !SameKey(rs[i], rs[j])
  }

  /** The list obtained from rs by inserting the records of rest in order. */
  function InsertAll(rs: seq<Record>, rest: seq<Record>): seq<Record>
    decreases |rest|
  {
    if rest == [] then rs else InsertAll(Upsert(rs, rest[0]), rest[1..])
  }

  /** An insert never creates a second record with an existing key. */
  lemma UpsertKeepsKeysUnique(rs: seq<Record>, r: Record)
    requires UniqueKeys(rs)
    ensures UniqueKeys(Upsert(rs, r))
  {
    var k := FirstMatch(rs, r);
    var rs' := Upsert(rs, r);
    UpsertSpec(rs, r);
    if k >= 0 {
      forall i, j | 0 <= i < j < |rs'| ensures !SameKey(rs'[i], rs'[j]) {
        if i == k {
          assert SameKey(rs'[i], rs[i]);
        } else if j == k {
          assert SameKey(rs'[j], rs[j]);
        }
      }
    } else {
      forall i, j | 0 <= i < j < |rs'| ensures !SameKey(rs'[i], rs'[j]) {
        if j == |rs| {
          assert rs'[j] == r && rs'[i] == rs[i];
        }
      }
    }
  }

  /** A list built only by inserts, starting from an empty store, has unique keys. */
  lemma {:induction false} InsertsKeepKeysUnique(rs: seq<Record>, rest: seq<Record>)
    requires UniqueKeys(rs)
    ensures UniqueKeys(InsertAll(rs, rest))
    decreases |rest|
  {
    if rest != [] {
      UpsertKeepsKeysUnique(rs, rest[0]);
      InsertsKeepKeysUnique(Upsert(rs, rest[0]), rest[1..]);
    }
  }

  /** An insert keeps every key already present and adds r's key. */
  lemma UpsertKeys(rs: seq<Record>, r: Record, x: Record)
    ensures (exists j :: 0 <= j < |Upsert(rs, r)| && SameKey(Upsert(rs, r)[j], x))
        <==> SameKey(r, x) || exists j :: 0 <= j < |rs| && SameKey(rs[j], x)
  {
    var k := FirstMatch(rs, r);
    var rs' := Upsert(rs, r);
    UpsertSpec(rs, r);
    if SameKey(r, x) {
      if k >= 0 { assert SameKey(rs'[k], x); } else { assert SameKey(rs'[|rs|], x); }
    }
    if exists j :: 0 <= j < |rs| && SameKey(rs[j], x) {
      var j :| 0 <= j < |rs| && SameKey(rs[j], x);
      assert SameKey(rs'[j], x);
    }
    if exists j :: 0 <= j < |rs'| && SameKey(rs'[j], x) {
      var j :| 0 <= j < |rs'| && SameKey(rs'[j], x);
      if j < |rs| && j != k { assert SameKey(rs[j], x); }
    }
  }

  class MockSQLStorage {
    var migrations: seq<Record>

    /** `NewMockSQLStorage`: an empty store. */
    constructor ()
      ensures migrations == []
    {
      migrations := [];
    }

    method Connect() returns (err: Option<Error>)
      ensures err == None
    {
      err := None;
    }

    method Close() returns (err: Option<Error>)
      ensures err == None
    {
      err := None;
    }

    method Lock() returns (err: Option<Error>)
      ensures err == None
    {
      err := None;
    }

    method Unlock() returns (err: Option<Error>)
      ensures err == None
    {
      err := None;
    }

    /** Executing a statement is a no-op that always succeeds. */
    method Migrate(sql: string) returns (err: Option<Error>)
      ensures err == None
    {
      err := None;
    }

    /** Upsert by (version, name); never fails. */
    method InsertMigration(r: Record) returns (err: Option<Error>)
      modifies this
      ensures migrations == Upsert(old(migrations), r)
      ensures err == None
    {
      FirstMatchSpec(migrations, r);
      var i := 0;
      while i < |migrations|
        invariant 0 <= i <= |migrations|
        invariant migrations == old(migrations)
        invariant forall j :: 0 <= j < i ==> !SameKey(migrations[j], r)
      {
        if SameKey(migrations[i], r) {
          migrations := migrations[i := migrations[i].(status := r.status, changedAt := r.changedAt,
                                                       version := r.version, name := r.name)];
          return None;
        }
        i := i + 1;
      }
      migrations := migrations + [r];
      return None;
    }

    /** Update-only: overwrites the first record with r's key, else fails. */
    method UpdateMigration(r: Record) returns (err: Option<Error>)
      modifies this
      ensures err == None <==> FirstMatch(old(migrations), r) >= 0
      ensures err != None ==> err == Some(MigrationNotFound) && migrations == old(migrations)
      ensures err == None ==> migrations == Upsert(old(migrations), r)
      ensures |migrations| == |old(migrations)|
    {
      FirstMatchSpec(migrations, r);
      var i := 0;
      while i < |migrations|
        invariant 0 <= i <= |migrations|
        invariant migrations == old(migrations)
        invariant forall j :: 0 <= j < i ==> !SameKey(migrations[j], r)
      {
        if SameKey(migrations[i], r) {
          migrations := migrations[i := migrations[i].(status := r.status, changedAt := r.changedAt)];
          return None;
        }
        i := i + 1;
      }
      return Some(MigrationNotFound);
    }

    /** All records in insertion order; fails on an empty store. */
    method SelectMigrations() returns (r: Result<seq<Record>>)
      ensures r.Failure? <==> |migrations| == 0
      ensures r.Failure? ==> r.error == NoMigrationsFound
      ensures r.Success? ==> r.value == migrations
    {
      if |migrations| == 0 {
        return Failure(NoMigrationsFound);
      }
      return Success(migrations);
    }

    /** Scans from the back for the last record whose status is s. */
    method SelectLastMigrationByStatus(s: Status) returns (r: Result<Record>)
      ensures r.Failure? <==> forall j :: 0 <= j < |migrations| ==> migrations[j].status != s
      ensures r.Failure? ==> r.error == NoMigrationsWithStatus(s)
      ensures r.Success? ==> LastIndexWithStatus(migrations, s) >= 0 && r.value == migrations[LastIndexWithStatus(migrations, s)]
    {
      LastIndexWithStatusSpec(migrations, s);
      var i := |migrations| - 1;
      while i >= 0
        invariant -1 <= i < |migrations|
        invariant forall j :: i < j < |migrations| ==> migrations[j].status != s
      {
        if migrations[i].status == s {
          return Success(migrations[i]);
        }
        i := i - 1;
      }
      return Failure(NoMigrationsWithStatus(s));
    }

    method DeleteMigrations() returns (err: Option<Error>)
      modifies this
      ensures migrations == [] && err == None
    {
      migrations := [];
      err := None;
    }
  }
}
