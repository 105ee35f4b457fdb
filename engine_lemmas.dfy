/**
 * Properties of the migrator: the order of writes around a body, which
 * registry entries and records each operation may touch, the lock
 * protocol, the version checks, and what happens with the in-memory store.
 */
module EngineLemmas {
  import opened StorageTypes
  import MockStorage
  import opened Engine

  // ---------------------------------------------------------------------
  // Vocabulary

  /** Only status and change time of a registry entry ever change. */
  predicate SameDefinition(a: Migration, b: Migration) {
    a.version == b.version && a.name == b.name && a.up == b.up && a.down == b.down &&
    a.upGo == b.upGo && a.downGo == b.downGo
  }

  /** The calls a migration run makes: record writes, statements and scripts. */
  predicate IsBodyOrWrite(c: Call) {
    c.InsertCall? || c.MigrateCall? || c.RunScriptCall?
  }

  /** Every call is part of a migration run, and every write is made under `locked`. */
  predicate WorkCalls(cs: seq<Call>, locked: bool) {
    forall k :: 0 <= k < |cs| ==> IsBodyOrWrite(cs[k]) && (cs[k].InsertCall? ==> cs[k].underLock == locked)
  }

  /** The trace only grows: `after` is `before` followed by new calls. */
  predicate Extends(before: seq<Call>, after: seq<Call>) {
    |before| <= |after| && after == before + after[|before|..]
  }

  /** The versions written, in call order. */
  function Versions(cs: seq<Call>): seq<int> {
    if cs == [] then []
    else (if cs[0].InsertCall? then [cs[0].version] else []) + Versions(cs[1..])
  }

  predicate Sorted(s: seq<int>) {
    forall a, b :: 0 <= a < b < |s| ==> s[a] <= s[b]
  }

  predicate Within(s: seq<int>, lo: int, hi: int) {
    forall k :: 0 <= k < |s| ==> lo <= s[k] <= hi
  }

  /** The record belongs to the registry entry m. */
  predicate HasKey(r: Record, m: Migration) {
    r.version == m.version && r.name == m.name
  }

  /**
   * The store after writes of entry m only: records keep their key and
   * place, those with another key keep their value, and records added at
   * the end belong to m.
   */
  ghost predicate KeyFrame(rs: seq<Record>, rs': seq<Record>, m: Migration) {
    |rs| <= |rs'| &&
    (forall k :: 0 <= k < |rs| ==> MockStorage.SameKey(rs'[k], rs[k]) && (!HasKey(rs[k], m) ==> rs'[k] == rs[k])) &&
    (forall k :: |rs| <= k < |rs'| ==> HasKey(rs'[k], m))
  }

  /** From w to w' only registry entry i, its records and its run's calls changed. */
  ghost predicate Touches(w: World, w': World, i: nat) {
    i < |w.registry| && |w'.registry| == |w.registry| &&
    (forall j :: 0 <= j < |w.registry| && j != i ==> w'.registry[j] == w.registry[j]) &&
    SameDefinition(w'.registry[i], w.registry[i]) &&
    w'.locked == w.locked &&
    Extends(w.calls, w'.calls) && WorkCalls(w'.calls[|w.calls|..], w.locked) &&
    (forall k :: 0 <= k < |Versions(w'.calls[|w.calls|..])| ==>
       Versions(w'.calls[|w.calls|..])[k] == w.registry[i].version) &&
    KeyFrame(w.records, w'.records, w.registry[i])
  }

  /** From w to w' no registry entry below lo changed, and only runs were made. */
  ghost predicate RunFrame(w: World, w': World, lo: int) {
    |w'.registry| == |w.registry| &&
    (forall j :: 0 <= j < |w.registry| ==> SameDefinition(w'.registry[j], w.registry[j])) &&
    (forall j :: 0 <= j < |w.registry| && j < lo ==> w'.registry[j] == w.registry[j]) &&
    w'.locked == w.locked &&
    Extends(w.calls, w'.calls) && WorkCalls(w'.calls[|w.calls|..], w.locked)
  }

  /**
   * The calls of a locked run: the lock, the read of the last success,
   * then only writes (all under the lock) and bodies, then one unlock.
   */
  ghost predicate Bracketed(before: seq<Call>, after: seq<Call>) {
    |after| >= |before| + 3 &&
    after == before + [LockCall, SelectLastCall(StatusSuccess)] + after[|before| + 2..|after| - 1] + [UnlockCall] &&
    WorkCalls(after[|before| + 2..|after| - 1], true)
  }

  /** rec is the store's last record in status success. */
  predicate LastSuccessIs(rs: seq<Record>, rec: Record) {
    var k := MockStorage.LastIndexWithStatus(rs, StatusSuccess);
    k >= 0 && rs[k] == rec
  }

  /** The calls a body makes: its script, else its statement when there is one, else none. */
  function BodyCalls(sql: string, script: Option<Script>): seq<Call> {
    if script.Some? then [RunScriptCall(script.value.file)]
    else if sql != "" then [MigrateCall(sql)]
    else []
  }

  /** The terminal status `executeMigration` records. */
  function FinalStatus(env: Env, sql: string, script: Option<Script>, success: Status, failure: Status): Status {
    if BodySucceeds(env, sql, script) then success else failure
  }

  // ---------------------------------------------------------------------
  // Vocabulary lemmas

  lemma {:induction false} VersionsAppend(a: seq<Call>, b: seq<Call>)
    ensures Versions(a + b) == Versions(a) + Versions(b)
  {
    if a == [] {
      assert a + b == b;
    } else {
      var head := if a[0].InsertCall? then [a[0].version] else [];
      assert (a + b)[0] == a[0] && (a + b)[1..] == a[1..] + b;
      assert Versions(a + b) == head + Versions(a[1..] + b);
      VersionsAppend(a[1..], b);
      assert head + (Versions(a[1..]) + Versions(b)) == (head + Versions(a[1..])) + Versions(b);
    }
  }

  lemma WorkCallsAppend(a: seq<Call>, b: seq<Call>, locked: bool)
    requires WorkCalls(a, locked) && WorkCalls(b, locked)
    ensures WorkCalls(a + b, locked)
  {
    forall k | 0 <= k < |a + b|
      ensures IsBodyOrWrite((a + b)[k]) && ((a + b)[k].InsertCall? ==> (a + b)[k].underLock == locked)
    {
      if k >= |a| { assert (a + b)[k] == b[k - |a|]; }
    }
  }

  lemma ExtendsTrans(a: seq<Call>, b: seq<Call>, c: seq<Call>)
    requires Extends(a, b) && Extends(b, c)
    ensures Extends(a, c) && c[|a|..] == b[|a|..] + c[|b|..]
  {
    assert c == a + (b[|a|..] + c[|b|..]);
    assert c[|a|..] == b[|a|..] + c[|b|..];
  }

  lemma ExtendsLog(w: World, c: Call)
    ensures Extends(w.calls, Log(w, c).calls) && Log(w, c).calls[|w.calls|..] == [c]
  {
  }

  lemma SortedConcat(a: seq<int>, b: seq<int>, lo: int, mid: int, hi: int)
    requires lo <= mid <= hi
    requires Sorted(a) && Within(a, lo, mid) && Sorted(b) && Within(b, mid, hi)
    ensures Sorted(a + b) && Within(a + b, lo, hi)
  {
    forall x, y | 0 <= x < y < |a + b| ensures (a + b)[x] <= (a + b)[y] {
      if x >= |a| {
        assert (a + b)[x] == b[x - |a|] && (a + b)[y] == b[y - |a|];
      } else if y >= |a| {
        assert (a + b)[y] == b[y - |a|];
      }
    }
    forall x | 0 <= x < |a + b| ensures lo <= (a + b)[x] <= hi {
      if x >= |a| { assert (a + b)[x] == b[x - |a|]; }
    }
  }

  // ---------------------------------------------------------------------
  // One entry at a time

  lemma SetStatusTouches(w: World, i: nat, s: Status)
    requires i < |w.registry|
    ensures Touches(w, SetStatus(w, i, s), i)
  {
    var w' := SetStatus(w, i, s);
    assert w'.calls[|w.calls|..] == [];
  }

  lemma WriteTouches(env: Env, w: World, i: nat)
    requires i < |w.registry|
    ensures Touches(w, Write(env, w, i).0, i)
  {
    var m := w.registry[i];
    var w' := Write(env, w, i).0;
    ExtendsLog(w, InsertCall(m.version, m.status, w.locked));
    assert w'.calls[|w.calls|..] == [InsertCall(m.version, m.status, w.locked)];
    assert Versions([InsertCall(m.version, m.status, w.locked)]) == [m.version];
    if (m.version, m.status) !in env.failingWrites {
      var r := RecordOf(m);
      var k := MockStorage.FirstMatch(w.records, r);
      MockStorage.UpsertSpec(w.records, r);
      assert KeyFrame(w.records, w'.records, m) by {
        if k < 0 {
          assert w'.records == w.records + [r];
        }
      }
    }
  }

  lemma RunBodyTouches(env: Env, w: World, i: nat, sql: string, script: Option<Script>)
    requires i < |w.registry|
    ensures Touches(w, RunBody(env, w, sql, script), i)
  {
    var w' := RunBody(env, w, sql, script);
    if script.Some? {
      ExtendsLog(w, RunScriptCall(script.value.file));
      assert Versions([RunScriptCall(script.value.file)]) == [];
    } else if sql != "" {
      ExtendsLog(w, MigrateCall(sql));
      assert Versions([MigrateCall(sql)]) == [];
    } else {
      assert w'.calls[|w.calls|..] == [];
    }
  }

  lemma TouchesTrans(w1: World, w2: World, w3: World, i: nat)
    requires Touches(w1, w2, i) && Touches(w2, w3, i)
    ensures Touches(w1, w3, i)
  {
    ExtendsTrans(w1.calls, w2.calls, w3.calls);
    var d1 := w2.calls[|w1.calls|..];
    var d2 := w3.calls[|w2.calls|..];
    WorkCallsAppend(d1, d2, w1.locked);
    VersionsAppend(d1, d2);
    var vs := Versions(d1 + d2);
    forall k | 0 <= k < |vs| ensures vs[k] == w1.registry[i].version {
      if k >= |Versions(d1)| { assert vs[k] == Versions(d2)[k - |Versions(d1)|]; }
    }
    var m1 := w1.registry[i];
    var m2 := w2.registry[i];
    forall k | 0 <= k < |w1.records|
      ensures MockStorage.SameKey(w3.records[k], w1.records[k]) &&
              (!HasKey(w1.records[k], m1) ==> w3.records[k] == w1.records[k])
    {
      assert MockStorage.SameKey(w2.records[k], w1.records[k]);
    }
    forall k | |w1.records| <= k < |w3.records| ensures HasKey(w3.records[k], m1) {
      if k < |w2.records| {
        assert HasKey(w2.records[k], m2);
      } else {
        assert HasKey(w3.records[k], m2);
      }
    }
  }

  // ---------------------------------------------------------------------
  // executeMigration

  /**
   * The transient status is written first; when the store refuses that
   * write, nothing else happens and its error is returned.
   */
  lemma ExecuteWritesTransientFirst(env: Env, w: World, i: nat, sql: string, script: Option<Script>,
                                    process: Status, success: Status, failure: Status)
    requires i < |w.registry|
    ensures var (w', e) := ExecuteMigration(env, w, i, sql, script, process, success, failure);
      var v := w.registry[i].version;
      && |w'.calls| > |w.calls| && w'.calls[..|w.calls|] == w.calls
      && w'.calls[|w.calls|] == InsertCall(v, process, w.locked)
      && ((v, process) in env.failingWrites ==>
            e == Some(ErrWriteFailed) && |w'.calls| == |w.calls| + 1 &&
            w'.records == w.records && w'.registry[i].status == process)
  {
    var v := w.registry[i].version;
    var (w1, e1) := Write(env, SetStatus(w, i, process), i);
    assert w1.calls == w.calls + [InsertCall(v, process, w.locked)];
    if e1.None? {
      TransientThenRest(env, w, w1, i, sql, script, success, failure);
    }
  }

  /** The calls after an accepted transient write extend the trace up to and including it. */
  lemma TransientThenRest(env: Env, w: World, w1: World, i: nat, sql: string, script: Option<Script>,
                          success: Status, failure: Status)
    requires i < |w1.registry| && |w1.calls| == |w.calls| + 1 && w1.calls[..|w.calls|] == w.calls
    ensures var w' := RunAndRecord(env, w1, i, sql, script, success, failure).0;
      |w'.calls| > |w.calls| && w'.calls[..|w.calls|] == w.calls && w'.calls[|w.calls|] == w1.calls[|w.calls|]
  {
    RunAndRecordEffect(env, w1, i, sql, script, success, failure);
    var w' := RunAndRecord(env, w1, i, sql, script, success, failure).0;
    assert w'.calls[..|w.calls|] == w'.calls[..|w1.calls|][..|w.calls|];
  }

  /**
   * Once the transient write is accepted, the body runs and the terminal
   * status (or the error status, after a failed body) is written last.
   * The result is None exactly when that write is accepted, whatever the
   * body did.
   */
  lemma ExecuteWritesTerminalLast(env: Env, w: World, i: nat, sql: string, script: Option<Script>,
                                  process: Status, success: Status, failure: Status)
    requires i < |w.registry|
    requires (w.registry[i].version, process) !in env.failingWrites
    ensures var (w', e) := ExecuteMigration(env, w, i, sql, script, process, success, failure);
      var v := w.registry[i].version;
      var final := FinalStatus(env, sql, script, success, failure);
      && w'.calls == w.calls + [InsertCall(v, process, w.locked)] + BodyCalls(sql, script) + [InsertCall(v, final, w.locked)]
      && w'.calls[|w'.calls| - 1] == InsertCall(v, final, w.locked)
      && w'.registry[i].status == final
      && (e == None <==> (v, final) !in env.failingWrites)
      && (e != None ==> e == Some(ErrWriteFailed))
  {
    var (w1, e1) := Write(env, SetStatus(w, i, process), i);
    assert e1 == None && w1.registry[i].version == w.registry[i].version && w1.locked == w.locked;
    RunAndRecordEffect(env, w1, i, sql, script, success, failure);
    assert ExecuteMigration(env, w, i, sql, script, process, success, failure) ==
           RunAndRecord(env, w1, i, sql, script, success, failure);
  }

  /** After the transient write: the body's calls, then the terminal write, whose result is returned. */
  lemma RunAndRecordEffect(env: Env, w: World, i: nat, sql: string, script: Option<Script>,
                           success: Status, failure: Status)
    requires i < |w.registry|
    ensures var (w', e) := RunAndRecord(env, w, i, sql, script, success, failure);
      var v := w.registry[i].version;
      var final := FinalStatus(env, sql, script, success, failure);
      && w'.calls == w.calls + BodyCalls(sql, script) + [InsertCall(v, final, w.locked)]
      && |w'.calls| > |w.calls| && w'.calls[..|w.calls|] == w.calls
      && w'.calls[|w'.calls| - 1] == InsertCall(v, final, w.locked)
      && w'.registry[i].status == final
      && (e == None <==> (v, final) !in env.failingWrites)
      && (e != None ==> e == Some(ErrWriteFailed))
      && (script.Some? ==> forall k :: |w.calls| <= k < |w'.calls| ==> !w'.calls[k].MigrateCall?)
      && (script.None? && sql == "" ==> w'.calls == w.calls + [InsertCall(v, success, w.locked)])
  {
  }

  /** An accepted write leaves the entry's record in the store. */
  lemma WriteStores(env: Env, w: World, i: nat)
    requires i < |w.registry|
    requires (w.registry[i].version, w.registry[i].status) !in env.failingWrites
    ensures var (w', e) := Write(env, w, i);
      e == None && exists k :: 0 <= k < |w'.records| && w'.records[k] == RecordOf(w.registry[i])
  {
    var rs := w.records;
    var r := RecordOf(w.registry[i]);
    var k := MockStorage.FirstMatch(rs, r);
    MockStorage.UpsertSpec(rs, r);
    if k >= 0 {
      assert MockStorage.Upsert(rs, r)[k] == r;
    } else {
      assert MockStorage.Upsert(rs, r)[|rs|] == r;
    }
  }

  /**
   * A failed body whose error-status write is accepted yields no error:
   * the entry is recorded with the error status and the caller sees success.
   */
  lemma BodyErrorDiscarded(env: Env, w: World, i: nat, sql: string, script: Option<Script>,
                           process: Status, success: Status, failure: Status)
    requires i < |w.registry|
    requires !BodySucceeds(env, sql, script)
    requires (w.registry[i].version, process) !in env.failingWrites
    requires (w.registry[i].version, failure) !in env.failingWrites
    ensures var (w', e) := ExecuteMigration(env, w, i, sql, script, process, success, failure);
      e == None && w'.registry[i].status == failure &&
      exists k :: 0 <= k < |w'.records| && w'.records[k] == RecordOf(w'.registry[i])
  {
    var (w1, e1) := Write(env, SetStatus(w, i, process), i);
    var w3 := SetStatus(RunBody(env, w1, sql, script), i, failure);
    WriteStores(env, w3, i);
  }

  /**
   * `executeMigration` changes registry entry i only, and only its status
   * and time; every call it makes is a write of entry i's version under
   * the caller's lock state, a statement or a script; records of other
   * migrations keep their place and value, and any new record is entry i's.
   */
  lemma ExecuteTouchesOneEntry(env: Env, w: World, i: nat, sql: string, script: Option<Script>,
                               process: Status, success: Status, failure: Status)
    requires i < |w.registry|
    ensures Touches(w, ExecuteMigration(env, w, i, sql, script, process, success, failure).0, i)
  {
    var w1 := SetStatus(w, i, process);
    SetStatusTouches(w, i, process);
    var (w2, e2) := Write(env, w1, i);
    WriteTouches(env, w1, i);
    TouchesTrans(w, w1, w2, i);
    if e2.None? {
      RunAndRecordTouches(env, w2, i, sql, script, success, failure);
      TouchesTrans(w, w2, RunAndRecord(env, w2, i, sql, script, success, failure).0, i);
    }
  }

  lemma RunAndRecordTouches(env: Env, w: World, i: nat, sql: string, script: Option<Script>,
                            success: Status, failure: Status)
    requires i < |w.registry|
    ensures Touches(w, RunAndRecord(env, w, i, sql, script, success, failure).0, i)
  {
    var w1 := RunBody(env, w, sql, script);
    RunBodyTouches(env, w, i, sql, script);
    var w2 := SetStatus(w1, i, FinalStatus(env, sql, script, success, failure));
    SetStatusTouches(w1, i, FinalStatus(env, sql, script, success, failure));
    TouchesTrans(w, w1, w2, i);
    WriteTouches(env, w2, i);
    TouchesTrans(w, w2, Write(env, w2, i).0, i);
  }

  // ---------------------------------------------------------------------
  // The loop of Up

  lemma TouchesThenRun(w: World, w1: World, w': World, i: nat)
    requires Touches(w, w1, i) && RunFrame(w1, w', i + 1)
    ensures RunFrame(w, w', i) && w'.registry[i] == w1.registry[i]
  {
    ExtendsTrans(w.calls, w1.calls, w'.calls);
    WorkCallsAppend(w1.calls[|w.calls|..], w'.calls[|w1.calls|..], w.locked);
  }

  lemma TouchesIsRun(w: World, w1: World, i: nat)
    requires Touches(w, w1, i)
    ensures RunFrame(w, w1, i)
  {
  }

  lemma TouchesKeepsNumbered(w: World, w1: World, i: nat)
    requires Touches(w, w1, i) && Numbered(w.registry)
    ensures Numbered(w1.registry)
  {
    forall j | 0 <= j < |w1.registry| ensures w1.registry[j].version == j + 1 {
      if j == i { assert SameDefinition(w1.registry[j], w.registry[j]); }
    }
  }

  lemma UpMigrationTouches(env: Env, w: World, i: nat)
    requires i < |w.registry|
    ensures Touches(w, UpMigration(env, w, i).0, i)
  {
    var m := w.registry[i];
    ExecuteTouchesOneEntry(env, w, i, m.up, m.upGo, StatusProcess, StatusSuccess, StatusError);
  }

  /** A successful up transition leaves the entry in success or, exactly when its body failed, error. */
  lemma UpMigrationSettles(env: Env, w: World, i: nat)
    requires i < |w.registry|
    ensures var (w', e) := UpMigration(env, w, i);
      e == None ==>
        && (w'.registry[i].status == StatusSuccess || w'.registry[i].status == StatusError)
        && w'.registry[i].status == FinalStatus(env, w.registry[i].up, w.registry[i].upGo, StatusSuccess, StatusError)
  {
  }

  /**
   * The loop of `Up` from index i never changes entries below i, keeps
   * every definition and the lock state, only writes and runs bodies,
   * and ends in success, `ErrMigrationUp`, or a panic on a negative index.
   * On success every entry from i on is recorded as success or error.
   */
  lemma UpFromEffect(env: Env, w: World, i: int)
    ensures var r := UpFrom(env, w, i);
      && RunFrame(w, r.0, i)
      && (r.1 == None || r.1 == Some(ErrMigrationUp) || (i < 0 && r.1 == Some(IndexOutOfRange(i)) && r.0 == w))
      && (r.1 == None && i >= 0 ==> forall j :: i <= j < |w.registry| ==>
            r.0.registry[j].status == StatusSuccess || r.0.registry[j].status == StatusError)
  {
    UpFromEffectOf(env, w, i, UpFrom(env, w, i));
  }

  lemma {:induction false} UpFromEffectOf(env: Env, w: World, i: int, r: (World, Option<Error>))
    requires r == UpFrom(env, w, i)
    ensures && RunFrame(w, r.0, i)
      && (r.1 == None || r.1 == Some(ErrMigrationUp) || (i < 0 && r.1 == Some(IndexOutOfRange(i)) && r.0 == w))
      && (r.1 == None && i >= 0 ==> forall j :: i <= j < |w.registry| ==>
            r.0.registry[j].status == StatusSuccess || r.0.registry[j].status == StatusError)
    decreases |w.registry| - i
  {
    if i >= |w.registry| || i < 0 {
      assert w.calls[|w.calls|..] == [];
    } else {
      var (w1, e1) := UpMigration(env, w, i);
      UpMigrationTouches(env, w, i);
      UpMigrationSettles(env, w, i);
      if e1.Some? {
        TouchesIsRun(w, w1, i);
      } else {
        UpFromEffectOf(env, w1, i + 1, r);
        TouchesThenRun(w, w1, r.0, i);
      }
    }
  }

  /**
   * With a registry numbered by position, the loop from i >= 0 writes
   * only versions i+1 .. n, in ascending order.
   */
  lemma {:induction false} UpFromAscending(env: Env, w: World, i: int)
    requires Numbered(w.registry) && i >= 0
    ensures var w' := UpFrom(env, w, i).0;
      Extends(w.calls, w'.calls) &&
      Sorted(Versions(w'.calls[|w.calls|..])) && Within(Versions(w'.calls[|w.calls|..]), i + 1, |w.registry|)
    decreases |w.registry| - i
  {
    var (w', e) := UpFrom(env, w, i);
    if i < |w.registry| {
      var m := w.registry[i];
      ExecuteTouchesOneEntry(env, w, i, m.up, m.upGo, StatusProcess, StatusSuccess, StatusError);
      var (w1, e1) := UpMigration(env, w, i);
      TouchesKeepsNumbered(w, w1, i);
      TouchesVersions(w, w1, i);
      if e1.None? {
        UpFromAscending(env, w1, i + 1);
        AscendingStep(w, w1, w', i);
      }
    } else {
      assert w'.calls[|w.calls|..] == [];
    }
  }

  /** One transition on a numbered registry writes version i+1 only. */
  lemma TouchesVersions(w: World, w1: World, i: nat)
    requires Numbered(w.registry) && Touches(w, w1, i)
    ensures Sorted(Versions(w1.calls[|w.calls|..]))
    ensures Within(Versions(w1.calls[|w.calls|..]), i + 1, i + 1)
    ensures Within(Versions(w1.calls[|w.calls|..]), i + 1, |w.registry|)
  {
  }

  lemma AscendingStep(w: World, w1: World, w': World, i: nat)
    requires Numbered(w.registry) && Touches(w, w1, i)
    requires Extends(w1.calls, w'.calls)
    requires Sorted(Versions(w'.calls[|w1.calls|..]))
    requires Within(Versions(w'.calls[|w1.calls|..]), i + 2, |w.registry|)
    ensures Extends(w.calls, w'.calls)
    ensures Sorted(Versions(w'.calls[|w.calls|..])) && Within(Versions(w'.calls[|w.calls|..]), i + 1, |w.registry|)
  {
    TouchesVersions(w, w1, i);
    ExtendsTrans(w.calls, w1.calls, w'.calls);
    var d1 := w1.calls[|w.calls|..];
    var d2 := w'.calls[|w1.calls|..];
    VersionsAppend(d1, d2);
    WithinWeaken(Versions(d2), i + 2, i + 1, |w.registry|);
    SortedConcat(Versions(d1), Versions(d2), i + 1, i + 1, |w.registry|);
  }

  /**
   * The loop from i >= 0 on a numbered registry, when it succeeds, has
   * written every version i+1 .. n: no pending migration is skipped.
   */
  lemma {:induction false} UpFromWritesAll(env: Env, w: World, i: int)
    requires Numbered(w.registry) && i >= 0
    ensures var (w', e) := UpFrom(env, w, i);
      && Extends(w.calls, w'.calls)
      && (e == None ==> forall v :: i < v <= |w.registry| ==> v in Versions(w'.calls[|w.calls|..]))
    decreases |w.registry| - i
  {
    var (w', e) := UpFrom(env, w, i);
    if i < |w.registry| {
      var m := w.registry[i];
      ExecuteWritesTransientFirst(env, w, i, m.up, m.upGo, StatusProcess, StatusSuccess, StatusError);
      ExecuteTouchesOneEntry(env, w, i, m.up, m.upGo, StatusProcess, StatusSuccess, StatusError);
      var (w1, e1) := UpMigration(env, w, i);
      if e1.None? {
        TouchesKeepsNumbered(w, w1, i);
        UpFromWritesAll(env, w1, i + 1);
        assert UpFrom(env, w, i) == UpFrom(env, w1, i + 1);
        if e == None {
          WritesAllStep(w, w1, w', i);
        } else {
          ExtendsTrans(w.calls, w1.calls, w'.calls);
        }
      }
    } else {
      assert w'.calls[|w.calls|..] == [];
    }
  }

  /** A run whose first call writes version i+1, followed by runs that wrote i+2 .. n, wrote i+1 .. n. */
  lemma WritesAllStep(w: World, w1: World, w': World, i: nat)
    requires Extends(w.calls, w1.calls) && |w1.calls| > |w.calls|
    requires w1.calls[|w.calls|].InsertCall? && w1.calls[|w.calls|].version == i + 1
    requires Extends(w1.calls, w'.calls)
    requires forall v :: i + 1 < v <= |w.registry| ==> v in Versions(w'.calls[|w1.calls|..])
    ensures Extends(w.calls, w'.calls)
    ensures forall v :: i < v <= |w.registry| ==> v in Versions(w'.calls[|w.calls|..])
  {
    ExtendsTrans(w.calls, w1.calls, w'.calls);
    var d1 := w1.calls[|w.calls|..];
    var d2 := w'.calls[|w1.calls|..];
    VersionsAppend(d1, d2);
    assert d1[0] == w1.calls[|w.calls|];
    assert Versions(d1) == [i + 1] + Versions(d1[1..]);
  }

  lemma WithinWeaken(s: seq<int>, lo: int, lo': int, hi: int)
    requires Within(s, lo, hi) && lo' <= lo
    ensures Within(s, lo', hi)
  {
  }

  /**
   * The loop started at i stopped at index k: it left the later entries
   * alone, wrote only versions i+1 .. k+1, and its last call was a write
   * of version k+1 that the store refused.
   */
  ghost predicate StoppedAt(env: Env, w: World, w': World, i: int, k: int) {
    0 <= i <= k < |w.registry| && |w'.registry| == |w.registry| &&
    (forall j :: k < j < |w.registry| ==> w'.registry[j] == w.registry[j]) &&
    Extends(w.calls, w'.calls) && |w'.calls| > |w.calls| &&
    Within(Versions(w'.calls[|w.calls|..]), i + 1, k + 1) &&
    w'.calls[|w'.calls| - 1].InsertCall? &&
    w'.calls[|w'.calls| - 1].version == k + 1 &&
    (k + 1, w'.calls[|w'.calls| - 1].status) in env.failingWrites
  }

  /** An up transition that fails stops the loop at its own index. */
  lemma UpMigrationStops(env: Env, w: World, i: nat)
    requires Numbered(w.registry) && i < |w.registry|
    ensures var (w1, e1) := UpMigration(env, w, i);
      e1.Some? ==> StoppedAt(env, w, w1, i, i)
  {
    var m := w.registry[i];
    ExecuteStops(env, w, i, m.up, m.upGo, StatusProcess, StatusSuccess, StatusError);
  }

  /** A transition whose result is an error ends with a refused write of its own version. */
  lemma ExecuteStops(env: Env, w: World, i: nat, sql: string, script: Option<Script>,
                     process: Status, success: Status, failure: Status)
    requires Numbered(w.registry) && i < |w.registry|
    ensures var (w1, e1) := ExecuteMigration(env, w, i, sql, script, process, success, failure);
      e1.Some? ==> StoppedAt(env, w, w1, i, i)
  {
    if (w.registry[i].version, process) in env.failingWrites {
      TransientRefusedStops(env, w, i, sql, script, process, success, failure);
    } else {
      TerminalRefusedStops(env, w, i, sql, script, process, success, failure);
    }
  }

  lemma TransientRefusedStops(env: Env, w: World, i: nat, sql: string, script: Option<Script>,
                              process: Status, success: Status, failure: Status)
    requires Numbered(w.registry) && i < |w.registry|
    requires (w.registry[i].version, process) in env.failingWrites
    ensures StoppedAt(env, w, ExecuteMigration(env, w, i, sql, script, process, success, failure).0, i, i)
  {
    var w1 := ExecuteMigration(env, w, i, sql, script, process, success, failure).0;
    ExecuteTouchesOneEntry(env, w, i, sql, script, process, success, failure);
    ExecuteWritesTransientFirst(env, w, i, sql, script, process, success, failure);
    assert w1.calls[|w1.calls| - 1] == InsertCall(i + 1, process, w.locked);
    StoppedAtOwnIndex(env, w, w1, i);
  }

  lemma TerminalRefusedStops(env: Env, w: World, i: nat, sql: string, script: Option<Script>,
                             process: Status, success: Status, failure: Status)
    requires Numbered(w.registry) && i < |w.registry|
    requires (w.registry[i].version, process) !in env.failingWrites
    ensures var (w1, e1) := ExecuteMigration(env, w, i, sql, script, process, success, failure);
      e1.Some? ==> StoppedAt(env, w, w1, i, i)
  {
    var (w1, e1) := ExecuteMigration(env, w, i, sql, script, process, success, failure);
    ExecuteTouchesOneEntry(env, w, i, sql, script, process, success, failure);
    ExecuteWritesTerminalLast(env, w, i, sql, script, process, success, failure);
    if e1.Some? {
      StoppedAtOwnIndex(env, w, w1, i);
    }
  }

  /** A run of entry i whose last call is a refused write of its version stops the loop at i. */
  lemma StoppedAtOwnIndex(env: Env, w: World, w1: World, i: nat)
    requires Numbered(w.registry) && Touches(w, w1, i) && |w1.calls| > |w.calls|
    requires w1.calls[|w1.calls| - 1].InsertCall?
    requires w1.calls[|w1.calls| - 1].version == i + 1
    requires (i + 1, w1.calls[|w1.calls| - 1].status) in env.failingWrites
    ensures StoppedAt(env, w, w1, i, i)
  {
  }

  /** A stop later in the loop is a stop of the loop that began one entry earlier. */
  lemma StoppedAfterTouch(env: Env, w: World, w1: World, w': World, i: nat, k: int)
    requires Numbered(w.registry) && Touches(w, w1, i) && StoppedAt(env, w1, w', i + 1, k)
    ensures StoppedAt(env, w, w', i, k)
  {
    ExtendsTrans(w.calls, w1.calls, w'.calls);
    var d1 := w1.calls[|w.calls|..];
    var d2 := w'.calls[|w1.calls|..];
    VersionsAppend(d1, d2);
    assert Within(Versions(d1), i + 1, i + 1);
    SortedWithinConcat(Versions(d1), Versions(d2), i + 1, k + 1);
  }

  /** When the loop reports `ErrMigrationUp`, it stopped right after a refused write. */
  lemma {:induction false} UpFromStopsAtFailure(env: Env, w: World, i: int)
    requires Numbered(w.registry) && i >= 0
    ensures var (w', e) := UpFrom(env, w, i);
      e == Some(ErrMigrationUp) ==> exists k :: StoppedAt(env, w, w', i, k)
    decreases |w.registry| - i
  {
    var (w', e) := UpFrom(env, w, i);
    if i < |w.registry| && e == Some(ErrMigrationUp) {
      var m := w.registry[i];
      ExecuteTouchesOneEntry(env, w, i, m.up, m.upGo, StatusProcess, StatusSuccess, StatusError);
      UpMigrationStops(env, w, i);
      var (w1, e1) := UpMigration(env, w, i);
      if e1.Some? {
        assert StoppedAt(env, w, w', i, i);
      } else {
        TouchesKeepsNumbered(w, w1, i);
        UpFromStopsAtFailure(env, w1, i + 1);
        var k :| StoppedAt(env, w1, w', i + 1, k);
        StoppedAfterTouch(env, w, w1, w', i, k);
      }
    }
  }

  lemma SortedWithinConcat(a: seq<int>, b: seq<int>, lo: int, hi: int)
    requires Within(a, lo, hi) && Within(b, lo, hi)
    ensures Within(a + b, lo, hi)
  {
    forall x | 0 <= x < |a + b| ensures lo <= (a + b)[x] <= hi {
      if x >= |a| { assert (a + b)[x] == b[x - |a|]; }
    }
  }

  /** With a store that accepts every write, the loop never reports a failure. */
  lemma {:induction false} UpFromNeverFailsWhenWritesSucceed(env: Env, w: World, i: int)
    requires env.failingWrites == {} && i >= 0
    ensures UpFrom(env, w, i).1 == None
    decreases |w.registry| - i
  {
    if i < |w.registry| {
      var m := w.registry[i];
      ExecuteWritesTerminalLast(env, w, i, m.up, m.upGo, StatusProcess, StatusSuccess, StatusError);
      var (w1, e1) := UpMigration(env, w, i);
      UpFromNeverFailsWhenWritesSucceed(env, w1, i + 1);
    }
  }

  // ---------------------------------------------------------------------
  // Up and Down

  /** Lock, read and unlock write nothing: the versions of a run are those of its middle. */
  lemma VersionsAround(before: seq<Call>, mid: seq<Call>, last: seq<Call>, after: seq<Call>)
    requires mid == before + [LockCall, SelectLastCall(StatusSuccess)]
    requires Extends(mid, last) && after == last + [UnlockCall]
    ensures Extends(before, after) && Versions(after[|before|..]) == Versions(last[|mid|..])
  {
    var prefix := [LockCall, SelectLastCall(StatusSuccess)];
    var d := last[|mid|..];
    assert Versions(prefix) == [] by {
      assert prefix[1..] == [SelectLastCall(StatusSuccess)];
      assert prefix[1..][1..] == [];
    }
    assert Versions([UnlockCall]) == [];
    assert after[|before|..] == prefix + d + [UnlockCall];
    VersionsAppend(prefix, d);
    VersionsAppend(prefix + d, [UnlockCall]);
  }

  lemma BracketOf(before: seq<Call>, mid: seq<Call>, last: seq<Call>, after: seq<Call>)
    requires mid == before + [LockCall, SelectLastCall(StatusSuccess)]
    requires Extends(mid, last) && WorkCalls(last[|mid|..], true)
    requires after == last + [UnlockCall]
    ensures Bracketed(before, after)
  {
    assert after[|before| + 2..|after| - 1] == last[|mid|..];
  }

  /**
   * A refused lock returns its error before any read or write. Otherwise
   * the run is bracketed by one lock and one unlock, every write in
   * between is made under the lock, and the lock is released at the end.
   */
  lemma UpLockProtocol(env: Env, w: World)
    ensures var (w', e) := Up(env, w);
      && (env.lockFails ==>
            e == Some(ErrLockHeld) && w'.calls == w.calls + [LockCall] &&
            w'.records == w.records && w'.registry == w.registry && w'.locked == w.locked)
      && (!env.lockFails ==> Bracketed(w.calls, w'.calls) && !w'.locked)
  {
    if !env.lockFails {
      var (w2, look) := SelectLast(env, Lock(env, w), StatusSuccess);
      var (w', e) := Up(env, w);
      if !look.Failed? && !(look.Found? && look.record.version - 1 > |w2.registry|) {
        UpFromEffect(env, w2, FoundVersion(look));
        BracketOf(w.calls, w2.calls, UpFrom(env, w2, FoundVersion(look)).0.calls, w'.calls);
      } else {
        BracketOf(w.calls, w2.calls, w2.calls, w'.calls);
      }
    }
  }

  /**
   * `Up` reports `ErrUnexpectedMigrationVersion` exactly when a last
   * success was found whose version exceeds the registry size by more
   * than one, and then writes nothing. A version of exactly size + 1
   * passes the check and the run does nothing and succeeds.
   */
  lemma UpVersionCheck(env: Env, w: World)
    requires !env.lockFails
    ensures var k := MockStorage.LastIndexWithStatus(w.records, StatusSuccess);
      var (w', e) := Up(env, w);
      && (e == Some(ErrUnexpectedMigrationVersion) <==>
            k >= 0 && w.records[k].version - 1 > |w.registry|)
      && (k >= 0 && w.records[k].version - 1 > |w.registry| ==>
            w'.records == w.records && w'.registry == w.registry)
      && (k >= 0 && w.records[k].version == |w.registry| + 1 ==>
            e == None && w'.records == w.records && w'.registry == w.registry)
  {
    var (w2, look) := SelectLast(env, Lock(env, w), StatusSuccess);
    UpFromEffect(env, w2, FoundVersion(look));
  }

  /** After a found last success L, `Up` leaves the entries below L as they were. */
  lemma UpKeepsEntriesBelowLast(env: Env, w: World, rec: Record)
    requires !env.lockFails && LastSuccessIs(w.records, rec)
    ensures var w' := Up(env, w).0;
      forall j :: 0 <= j < |w.registry| && j < rec.version ==> w'.registry[j] == w.registry[j]
  {
    var (w2, look) := SelectLast(env, Lock(env, w), StatusSuccess);
    assert look == Found(rec);
    UpFromEffect(env, w2, FoundVersion(look));
  }

  /**
   * After a found last success L >= 0 (with a numbered registry), `Up`
   * writes only versions L+1 .. n, in ascending order.
   */
  lemma UpWritesAscendingFromLast(env: Env, w: World, rec: Record)
    requires !env.lockFails && Numbered(w.registry)
    requires LastSuccessIs(w.records, rec) && rec.version >= 0
    ensures var w' := Up(env, w).0;
      && Extends(w.calls, w'.calls)
      && Sorted(Versions(w'.calls[|w.calls|..]))
      && Within(Versions(w'.calls[|w.calls|..]), rec.version + 1, |w.registry|)
  {
    var (w2, look) := SelectLast(env, Lock(env, w), StatusSuccess);
    assert look == Found(rec);
    var last := FoundVersion(look);
    var w3 := if last - 1 > |w2.registry| then w2 else UpFrom(env, w2, last).0;
    var w' := Unlock(w3);
    assert Up(env, w).0 == w';
    if last - 1 <= |w2.registry| {
      UpFromAscending(env, w2, last);
    } else {
      assert w3.calls[|w2.calls|..] == [];
    }
    VersionsAround(w.calls, w2.calls, w3.calls, w'.calls);
  }

  /**
   * When `Up` succeeds it has applied every pending migration: each
   * version above the last success L (0 on the sentinel miss) up to n
   * was written.
   */
  lemma UpAppliesAllPending(env: Env, w: World)
    requires !env.lockFails && Numbered(w.registry)
    ensures var k := MockStorage.LastIndexWithStatus(w.records, StatusSuccess);
      var L := if k >= 0 then w.records[k].version else 0;
      var (w', e) := Up(env, w);
      && Extends(w.calls, w'.calls)
      && (e == None && L >= 0 ==> forall v :: L < v <= |w.registry| ==> v in Versions(w'.calls[|w.calls|..]))
  {
    var (w2, look) := SelectLast(env, Lock(env, w), StatusSuccess);
    var last := FoundVersion(look);
    var (w', e) := Up(env, w);
    if !look.Failed? && !(look.Found? && look.record.version - 1 > |w2.registry|) && last >= 0 {
      var w3 := UpFrom(env, w2, last).0;
      assert w' == Unlock(w3);
      UpFromWritesAll(env, w2, last);
      VersionsAround(w.calls, w2.calls, w3.calls, w'.calls);
    } else if !look.Failed? && !(look.Found? && look.record.version - 1 > |w2.registry|) {
      UpFromEffect(env, w2, last);
      VersionsAround(w.calls, w2.calls, UpFrom(env, w2, last).0.calls, w'.calls);
    } else {
      assert w2.calls[|w2.calls|..] == [];
      VersionsAround(w.calls, w2.calls, w2.calls, w'.calls);
    }
  }

  /**
   * With a store that accepts every write (the in-memory one does), `Up`
   * never reports `ErrMigrationUp`: a failed body does not stop the run.
   */
  lemma UpIgnoresBodyFailures(env: Env, w: World)
    requires env.failingWrites == {}
    ensures Up(env, w).1 != Some(ErrMigrationUp)
  {
    if !env.lockFails {
      var (w2, look) := SelectLast(env, Lock(env, w), StatusSuccess);
      if FoundVersion(look) >= 0 {
        UpFromNeverFailsWhenWritesSucceed(env, w2, FoundVersion(look));
      }
    }
  }

  /**
   * Without a success record, the in-memory store's "not found" is not
   * the sentinel: `Up` and `Down` return it unchanged and write nothing,
   * and `DBVersion` fails. A store that answers with the sentinel lets
   * `Up` start from index 0, `Down` succeed as a no-op and `DBVersion`
   * report 0.
   */
  lemma MissingSuccessRecord(env: Env, w: World)
    requires !env.lockFails
    requires forall k :: 0 <= k < |w.records| ==> w.records[k].status != StatusSuccess
    ensures var (wu, eu) := Up(env, w);
      var (wd, ed) := Down(env, w);
      && (!env.missIsSentinel ==>
            eu == Some(NoMigrationsWithStatus(StatusSuccess)) && wu.records == w.records && wu.registry == w.registry &&
            ed == Some(NoMigrationsWithStatus(StatusSuccess)) && wd.records == w.records && wd.registry == w.registry &&
            DBVersion(env, w).1 == Failure(ErrGetVersion))
      && (env.missIsSentinel ==>
            eu == UpFrom(env, SelectLast(env, Lock(env, w), StatusSuccess).0, 0).1 &&
            ed == None && wd.records == w.records && wd.registry == w.registry &&
            DBVersion(env, w).1 == Success(0))
  {
    MockStorage.LastIndexWithStatusSpec(w.records, StatusSuccess);
    assert MockStorage.LastIndexWithStatus(w.records, StatusSuccess) < 0;
  }

  /** With a last success of version v in 1..n, `Down` is the down transition of entry v-1 between lock and unlock. */
  lemma DownFound(env: Env, w: World, rec: Record)
    requires !env.lockFails
    requires LastSuccessIs(w.records, rec) && 1 <= rec.version <= |w.registry|
    ensures var w2 := SelectLast(env, Lock(env, w), StatusSuccess).0;
      var (w3, e3) := DownMigration(env, w2, rec.version - 1);
      && w2.registry == w.registry && w2.records == w.records && w2.locked
      && w2.calls == w.calls + [LockCall] + [SelectLastCall(StatusSuccess)]
      && Down(env, w).0 == Unlock(w3)
      && Down(env, w).1 == (if e3.Some? then Some(ErrMigrationDown) else None)
  {
    var look := SelectLast(env, Lock(env, w), StatusSuccess).1;
    assert look == Found(rec);
  }

  /**
   * With a last success of version v in 1..n, `Down` runs exactly one
   * down transition, on entry v-1: no other entry changes, only the
   * entry's status and time change, and records of other migrations keep
   * their place and value.
   */
  lemma DownRollsBackOne(env: Env, w: World, rec: Record)
    requires !env.lockFails
    requires LastSuccessIs(w.records, rec) && 1 <= rec.version <= |w.registry|
    ensures var w' := Down(env, w).0;
      && (forall j :: 0 <= j < |w.registry| && j != rec.version - 1 ==> w'.registry[j] == w.registry[j])
      && SameDefinition(w'.registry[rec.version - 1], w.registry[rec.version - 1])
      && KeyFrame(w.records, w'.records, w.registry[rec.version - 1])
  {
    var (w2, look) := SelectLast(env, Lock(env, w), StatusSuccess);
    assert look == Found(rec);
    DownEntryFrame(env, w, w2, rec.version - 1);
    assert Down(env, w).0 == Unlock(DownMigration(env, w2, rec.version - 1).0);
  }

  lemma DownEntryFrame(env: Env, w: World, w2: World, i: nat)
    requires w2.registry == w.registry && w2.records == w.records && i < |w.registry|
    ensures var w' := Unlock(DownMigration(env, w2, i).0);
      && (forall j :: 0 <= j < |w.registry| && j != i ==> w'.registry[j] == w.registry[j])
      && SameDefinition(w'.registry[i], w.registry[i])
      && KeyFrame(w.records, w'.records, w.registry[i])
  {
    var m := w2.registry[i];
    ExecuteTouchesOneEntry(env, w2, i, m.down, m.downGo, StatusCancellation, StatusCancel, StatusError);
  }

  /**
   * That `Down` reports success or `ErrMigrationDown`; on success the
   * entry is left cancelled, or failed exactly when its body failed.
   */
  lemma DownOutcome(env: Env, w: World, rec: Record)
    requires !env.lockFails
    requires LastSuccessIs(w.records, rec) && 1 <= rec.version <= |w.registry|
    ensures var (w', e) := Down(env, w);
      var m := w.registry[rec.version - 1];
      && (e == None || e == Some(ErrMigrationDown))
      && (e == None ==> w'.registry[rec.version - 1].status == StatusCancel ||
                        w'.registry[rec.version - 1].status == StatusError)
      && (e == None ==>
            w'.registry[rec.version - 1].status == FinalStatus(env, m.down, m.downGo, StatusCancel, StatusError))
  {
    DownFound(env, w, rec);
    DownMigrationSettles(env, SelectLast(env, Lock(env, w), StatusSuccess).0, rec.version - 1);
  }

  /** A successful down transition leaves the entry cancelled or, exactly when its body failed, failed. */
  lemma DownMigrationSettles(env: Env, w: World, i: nat)
    requires i < |w.registry|
    ensures var (w', e) := DownMigration(env, w, i);
      e == None ==>
        && (w'.registry[i].status == StatusCancel || w'.registry[i].status == StatusError)
        && w'.registry[i].status == FinalStatus(env, w.registry[i].down, w.registry[i].downGo, StatusCancel, StatusError)
  {
  }

  /**
   * When the lock is taken, the calls of `Down` are one lock, the read,
   * writes (all under the lock) and bodies, then one unlock that releases it.
   */
  lemma DownLockProtocol(env: Env, w: World)
    requires !env.lockFails
    ensures var w' := Down(env, w).0;
      Bracketed(w.calls, w'.calls) && !w'.locked
  {
    var (w2, look) := SelectLast(env, Lock(env, w), StatusSuccess);
    assert w2.calls == w.calls + [LockCall, SelectLastCall(StatusSuccess)];
    if look.Found? && 1 <= look.record.version <= |w2.registry| {
      var i := look.record.version - 1;
      var m := w2.registry[i];
      ExecuteTouchesOneEntry(env, w2, i, m.down, m.downGo, StatusCancellation, StatusCancel, StatusError);
      BracketOf(w.calls, w2.calls, DownMigration(env, w2, i).0.calls, Down(env, w).0.calls);
    } else {
      assert w2.calls[|w2.calls|..] == [];
      BracketOf(w.calls, w2.calls, w2.calls, Down(env, w).0.calls);
    }
  }

  /** The writes of that `Down` are all of entry v-1's version. */
  lemma DownWritesOneVersion(env: Env, w: World, rec: Record)
    requires !env.lockFails
    requires LastSuccessIs(w.records, rec) && 1 <= rec.version <= |w.registry|
    ensures var w' := Down(env, w).0;
      forall k :: 0 <= k < |Versions(w'.calls[|w.calls|..])| ==>
        Versions(w'.calls[|w.calls|..])[k] == w.registry[rec.version - 1].version
  {
    var w2 := SelectLast(env, Lock(env, w), StatusSuccess).0;
    DownFound(env, w, rec);
    DownWritesOfEntry(env, w, w2, rec.version - 1);
  }

  lemma DownWritesOfEntry(env: Env, w: World, w2: World, i: nat)
    requires w2.calls == w.calls + [LockCall] + [SelectLastCall(StatusSuccess)]
    requires w2.registry == w.registry && i < |w.registry|
    ensures var w' := Unlock(DownMigration(env, w2, i).0);
      forall k :: 0 <= k < |Versions(w'.calls[|w.calls|..])| ==>
        Versions(w'.calls[|w.calls|..])[k] == w.registry[i].version
  {
    var m := w2.registry[i];
    ExecuteTouchesOneEntry(env, w2, i, m.down, m.downGo, StatusCancellation, StatusCancel, StatusError);
    var w3 := DownMigration(env, w2, i).0;
    assert w2.calls == w.calls + [LockCall, SelectLastCall(StatusSuccess)];
    VersionsAround(w.calls, w2.calls, w3.calls, Unlock(w3).calls);
  }

  /**
   * The guards of `Down`: a refused lock returns before anything else; a
   * last success above the registry size yields the version error; one
   * at version 0 or below indexes out of range; neither writes.
   */
  lemma DownGuards(env: Env, w: World)
    ensures var (w', e) := Down(env, w);
      var k := MockStorage.LastIndexWithStatus(w.records, StatusSuccess);
      && (env.lockFails ==>
            e == Some(ErrLockHeld) && w'.calls == w.calls + [LockCall] &&
            w'.records == w.records && w'.registry == w.registry)
      && (!env.lockFails && k >= 0 && w.records[k].version > |w.registry| ==>
            e == Some(ErrUnexpectedMigrationVersion) && w'.records == w.records && w'.registry == w.registry)
      && (!env.lockFails && k >= 0 && w.records[k].version <= 0 ==>
            e == Some(IndexOutOfRange(w.records[k].version - 1)) &&
            w'.records == w.records && w'.registry == w.registry)
  {
  }

  // ---------------------------------------------------------------------
  // Redo

  /**
   * `Redo` returns `Down`'s error unchanged. After a successful `Down` it
   * reads the last success L again and re-applies index L without the
   * lock: every later write is made unlocked. When L is at least the
   * registry size but passes the loose check, the index is out of range.
   */
  lemma RedoAfterDown(env: Env, w: World)
    ensures var (wd, ed) := Down(env, w);
      var (w', e) := Redo(env, w);
      && (ed != None ==> (w', e) == (wd, ed))
      && (ed == None ==>
            Extends(wd.calls + [SelectLastCall(StatusSuccess)], w'.calls) &&
            WorkCalls(w'.calls[|wd.calls| + 1..], false))
      && (ed == None ==>
            var j := MockStorage.LastIndexWithStatus(wd.records, StatusSuccess);
            j >= 0 && |wd.registry| <= wd.records[j].version <= |wd.registry| + 1 ==>
              e == Some(IndexOutOfRange(wd.records[j].version)))
  {
    var (wd, ed) := Down(env, w);
    if ed == None {
      assert !wd.locked;
      var (w2, look) := SelectLast(env, wd, StatusSuccess);
      var last := FoundVersion(look);
      var (w', e) := Redo(env, w);
      if !look.Failed? && !(look.Found? && look.record.version - 1 > |w2.registry|) && 0 <= last < |w2.registry| {
        var m := w2.registry[last];
        ExecuteTouchesOneEntry(env, w2, last, m.up, m.upGo, StatusProcess, StatusSuccess, StatusError);
      } else {
        assert w'.calls[|wd.calls| + 1..] == [];
      }
    }
  }

  /**
   * The guards of `Redo` after a successful `Down`: a re-read that fails
   * other than by the sentinel returns that error, and a last success
   * whose index L - 1 is past the registry size yields the version error;
   * neither changes the store or the registry.
   */
  lemma RedoGuards(env: Env, w: World)
    ensures var (wd, ed) := Down(env, w);
      var (w', e) := Redo(env, w);
      ed == None ==> ReapplyGuarded(env, wd, w', e)
  {
    var (wd, ed) := Down(env, w);
    if ed == None {
      ReapplyGuards(env, wd);
    }
  }

  /** What the two guards of `Reapply` promise about its outcome (w', e) from w. */
  ghost predicate ReapplyGuarded(env: Env, w: World, w': World, e: Option<Error>) {
    var k := MockStorage.LastIndexWithStatus(w.records, StatusSuccess);
    && (k < 0 && !env.missIsSentinel ==>
          e == Some(NoMigrationsWithStatus(StatusSuccess)) &&
          w'.records == w.records && w'.registry == w.registry)
    && (k >= 0 && w.records[k].version - 1 > |w.registry| ==>
          e == Some(ErrUnexpectedMigrationVersion) &&
          w'.records == w.records && w'.registry == w.registry)
  }

  lemma ReapplyGuards(env: Env, w: World)
    ensures var (w', e) := Reapply(env, w);
      ReapplyGuarded(env, w, w', e)
  {
  }

  /**
   * After a successful `Down`, when the re-read last success L (0 on the
   * sentinel miss) is an index of the registry, `Redo` runs the up
   * transition of entry L and nothing else: its first write is entry L's
   * transient status, made without the lock, and it reports success or
   * `ErrMigrationRedo`, leaving the entry in success or error on success.
   */
  lemma RedoReapplies(env: Env, w: World)
    ensures var (wd, ed) := Down(env, w);
      var k := MockStorage.LastIndexWithStatus(wd.records, StatusSuccess);
      var L := if k >= 0 then wd.records[k].version else 0;
      var w2 := Log(wd, SelectLastCall(StatusSuccess));
      var (w', e) := Redo(env, w);
      ed == None && (k >= 0 || env.missIsSentinel) && 0 <= L < |wd.registry| ==>
        && !wd.locked
        && Touches(w2, w', L)
        && |w'.calls| > |w2.calls|
        && w'.calls[|w2.calls|] == InsertCall(wd.registry[L].version, StatusProcess, false)
        && (e == None || e == Some(ErrMigrationRedo))
        && (e == None ==> w'.registry[L].status == StatusSuccess || w'.registry[L].status == StatusError)
  {
    var (wd, ed) := Down(env, w);
    if ed == None {
      assert !wd.locked;
      ReapplyLast(env, wd);
    }
  }

  /** `Reapply` of a last success L that indexes the registry is entry L's up transition. */
  lemma ReapplyLast(env: Env, wd: World)
    ensures var k := MockStorage.LastIndexWithStatus(wd.records, StatusSuccess);
      var L := if k >= 0 then wd.records[k].version else 0;
      var w2 := Log(wd, SelectLastCall(StatusSuccess));
      var (w', e) := Reapply(env, wd);
      (k >= 0 || env.missIsSentinel) && 0 <= L < |wd.registry| ==>
        && Touches(w2, w', L)
        && |w'.calls| > |w2.calls|
        && w'.calls[|w2.calls|] == InsertCall(wd.registry[L].version, StatusProcess, wd.locked)
        && (e == None || e == Some(ErrMigrationRedo))
        && (e == None ==> w'.registry[L].status == StatusSuccess || w'.registry[L].status == StatusError)
  {
    var k := MockStorage.LastIndexWithStatus(wd.records, StatusSuccess);
    var L := if k >= 0 then wd.records[k].version else 0;
    if (k >= 0 || env.missIsSentinel) && 0 <= L < |wd.registry| {
      var (w2, look) := SelectLast(env, wd, StatusSuccess);
      assert FoundVersion(look) == L;
      ReapplyEntry(env, w2, L);
    }
  }

  /** One up transition of entry i: touches only that entry, writes its transient status first. */
  lemma ReapplyEntry(env: Env, w: World, i: nat)
    requires i < |w.registry|
    ensures var (w', e) := UpMigration(env, w, i);
      && Touches(w, w', i)
      && |w'.calls| > |w.calls|
      && w'.calls[|w.calls|] == InsertCall(w.registry[i].version, StatusProcess, w.locked)
      && (e == None ==> w'.registry[i].status == StatusSuccess || w'.registry[i].status == StatusError)
  {
    var m := w.registry[i];
    ExecuteWritesTransientFirst(env, w, i, m.up, m.upGo, StatusProcess, StatusSuccess, StatusError);
    ExecuteTouchesOneEntry(env, w, i, m.up, m.upGo, StatusProcess, StatusSuccess, StatusError);
    UpMigrationSettles(env, w, i);
  }

  // ---------------------------------------------------------------------
  // Reads

  /** `Status` and `DBVersion` write nothing and only read. */
  lemma ReadsWriteNothing(env: Env, w: World)
    ensures var (ws, rows) := Engine.Status(w);
      ws.records == w.records && ws.registry == w.registry && ws.calls == w.calls + [SelectAllCall] &&
      (rows.Failure? <==> |w.records| == 0) && (rows.Success? ==> rows.value == w.records)
    ensures var (wv, version) := DBVersion(env, w);
      var k := MockStorage.LastIndexWithStatus(w.records, StatusSuccess);
      wv.records == w.records && wv.registry == w.registry &&
      wv.calls == w.calls + [SelectLastCall(StatusSuccess)] &&
      (k >= 0 ==> version == Success(w.records[k].version)) &&
      (k < 0 ==> version == if env.missIsSentinel then Success(0) else Failure(ErrGetVersion))
  {
  }

  // ---------------------------------------------------------------------
  // Create

  /** `Create` numbers the new entry one past the registry and keeps the numbering. */
  lemma RegisterNumbers(registry: seq<Migration>, name: string, up: string, down: string,
                        upGo: Option<Script>, downGo: Option<Script>)
    requires Numbered(registry)
    ensures var r := Register(registry, name, up, down, upGo, downGo);
      Numbered(r) && |r| == |registry| + 1 && r[..|registry|] == registry &&
      r[|registry|].status == StatusSuccess && r[|registry|].name == name
  {
  }

  // ---------------------------------------------------------------------
  // Scenarios

  /**
   * The up-then-down test: a store seeded with a success record for
   * version 1, a registry of that one migration with empty SQL bodies.
   * `Up` does nothing, `Down` cancels it, and the store holds one record,
   * in status cancel.
   */
  lemma UpThenDownCancelsSeededRecord()
    ensures var env := MockEnv({});
      var m := Migration(1, "create_users", StatusSuccess, 0, "", "", None, None);
      var w := World([Record(1, "create_users", StatusSuccess, 0)], [m], 0, false, []);
      var (w1, e1) := Up(env, w);
      var (w2, e2) := Down(env, w1);
      && e1 == None && w1.records == w.records && w1.registry == w.registry
      && e2 == None && |w2.records| == 1 && w2.records[0].status == StatusCancel
  {
    var env := MockEnv({});
    var m := Migration(1, "create_users", StatusSuccess, 0, "", "", None, None);
    var w := World([Record(1, "create_users", StatusSuccess, 0)], [m], 0, false, []);
    assert MockStorage.LastIndexWithStatus(w.records, StatusSuccess) == 0;
    var (w1, e1) := Up(env, w);
    assert w1.records == w.records && w1.registry == w.registry;
    var w2 := SelectLast(env, Lock(env, w1), StatusSuccess).0;
    var a := SetStatus(w2, 0, StatusCancellation);
    assert MockStorage.FirstMatch(a.records, RecordOf(a.registry[0])) == 0;
    var (b, _) := Write(env, a, 0);
    var c := SetStatus(b, 0, StatusCancel);
    assert MockStorage.FirstMatch(c.records, RecordOf(c.registry[0])) == 0;
  }

  /**
   * Two migrations run by script on an empty history, with a store that
   * reports a miss by the sentinel; the first script fails. `Up` records
   * version 1 as an error, still applies version 2, and succeeds; the
   * version then reported is 2.
   */
  lemma FailedScriptDoesNotStopUp()
    ensures var env := Env(false, true, {}, {}, {"00001_a_up.go"});
      var reg := [Migration(1, "a", StatusSuccess, 0, "", "", Some(Script("00001_a_up.go")), None),
                  Migration(2, "b", StatusSuccess, 0, "", "", Some(Script("00002_b_up.go")), None)];
      var (w', e) := Up(env, World([], reg, 0, false, []));
      e == None &&
      w'.records == [Record(1, "a", StatusError, 2), Record(2, "b", StatusSuccess, 4)] &&
      DBVersion(env, w').1 == Success(2)
  {
    var env := Env(false, true, {}, {}, {"00001_a_up.go"});
    var reg := [Migration(1, "a", StatusSuccess, 0, "", "", Some(Script("00001_a_up.go")), None),
                Migration(2, "b", StatusSuccess, 0, "", "", Some(Script("00002_b_up.go")), None)];
    var w := World([], reg, 0, false, []);
    var w2 := SelectLast(env, Lock(env, w), StatusSuccess).0;
    assert MockStorage.LastIndexWithStatus(w.records, StatusSuccess) == -1;
    var (w3, e3) := UpMigration(env, w2, 0);
    assert w3.records == [Record(1, "a", StatusError, 2)] by {
      var a := SetStatus(w2, 0, StatusProcess);
      assert MockStorage.FirstMatch(a.records, RecordOf(a.registry[0])) == -1;
      var (b, _) := Write(env, a, 0);
      var c := SetStatus(RunBody(env, b, "", Some(Script("00001_a_up.go"))), 0, StatusError);
      assert MockStorage.FirstMatch(c.records, RecordOf(c.registry[0])) == 0;
    }
    var (w4, e4) := UpMigration(env, w3, 1);
    assert e3 == None && e4 == None;
    assert UpFrom(env, w2, 0) == UpFrom(env, w3, 1);
    assert UpFrom(env, w3, 1) == UpFrom(env, w4, 2) == (w4, None);
    assert w4.records == [Record(1, "a", StatusError, 2), Record(2, "b", StatusSuccess, 4)] by {
      var a := SetStatus(w3, 1, StatusProcess);
      assert MockStorage.FirstMatch(a.records, RecordOf(a.registry[1])) == -1;
      var (b, _) := Write(env, a, 1);
      var c := SetStatus(RunBody(env, b, "", Some(Script("00002_b_up.go"))), 1, StatusSuccess);
      assert MockStorage.FirstMatch(c.records, RecordOf(c.registry[1])) == 1;
    }
    assert MockStorage.LastIndexWithStatus(w4.records, StatusSuccess) == 1;
  }

  /**
   * A store whose last success record (version 2) was inserted before
   * the one for version 1, with a registry of one migration: `Down`
   * cancels version 1, the last success is then version 2, which passes
   * the check of `Redo` and indexes past the registry.
   */
  lemma RedoIndexesPastRegistry()
    ensures var env := MockEnv({});
      var reg := [Migration(1, "a", StatusSuccess, 0, "", "", None, None)];
      var rs := [Record(2, "x", StatusSuccess, 0), Record(1, "a", StatusSuccess, 0)];
      var (w', e) := Redo(env, World(rs, reg, 0, false, []));
      && e == Some(IndexOutOfRange(2))
      && w'.records == [Record(2, "x", StatusSuccess, 0), Record(1, "a", StatusCancel, 2)]
  {
    var env := MockEnv({});
    var reg := [Migration(1, "a", StatusSuccess, 0, "", "", None, None)];
    var rs := [Record(2, "x", StatusSuccess, 0), Record(1, "a", StatusSuccess, 0)];
    var w := World(rs, reg, 0, false, []);
    assert MockStorage.LastIndexWithStatus(rs, StatusSuccess) == 1;
    var w2 := SelectLast(env, Lock(env, w), StatusSuccess).0;
    var a := SetStatus(w2, 0, StatusCancellation);
    assert MockStorage.FirstMatch(a.records, RecordOf(a.registry[0])) == 1;
    var (b, _) := Write(env, a, 0);
    var c := SetStatus(b, 0, StatusCancel);
    assert MockStorage.FirstMatch(c.records, RecordOf(c.registry[0])) == 1;
    var (wd, ed) := Down(env, w);
    assert wd.records == [Record(2, "x", StatusSuccess, 0), Record(1, "a", StatusCancel, 2)];
    assert MockStorage.LastIndexWithStatus(wd.records, StatusSuccess) == 0;
  }
}
