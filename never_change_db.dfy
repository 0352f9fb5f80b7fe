/** The `NeverChangeDB` class of src/neverchange.ts: its option defaults,
    its migration list, the init/close lifecycle that `getPromiser` guards,
    and the migration run of `init`. The SQL engine behind the worker is
    abstracted to a `Store` value; opening a database is an input. */
module NeverChange {
  import opened Wrappers
  import opened MigrationRegistry

  const NotInitializedMessage := "Database not initialized. Call init() first."

  /** What a store looks like before any database is opened. */
  const NoStore := Store(false, [], [])

  class NeverChangeDB {
    const dbName: string
    const debug: bool
    const isMigrationActive: bool
    var migrations: seq<Migration>
    /** `dbPromise !== null`: init has started and close has not undone it. */
    var initialized: bool
    var dbId: Option<string>
    /** The database the open connection works on. */
    var store: Store

    ghost predicate Valid()
      reads this
    {
      SortedByVersion(migrations) && (dbId.Some? ==> initialized)
    }

    /** `options.debug ?? false` and `options.isMigrationActive ?? true`;
        an active instance starts with the initial migration registered. */
    constructor (dbName: string, debugOption: Option<bool>, migrationOption: Option<bool>)
      ensures Valid()
      ensures this.dbName == dbName
      ensures debug == (debugOption == Some(true))
      ensures isMigrationActive == (migrationOption != Some(false))
      ensures migrations == if isMigrationActive then [InitialMigration] else []
      ensures !initialized && dbId == None && store == NoStore
    {
      this.dbName := dbName;
      debug := match debugOption case Some(b) => b case None => false;
      isMigrationActive := match migrationOption case Some(b) => b case None => true;
      migrations := [];
      initialized := false;
      dbId := None;
      store := NoStore;
      new;
      if isMigrationActive {
        AddMigrations([InitialMigration]);
      }
    }

    /** Push the new migrations, then sort the whole list by version. */
    method AddMigrations(ms: seq<Migration>)
      requires Valid()
      modifies this`migrations
      ensures Valid()
      ensures migrations == SortByVersion(old(migrations) + ms)
      ensures multiset(migrations) == multiset(old(migrations)) + multiset(ms)
      ensures |migrations| == |old(migrations)| + |ms|
    {
      migrations := migrations + ms;
      migrations := SortByVersion(migrations);
    }

    /** Fails unless init has run and close has not undone it. */
    method GetPromiser() returns (r: Outcome<string>)
      ensures r.Pass? <==> initialized
      ensures r.Fail? ==> r.error == NotInitializedMessage
    {
      if !initialized {
        return Fail(NotInitializedMessage);
      }
      return Pass;
    }

    /** execute: the guard, then the statement forwarded to the engine,
        whose answer is the input `engineAnswer`. */
    method Execute(sql: string, engineAnswer: Outcome<string>) returns (r: Outcome<string>)
      ensures !initialized ==> r == Fail(NotInitializedMessage)
      ensures initialized ==> r == engineAnswer
    {
      r := GetPromiser();
      if r.Pass? {
        r := engineAnswer;
      }
    }

    /** query: the guard, then the engine's rows, `[]` when it gives none. */
    method Query<T>(sql: string, engineAnswer: Result<Option<seq<T>>, string>)
      returns (r: Result<seq<T>, string>)
      ensures !initialized ==> r == Failure(NotInitializedMessage)
      ensures initialized && engineAnswer.Failure? ==> r == Failure(engineAnswer.error)
      ensures initialized && engineAnswer == Success(None) ==> r == Success([])
      ensures initialized && engineAnswer.Success? && engineAnswer.value.Some? ==>
                r == Success(engineAnswer.value.value)
    {
      var g := GetPromiser();
      if g.Fail? {
        return Failure(g.error);
      }
      match engineAnswer
      case Failure(e) => r := Failure(e);
      case Success(rows) =>
        r := Success(match rows case Some(rs) => rs case None => []);
    }

    /** getCurrentVersion, through query and its guard; CurrentVersion
        states the rule for the value. */
    method GetCurrentVersion() returns (r: Result<int, string>)
      ensures !initialized ==> r == Failure(NotInitializedMessage)
      ensures initialized ==> r == Success(CurrentVersion(store))
    {
      var g := GetPromiser();
      if g.Fail? {
        return Failure(g.error);
      }
      return Success(CurrentVersion(store));
    }

    /** runMigrations: apply the pending migrations in order, recording each
        version after its step; the first failure is thrown. */
    method RunMigrations() returns (r: Outcome<string>)
      requires Valid() && initialized
      modifies this`store
      ensures (store, r) == Apply(old(store), Pending(migrations, CurrentVersion(old(store))))
    {
      var current := GetCurrentVersion();
      var pending := Pending(migrations, current.value);
      ghost var goal := Apply(store, pending);
      var i := 0;
      while i < |pending|
        invariant 0 <= i <= |pending|
        invariant Apply(store, pending[i..]) == goal
      {
        var m := pending[i];
        ApplyUnfold(store, pending[i..]);
        assert pending[i..][1..] == pending[i + 1..];
        var up := RunUp(store, m);
        store := up.0;
        if up.1.Fail? {
          return up.1;
        }
        var rec := RecordVersion(store, m.version);
        store := rec.0;
        if rec.1.Fail? {
          return rec.1;
        }
        i := i + 1;
      }
      assert pending[i..] == [];
      return Pass;
    }

    /** init on the database that opening `dbName` yields (`db`, known to the
        engine as `openedId`): a no-op once initialised; otherwise it opens,
        and an active instance creates the `migrations` table and runs the
        pending migrations. A failed run leaves the instance initialised. */
    method Init(db: Store, openedId: string) returns (r: Outcome<string>)
      requires Valid()
      modifies this`initialized, this`dbId, this`store
      ensures Valid() && initialized
      ensures old(initialized) ==> dbId == old(dbId) && store == old(store) && r == Pass
      ensures !old(initialized) ==> dbId == Some(openedId)
      ensures !old(initialized) && isMigrationActive ==> (store, r) == Migrate(migrations, db)
      ensures !old(initialized) && !isMigrationActive ==> store == db && r == Pass
    {
      if initialized {
        return Pass;
      }
      initialized := true;
      dbId := Some(openedId);
      store := db;
      if isMigrationActive {
        store := CreateMigrationTable(store);
        r := RunMigrations();
      } else {
        r := Pass;
      }
    }

    /** close: only when a database id is set (and non-empty, as `if
        (this.dbId)` reads it). The guard, then the engine's `close`, whose
        answer is the input `engineAnswer`: when it fails, the error is
        thrown and nothing is cleared; when it succeeds, both the id and
        the guard are cleared. */
    method Close(engineAnswer: Outcome<string>) returns (r: Outcome<string>)
      requires Valid()
      modifies this`initialized, this`dbId
      ensures Valid()
      ensures old(dbId).Some? && old(dbId).value != "" ==> r == engineAnswer
      ensures old(dbId).Some? && old(dbId).value != "" && r.Pass? ==> dbId == None && !initialized
      ensures !(old(dbId).Some? && old(dbId).value != "" && r.Pass?) ==>
                dbId == old(dbId) && initialized == old(initialized)
      ensures !(old(dbId).Some? && old(dbId).value != "") ==> r == Pass
    {
      r := Pass;
      if dbId.Some? && dbId.value != "" {
        r := GetPromiser();
        if r.Fail? {
          return;
        }
        r := engineAnswer;
        if r.Fail? {
          return;
        }
        dbId := None;
        initialized := false;
      }
    }
  }

  // -----------------------------------------------------------------------
  // Clients: what a caller of the class can rely on.

  /** Open, close, then query: the query fails with the guard's message. */
  method QueryAfterCloseFails(db: Store, openedId: string) returns (r: Result<seq<int>, string>)
    requires openedId != ""
    ensures r == Failure(NotInitializedMessage)
  {
    var conn := new NeverChangeDB("test-db", None, None);
    var _ := conn.Init(db, openedId);
    var _ := conn.Close(Pass);
    r := conn.Query("SELECT 1", Success(Some([1])));
  }

  /** Run the migrations on a database, close it, open it again with a new
      instance that registers the same migrations: the second init finds
      nothing pending and leaves the database as the first one left it. */
  method ReopenAppliesNothing(db: Store, openedId: string, ms: seq<Migration>)
    returns (first: Outcome<string>, second: Outcome<string>, afterFirst: Store, afterSecond: Store)
    ensures first.Pass? ==> second == Pass && afterSecond == afterFirst
  {
    var a := new NeverChangeDB("db", None, None);
    a.AddMigrations(ms);
    first := a.Init(db, openedId);
    afterFirst := a.store;
    var _ := a.Close(Pass);
    var b := new NeverChangeDB("db", None, None);
    b.AddMigrations(ms);
    assert b.migrations == a.migrations;
    second := b.Init(afterFirst, openedId);
    afterSecond := b.store;
    if first.Pass? {
      MigrateTwiceAppliesNothing(a.migrations, db);
    }
  }
}
