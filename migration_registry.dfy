/** The migration registry of src/neverchange.ts with the SQL engine
    abstracted: the sorted list of migrations, the choice of the pending
    ones, the current-version rule and the apply-and-record loop, as pure
    functions over a value that stands for the database. */
module MigrationRegistry {
  import opened Wrappers

  /** A migration: its version and its `up` step. The step runs arbitrary
      SQL through the engine; here it is abstracted to its outcome: `None`
      when it completes, `Some(message)` when it throws. */
  datatype Migration = Migration(version: int, upError: Option<string>)

  /** src/migrations.ts: version 0, whose step always completes. */
  const InitialMigration := Migration(0, None)

  /** What this layer observes of the database: whether the `migrations`
      table exists, the `version` column of its rows in insertion order,
      and the versions whose `up` step has run to completion on it. */
  datatype Store = Store(hasMigrationTable: bool, recorded: seq<int>, applied: seq<int>)

  const NoSuchTableMessage := "no such table: migrations"
  const DuplicateVersionMessage := "UNIQUE constraint failed: migrations.version"

  // ---------------------------------------------------------------------
  // Sorting by version (addMigrations).

  ghost predicate SortedByVersion(ms: seq<Migration>)
  {
    forall i, j :: 0 <= i < j < |ms| ==> ms[i].version <= ms[j].version
  }

  /** `m` placed after every element whose version is not above its own. */
  function Insert(ms: seq<Migration>, m: Migration): (r: seq<Migration>)
    requires SortedByVersion(ms)
    ensures SortedByVersion(r)
    ensures multiset(r) == multiset(ms) + multiset{m}
    ensures |r| == |ms| + 1
    ensures r[0] == m || (ms != [] && r[0] == ms[0])
    decreases |ms|
  {
    if ms == [] then [m]
    else if m.version < ms[0].version then [m] + ms
    else
      var t := Insert(ms[1..], m);
      assert ms == [ms[0]] + ms[1..];
      assert ms[0].version <= t[0].version;
      [ms[0]] + t
  }

  /** The list as a stable sort by version leaves it: `Array.prototype.sort`
      with the comparator `a.version - b.version`. */
  function SortByVersion(ms: seq<Migration>): (r: seq<Migration>)
    ensures SortedByVersion(r)
    ensures multiset(r) == multiset(ms)
    ensures |r| == |ms|
    decreases |ms|
  {
    if ms == [] then []
    else
      var init := ms[..|ms| - 1];
      assert ms == init + [ms[|ms| - 1]];
      Insert(SortByVersion(init), ms[|ms| - 1])
  }

  /** The migrations of a given version, in list order. */
  function WithVersion(ms: seq<Migration>, v: int): seq<Migration>
    decreases |ms|
  {
    if ms == [] then []
    else (if ms[0].version == v then [ms[0]] else []) + WithVersion(ms[1..], v)
  }

  lemma {:induction false} WithVersionAppend(a: seq<Migration>, b: seq<Migration>, v: int)
    ensures WithVersion(a + b, v) == WithVersion(a, v) + WithVersion(b, v)
    decreases |a|
  {
    if a == [] {
      assert a + b == b;
    } else {
      assert (a + b)[1..] == a[1..] + b;
      WithVersionAppend(a[1..], b, v);
    }
  }

  lemma {:induction false} WithVersionAbove(ms: seq<Migration>, v: int)
    requires forall i :: 0 <= i < |ms| ==> ms[i].version > v
    ensures WithVersion(ms, v) == []
    decreases |ms|
  {
    if ms != [] {
      WithVersionAbove(ms[1..], v);
    }
  }

  lemma WithVersionCons(x: Migration, ms: seq<Migration>, v: int)
    ensures WithVersion([x] + ms, v) == (if x.version == v then [x] else []) + WithVersion(ms, v)
  {
    assert ([x] + ms)[1..] == ms;
  }

  lemma InsertFrontStable(ms: seq<Migration>, m: Migration, v: int)
    requires SortedByVersion(ms) && ms != [] && m.version < ms[0].version
    ensures WithVersion(Insert(ms, m), v)
         == WithVersion(ms, v) + (if m.version == v then [m] else [])
  {
    WithVersionCons(m, ms, v);
    if m.version == v {
      WithVersionAbove(ms, v);
    }
  }

  lemma {:induction false} InsertStable(ms: seq<Migration>, m: Migration, v: int)
    requires SortedByVersion(ms)
    ensures WithVersion(Insert(ms, m), v)
         == WithVersion(ms, v) + (if m.version == v then [m] else [])
    decreases |ms|
  {
    if ms == [] {
      WithVersionCons(m, [], v);
    } else if m.version < ms[0].version {
      InsertFrontStable(ms, m, v);
    } else {
      var t := Insert(ms[1..], m);
      assert Insert(ms, m) == [ms[0]] + t;
      InsertStable(ms[1..], m, v);
      WithVersionCons(ms[0], t, v);
      WithVersionCons(ms[0], ms[1..], v);
      assert [ms[0]] + ms[1..] == ms;
    }
  }

  /** The sort is stable: migrations of equal version keep their relative
      order. With SortedByVersion and the multiset equality this pins the
      result down completely. */
  lemma {:induction false} SortIsStable(ms: seq<Migration>, v: int)
    ensures WithVersion(SortByVersion(ms), v) == WithVersion(ms, v)
    decreases |ms|
  {
    if ms != [] {
      var init, last := ms[..|ms| - 1], ms[|ms| - 1];
      var sorted := SortByVersion(init);
      assert SortByVersion(ms) == Insert(sorted, last);
      SortIsStable(init, v);
      InsertStable(sorted, last, v);
      WithVersionSnoc(ms, v);
    }
  }

  /** Splitting off the last migration. */
  lemma WithVersionSnoc(ms: seq<Migration>, v: int)
    requires ms != []
    ensures WithVersion(ms, v) == WithVersion(ms[..|ms| - 1], v) + WithVersion([ms[|ms| - 1]], v)
  {
    var init, last := ms[..|ms| - 1], ms[|ms| - 1];
    assert ms == init + [last];
    WithVersionAppend(init, [last], v);
  }

  lemma {:induction false} InsertAtEnd(ms: seq<Migration>, m: Migration)
    requires SortedByVersion(ms)
    requires forall i :: 0 <= i < |ms| ==> ms[i].version <= m.version
    ensures Insert(ms, m) == ms + [m]
    decreases |ms|
  {
    if ms != [] {
      InsertAtEnd(ms[1..], m);
    }
  }

  /** A list that is already sorted is left exactly as it is. */
  lemma {:induction false} SortKeepsSorted(ms: seq<Migration>)
    requires SortedByVersion(ms)
    ensures SortByVersion(ms) == ms
    decreases |ms|
  {
    if ms != [] {
      var init := ms[..|ms| - 1];
      SortKeepsSorted(init);
      InsertAtEnd(init, ms[|ms| - 1]);
    }
  }

  // ---------------------------------------------------------------------
  // The current version (getCurrentVersion).

  /** `SELECT MAX(version)`: absent (SQL NULL) on an empty table. */
  function MaxVersion(vs: seq<int>): (r: Option<int>)
    ensures r.None? <==> vs == []
    ensures r.Some? ==> r.value in vs && forall v :: v in vs ==> v <= r.value
    decreases |vs|
  {
    if vs == [] then None
    else match MaxVersion(vs[1..])
      case None => Some(vs[0])
      case Some(m) =>
        assert forall v :: v in vs ==> v == vs[0] || v in vs[1..];
        Some(if vs[0] < m then m else vs[0])
  }

  /** `result[0]?.version || 0`: an absent value and 0 both give 0. */
  function VersionOrZero(v: Option<int>): (r: int)
    ensures v.None? ==> r == 0
    ensures v.Some? ==> r == v.value
  {
    match v
    case None => 0
    case Some(x) => if x == 0 then 0 else x
  }

  /** getCurrentVersion: 0 without a `migrations` table, otherwise the
      largest recorded version, or 0 when nothing is recorded. */
  function CurrentVersion(st: Store): (r: int)
    ensures !st.hasMigrationTable ==> r == 0
    ensures st.hasMigrationTable && st.recorded == [] ==> r == 0
    ensures st.hasMigrationTable && st.recorded != [] ==>
              r in st.recorded && forall v :: v in st.recorded ==> v <= r
  {
    if !st.hasMigrationTable then 0 else VersionOrZero(MaxVersion(st.recorded))
  }

  // ---------------------------------------------------------------------
  // The pending migrations (runMigrations, the filter).

  function Pending(ms: seq<Migration>, current: int): (r: seq<Migration>)
    ensures forall m :: m in r <==> m in ms && m.version > current
    ensures |r| <= |ms|
    decreases |ms|
  {
    if ms == [] then []
    else if ms[0].version > current then [ms[0]] + Pending(ms[1..], current)
    else Pending(ms[1..], current)
  }

  /** The number of leading migrations whose version is not above `current`. */
  function Cut(ms: seq<Migration>, current: int): (k: nat)
    ensures k <= |ms|
    decreases |ms|
  {
    if ms == [] || ms[0].version > current then 0 else 1 + Cut(ms[1..], current)
  }

  /** On a sorted list the pending migrations are a suffix of it: every
      migration after the cut is pending, every one before it is not, and
      they keep their sorted order. */
  lemma {:induction false} PendingIsSuffix(ms: seq<Migration>, current: int)
    requires SortedByVersion(ms)
    ensures Pending(ms, current) == ms[Cut(ms, current)..]
    ensures forall i :: 0 <= i < Cut(ms, current) ==> ms[i].version <= current
    ensures forall i :: Cut(ms, current) <= i < |ms| ==> ms[i].version > current
    decreases |ms|
  {
    if ms == [] {
    } else if ms[0].version > current {
      PendingAllAbove(ms, current);
    } else {
      PendingIsSuffix(ms[1..], current);
      var k := Cut(ms[1..], current);
      assert ms[1..][k..] == ms[k + 1..];
      forall i | 1 <= i < k + 1 ensures ms[i].version <= current {
        assert ms[i] == ms[1..][i - 1];
      }
      forall i | k + 1 <= i < |ms| ensures ms[i].version > current {
        assert ms[i] == ms[1..][i - 1];
      }
    }
  }

  lemma {:induction false} PendingAllAbove(ms: seq<Migration>, current: int)
    requires forall i :: 0 <= i < |ms| ==> ms[i].version > current
    ensures Pending(ms, current) == ms
    decreases |ms|
  {
    if ms != [] {
      PendingAllAbove(ms[1..], current);
      assert [ms[0]] + ms[1..] == ms;
    }
  }

  /** With a non-negative current version the version-0 initial migration is
      never pending. */
  lemma InitialNeverPending(ms: seq<Migration>, st: Store)
    requires forall v :: v in st.recorded ==> v >= 0
    ensures InitialMigration !in Pending(ms, CurrentVersion(st))
  {
  }

  // ---------------------------------------------------------------------
  // Applying the pending migrations (runMigrations, the loop).

  /** No version occurs twice: what the primary key of the `migrations`
      table guarantees of its rows. */
  predicate NoDuplicates(vs: seq<int>)
  {
    forall i, j :: 0 <= i < j < |vs| ==> vs[i] != vs[j]
  }

  /** `await migration.up(this)`: the step completes and its version counts
      as applied, or it throws its message and nothing changes; the
      `migrations` table is never touched. */
  function RunUp(st: Store, m: Migration): (r: (Store, Outcome<string>))
    ensures r.1.Pass? <==> m.upError.None?
    ensures r.1.Fail? ==> m.upError == Some(r.1.error)
    ensures r.0.hasMigrationTable == st.hasMigrationTable && r.0.recorded == st.recorded
    ensures r.0.applied == if r.1.Pass? then st.applied + [m.version] else st.applied
  {
    match m.upError
    case Some(e) => (st, Fail(e))
    case None => (st.(applied := st.applied + [m.version]), Pass)
  }

  /** `INSERT INTO migrations (version) VALUES (?)`: `version` is the
      table's primary key. Without the table the insert fails; with `v`
      already recorded it breaks the key; otherwise `v` is the new last row.
      Either way the rows never hold a duplicate. */
  function RecordVersion(st: Store, v: int): (r: (Store, Outcome<string>))
    ensures r.1.Pass? <==> st.hasMigrationTable && v !in st.recorded
    ensures r.1.Fail? ==> r.0 == st
    ensures r.1.Fail? ==> r.1.error == if st.hasMigrationTable then DuplicateVersionMessage else NoSuchTableMessage
    ensures r.1.Pass? ==> r.0 == st.(recorded := st.recorded + [v])
    ensures NoDuplicates(st.recorded) ==> NoDuplicates(r.0.recorded)
  {
    if !st.hasMigrationTable then (st, Fail(NoSuchTableMessage))
    else if v in st.recorded then (st, Fail(DuplicateVersionMessage))
    else (st.(recorded := st.recorded + [v]), Pass)
  }

  /** The migrations applied in order, each recorded after its step; the
      first failure ends the run and is the outcome. */
  function Apply(st: Store, ms: seq<Migration>): (r: (Store, Outcome<string>))
    ensures r.0.hasMigrationTable == st.hasMigrationTable
    ensures st.recorded <= r.0.recorded && st.applied <= r.0.applied
    decreases |ms|
  {
    if ms == [] then (st, Pass)
    else
      var (s1, o1) := RunUp(st, ms[0]);
      if o1.Fail? then (s1, o1)
      else
        var (s2, o2) := RecordVersion(s1, ms[0].version);
        if o2.Fail? then (s2, o2)
        else Apply(s2, ms[1..])
  }

  /** One step of Apply: the first migration's step, then its record. */
  lemma ApplyUnfold(st: Store, ms: seq<Migration>)
    requires ms != []
    ensures var up := RunUp(st, ms[0]);
            var rec := RecordVersion(up.0, ms[0].version);
            Apply(st, ms) == if up.1.Fail? then up else if rec.1.Fail? then rec else Apply(rec.0, ms[1..])
  {
  }

  /** However the run ends, the rows of the `migrations` table still hold
      no version twice. */
  lemma {:induction false} ApplyKeepsKeyUnique(st: Store, ms: seq<Migration>)
    requires NoDuplicates(st.recorded)
    ensures NoDuplicates(Apply(st, ms).0.recorded)
    decreases |ms|
  {
    if ms != [] {
      ApplyUnfold(st, ms);
      var up := RunUp(st, ms[0]);
      var rec := RecordVersion(up.0, ms[0].version);
      if up.1.Pass? && rec.1.Pass? {
        ApplyKeepsKeyUnique(rec.0, ms[1..]);
      }
    }
  }

  /** The versions of `ms`, in order. */
  function Versions(ms: seq<Migration>): (r: seq<int>)
    ensures |r| == |ms|
    decreases |ms|
  {
    if ms == [] then [] else [ms[0].version] + Versions(ms[1..])
  }

  lemma {:induction false} VersionsAt(ms: seq<Migration>, i: nat)
    requires i < |ms|
    ensures Versions(ms)[i] == ms[i].version
    decreases i
  {
    if i > 0 {
      VersionsAt(ms[1..], i - 1);
    }
  }

  lemma VersionsCons(ms: seq<Migration>)
    requires ms != []
    ensures Versions(ms) == [ms[0].version] + Versions(ms[1..])
  {
  }

  /** Whatever the outcome, the steps that ran are a prefix of the list, in
      its order; a version is recorded only after its step completed; and a
      run that succeeds has run and recorded every migration. */
  lemma {:induction false} ApplyInOrder(st: Store, ms: seq<Migration>)
    ensures var (e, o) := Apply(st, ms);
            && st.applied <= e.applied && st.recorded <= e.recorded
            && e.hasMigrationTable == st.hasMigrationTable
            && e.applied[|st.applied|..] <= Versions(ms)
            && e.recorded[|st.recorded|..] <= e.applied[|st.applied|..]
            && (o.Pass? ==>
                  e.applied[|st.applied|..] == Versions(ms) && e.recorded[|st.recorded|..] == Versions(ms))
    decreases |ms|
  {
    if ms == [] {
      assert st.applied[|st.applied|..] == [] && st.recorded[|st.recorded|..] == [];
    } else if ms[0].upError.Some? {
      assert Apply(st, ms) == (st, Fail(ms[0].upError.value));
      assert st.applied[|st.applied|..] == [] && st.recorded[|st.recorded|..] == [];
    } else {
      var v := ms[0].version;
      var s1 := st.(applied := st.applied + [v]);
      assert RunUp(st, ms[0]) == (s1, Pass);
      if !st.hasMigrationTable || v in st.recorded {
        assert Apply(st, ms) == (s1, RecordVersion(s1, v).1);
        assert s1.applied[|st.applied|..] == [v];
        assert s1.recorded[|st.recorded|..] == [];
        VersionsCons(ms);
      } else {
        var s2 := s1.(recorded := st.recorded + [v]);
        assert Apply(st, ms) == Apply(s2, ms[1..]);
        ApplyInOrderStep(st, ms, s2);
      }
    }
  }

  lemma ApplyInOrderStep(st: Store, ms: seq<Migration>, s2: Store)
    requires ms != []
    requires s2 == st.(applied := st.applied + [ms[0].version], recorded := st.recorded + [ms[0].version])
    requires Apply(st, ms) == Apply(s2, ms[1..])
    ensures var (e, o) := Apply(st, ms);
            && st.applied <= e.applied && st.recorded <= e.recorded
            && e.hasMigrationTable == st.hasMigrationTable
            && e.applied[|st.applied|..] <= Versions(ms)
            && e.recorded[|st.recorded|..] <= e.applied[|st.applied|..]
            && (o.Pass? ==>
                  e.applied[|st.applied|..] == Versions(ms) && e.recorded[|st.recorded|..] == Versions(ms))
    decreases |ms|, 0
  {
    var v := ms[0].version;
    ApplyInOrder(s2, ms[1..]);
    var (e, o) := Apply(s2, ms[1..]);
    VersionsCons(ms);
    var ea, er := e.applied[|s2.applied|..], e.recorded[|s2.recorded|..];
    SuffixAfter(st.applied, v, e.applied);
    SuffixAfter(st.recorded, v, e.recorded);
    PrefixCons(v, ea, Versions(ms[1..]));
    PrefixCons(v, er, ea);
  }

  lemma SuffixAfter(a: seq<int>, x: int, b: seq<int>)
    requires a + [x] <= b
    ensures a <= b && b[|a|..] == [x] + b[|a| + 1..]
  {
    assert b[..|a| + 1] == a + [x];
    assert b[|a|] == x;
  }

  lemma PrefixCons(x: int, a: seq<int>, b: seq<int>)
    requires a <= b
    ensures [x] + a <= [x] + b
  {
    assert ([x] + b)[..|a| + 1] == [x] + b[..|a|];
  }

  /** Applying `a + b` is applying `a` and, if that succeeded, `b`. */
  lemma {:induction false} ApplyConcat(st: Store, a: seq<Migration>, b: seq<Migration>)
    ensures Apply(st, a + b)
         == if Apply(st, a).1.Pass? then Apply(Apply(st, a).0, b) else Apply(st, a)
    decreases |a|
  {
    if a == [] {
      assert a + b == b;
    } else {
      assert (a + b)[0] == a[0];
      assert (a + b)[1..] == a[1..] + b;
      var (s1, o1) := RunUp(st, a[0]);
      if o1.Pass? {
        var (s2, o2) := RecordVersion(s1, a[0].version);
        if o2.Pass? {
          ApplyConcat(s2, a[1..], b);
        }
      }
    }
  }

  /** A failing step stops the run: the migrations before it are the only
      ones applied, its own version is not recorded, and its error is the
      outcome. */
  lemma StopsAtFailure(st: Store, ms: seq<Migration>, k: nat)
    requires k < |ms| && ms[k].upError.Some?
    requires Apply(st, ms[..k]).1.Pass?
    ensures Apply(st, ms) == (Apply(st, ms[..k]).0, Fail(ms[k].upError.value))
  {
    assert ms == ms[..k] + ms[k..];
    ApplyConcat(st, ms[..k], ms[k..]);
  }

  /** Distinct versions, none already recorded, every step completing and
      the table present: all of them are applied and recorded in order. */
  lemma {:induction false} ApplyAll(st: Store, ms: seq<Migration>)
    requires st.hasMigrationTable
    requires forall i :: 0 <= i < |ms| ==> ms[i].upError.None? && ms[i].version !in st.recorded
    requires forall i, j :: 0 <= i < j < |ms| ==> ms[i].version != ms[j].version
    ensures Apply(st, ms)
         == (st.(recorded := st.recorded + Versions(ms), applied := st.applied + Versions(ms)), Pass)
    decreases |ms|
  {
    if ms == [] {
      assert st.recorded + [] == st.recorded && st.applied + [] == st.applied;
    } else {
      var v := ms[0].version;
      var s1 := st.(applied := st.applied + [v]);
      assert RunUp(st, ms[0]) == (s1, Pass);
      var s2 := s1.(recorded := st.recorded + [v]);
      assert RecordVersion(s1, v) == (s2, Pass);
      assert Apply(st, ms) == Apply(s2, ms[1..]);
      var rest := ms[1..];
      forall i | 0 <= i < |rest| ensures rest[i].upError.None? && rest[i].version !in s2.recorded {
        assert rest[i] == ms[i + 1];
      }
      forall i, j | 0 <= i < j < |rest| ensures rest[i].version != rest[j].version {
        assert rest[i] == ms[i + 1] && rest[j] == ms[j + 1];
      }
      ApplyAll(s2, rest);
      VersionsCons(ms);
      assert st.recorded + [v] + Versions(rest) == st.recorded + Versions(ms);
      assert st.applied + [v] + Versions(rest) == st.applied + Versions(ms);
    }
  }

  // ---------------------------------------------------------------------
  // What init does with the migrations, given the database it opened.

  /** `CREATE TABLE IF NOT EXISTS migrations (...)`. */
  function CreateMigrationTable(st: Store): (r: Store)
    ensures r.hasMigrationTable && r.recorded == st.recorded && r.applied == st.applied
  {
    st.(hasMigrationTable := true)
  }

  /** createMigrationTable, then runMigrations, on a freshly opened database. */
  function Migrate(ms: seq<Migration>, db: Store): (r: (Store, Outcome<string>))
    ensures r.0.hasMigrationTable
    ensures db.recorded <= r.0.recorded && db.applied <= r.0.applied
  {
    var st := CreateMigrationTable(db);
    Apply(st, Pending(ms, CurrentVersion(st)))
  }

  lemma {:induction false} RecordedBelowCurrent(ms: seq<Migration>, st: Store)
    requires st.hasMigrationTable
    requires forall i :: 0 <= i < |ms| ==> ms[i].version in st.recorded
    ensures Pending(ms, CurrentVersion(st)) == []
    decreases |ms|
  {
    if ms != [] {
      RecordedBelowCurrent(ms[1..], st);
    }
  }

  /** Once a migration run has succeeded, running the same migrations on the
      resulting database (a second init after reopening it) finds nothing
      pending and changes nothing. */
  lemma MigrateTwiceAppliesNothing(ms: seq<Migration>, db: Store)
    requires Migrate(ms, db).1.Pass?
    ensures Migrate(ms, Migrate(ms, db).0) == (Migrate(ms, db).0, Pass)
  {
    var st := CreateMigrationTable(db);
    var e := Migrate(ms, db).0;
    MigratedNotAbove(ms, st);
    assert CreateMigrationTable(e) == e;
    PendingNoneAbove(ms, CurrentVersion(e));
  }

  /** After a successful run no registered migration is above the new
      current version. */
  lemma MigratedNotAbove(ms: seq<Migration>, st: Store)
    requires st.hasMigrationTable
    requires Apply(st, Pending(ms, CurrentVersion(st))).1.Pass?
    ensures var e := Apply(st, Pending(ms, CurrentVersion(st))).0;
            forall i :: 0 <= i < |ms| ==> ms[i].version <= CurrentVersion(e)
  {
    var p := Pending(ms, CurrentVersion(st));
    SuccessRecordsAll(st, p);
    RecordedNotAbove(ms, st, Apply(st, p).0);
  }

  /** A successful run appends exactly the versions it ran to the rows. */
  lemma SuccessRecordsAll(st: Store, ms: seq<Migration>)
    requires Apply(st, ms).1.Pass?
    ensures Apply(st, ms).0.recorded == st.recorded + Versions(ms)
  {
    var e := Apply(st, ms).0;
    ApplyInOrder(st, ms);
    assert e.recorded == st.recorded + e.recorded[|st.recorded|..];
  }

  lemma RecordedNotAbove(ms: seq<Migration>, st: Store, e: Store)
    requires st.hasMigrationTable && e.hasMigrationTable
    requires e.recorded == st.recorded + Versions(Pending(ms, CurrentVersion(st)))
    ensures forall i :: 0 <= i < |ms| ==> ms[i].version <= CurrentVersion(e)
  {
    forall i | 0 <= i < |ms| ensures ms[i].version <= CurrentVersion(e) {
      RecordedNotAboveAt(ms, i, st, e);
    }
  }

  lemma RecordedNotAboveAt(ms: seq<Migration>, i: nat, st: Store, e: Store)
    requires i < |ms|
    requires st.hasMigrationTable && e.hasMigrationTable
    requires e.recorded == st.recorded + Versions(Pending(ms, CurrentVersion(st)))
    ensures ms[i].version <= CurrentVersion(e)
  {
    var c := CurrentVersion(st);
    var p := Pending(ms, c);
    var m := ms[i];
    if m.version > c {
      assert m in p;
      InVersions(p, m);
      assert m.version in e.recorded;
    } else if st.recorded != [] {
      assert c in e.recorded;
    } else if e.recorded != [] {
      VersionsAt(p, 0);
      assert e.recorded[0] == p[0].version;
      assert p[0] in p;
    }
  }

  lemma InVersions(p: seq<Migration>, m: Migration)
    requires m in p
    ensures m.version in Versions(p)
  {
    var j :| 0 <= j < |p| && p[j] == m;
    VersionsAt(p, j);
  }

  lemma {:induction false} PendingNoneAbove(ms: seq<Migration>, current: int)
    requires forall i :: 0 <= i < |ms| ==> ms[i].version <= current
    ensures Pending(ms, current) == []
    decreases |ms|
  {
    if ms != [] {
      PendingNoneAbove(ms[1..], current);
    }
  }
}
