/** The migration runner (control-plane/internal/db/migrate.go). What a migration's SQL does to the schema
    is a deterministic function, None when it fails. A run may be cut off before any migration, because the
    process stops or a transaction cannot begin or commit; the `cut` parameter says after how many commits. */
module Migrate {
  import opened Text

  datatype Migration = Migration(version: int, name: string, sql: string)

  datatype Row = Row(version: int, name: string)

  /** The schema, and schema_migrations in the order of insertion. */
  datatype Db<S> = Db(schema: S, rows: seq<Row>)

  type Exec<!S> = (S, string) -> Option<S>

  datatype Status = Done | Failed(version: int) | CutOff | NotLoaded

  function Versions(rows: seq<Row>): set<int> {
    set i | 0 <= i < |rows| :: rows[i].version
  }

  /** One migration in one transaction: the SQL, then the bookkeeping row, whose version is a primary key. */
  function ApplyOne<S>(exec: Exec<S>, db: Db<S>, m: Migration): Option<Db<S>> {
    match exec(db.schema, m.sql)
    case None => None
    case Some(schema) =>
      if m.version in Versions(db.rows) then None
      else Some(Db(schema, db.rows + [Row(m.version, m.name)]))
  }

  function ApplyAll<S>(exec: Exec<S>, db: Db<S>, ms: seq<Migration>, cut: nat): (Db<S>, Status)
    decreases ms
  {
    if ms == [] then (db, Done)
    else if cut == 0 then (db, CutOff)
    else
      match ApplyOne(exec, db, ms[0])
      case None => (db, Failed(ms[0].version))
      case Some(db') => ApplyAll(exec, db', ms[1..], cut - 1)
  }

  /** The migrations whose version is not in `applied`. */
  function Pending(ms: seq<Migration>, applied: set<int>): seq<Migration> {
    if ms == [] then []
    else if ms[0].version in applied then Pending(ms[1..], applied)
    else [ms[0]] + Pending(ms[1..], applied)
  }

  function Insert(m: Migration, ms: seq<Migration>): seq<Migration> {
    if ms == [] || m.version <= ms[0].version then [m] + ms else [ms[0]] + Insert(m, ms[1..])
  }

  function SortByVersion(ms: seq<Migration>): seq<Migration> {
    if ms == [] then [] else Insert(ms[0], SortByVersion(ms[1..]))
  }

  /** One run over the given slice, cut off after at most `cut` commits. */
  function Attempt<S>(exec: Exec<S>, db: Db<S>, ms: seq<Migration>, cut: nat): (Db<S>, Status) {
    ApplyAll(exec, db, Pending(SortByVersion(ms), Versions(db.rows)), cut)
  }

  /** An uninterrupted run. */
  function FullRun<S>(exec: Exec<S>, db: Db<S>, ms: seq<Migration>): (Db<S>, Status) {
    Attempt(exec, db, ms, |ms|)
  }

  class Migrator<S> {
    const exec: Exec<S>
    var db: Db<S>

    constructor (exec: Exec<S>, db: Db<S>)
      ensures this.exec == exec && this.db == db
    {
      this.exec := exec;
      this.db := db;
    }

    method AppliedVersions() returns (applied: set<int>)
      ensures forall v :: v in applied <==> exists i :: 0 <= i < |db.rows| && db.rows[i].version == v
      ensures applied == Versions(db.rows)
    {
      applied := {};
      for i := 0 to |db.rows|
        invariant applied == set j | 0 <= j < i :: db.rows[j].version
      {
        applied := applied + {db.rows[i].version};
      }
    }

    method Apply(m: Migration) returns (ok: bool)
      modifies this`db
      ensures ok <==>
              && exec(old(db).schema, m.sql).Some?
              && forall i | 0 <= i < |old(db).rows| :: old(db).rows[i].version != m.version
      ensures ok ==>
                && db.schema == exec(old(db).schema, m.sql).value
                && db.rows == old(db).rows + [Row(m.version, m.name)]
      ensures !ok ==> db == old(db)
      ensures ok <==> ApplyOne(exec, old(db), m).Some?
      ensures db == if ok then ApplyOne(exec, old(db), m).value else old(db)
    {
      var schema := exec(db.schema, m.sql);
      if schema.None? {
        return false;
      }
      var applied := AppliedVersions();
      if m.version in applied {
        return false; // primary key violation, rolled back
      }
      db := Db(schema.value, db.rows + [Row(m.version, m.name)]);
      ok := true;
    }

    /** Sorts the caller's slice in place and applies what is pending; `loads` says whether schema_migrations
        could be created and read. */
    method Run(migrations: array<Migration>, loads: bool, cut: nat) returns (status: Status)
      modifies this`db, migrations
      ensures loads ==> migrations[..] == SortByVersion(old(migrations[..]))
                        && (db, status) == Attempt(exec, old(db), old(migrations[..]), cut)
      ensures !loads ==> migrations[..] == old(migrations[..]) && db == old(db) && status == NotLoaded
    {
      if !loads {
        return NotLoaded;
      }
      var applied := AppliedVersions();
      var sorted := SortByVersion(migrations[..]);
      SortKeepsLength(migrations[..]);
      forall i | 0 <= i < migrations.Length {
        migrations[i] := sorted[i];
      }
      assert migrations[..] == sorted;
      var left := cut;
      for i := 0 to |sorted|
        invariant migrations[..] == sorted
        invariant ApplyAll(exec, db, Pending(sorted[i..], applied), left)
                  == ApplyAll(exec, old(db), Pending(sorted, applied), cut)
      {
        var m := migrations[i];
        assert sorted[i..][1..] == sorted[i + 1..] && m == sorted[i];
        if m.version !in applied {
          assert Pending(sorted[i..], applied)[1..] == Pending(sorted[i + 1..], applied);
          if left == 0 {
            return CutOff;
          }
          var ok := Apply(m);
          if !ok {
            return Failed(m.version);
          }
          left := left - 1;
        }
      }
      status := Done;
    }
  }

  // ---- Sorting ----

  predicate Sorted(ms: seq<Migration>) {
    forall i, j | 0 <= i < j < |ms| :: ms[i].version <= ms[j].version
  }

  ghost predicate Distinct(ms: seq<Migration>) {
    forall i, j | 0 <= i < j < |ms| :: ms[i].version != ms[j].version
  }

  lemma {:induction false} InsertPermutes(m: Migration, ms: seq<Migration>)
    ensures multiset(Insert(m, ms)) == multiset(ms) + multiset{m}
  {
    if ms == [] || m.version <= ms[0].version {
    } else {
      InsertPermutes(m, ms[1..]);
      assert ms == [ms[0]] + ms[1..];
    }
  }

  lemma {:induction false} InsertSorts(m: Migration, ms: seq<Migration>)
    requires Sorted(ms)
    ensures Sorted(Insert(m, ms))
    ensures forall x | x in Insert(m, ms) :: x == m || x in ms
  {
    if ms == [] || m.version <= ms[0].version {
    } else {
      InsertSorts(m, ms[1..]);
      var r := Insert(m, ms[1..]);
      forall i | 0 <= i < |r| ensures ms[0].version <= r[i].version {
        assert r[i] in r;
      }
    }
  }

  /** Sorting gives a permutation in version order. */
  lemma {:induction false} SortSorts(ms: seq<Migration>)
    ensures multiset(SortByVersion(ms)) == multiset(ms)
    ensures Sorted(SortByVersion(ms))
  {
    if ms != [] {
      SortSorts(ms[1..]);
      InsertSorts(ms[0], SortByVersion(ms[1..]));
      InsertPermutes(ms[0], SortByVersion(ms[1..]));
      assert ms == [ms[0]] + ms[1..];
    }
  }

  lemma SortKeepsLength(ms: seq<Migration>)
    ensures |SortByVersion(ms)| == |ms|
  {
    SortSorts(ms);
    assert |multiset(ms)| == |ms|;
    assert |multiset(SortByVersion(ms))| == |SortByVersion(ms)|;
  }

  ghost predicate Strict(ms: seq<Migration>) {
    forall i, j | 0 <= i < j < |ms| :: ms[i].version < ms[j].version
  }

  /** The same migrations, in any order, with distinct versions. */
  ghost predicate SameMigrations(ms: seq<Migration>, ms': seq<Migration>) {
    Distinct(ms) && Distinct(ms') && forall m :: m in ms <==> m in ms'
  }

  lemma {:induction false} InsertStrict(m: Migration, ms: seq<Migration>)
    requires Strict(ms) && forall x | x in ms :: x.version != m.version
    ensures Strict(Insert(m, ms))
    ensures forall x :: x in Insert(m, ms) <==> x == m || x in ms
  {
    if ms == [] || m.version <= ms[0].version {
    } else {
      InsertStrict(m, ms[1..]);
      assert ms == [ms[0]] + ms[1..];
      var r := Insert(m, ms[1..]);
      forall i | 0 <= i < |r| ensures ms[0].version < r[i].version {
        assert r[i] in r;
      }
    }
  }

  lemma {:induction false} SortStrict(ms: seq<Migration>)
    requires Distinct(ms)
    ensures Strict(SortByVersion(ms))
    ensures forall m :: m in SortByVersion(ms) <==> m in ms
  {
    if ms != [] {
      SortStrict(ms[1..]);
      assert ms == [ms[0]] + ms[1..];
      InsertStrict(ms[0], SortByVersion(ms[1..]));
    }
  }

  lemma TailMembers(ms: seq<Migration>, m: Migration)
    requires Strict(ms) && ms != []
    ensures m in ms[1..] <==> m in ms && m != ms[0]
  {
    assert ms == [ms[0]] + ms[1..];
    if m in ms[1..] {
      var i :| 0 <= i < |ms[1..]| && ms[1..][i] == m;
      assert ms[0].version < ms[i + 1].version;
    }
  }

  /** A strictly sorted sequence is determined by its elements. */
  lemma {:induction false} StrictUnique(a: seq<Migration>, b: seq<Migration>)
    requires Strict(a) && Strict(b) && forall m :: m in a <==> m in b
    ensures a == b
  {
    if b != [] {
      assert b[0] in b;
    }
    if a != [] {
      assert a[0] in b && b[0] in a;
      assert a[0] == b[0];
      forall m ensures m in a[1..] <==> m in b[1..] {
        TailMembers(a, m);
        TailMembers(b, m);
      }
      StrictUnique(a[1..], b[1..]);
      assert a == [a[0]] + a[1..] && b == [b[0]] + b[1..];
    }
  }

  /** The order of the input slice does not matter. */
  lemma SortIgnoresOrder(ms: seq<Migration>, ms': seq<Migration>)
    requires SameMigrations(ms, ms')
    ensures SortByVersion(ms) == SortByVersion(ms')
  {
    SortStrict(ms);
    SortStrict(ms');
    StrictUnique(SortByVersion(ms), SortByVersion(ms'));
  }

  /** A full run ends the same for every order of the caller's slice. */
  lemma FullRunIgnoresOrder<S>(exec: Exec<S>, db: Db<S>, ms: seq<Migration>, ms': seq<Migration>)
    requires SameMigrations(ms, ms')
    ensures FullRun(exec, db, ms) == FullRun(exec, db, ms')
  {
    SortIgnoresOrder(ms, ms');
    SortKeepsLength(ms);
    SortKeepsLength(ms');
  }

  // ---- Interrupted runs ----

  function RowsOf(ms: seq<Migration>): seq<Row> {
    seq(|ms|, i requires 0 <= i < |ms| => Row(ms[i].version, ms[i].name))
  }

  /** What the SQL of a list of migrations does to a schema, None when one of them fails. */
  function SchemaAfter<S>(exec: Exec<S>, schema: S, ms: seq<Migration>): Option<S>
    decreases ms
  {
    if ms == [] then Some(schema)
    else
      match exec(schema, ms[0].sql)
      case None => None
      case Some(next) => SchemaAfter(exec, next, ms[1..])
  }

  lemma PrefixCons(ms: seq<Migration>, k: nat)
    requires k < |ms|
    ensures ms[..k + 1] != [] && ms[..k + 1][0] == ms[0] && ms[..k + 1][1..] == ms[1..][..k]
    ensures ms[1..][k..] == ms[k + 1..]
    ensures RowsOf(ms[..k + 1]) == [Row(ms[0].version, ms[0].name)] + RowsOf(ms[1..][..k])
  {
  }

  /** An interrupted run commits a prefix of what it was to apply, and applying the rest from there ends
      exactly as applying everything from the start. */
  lemma {:induction false} PrefixCommitted<S>(exec: Exec<S>, db: Db<S>, ms: seq<Migration>, cut: nat) returns (j: nat)
    ensures j <= |ms| && j <= cut
    ensures ApplyAll(exec, db, ms, cut).0.rows == db.rows + RowsOf(ms[..j])
    ensures SchemaAfter(exec, db.schema, ms[..j]) == Some(ApplyAll(exec, db, ms, cut).0.schema)
    ensures ApplyAll(exec, db, ms, cut).1 == Done ==> j == |ms|
    ensures forall n: nat | n >= |ms| ::
              ApplyAll(exec, db, ms, n) == ApplyAll(exec, ApplyAll(exec, db, ms, cut).0, ms[j..], |ms| - j)
    decreases ms
  {
    j := 0;
    assert RowsOf(ms[..0]) == [];
    assert ms[0..] == ms;
    if ms == [] || cut == 0 {
      EnoughFuel(exec, db, ms);
    } else {
      match ApplyOne(exec, db, ms[0])
      case None =>
        EnoughFuel(exec, db, ms);
      case Some(db') =>
        var k := PrefixCommitted(exec, db', ms[1..], cut - 1);
        j := k + 1;
        PrefixCons(ms, k);
        EnoughFuel(exec, db, ms);
    }
  }

  /** Where a run stops: at the end, at the cut, or at the first migration whose SQL fails or whose version is
      recorded, and then it names that version. */
  lemma {:induction false} StopsWhere<S>(exec: Exec<S>, db: Db<S>, ms: seq<Migration>, cut: nat) returns (j: nat)
    ensures j <= |ms| && j <= cut
    ensures ApplyAll(exec, db, ms, cut).0.rows == db.rows + RowsOf(ms[..j])
    ensures var (db', status) := ApplyAll(exec, db, ms, cut);
            match status
            case Done => j == |ms|
            case CutOff => j == cut < |ms|
            case Failed(v) =>
              && j < |ms| && v == ms[j].version
              && (exec(db'.schema, ms[j].sql).None? || exists i :: 0 <= i < |db'.rows| && db'.rows[i].version == v)
            case NotLoaded => false
    decreases ms
  {
    j := 0;
    assert RowsOf(ms[..0]) == [];
    if ms != [] && cut > 0 && ApplyOne(exec, db, ms[0]).Some? {
      var k := StopsWhere(exec, ApplyOne(exec, db, ms[0]).value, ms[1..], cut - 1);
      j := k + 1;
      PrefixCons(ms, k);
    }
  }

  /** What is pending: every migration of the slice whose version is not recorded, as often as the slice holds it,
      and no other, in version order. */
  lemma PendingIs(ms: seq<Migration>, applied: set<int>, m: Migration)
    ensures var pending := Pending(SortByVersion(ms), applied);
            && multiset(pending)[m] == (if m.version in applied then 0 else multiset(ms)[m])
            && forall i, j | 0 <= i < j < |pending| :: pending[i].version <= pending[j].version
  {
    SortSorts(ms);
    PendingCount(SortByVersion(ms), applied, m);
    PendingSorted(SortByVersion(ms), applied);
  }

  lemma {:induction false} PendingCount(ms: seq<Migration>, applied: set<int>, m: Migration)
    ensures multiset(Pending(ms, applied))[m] == if m.version in applied then 0 else multiset(ms)[m]
  {
    if ms != [] {
      PendingCount(ms[1..], applied, m);
      assert ms == [ms[0]] + ms[1..];
    }
  }

  lemma {:induction false} PendingSorted(ms: seq<Migration>, applied: set<int>)
    requires Sorted(ms)
    ensures Sorted(Pending(ms, applied))
  {
    if ms != [] {
      PendingSorted(ms[1..], applied);
      PendingShorter(ms[1..], applied);
      var rest := Pending(ms[1..], applied);
      forall i | 0 <= i < |rest| ensures ms[0].version <= rest[i].version {
        assert rest[i] in ms[1..];
        var k :| 0 <= k < |ms[1..]| && ms[1..][k] == rest[i];
        assert ms[0].version <= ms[k + 1].version;
      }
    }
  }

  lemma {:induction false} EnoughFuel<S>(exec: Exec<S>, db: Db<S>, ms: seq<Migration>)
    ensures forall n: nat | n >= |ms| :: ApplyAll(exec, db, ms, n) == ApplyAll(exec, db, ms, |ms|)
    ensures ApplyAll(exec, db, ms, |ms|).1 != CutOff
    decreases ms
  {
    if ms != [] && ApplyOne(exec, db, ms[0]).Some? {
      EnoughFuel(exec, ApplyOne(exec, db, ms[0]).value, ms[1..]);
    }
  }

  lemma {:induction false} PendingShorter(ms: seq<Migration>, applied: set<int>)
    ensures |Pending(ms, applied)| <= |ms|
    ensures forall m :: m in Pending(ms, applied) <==> m in ms && m.version !in applied
  {
    if ms != [] {
      PendingShorter(ms[1..], applied);
      assert ms == [ms[0]] + ms[1..];
    }
  }

  lemma {:induction false} PendingSame(ms: seq<Migration>, applied: set<int>, applied': set<int>)
    requires forall m | m in ms :: m.version in applied <==> m.version in applied'
    ensures Pending(ms, applied) == Pending(ms, applied')
  {
    if ms != [] {
      assert ms[0] in ms;
      PendingSame(ms[1..], applied, applied');
    }
  }

  lemma TailDiffers(ms: seq<Migration>)
    requires Strict(ms) && ms != []
    ensures forall m | m in ms[1..] :: m.version != ms[0].version
  {
    forall m | m in ms[1..] ensures m.version != ms[0].version {
      var i :| 0 <= i < |ms[1..]| && ms[1..][i] == m;
      assert ms[0].version < ms[i + 1].version;
    }
  }

  /** After a prefix of the pending list was committed, the rest is what is pending. */
  lemma {:induction false} PendingAfter(ms: seq<Migration>, applied: set<int>, j: nat)
    requires Strict(ms) && j <= |Pending(ms, applied)|
    ensures Pending(ms, applied + Versions(RowsOf(Pending(ms, applied)[..j]))) == Pending(ms, applied)[j..]
  {
    var pending := Pending(ms, applied);
    if j == 0 {
      assert Versions(RowsOf(pending[..0])) == {};
      assert applied + {} == applied;
    } else if ms[0].version in applied {
      PendingAfter(ms[1..], applied, j);
    } else {
      var rest := Pending(ms[1..], applied);
      var later := Versions(RowsOf(rest[..j - 1]));
      PendingAfter(ms[1..], applied, j - 1);
      VersionsCons(ms[0], rest[..j - 1]);
      assert pending[..j] == [ms[0]] + rest[..j - 1];
      assert pending[j..] == rest[j - 1..];
      TailDiffers(ms);
      PendingSame(ms[1..], applied + later, applied + ({ms[0].version} + later));
    }
  }

  lemma VersionsCons(m: Migration, ms: seq<Migration>)
    ensures Versions(RowsOf([m] + ms)) == {m.version} + Versions(RowsOf(ms))
  {
    var all, rest := RowsOf([m] + ms), RowsOf(ms);
    forall v ensures v in Versions(all) <==> v == m.version || v in Versions(rest) {
      if v in Versions(rest) {
        var i :| 0 <= i < |rest| && rest[i].version == v;
        assert all[i + 1].version == v;
      }
      if v in Versions(all) {
        var i :| 0 <= i < |all| && all[i].version == v;
        assert i > 0 ==> rest[i - 1].version == v;
      }
      assert all[0].version == m.version;
    }
  }

  lemma VersionsConcat(a: seq<Row>, b: seq<Row>)
    ensures Versions(a + b) == Versions(a) + Versions(b)
  {
    forall v ensures v in Versions(a + b) <==> v in Versions(a) || v in Versions(b) {
      if v in Versions(a) {
        var i :| 0 <= i < |a| && a[i].version == v;
        assert (a + b)[i].version == v;
      }
      if v in Versions(b) {
        var i :| 0 <= i < |b| && b[i].version == v;
        assert (a + b)[|a| + i].version == v;
      }
    }
  }

  /** However a run was cut off, a full run over the same migrations in any order then ends as it would
      have without the first one: same outcome, same schema, same rows. The first run committed a prefix of
      the sorted pending list. */
  lemma ResumeIsFullRun<S>(exec: Exec<S>, db: Db<S>, first: seq<Migration>, cut: nat, ms: seq<Migration>)
    returns (j: nat)
    requires SameMigrations(ms, first)
    ensures FullRun(exec, Attempt(exec, db, first, cut).0, ms) == FullRun(exec, db, ms)
    ensures var pending := Pending(SortByVersion(ms), Versions(db.rows));
            j <= |pending| && j <= cut
            && Attempt(exec, db, first, cut).0.rows == db.rows + RowsOf(pending[..j])
            && SchemaAfter(exec, db.schema, pending[..j]) == Some(Attempt(exec, db, first, cut).0.schema)
            && (Attempt(exec, db, first, cut).1 == Done ==> j == |pending|)
            && Pending(SortByVersion(ms), Versions(Attempt(exec, db, first, cut).0.rows)) == pending[j..]
  {
    SortIgnoresOrder(ms, first);
    SortStrict(ms);
    SortKeepsLength(ms);
    var sorted := SortByVersion(ms);
    var pending := Pending(sorted, Versions(db.rows));
    j := PrefixCommitted(exec, db, pending, cut);
    var db1 := Attempt(exec, db, first, cut).0;
    VersionsConcat(db.rows, RowsOf(pending[..j]));
    PendingAfter(sorted, Versions(db.rows), j);
    assert Pending(sorted, Versions(db1.rows)) == pending[j..];
    PendingShorter(sorted, Versions(db.rows));
    EnoughFuel(exec, db1, pending[j..]);
  }

  datatype Try = Try(ms: seq<Migration>, cut: nat)

  function Attempts<S>(exec: Exec<S>, db: Db<S>, tries: seq<Try>): Db<S>
    decreases tries
  {
    if tries == [] then db else Attempts(exec, Attempt(exec, db, tries[0].ms, tries[0].cut).0, tries[1..])
  }

  /** Restart confluence: any series of runs, each cut off anywhere, followed by a full run, ends as a single
      full run does. */
  lemma {:induction false} RestartConfluence<S>(exec: Exec<S>, db: Db<S>, tries: seq<Try>, ms: seq<Migration>)
    requires forall i | 0 <= i < |tries| :: SameMigrations(ms, tries[i].ms)
    ensures FullRun(exec, Attempts(exec, db, tries), ms) == FullRun(exec, db, ms)
    decreases tries
  {
    if tries != [] {
      var _ := ResumeIsFullRun(exec, db, tries[0].ms, tries[0].cut, ms);
      RestartConfluence(exec, Attempt(exec, db, tries[0].ms, tries[0].cut).0, tries[1..], ms);
    }
  }

  lemma {:induction false} SchemaConcat<S>(exec: Exec<S>, schema: S, a: seq<Migration>, b: seq<Migration>)
    requires SchemaAfter(exec, schema, a).Some?
    ensures SchemaAfter(exec, schema, a + b) == SchemaAfter(exec, SchemaAfter(exec, schema, a).value, b)
    decreases a
  {
    if a == [] {
      assert a + b == b;
    } else {
      assert (a + b)[1..] == a[1..] + b;
      SchemaConcat(exec, exec(schema, a[0].sql).value, a[1..], b);
    }
  }

  /** Committing a prefix and then a prefix of the rest commits a longer prefix. */
  lemma PrefixesCompose<S>(exec: Exec<S>, a: Db<S>, b: Db<S>, c: Db<S>, ms: seq<Migration>, k: nat, l: nat)
    requires k + l <= |ms|
    requires b.rows == a.rows + RowsOf(ms[..k]) && SchemaAfter(exec, a.schema, ms[..k]) == Some(b.schema)
    requires c.rows == b.rows + RowsOf(ms[k..][..l]) && SchemaAfter(exec, b.schema, ms[k..][..l]) == Some(c.schema)
    ensures c.rows == a.rows + RowsOf(ms[..k + l]) && SchemaAfter(exec, a.schema, ms[..k + l]) == Some(c.schema)
  {
    var first, second := ms[..k], ms[k..][..l];
    assert ms[..k + l] == first + second;
    assert RowsOf(first + second) == RowsOf(first) + RowsOf(second);
    SchemaConcat(exec, a.schema, first, second);
  }

  /** At every moment of a series of interrupted runs, what they committed is a prefix of the sorted pending list. */
  lemma {:induction false} CommitsArePrefix<S>(exec: Exec<S>, db: Db<S>, tries: seq<Try>, ms: seq<Migration>)
    returns (j: nat)
    requires Distinct(ms) && forall i | 0 <= i < |tries| :: SameMigrations(ms, tries[i].ms)
    ensures var pending := Pending(SortByVersion(ms), Versions(db.rows));
            && j <= |pending|
            && Attempts(exec, db, tries).rows == db.rows + RowsOf(pending[..j])
            && SchemaAfter(exec, db.schema, pending[..j]) == Some(Attempts(exec, db, tries).schema)
    decreases tries
  {
    var pending := Pending(SortByVersion(ms), Versions(db.rows));
    if tries == [] {
      j := 0;
      assert RowsOf(pending[..0]) == [];
    } else {
      var k := ResumeIsFullRun(exec, db, tries[0].ms, tries[0].cut, ms);
      var db1 := Attempt(exec, db, tries[0].ms, tries[0].cut).0;
      var l := CommitsArePrefix(exec, db1, tries[1..], ms);
      j := k + l;
      PrefixesCompose(exec, db, db1, Attempts(exec, db, tries), pending, k, l);
    }
  }

  predicate DistinctRows(rows: seq<Row>) {
    forall i, j | 0 <= i < j < |rows| :: rows[i].version != rows[j].version
  }

  lemma {:induction false} ApplyAllKeepsDistinct<S>(exec: Exec<S>, db: Db<S>, ms: seq<Migration>, cut: nat)
    requires DistinctRows(db.rows)
    ensures DistinctRows(ApplyAll(exec, db, ms, cut).0.rows)
    decreases ms
  {
    if ms != [] && cut > 0 && ApplyOne(exec, db, ms[0]).Some? {
      forall i | 0 <= i < |db.rows| ensures db.rows[i].version != ms[0].version {
        assert db.rows[i].version in Versions(db.rows);
      }
      ApplyAllKeepsDistinct(exec, ApplyOne(exec, db, ms[0]).value, ms[1..], cut - 1);
    }
  }

  /** No version commits twice, over any series of interrupted runs over any slices. */
  lemma {:induction false} NoneCommitsTwice<S>(exec: Exec<S>, db: Db<S>, tries: seq<Try>)
    requires DistinctRows(db.rows)
    ensures DistinctRows(Attempts(exec, db, tries).rows)
    decreases tries
  {
    if tries != [] {
      var sorted := SortByVersion(tries[0].ms);
      ApplyAllKeepsDistinct(exec, db, Pending(sorted, Versions(db.rows)), tries[0].cut);
      NoneCommitsTwice(exec, Attempt(exec, db, tries[0].ms, tries[0].cut).0, tries[1..]);
    }
  }

  // ---- When a run completes ----

  lemma {:induction false} AppliedAreDistinct<S>(exec: Exec<S>, db: Db<S>, ms: seq<Migration>, cut: nat)
    requires ApplyAll(exec, db, ms, cut).1 == Done
    ensures Distinct(ms) && SchemaAfter(exec, db.schema, ms).Some?
    ensures forall m | m in ms :: m.version !in Versions(db.rows)
    decreases ms
  {
    if ms != [] {
      var db' := ApplyOne(exec, db, ms[0]).value;
      AppliedAreDistinct(exec, db', ms[1..], cut - 1);
      VersionsConcat(db.rows, [Row(ms[0].version, ms[0].name)]);
      assert ms[0].version in Versions([Row(ms[0].version, ms[0].name)]) by {
        assert [Row(ms[0].version, ms[0].name)][0].version == ms[0].version;
      }
      assert ms == [ms[0]] + ms[1..];
      forall j | 0 < j < |ms| ensures ms[j].version != ms[0].version {
        assert ms[j] == ms[1..][j - 1] && ms[1..][j - 1] in ms[1..];
      }
      forall i, j | 0 <= i < j < |ms| ensures ms[i].version != ms[j].version {
        if i > 0 {
          assert ms[i] == ms[1..][i - 1] && ms[j] == ms[1..][j - 1];
        }
      }
    }
  }

  /** Distinct, unrecorded migrations whose SQL works are all applied. */
  lemma {:induction false} AppliesEverything<S>(exec: Exec<S>, db: Db<S>, ms: seq<Migration>)
    requires Distinct(ms) && forall m | m in ms :: m.version !in Versions(db.rows)
    requires SchemaAfter(exec, db.schema, ms).Some?
    ensures ApplyAll(exec, db, ms, |ms|).1 == Done
    ensures ApplyAll(exec, db, ms, |ms|).0.rows == db.rows + RowsOf(ms)
    decreases ms
  {
    if ms == [] {
      assert RowsOf(ms) == [];
    } else {
      assert ms[0] in ms;
      var row := Row(ms[0].version, ms[0].name);
      var db' := Db(exec(db.schema, ms[0].sql).value, db.rows + [row]);
      assert ApplyOne(exec, db, ms[0]) == Some(db');
      forall m | m in ms[1..] ensures m.version !in Versions(db'.rows) {
        var k :| 0 <= k < |ms[1..]| && ms[1..][k] == m;
        assert m == ms[k + 1] && ms[0].version != ms[k + 1].version;
        assert m in ms && m.version !in Versions(db.rows);
        VersionsConcat(db.rows, [row]);
      }
      AppliesEverything(exec, db', ms[1..]);
      assert RowsOf(ms) == [row] + RowsOf(ms[1..]);
    }
  }

  /** How many migrations of a slice have this version. */
  function Copies(ms: seq<Migration>, v: int): nat {
    if ms == [] then 0 else (if ms[0].version == v then 1 else 0) + Copies(ms[1..], v)
  }

  lemma {:induction false} CopiesInSorted(ms: seq<Migration>, v: int)
    ensures Copies(SortByVersion(ms), v) == Copies(ms, v)
  {
    if ms != [] {
      CopiesInSorted(ms[1..], v);
      CopiesInserted(ms[0], SortByVersion(ms[1..]), v);
    }
  }

  lemma {:induction false} CopiesInserted(m: Migration, ms: seq<Migration>, v: int)
    ensures Copies(Insert(m, ms), v) == Copies([m] + ms, v)
  {
    assert ([m] + ms)[1..] == ms;
    if ms != [] && m.version > ms[0].version {
      CopiesInserted(m, ms[1..], v);
      assert ([m] + ms[1..])[1..] == ms[1..];
      assert Insert(m, ms)[1..] == Insert(m, ms[1..]);
    }
  }

  lemma {:induction false} CopiesPending(ms: seq<Migration>, applied: set<int>, v: int)
    requires v !in applied
    ensures Copies(Pending(ms, applied), v) == Copies(ms, v)
  {
    if ms != [] {
      CopiesPending(ms[1..], applied, v);
      if ms[0].version !in applied {
        assert Pending(ms, applied)[1..] == Pending(ms[1..], applied);
      }
    }
  }

  lemma {:induction false} CopiesMember(ms: seq<Migration>, v: int)
    ensures Copies(ms, v) > 0 <==> exists i :: 0 <= i < |ms| && ms[i].version == v
  {
    if ms != [] {
      CopiesMember(ms[1..], v);
      if i :| 0 <= i < |ms[1..]| && ms[1..][i].version == v {
        assert ms[i + 1].version == v;
      }
      if i :| 0 <= i < |ms| && ms[i].version == v {
        assert i > 0 ==> ms[1..][i - 1].version == v;
      }
    }
  }

  lemma {:induction false} CopiesDistinct(ms: seq<Migration>)
    ensures Distinct(ms) <==> forall v :: Copies(ms, v) <= 1
  {
    if ms != [] {
      var rest := ms[1..];
      CopiesDistinct(rest);
      CopiesMember(rest, ms[0].version);
      if Distinct(ms) {
        forall i, j | 0 <= i < j < |rest| ensures rest[i].version != rest[j].version {
          assert ms[i + 1].version != ms[j + 1].version;
        }
        forall i | 0 <= i < |rest| ensures rest[i].version != ms[0].version {
          assert ms[0].version != ms[i + 1].version;
        }
        forall v ensures Copies(ms, v) <= 1 {
          assert Copies(rest, v) <= 1;
        }
      } else {
        var i, j :| 0 <= i < j < |ms| && ms[i].version == ms[j].version;
        assert rest[j - 1] == ms[j];
        if i > 0 {
          assert rest[i - 1] == ms[i];
          assert !Distinct(rest);
          var v :| Copies(rest, v) > 1;
          assert Copies(ms, v) > 1;
        } else {
          assert Copies(ms, ms[0].version) > 1;
        }
      }
    }
  }

  /** No version that is still to be applied stands in the slice twice. */
  ghost predicate NoneRepeated<S>(db: Db<S>, ms: seq<Migration>) {
    forall v | v !in Versions(db.rows) :: Copies(ms, v) <= 1
  }

  lemma PendingDistinct<S>(db: Db<S>, ms: seq<Migration>)
    ensures Distinct(Pending(SortByVersion(ms), Versions(db.rows))) <==> NoneRepeated(db, ms)
  {
    var applied := Versions(db.rows);
    var sorted := SortByVersion(ms);
    var pending := Pending(sorted, applied);
    PendingShorter(sorted, applied);
    CopiesDistinct(pending);
    forall v ensures Copies(pending, v) == if v in applied then 0 else Copies(ms, v) {
      CopiesMember(pending, v);
      if v in applied {
        assert forall i | 0 <= i < |pending| :: pending[i] in pending;
      } else {
        CopiesInSorted(ms, v);
        CopiesPending(sorted, applied, v);
      }
    }
    if Distinct(pending) {
      forall v | v !in applied ensures Copies(ms, v) <= 1 {
        assert Copies(pending, v) <= 1;
      }
    } else {
      var v :| Copies(pending, v) > 1;
      assert v !in applied && Copies(ms, v) > 1;
    }
  }

  /** Exactly when a run over a slice completes: the SQL of the pending migrations works in version order, and no
      pending version is repeated. */
  lemma DoneIff<S>(exec: Exec<S>, db: Db<S>, ms: seq<Migration>)
    ensures FullRun(exec, db, ms).1 == Done <==>
            NoneRepeated(db, ms)
            && SchemaAfter(exec, db.schema, Pending(SortByVersion(ms), Versions(db.rows))).Some?
  {
    var pending := Pending(SortByVersion(ms), Versions(db.rows));
    SortKeepsLength(ms);
    PendingShorter(SortByVersion(ms), Versions(db.rows));
    PendingDistinct(db, ms);
    EnoughFuel(exec, db, pending);
    if FullRun(exec, db, ms).1 == Done {
      AppliedAreDistinct(exec, db, pending, |ms|);
    } else if Distinct(pending) && SchemaAfter(exec, db.schema, pending).Some? {
      AppliesEverything(exec, db, pending);
    }
  }

  /** A run that ends well, cut off or not, was over a slice that repeats no pending version. */
  lemma DoneMeansDistinct<S>(exec: Exec<S>, db: Db<S>, ms: seq<Migration>, cut: nat)
    requires Attempt(exec, db, ms, cut).1 == Done
    ensures NoneRepeated(db, ms)
    ensures Attempt(exec, db, ms, cut) == FullRun(exec, db, ms)
  {
    var _ := PrefixCommitted(exec, db, Pending(SortByVersion(ms), Versions(db.rows)), cut);
    SortKeepsLength(ms);
    PendingShorter(SortByVersion(ms), Versions(db.rows));
    DoneIff(exec, db, ms);
  }

  // ---- Upgrades ----

  ghost predicate AllBelow(a: seq<Migration>, b: seq<Migration>) {
    forall m, n | m in a && n in b :: m.version < n.version
  }

  lemma SortOfUpgrade(a: seq<Migration>, b: seq<Migration>)
    requires Distinct(a + b) && AllBelow(a, b)
    ensures SortByVersion(a + b) == SortByVersion(a) + SortByVersion(b)
    ensures Strict(SortByVersion(a + b))
  {
    DistinctParts(a, b);
    SortStrict(a);
    SortStrict(b);
    SortStrict(a + b);
    var sa, sb := SortByVersion(a), SortByVersion(b);
    var both: seq<Migration> := sa + sb;
    forall i, j | 0 <= i < j < |both| ensures both[i].version < both[j].version {
      if i < |sa| <= j {
        assert sa[i] in a && sb[j - |sa|] in b;
      }
    }
    StrictUnique(SortByVersion(a + b), both);
  }

  lemma DistinctParts(a: seq<Migration>, b: seq<Migration>)
    requires Distinct(a + b)
    ensures Distinct(a) && Distinct(b)
  {
    forall i, j | 0 <= i < j < |a| ensures a[i].version != a[j].version {
      assert a[i] == (a + b)[i] && a[j] == (a + b)[j];
    }
    forall i, j | 0 <= i < j < |b| ensures b[i].version != b[j].version {
      assert b[i] == (a + b)[|a| + i] && b[j] == (a + b)[|a| + j];
    }
  }

  lemma {:induction false} PendingConcat(a: seq<Migration>, b: seq<Migration>, applied: set<int>)
    ensures Pending(a + b, applied) == Pending(a, applied) + Pending(b, applied)
  {
    if a == [] {
      assert a + b == b;
    } else {
      assert (a + b)[1..] == a[1..] + b;
      PendingConcat(a[1..], b, applied);
    }
  }

  /** Applying a list to the end leaves the database where applying a longer list, cut off there, does. */
  lemma {:induction false} ApplyPrefix<S>(exec: Exec<S>, db: Db<S>, a: seq<Migration>, b: seq<Migration>)
    ensures ApplyAll(exec, db, a, |a|).0 == ApplyAll(exec, db, a + b, |a|).0
    decreases a
  {
    if a != [] {
      assert (a + b)[0] == a[0] && (a + b)[1..] == a[1..] + b;
      if ApplyOne(exec, db, a[0]).Some? {
        ApplyPrefix(exec, ApplyOne(exec, db, a[0]).value, a[1..], b);
      }
    }
  }

  /** Running a list and later the list extended by migrations of larger versions reaches the same state, with
      the same outcome, as running the extended list once. */
  lemma IncrementalUpgrade<S>(exec: Exec<S>, db: Db<S>, a: seq<Migration>, b: seq<Migration>)
    requires Distinct(a + b) && AllBelow(a, b)
    ensures FullRun(exec, FullRun(exec, db, a).0, a + b) == FullRun(exec, db, a + b)
  {
    SortOfUpgrade(a, b);
    SortKeepsLength(a);
    var applied := Versions(db.rows);
    var pa, pb := Pending(SortByVersion(a), applied), Pending(SortByVersion(b), applied);
    PendingConcat(SortByVersion(a), SortByVersion(b), applied);
    PendingShorter(SortByVersion(a), applied);
    EnoughFuel(exec, db, pa);
    ApplyPrefix(exec, db, pa, pb);
    assert FullRun(exec, db, a).0 == Attempt(exec, db, a + b, |pa|).0;
    var _ := ResumeIsFullRun(exec, db, a + b, |pa|, a + b);
  }

  lemma PendingOfNew(ms: seq<Migration>)
    ensures Pending(ms, {}) == ms
  {
  }

  /** On an empty database a list whose SQL never fails is recorded whole, in version order. */
  lemma FromEmpty<S>(s: S, ms: seq<Migration>)
    requires Distinct(ms)
    ensures var exec: Exec<S> := (schema, sql) => Some(s);
            FullRun(exec, Db(s, []), ms).0.rows == RowsOf(SortByVersion(ms))
  {
    var exec: Exec<S> := (schema, sql) => Some(s);
    var db: Db<S> := Db(s, []);
    SortStrict(ms);
    SortKeepsLength(ms);
    assert Versions(db.rows) == {};
    PendingOfNew(SortByVersion(ms));
    NeverFails(s, SortByVersion(ms));
    AppliesEverything(exec, db, SortByVersion(ms));
    assert [] + RowsOf(SortByVersion(ms)) == RowsOf(SortByVersion(ms));
  }

  lemma {:induction false} NeverFails<S>(s: S, ms: seq<Migration>)
    ensures var exec: Exec<S> := (schema, sql) => Some(s); SchemaAfter(exec, s, ms) == Some(s)
  {
    if ms != [] {
      NeverFails(s, ms[1..]);
    }
  }

  /** If the rows of `a`, sorted, start the rows of `a + b`, sorted, then all of `a` lies below all of `b`. */
  lemma PrefixMeansBelow(a: seq<Migration>, b: seq<Migration>)
    requires Distinct(a + b)
    requires RowsOf(SortByVersion(a)) <= RowsOf(SortByVersion(a + b))
    ensures AllBelow(a, b)
  {
    DistinctParts(a, b);
    SortStrict(a);
    SortStrict(a + b);
    var sa, all := SortByVersion(a), SortByVersion(a + b);
    forall i | 0 <= i < |sa| ensures all[i].version == sa[i].version {
      assert RowsOf(all)[i] == RowsOf(sa)[i];
    }
    forall m, n | m in a && n in b ensures m.version < n.version {
      var i :| 0 <= i < |sa| && sa[i] == m;
      assert n in a + b;
      var j :| 0 <= j < |all| && all[j] == n;
      if j < |sa| {
        ApartFromRest(a, b, sa[j], n);
      }
    }
  }

  lemma ApartFromRest(a: seq<Migration>, b: seq<Migration>, m: Migration, n: Migration)
    requires Distinct(a + b) && m in a && n in b
    ensures m.version != n.version
  {
    var i :| 0 <= i < |a| && a[i] == m;
    var j :| 0 <= j < |b| && b[j] == n;
    assert (a + b)[i] == m && (a + b)[|a| + j] == n;
  }

  ghost predicate UpgradesAlike<S>(exec: Exec<S>, db: Db<S>, a: seq<Migration>, b: seq<Migration>) {
    FullRun(exec, FullRun(exec, db, a).0, a + b) == FullRun(exec, db, a + b)
  }

  /** The exact condition: upgrading in two steps ends as upgrading at once, whatever the SQL does and whatever
      was applied before, if and only if every added version is larger than every earlier one. */
  lemma IncrementalUpgradeIff<S(!new)>(s: S, a: seq<Migration>, b: seq<Migration>)
    requires Distinct(a + b)
    ensures (forall exec: Exec<S>, db: Db<S> :: UpgradesAlike(exec, db, a, b)) <==> AllBelow(a, b)
  {
    if AllBelow(a, b) {
      forall exec: Exec<S>, db: Db<S> ensures UpgradesAlike(exec, db, a, b) {
        IncrementalUpgrade(exec, db, a, b);
      }
    } else {
      var exec: Exec<S> := (schema, sql) => Some(s);
      var first := FullRun(exec, Db(s, []), a).0;
      DistinctParts(a, b);
      FromEmpty(s, a);
      FromEmpty(s, a + b);
      var _ := PrefixCommitted(exec, first, Pending(SortByVersion(a + b), Versions(first.rows)), |a + b|);
      if UpgradesAlike(exec, Db(s, []), a, b) {
        PrefixMeansBelow(a, b);
      }
    }
  }

  /** An instance in which even the schemas differ: a migration that fills a gap below an applied version
      commits after it. */
  lemma FillingAGapDiverges()
    ensures exists exec: Exec<string>, a, b ::
              && Distinct(a + b)
              && FullRun(exec, FullRun(exec, Db("", []), a).0, a + b) != FullRun(exec, Db("", []), a + b)
  {
    var exec: Exec<string> := (schema, sql) => Some(schema + sql);
    var a, b := [Migration(2, "late", "y")], [Migration(1, "early", "x")];
    var one, two := Row(1, "early"), Row(2, "late");
    assert SortByVersion(b) == b && SortByVersion(a) == a;
    assert (a + b)[1..] == b;
    assert SortByVersion(a + b) == b + a by {
      assert SortByVersion(a + b) == Insert(a[0], b);
      assert Insert(a[0], b) == [b[0]] + Insert(a[0], b[1..]);
    }
    var empty: Db<string> := Db("", []);
    assert (b + a)[1..] == a && Pending(b + a, {}) == b + a;
    assert Versions(empty.rows) == {};
    assert Pending(a, {}) == a;
    // Both at once: "x", then "y".
    var x := Db("x", [one]);
    assert "" + "x" == "x" && "" + "y" == "y" && empty.rows + [one] == [one] && empty.rows + [two] == [two];
    assert ApplyOne(exec, empty, b[0]) == Some(x);
    assert ApplyOne(exec, x, a[0]).value.schema == "xy";
    assert ApplyAll(exec, x, a, 1) == (ApplyOne(exec, x, a[0]).value, Done);
    assert FullRun(exec, empty, a + b).0.schema == "xy";
    // One after the other: "y", then "x".
    var y := Db("y", [two]);
    assert ApplyOne(exec, empty, a[0]) == Some(y);
    assert a[1..] == [] && ApplyAll(exec, y, [], 0) == (y, Done);
    assert FullRun(exec, empty, a) == (y, Done);
    VersionsCons(a[0], []);
    assert y.rows == RowsOf([a[0]] + []) && Versions(RowsOf([])) == {};
    assert Versions(y.rows) == {2};
    assert Pending(b + a, {2}) == b;
    assert ApplyOne(exec, y, b[0]).value.schema == "yx";
    assert FullRun(exec, y, a + b).0.schema == "yx";
  }
}
