/** The migration runner of internal/storage/migrations.go: loading the embedded files,
    validating the ledger, and applying what is missing, with crashes between commits. */
module Migrations {
  import opened ByteStrings

  type Checksum = seq<bv8>

  datatype Migration = Migration(version: int, name: string, checksum: Checksum)

  /** A file of the migration directory; its version is `None` if the name is malformed. */
  datatype Entry = Entry(name: string, version: Option<int>, checksum: Checksum)

  datatype Applied = Applied(name: string, checksum: Checksum)

  type Ledger = map<int, Applied>

  /** Constant-time comparison. */
  method EqualBytes(left: Checksum, right: Checksum) returns (equal: bool)
    ensures equal <==> left == right
  {
    if |left| != |right| {
      return false;
    }
    var diff: bv8 := 0;
    for i := 0 to |left|
      invariant diff == 0 <==> left[..i] == right[..i]
    {
      OrOfXor(diff, left[i], right[i]);
      TakeOneMore(left, i);
      TakeOneMore(right, i);
      diff := diff | (left[i] ^ right[i]);
    }
    TakeAll(left);
    TakeAll(right);
    return diff == 0;
  }

  lemma {:induction false} OrOfXor(d: bv8, a: bv8, b: bv8)
    ensures d | (a ^ b) == 0 <==> d == 0 && a == b
  {
  }

  // ---------------------------------------------------------------------------------
  // Loading
  // ---------------------------------------------------------------------------------

  /** Versions 1, 2, ... in this order. */
  ghost predicate Contiguous(ms: seq<Migration>) {
    forall i :: 0 <= i < |ms| ==> ms[i].version == i + 1
  }

  ghost predicate Increasing(ms: seq<Migration>) {
    forall i, j :: 0 <= i < j < |ms| ==> ms[i].version < ms[j].version
  }

  ghost predicate DistinctVersions(ms: seq<Migration>) {
    forall i, j :: 0 <= i < j < |ms| ==> ms[i].version != ms[j].version
  }

  /** Insert into a list sorted by version. */
  function InsertByVersion(ms: seq<Migration>, m: Migration): (r: seq<Migration>)
    ensures multiset(r) == multiset(ms) + multiset{m}
  {
    if ms == [] then [m]
    else if m.version <= ms[0].version then
      [m] + ms
    else
      assert ms == [ms[0]] + ms[1..];
      [ms[0]] + InsertByVersion(ms[1..], m)
  }

  /** The library sort, by version. */
  function SortByVersion(ms: seq<Migration>): (r: seq<Migration>)
    ensures multiset(r) == multiset(ms)
  {
    if ms == [] then []
    else
      assert ms == ms[..|ms| - 1] + [ms[|ms| - 1]];
      InsertByVersion(SortByVersion(ms[..|ms| - 1]), ms[|ms| - 1])
  }

  lemma {:induction false} InsertedAbove(ms: seq<Migration>, m: Migration, bound: int)
    requires m.version > bound && forall x <- ms :: x.version > bound
    ensures forall x <- InsertByVersion(ms, m) :: x.version > bound
  {
    forall x | x in InsertByVersion(ms, m)
      ensures x.version > bound
    {
      assert x in multiset(InsertByVersion(ms, m));
      assert x in ms || x == m;
    }
  }

  lemma {:induction false} InsertKeepsOrder(ms: seq<Migration>, m: Migration)
    requires Increasing(ms) && forall x <- ms :: x.version != m.version
    ensures Increasing(InsertByVersion(ms, m))
  {
    if ms != [] {
      assert ms[0] in ms;
      if m.version > ms[0].version {
        assert forall x <- ms[1..] :: x in ms;
        InsertKeepsOrder(ms[1..], m);
        InsertedAbove(ms[1..], m, ms[0].version);
        ConsIncreasing(ms[0], InsertByVersion(ms[1..], m));
      } else {
        ConsIncreasing(m, ms);
      }
    }
  }

  lemma {:induction false} ConsIncreasing(m: Migration, ms: seq<Migration>)
    requires Increasing(ms) && forall x <- ms :: m.version < x.version
    ensures Increasing([m] + ms)
  {
    assert forall i :: 0 <= i < |ms| ==> ms[i] in ms;
  }

  lemma {:induction false} SortOrders(ms: seq<Migration>)
    requires DistinctVersions(ms)
    ensures Increasing(SortByVersion(ms))
  {
    if ms != [] {
      var k := |ms| - 1;
      SortOrders(ms[..k]);
      var r := SortByVersion(ms[..k]);
      forall x | x in r
        ensures x.version != ms[k].version
      {
        assert x in multiset(r);
        assert x in ms[..k];
      }
      InsertKeepsOrder(r, ms[k]);
    }
  }

  lemma {:induction false} IncreasingFrom(ms: seq<Migration>, i: nat)
    requires Increasing(ms) && i < |ms| && forall m <- ms :: m.version >= 1
    ensures ms[i].version >= i + 1
  {
    if i > 0 {
      IncreasingFrom(ms, i - 1);
    }
  }

  lemma {:induction false} IncreasingTo(ms: seq<Migration>, i: nat)
    requires Increasing(ms) && i < |ms| && forall m <- ms :: m.version <= |ms|
    ensures ms[i].version <= i + 1
    decreases |ms| - i
  {
    if i + 1 < |ms| {
      IncreasingTo(ms, i + 1);
    }
  }

  /** Every name parses, and the versions are 1 to n, each once. */
  ghost predicate Loadable(entries: seq<Entry>) {
    && (forall i :: 0 <= i < |entries| ==> entries[i].version.Some? && 1 <= entries[i].version.value <= |entries|)
    && (forall i, j :: 0 <= i < j < |entries| ==> entries[i].version != entries[j].version)
  }

  function ToMigration(e: Entry): Migration
    requires e.version.Some?
  {
    Migration(e.version.value, e.name, e.checksum)
  }

  predicate Names(e: Entry, m: Migration) {
    e.version == Some(m.version) && e.name == m.name && e.checksum == m.checksum
  }

  /** Every migration is one of the entries. */
  ghost predicate FromEntries(ms: seq<Migration>, entries: seq<Entry>) {
    forall m <- ms :: exists i :: 0 <= i < |entries| && Names(entries[i], m)
  }

  /** Accepts a directory exactly when its versions are 1 to n, and returns them in order. */
  method LoadMigrations(entries: seq<Entry>) returns (ok: bool, migrations: seq<Migration>)
    ensures ok <==> Loadable(entries)
    ensures ok ==> Contiguous(migrations) && |migrations| == |entries|
    ensures ok ==> FromEntries(migrations, entries)
  {
    var parsed, unsorted := ParseEntries(entries);
    if !parsed {
      return false, [];
    }
    migrations := SortByVersion(unsorted);
    SortOrders(unsorted);
    SameSize(unsorted, migrations);
    for i := 0 to |migrations|
      invariant forall j :: 0 <= j < i ==> migrations[j].version == j + 1
    {
      if migrations[i].version != i + 1 {
        NotLoadable(entries, unsorted, migrations, i);
        return false, [];
      }
    }
    ok := true;
    Loaded(entries, unsorted, migrations);
  }

  /** Read the versions off the file names; a name without one or a version seen before is an
      error. */
  method ParseEntries(entries: seq<Entry>) returns (ok: bool, ms: seq<Migration>)
    ensures ok ==> Parsed(entries, ms) && DistinctVersions(ms)
    ensures !ok ==> !Loadable(entries)
  {
    ms := [];
    var seen: set<int> := {};
    for i := 0 to |entries|
      invariant |ms| == i
      invariant forall j :: 0 <= j < i ==> entries[j].version.Some? && ms[j] == ToMigration(entries[j])
      invariant forall v :: v in seen <==> exists j :: 0 <= j < i && ms[j].version == v
      invariant DistinctVersions(ms)
    {
      if entries[i].version.None? {
        return false, [];
      }
      var m := ToMigration(entries[i]);
      if m.version in seen {
        ghost var j :| 0 <= j < i && ms[j].version == m.version;
        assert entries[j].version == entries[i].version;
        return false, [];
      }
      ms, seen := ms + [m], seen + {m.version};
    }
    ok := true;
  }

  lemma {:induction false} SameSize(a: seq<Migration>, b: seq<Migration>)
    requires multiset(a) == multiset(b)
    ensures |a| == |b|
  {
    assert |multiset(a)| == |a| && |multiset(b)| == |b|;
  }

  ghost predicate Parsed(entries: seq<Entry>, ms: seq<Migration>) {
    |ms| == |entries| && forall j :: 0 <= j < |ms| ==> entries[j].version.Some? && ms[j] == ToMigration(entries[j])
  }

  lemma {:induction false} NotLoadable(entries: seq<Entry>, unsorted: seq<Migration>, sorted: seq<Migration>, i: nat)
    requires Parsed(entries, unsorted) && multiset(sorted) == multiset(unsorted) && |sorted| == |unsorted|
    requires Increasing(sorted) && i < |sorted| && sorted[i].version != i + 1
    ensures !Loadable(entries)
  {
    if Loadable(entries) {
      forall m | m in sorted
        ensures 1 <= m.version <= |sorted|
      {
        assert m in multiset(sorted);
        assert m in unsorted;
      }
      IncreasingFrom(sorted, i);
      IncreasingTo(sorted, i);
    }
  }

  lemma {:induction false} Loaded(entries: seq<Entry>, unsorted: seq<Migration>, sorted: seq<Migration>)
    requires Parsed(entries, unsorted) && multiset(sorted) == multiset(unsorted) && |sorted| == |unsorted|
    requires DistinctVersions(unsorted) && Contiguous(sorted)
    ensures Loadable(entries)
    ensures FromEntries(sorted, entries)
  {
    forall m | m in sorted
      ensures exists i :: 0 <= i < |entries| && Names(entries[i], m)
    {
      assert m in multiset(sorted);
      var i :| 0 <= i < |unsorted| && unsorted[i] == m;
      assert Names(entries[i], m);
    }
    forall i | 0 <= i < |entries|
      ensures 1 <= entries[i].version.value <= |entries|
    {
      assert unsorted[i] in multiset(unsorted);
      assert unsorted[i] in sorted;
    }
    forall i, j | 0 <= i < j < |entries|
      ensures entries[i].version != entries[j].version
    {
      assert unsorted[i].version != unsorted[j].version;
    }
  }

  // ---------------------------------------------------------------------------------
  // Validating the ledger
  // ---------------------------------------------------------------------------------

  /** The ledger holds exactly the first `k` migrations, unchanged. */
  ghost predicate Accepted(applied: Ledger, ms: seq<Migration>, k: int) {
    && 0 <= k <= |ms|
    && (forall v :: v in applied <==> 1 <= v <= k)
    && (forall v :: 1 <= v <= k ==> applied[v] == Applied(ms[v - 1].name, ms[v - 1].checksum))
  }

  predicate Matches(applied: Ledger, v: int, ms: seq<Migration>)
    requires v in applied
  {
    1 <= v <= |ms| && applied[v] == Applied(ms[v - 1].name, ms[v - 1].checksum)
  }

  lemma {:induction false} SomeVersion(versions: set<int>)
    requires versions != {}
    ensures exists v :: v in versions
  {
    assert (forall v :: v !in versions) ==> versions == {};
  }

  /** Every recorded version is known and unchanged; entries are visited in any order. */
  method CheckEntries(applied: Ledger, ms: seq<Migration>) returns (ok: bool)
    requires Contiguous(ms)
    ensures ok <==> forall v <- applied :: Matches(applied, v, ms)
  {
    var todo := applied.Keys;
    while todo != {}
      invariant todo <= applied.Keys
      invariant forall v <- applied :: v in todo || Matches(applied, v, ms)
    {
      SomeVersion(todo);
      var version :| version in todo;
      todo := todo - {version};
      if !(1 <= version <= |ms|) {
        return false;
      }
      var migration := ms[version - 1];
      if applied[version].name != migration.name {
        return false;
      }
      var same := EqualBytes(applied[version].checksum, migration.checksum);
      if !same {
        return false;
      }
    }
    ok := true;
  }

  /** Accepts a ledger exactly when it is a prefix of the known migrations. */
  method ValidateApplied(applied: Ledger, ms: seq<Migration>) returns (ok: bool, ghost k: int)
    requires Contiguous(ms)
    ensures ok <==> exists n :: Accepted(applied, ms, n)
    ensures ok ==> Accepted(applied, ms, k)
  {
    k := 0;
    var known := CheckEntries(applied, ms);
    if !known {
      UnknownEntry(applied, ms);
      return false, 0;
    }
    var missing := false;
    for i := 0 to |ms|
      invariant 0 <= k <= i && (!missing ==> k == i) && (missing ==> k < i)
      invariant forall v :: 1 <= v <= i ==> (v in applied <==> v <= k)
    {
      if ms[i].version !in applied {
        missing := true;
      } else if missing {
        OutOfOrder(applied, ms, k + 1, i + 1);
        return false, 0;
      } else {
        k := i + 1;
      }
    }
    forall v | 1 <= v <= k
      ensures applied[v] == Applied(ms[v - 1].name, ms[v - 1].checksum)
    {
      assert Matches(applied, v, ms);
    }
    forall v | v in applied
      ensures 1 <= v <= k
    {
      assert Matches(applied, v, ms);
    }
    assert Accepted(applied, ms, k);
    ok := true;
  }

  lemma {:induction false} AcceptedOnce(applied: Ledger, ms: seq<Migration>, a: int, b: int)
    requires Accepted(applied, ms, a) && Accepted(applied, ms, b)
    ensures a == b
  {
    assert a + 1 !in applied && b + 1 !in applied;
  }

  lemma {:induction false} UnknownEntry(applied: Ledger, ms: seq<Migration>)
    requires exists v :: v in applied && !Matches(applied, v, ms)
    ensures !exists n :: Accepted(applied, ms, n)
  {
    var v :| v in applied && !Matches(applied, v, ms);
    forall n
      ensures !Accepted(applied, ms, n)
    {
      assert v in applied;
    }
  }

  lemma {:induction false} OutOfOrder(applied: Ledger, ms: seq<Migration>, gap: int, later: int)
    requires 1 <= gap < later && gap !in applied && later in applied
    ensures !exists n :: Accepted(applied, ms, n)
  {
    forall n
      ensures !Accepted(applied, ms, n)
    {
      assert later in applied && gap !in applied;
    }
  }

  // ---------------------------------------------------------------------------------
  // Migrating
  // ---------------------------------------------------------------------------------

  /** The versions `from`, `from + 1`, ..., `to`. */
  function Span(from: int, to: int): (s: seq<int>)
    requires from <= to + 1
    ensures |s| == to + 1 - from && forall i :: 0 <= i < |s| ==> s[i] == from + i
  {
    seq(to + 1 - from, i requires 0 <= i < to + 1 - from => from + i)
  }

  function Record(ledger: Ledger, m: Migration): Ledger {
    ledger[m.version := Applied(m.name, m.checksum)]
  }

  /** What the runner finds in a database without a ledger. */
  datatype Schema = NoTables | Unsupported | Current(hasLifecycleConstraint: bool)

  function Baseline(schema: Schema): int {
    match schema case Current(has) => if has then 3 else 2 case _ => 0
  }

  /** The database: its ledger and every migration script ever committed. */
  class Database {
    var ledger: Ledger
    var executed: seq<int>
    const schema: Schema

    constructor (schema: Schema)
      ensures ledger == map[] && executed == [] && this.schema == schema
    {
      ledger, executed, this.schema := map[], [], schema;
    }

    /** Script and ledger row commit together or not at all; a commit whose answer is lost is
        reported as a failure. */
    method ApplyMigration(m: Migration) returns (ok: bool, ghost committed: bool)
      modifies this
      ensures ok ==> committed
      ensures committed ==> ledger == Record(old(ledger), m) && executed == old(executed) + [m.version]
      ensures !committed ==> ledger == old(ledger) && executed == old(executed)
    {
      var commit: bool := *;
      if commit {
        ledger, executed := Record(ledger, m), executed + [m.version];
      }
      committed := commit;
      var answered: bool := *;
      ok := commit && answered;
    }

    /** Record the migrations an existing schema already contains, in one transaction. */
    method BaselineCurrentSchema(ms: seq<Migration>) returns (ok: bool)
      requires Contiguous(ms) && ledger == map[]
      modifies this
      ensures executed == old(executed)
      ensures ok ==> ledger != map[]
      ensures ledger == map[] || (schema.Current? && Baseline(schema) <= |ms| && Accepted(ledger, ms, Baseline(schema)))
    {
      ok := false;
      if !schema.Current? || Baseline(schema) > |ms| {
        return;
      }
      var recorded := map[];
      for i := 0 to Baseline(schema)
        invariant ledger == map[] && executed == old(executed)
        invariant Accepted(recorded, ms, i)
      {
        recorded := Record(recorded, ms[i]);
      }
      assert 1 in recorded;
      var commit: bool := *;
      if commit {
        ledger := recorded;
      }
      var answered: bool := *;
      ok := commit && answered;
    }

    /** Apply the migrations that are not in the ledger, in order, until one fails. */
    method ApplyMissing(ms: seq<Migration>, ghost k: int) returns (ok: bool, ghost k': int)
      requires Contiguous(ms) && Accepted(ledger, ms, k)
      modifies this
      ensures k <= k' <= |ms| && Accepted(ledger, ms, k')
      ensures executed == old(executed) + Span(k + 1, k')
      ensures ok ==> k' == |ms|
    {
      k' := k;
      var applied := ledger;
      for i := 0 to |ms|
        invariant k <= k' <= |ms| && Accepted(ledger, ms, k')
        invariant k' == if i <= k then k else i
        invariant executed == old(executed) + Span(k + 1, k')
      {
        if ms[i].version in applied {
          continue;
        }
        ghost var committed;
        ok, committed := ApplyMigration(ms[i]);
        SpanSnoc(old(executed), k + 1, i);
        if committed {
          k' := i + 1;
        }
        if !ok {
          return;
        }
      }
      ok := true;
    }

    /** One start of the runner: baseline if needed, validate, apply what is missing.  It may
        stop anywhere between commits. */
    method Migrate(ms: seq<Migration>) returns (ok: bool, ghost from: int, ghost to: int)
      requires Contiguous(ms)
      modifies this
      ensures MigrateOutcome(old(ledger), old(executed), ledger, executed, ms, schema, ok, from, to)
    {
      from, to := 0, 0;
      ghost var baselined := ledger == map[] && !schema.NoTables?;
      if ledger == map[] && !schema.NoTables? {
        ok := BaselineCurrentSchema(ms);
        if !ok {
          from, to := Baseline(schema), Baseline(schema);
          assert executed == old(executed) + [];
          return;
        }
      }
      assert baselined ==> Accepted(ledger, ms, Baseline(schema));
      ok, from := ValidateApplied(ledger, ms);
      to := from;
      if !ok {
        return;
      }
      if baselined {
        AcceptedOnce(ledger, ms, from, Baseline(schema));
      }
      ok, to := ApplyMissing(ms, from);
    }
  }

  /** Either nothing happened, or the ledger went from a prefix to a longer one, executing
      exactly the versions in between, in order. */
  ghost predicate MigrateOutcome(ledger: Ledger, executed: seq<int>, ledger': Ledger, executed': seq<int>,
                                 ms: seq<Migration>, schema: Schema, ok: bool, from: int, to: int)
  {
    || (!ok && ledger' == ledger && executed' == executed)
    || (&& 0 <= from <= to <= |ms| && Accepted(ledger', ms, to)
        && (if ledger == map[] && !schema.NoTables? then schema.Current? && from == Baseline(schema)
            else Accepted(ledger, ms, from))
        && executed' == executed + Span(from + 1, to)
        && (ok ==> to == |ms|))
  }

  // ---------------------------------------------------------------------------------
  // Any number of starts
  // ---------------------------------------------------------------------------------

  /** The database after each start of the runner, crashed or not. */
  datatype Snapshot = Snapshot(ledger: Ledger, executed: seq<int>, ok: bool)

  ghost predicate Starts(history: seq<Snapshot>, ms: seq<Migration>, schema: Schema) {
    forall i :: 0 <= i < |history| - 1 ==> Started(history[i], history[i + 1], ms, schema)
  }

  ghost predicate Started(a: Snapshot, b: Snapshot, ms: seq<Migration>, schema: Schema) {
    exists from, to :: MigrateOutcome(a.ledger, a.executed, b.ledger, b.executed, ms, schema, b.ok, from, to)
  }

  /** The first version a database still needs: what the ledger or the schema already has. */
  function Have(schema: Schema, k0: int): int {
    if k0 > 0 then k0 else Baseline(schema)
  }

  /** Since `first`, nothing has happened yet, or exactly the versions up to `k` were
      executed, each once and in order. */
  ghost predicate Progress(first: Snapshot, now: Snapshot, ms: seq<Migration>, have: int, k: int) {
    if k < have then now.ledger == first.ledger && now.executed == first.executed && !now.ok
    else
      && k <= |ms| && Accepted(now.ledger, ms, k)
      && now.executed == first.executed + Span(have + 1, k)
      && (now.ok ==> k == |ms|)
  }

  lemma {:induction false} LedgerEmpty(ledger: Ledger, ms: seq<Migration>, k: int)
    requires Accepted(ledger, ms, k)
    ensures ledger == map[] <==> k == 0
  {
    if ledger != map[] {
      assert ledger.Keys != {};
      SomeVersion(ledger.Keys);
    } else {
      assert k >= 1 ==> 1 in ledger;
    }
  }

  lemma {:induction false} SpanSplit(before: seq<int>, from: int, k: int, to: int)
    requires from <= k + 1 <= to + 1
    ensures (before + Span(from, k)) + Span(k + 1, to) == before + Span(from, to)
  {
    assert Span(from, k) + Span(k + 1, to) == Span(from, to);
  }

  lemma {:induction false} SpanSnoc(before: seq<int>, from: int, to: int)
    requires from <= to + 1
    ensures (before + Span(from, to)) + [to + 1] == before + Span(from, to + 1)
  {
  }

  /** The first start that commits anything. */
  lemma {:induction false} FirstProgress(a: Snapshot, b: Snapshot, ms: seq<Migration>, schema: Schema, k0: int,
                                         from: int, to: int)
    requires k0 >= 0 && Accepted(a.ledger, ms, k0) && !a.ok
    requires MigrateOutcome(a.ledger, a.executed, b.ledger, b.executed, ms, schema, b.ok, from, to)
    requires b.ok || b.ledger != a.ledger || b.executed != a.executed
    ensures from == Have(schema, k0) && Progress(a, b, ms, from, to)
  {
    LedgerEmpty(a.ledger, ms, k0);
    if !(a.ledger == map[] && !schema.NoTables?) {
      AcceptedOnce(a.ledger, ms, k0, from);
    }
  }

  /** A later start goes on where the ledger ends. */
  lemma {:induction false} LaterProgress(first: Snapshot, a: Snapshot, b: Snapshot, ms: seq<Migration>, schema: Schema,
                                         have: int, k: int, from: int, to: int)
    requires 0 <= have <= k && Progress(first, a, ms, have, k) && (k == 0 ==> schema.NoTables?)
    requires MigrateOutcome(a.ledger, a.executed, b.ledger, b.executed, ms, schema, b.ok, from, to)
    requires b.ok || b.ledger != a.ledger || b.executed != a.executed
    ensures k <= to && Progress(first, b, ms, have, to)
  {
    LedgerEmpty(a.ledger, ms, k);
    AcceptedOnce(a.ledger, ms, k, from);
    SpanSplit(first.executed, have + 1, k, to);
  }

  /** One more start never undoes progress. */
  lemma {:induction false} OneMoreStart(first: Snapshot, a: Snapshot, b: Snapshot, ms: seq<Migration>, schema: Schema,
                                        k0: int, k: int) returns (k': int)
    requires k0 >= 0 && Accepted(first.ledger, ms, k0) && !first.ok
    requires Have(schema, k0) == 0 ==> schema.NoTables?
    requires Progress(first, a, ms, Have(schema, k0), k) && Started(a, b, ms, schema)
    ensures k <= k' && Progress(first, b, ms, Have(schema, k0), k')
  {
    var from, to :| MigrateOutcome(a.ledger, a.executed, b.ledger, b.executed, ms, schema, b.ok, from, to);
    k' := k;
    if b.ok || b.ledger != a.ledger || b.executed != a.executed {
      k' := to;
      if k < Have(schema, k0) {
        FirstProgress(a, b, ms, schema, k0, from, to);
      } else {
        LaterProgress(first, a, b, ms, schema, Have(schema, k0), k, from, to);
      }
    }
  }

  /** From any accepted ledger, or none at all, however often the runner starts and wherever
      it crashes: every version that is still needed is executed exactly once and in order,
      nothing that the ledger or an existing schema has is executed again, and as soon as one
      start succeeds the ledger is complete. */
  lemma {:induction false} MigrateExactlyOnce(history: seq<Snapshot>, ms: seq<Migration>, schema: Schema, k0: int)
    returns (k: int)
    requires |history| > 0 && Starts(history, ms, schema)
    requires k0 >= 0 && Accepted(history[0].ledger, ms, k0) && !history[0].ok
    requires Have(schema, k0) == 0 ==> schema.NoTables?
    ensures Progress(history[0], history[|history| - 1], ms, Have(schema, k0), k)
  {
    var n := |history| - 1;
    if n == 0 {
      k := -1;
    } else {
      assert Started(history[n - 1], history[n], ms, schema);
      var k1 := MigrateExactlyOnce(history[..n], ms, schema, k0);
      k := OneMoreStart(history[0], history[n - 1], history[n], ms, schema, k0, k1);
    }
  }

  /** A schema that is already there is not built again: however often the runner starts, versions 1
      and 2 are never executed, and once a start succeeds version 3 was if and only if its
      constraint was missing, and every later one was. */
  lemma {:induction false} BaselineIsExact(history: seq<Snapshot>, ms: seq<Migration>, has: bool, v: int)
    requires |history| > 0 && Starts(history, ms, Current(has)) && |ms| >= 3
    requires history[0].ledger == map[] && history[0].executed == [] && !history[0].ok
    ensures var last := history[|history| - 1];
      && (v in last.executed ==> v > 3 || (v == 3 && !has))
      && (last.ok ==> (v in last.executed <==> 3 < v <= |ms| || (v == 3 && !has)))
  {
    assert Accepted(history[0].ledger, ms, 0);
    var k := MigrateExactlyOnce(history, ms, Current(has), 0);
    var last, have := history[|history| - 1], Have(Current(has), 0);
    if k >= have {
      var span := Span(have + 1, k);
      assert last.executed == span;
      assert v in span ==> have < v <= k;
      if have < v <= k {
        assert span[v - have - 1] == v;
      }
    }
  }

  /** An unsupported schema without a ledger is refused by every start and left alone. */
  lemma {:induction false} UnsupportedIsRefused(history: seq<Snapshot>, ms: seq<Migration>)
    requires |history| > 0 && Starts(history, ms, Unsupported)
    requires history[0].ledger == map[] && !history[0].ok
    ensures var last := history[|history| - 1];
      last.ledger == map[] && last.executed == history[0].executed && !last.ok
  {
    var n := |history| - 1;
    if n > 0 {
      assert Started(history[n - 1], history[n], ms, Unsupported);
      UnsupportedIsRefused(history[..n], ms);
    }
  }
}
