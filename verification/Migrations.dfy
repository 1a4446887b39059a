/** The migration registry and the runner's check-run-record-commit loop. */
module Migrations {
  import opened Bytes

  /** A migration changes the schema inside the runner's transaction. */
  datatype Migration<!S> = Migration(name: bytes, run: S -> S)

  /** What is committed: the schema, and the names in `_migrations` in the order of insertion. */
  datatype Database<S> = Database(schema: S, ledger: seq<bytes>)

  // ---------- the registry ----------

  function Names<S>(registry: seq<Migration<S>>): (names: seq<bytes>)
    ensures |names| == |registry|
    ensures forall i | 0 <= i < |names| :: names[i] == registry[i].name
  {
    seq(|registry|, i requires 0 <= i < |registry| => registry[i].name)
  }

  predicate StrictlySorted<S>(registry: seq<Migration<S>>) {
    forall i, j | 0 <= i < j < |registry| :: Less(registry[i].name, registry[j].name)
  }

  predicate DistinctNames<S>(registry: seq<Migration<S>>) {
    forall i, j | 0 <= i < j < |registry| :: registry[i].name != registry[j].name
  }

  function Insert<S>(m: Migration<S>, registry: seq<Migration<S>>): seq<Migration<S>> {
    if registry == [] || Less(m.name, registry[0].name) then [m] + registry
    else [registry[0]] + Insert(m, registry[1..])
  }

  /** `std::ranges::sort` by name. */
  function Sorted<S>(registry: seq<Migration<S>>): seq<Migration<S>> {
    if registry == [] then [] else Insert(registry[0], Sorted(registry[1..]))
  }

  lemma {:induction false} InsertKeepsAll<S>(m: Migration<S>, registry: seq<Migration<S>>)
    ensures multiset(Insert(m, registry)) == multiset{m} + multiset(registry)
  {
    if registry != [] {
      assert registry == [registry[0]] + registry[1..];
      if !Less(m.name, registry[0].name) {
        InsertKeepsAll(m, registry[1..]);
      }
    }
  }

  lemma {:induction false} SortedKeepsAll<S>(registry: seq<Migration<S>>)
    ensures multiset(Sorted(registry)) == multiset(registry)
  {
    if registry != [] {
      assert registry == [registry[0]] + registry[1..];
      SortedKeepsAll(registry[1..]);
      InsertKeepsAll(registry[0], Sorted(registry[1..]));
    }
  }

  lemma {:induction false} InsertSorts<S>(m: Migration<S>, registry: seq<Migration<S>>)
    requires StrictlySorted(registry) && forall i | 0 <= i < |registry| :: registry[i].name != m.name
    ensures StrictlySorted(Insert(m, registry))
  {
    if registry != [] {
      LessIsTotal(m.name, registry[0].name);
      if Less(m.name, registry[0].name) {
        forall j | 0 <= j < |registry| ensures Less(m.name, registry[j].name) {
          if j > 0 {
            LessIsTransitive(m.name, registry[0].name, registry[j].name);
          }
        }
      } else {
        InsertSorts(m, registry[1..]);
        InsertKeepsAll(m, registry[1..]);
        forall x | x in Insert(m, registry[1..]) ensures Less(registry[0].name, x.name) {
          assert x in multiset(Insert(m, registry[1..]));
        }
      }
    }
  }

  /** Sorting a registry of distinct names puts the same migrations in strictly ascending order. */
  lemma {:induction false} SortedSorts<S>(registry: seq<Migration<S>>)
    requires DistinctNames(registry)
    ensures StrictlySorted(Sorted(registry)) && multiset(Sorted(registry)) == multiset(registry)
  {
    SortedKeepsAll(registry);
    if registry != [] {
      SortedSorts(registry[1..]);
      SortedKeepsAll(registry[1..]);
      forall i | 0 <= i < |Sorted(registry[1..])| ensures Sorted(registry[1..])[i].name != registry[0].name {
        assert Sorted(registry[1..])[i] in multiset(Sorted(registry[1..]));
        assert Sorted(registry[1..])[i] in registry[1..];
      }
      InsertSorts(registry[0], Sorted(registry[1..]));
    }
  }

  lemma FirstIsLeast<S>(a: seq<Migration<S>>, b: seq<Migration<S>>)
    requires StrictlySorted(a) && StrictlySorted(b) && multiset(a) == multiset(b) && a != []
    ensures b != [] && a[0] == b[0]
  {
    assert a[0] in multiset(a) && b != [];
    assert b[0] in multiset(b);
    assert a[0] in b && b[0] in a;
    if a[0] != b[0] {
      LessIsAsymmetric(a[0].name, b[0].name);
    }
  }

  lemma WithoutFirst<T>(s: seq<T>)
    requires s != []
    ensures s == [s[0]] + s[1..] && multiset(s[1..]) == multiset(s) - multiset{s[0]}
  {
  }

  /** The order is the only one, so it does not depend on the order of registration or on the sorting algorithm. */
  lemma {:induction false} SortedIsUnique<S>(a: seq<Migration<S>>, b: seq<Migration<S>>)
    requires StrictlySorted(a) && StrictlySorted(b) && multiset(a) == multiset(b)
    ensures a == b
  {
    if a != [] {
      FirstIsLeast(a, b);
      WithoutFirst(a);
      WithoutFirst(b);
      SortedIsUnique(a[1..], b[1..]);
    } else {
      assert |multiset(b)| == 0;
    }
  }

  /** Registering one more migration keeps what came before in place exactly when its name is above all others. */
  lemma {:induction false} AppendsExactlyWhenLargest<S>(m: Migration<S>, registry: seq<Migration<S>>)
    requires StrictlySorted(registry) && forall i | 0 <= i < |registry| :: registry[i].name != m.name
    ensures registry <= Insert(m, registry) <==> forall i | 0 <= i < |registry| :: Less(registry[i].name, m.name)
  {
    if registry != [] {
      LessIsTotal(m.name, registry[0].name);
      var rest := registry[1..];
      if Less(m.name, registry[0].name) {
        LessIsAsymmetric(m.name, registry[0].name);
        assert Insert(m, registry)[0] == m;
      } else {
        AppendsExactlyWhenLargest(m, rest);
        assert registry == [registry[0]] + rest;
        assert registry <= Insert(m, registry) <==> rest <= Insert(m, rest);
        assert forall i | 0 < i < |registry| :: registry[i] == rest[i - 1];
      }
    }
  }

  // ---------- one complete run ----------

  function MigrateOne<S>(db: Database<S>, m: Migration<S>): Database<S> {
    if m.name in db.ledger then db else Database(m.run(db.schema), db.ledger + [m.name])
  }

  function Migrate<S>(db: Database<S>, registry: seq<Migration<S>>): Database<S>
    decreases |registry|
  {
    if registry == [] then db else Migrate(MigrateOne(db, registry[0]), registry[1..])
  }

  /** The schema that the migrations make in the given order. */
  function Effect<S>(schema: S, migrations: seq<Migration<S>>): S
    decreases |migrations|
  {
    if migrations == [] then schema else Effect(migrations[0].run(schema), migrations[1..])
  }

  function Missing<S>(registry: seq<Migration<S>>, ledger: seq<bytes>): seq<Migration<S>> {
    if registry == [] then []
    else (if registry[0].name in ledger then [] else [registry[0]]) + Missing(registry[1..], ledger)
  }

  const CREATE_USERS: bytes := "001_create_users_table"
  const CREATE_DEVICES: bytes := "002_create_devices_table"
  const CREATE_CONSTITUENTS: bytes := "003_create_constituents_table"
  const CREATE_RATE_LIMITS: bytes := "004_create_rate_limits_table"

  function Declared<S>(
    createUsers: S -> S, createDevices: S -> S, createConstituents: S -> S, createRateLimits: S -> S)
    : seq<Migration<S>>
  {
    [Migration(CREATE_USERS, createUsers), Migration(CREATE_DEVICES, createDevices),
     Migration(CREATE_CONSTITUENTS, createConstituents),
     Migration(CREATE_RATE_LIMITS, createRateLimits)]
  }

  lemma LessAtThird(a: bytes, b: bytes)
    requires |a| > 2 && |b| > 2 && a[0] == b[0] && a[1] == b[1] && a[2] < b[2]
    ensures Less(a, b)
  {
    assert a[1..][0] == a[1] && b[1..][0] == b[1];
    assert a[1..][1..] == a[2..] && b[1..][1..] == b[2..];
  }

  /** The migrations that the repository declares are in order as they stand. */
  lemma DeclaredInOrder<S>(
    createUsers: S -> S, createDevices: S -> S, createConstituents: S -> S, createRateLimits: S -> S)
    ensures var declared := Declared(createUsers, createDevices, createConstituents, createRateLimits);
            StrictlySorted(declared) && Sorted(declared) == declared
  {
    var declared := Declared(createUsers, createDevices, createConstituents, createRateLimits);
    hide Less, StrictlySorted, Sorted;
    LessAtThird(CREATE_USERS, CREATE_DEVICES);
    LessAtThird(CREATE_DEVICES, CREATE_CONSTITUENTS);
    LessAtThird(CREATE_CONSTITUENTS, CREATE_RATE_LIMITS);
    InOrder(declared);
  }

  /** On an empty database they run in the order of their tables, and the ledger names each. */
  lemma DeclaredOnEmpty<S>(
    schema: S, createUsers: S -> S, createDevices: S -> S, createConstituents: S -> S, createRateLimits: S -> S)
    ensures var declared := Declared(createUsers, createDevices, createConstituents, createRateLimits);
            Migrate(Database(schema, []), Sorted(declared)) ==
            Database(createRateLimits(createConstituents(createDevices(createUsers(schema)))),
                     ["001_create_users_table", "002_create_devices_table", "003_create_constituents_table",
                      "004_create_rate_limits_table"])
  {
    var declared := Declared(createUsers, createDevices, createConstituents, createRateLimits);
    DeclaredInOrder(createUsers, createDevices, createConstituents, createRateLimits);
    hide Sorted, Less, Migrate;
    FourInOrder(schema, declared[0], declared[1], declared[2], declared[3]);
  }

  lemma FourInOrder<S>(schema: S, m0: Migration<S>, m1: Migration<S>, m2: Migration<S>, m3: Migration<S>)
    requires StrictlySorted([m0, m1, m2, m3])
    ensures Migrate(Database(schema, []), [m0, m1, m2, m3]) ==
            Database(m3.run(m2.run(m1.run(m0.run(schema)))), [m0.name, m1.name, m2.name, m3.name])
  {
    hide Less, Migrate;
    var m := [m0, m1, m2, m3];
    forall i, j | 0 <= i < j < 4 ensures m[i].name != m[j].name {
      LessIsAsymmetric(m[i].name, m[j].name);
    }
    assert m0 == m[0] && m1 == m[1] && m2 == m[2] && m3 == m[3];
    var db1 := Database(m0.run(schema), [m0.name]);
    var db2 := Database(m1.run(db1.schema), [m0.name, m1.name]);
    var db3 := Database(m2.run(db2.schema), [m0.name, m1.name, m2.name]);
    MigrateStep(Database(schema, []), m0, [m1, m2, m3]);
    MigrateStep(db1, m1, [m2, m3]);
    MigrateStep(db2, m2, [m3]);
    MigrateStep(db3, m3, []);
    MigrateNothing(Database(m3.run(db3.schema), [m0.name, m1.name, m2.name, m3.name]));
    assert [] + [m0.name] == [m0.name] && [m0.name] + [m1.name] == [m0.name, m1.name];
    assert [m0.name, m1.name] + [m2.name] == db3.ledger;
    assert db3.ledger + [m3.name] == [m0.name, m1.name, m2.name, m3.name];
    assert [m0] + [m1, m2, m3] == m && [m1] + [m2, m3] == [m1, m2, m3] && [m2] + [m3] == [m2, m3] && [m3] + [] == [m3];
  }

  lemma MigrateNothing<S>(db: Database<S>)
    ensures Migrate(db, []) == db
  {
  }

  lemma MigrateStep<S>(db: Database<S>, m: Migration<S>, rest: seq<Migration<S>>)
    requires m.name !in db.ledger
    ensures Migrate(db, [m] + rest) == Migrate(Database(m.run(db.schema), db.ledger + [m.name]), rest)
  {
    assert ([m] + rest)[1..] == rest;
  }

  lemma InOrder<S>(registry: seq<Migration<S>>)
    requires |registry| == 4
    requires forall i | 0 < i < 4 :: Less(registry[i - 1].name, registry[i].name)
    ensures StrictlySorted(registry) && Sorted(registry) == registry
  {
    hide Sorted;
    LessIsTransitive(registry[0].name, registry[1].name, registry[2].name);
    LessIsTransitive(registry[0].name, registry[2].name, registry[3].name);
    LessIsTransitive(registry[1].name, registry[2].name, registry[3].name);
    forall i, j | 0 <= i < j < 4 ensures registry[i].name != registry[j].name {
      LessIsAsymmetric(registry[i].name, registry[j].name);
    }
    SortedSorts(registry);
    SortedIsUnique(Sorted(registry), registry);
  }

  // ---------- the code ----------

  class Registry<S> {
    var registry: seq<Migration<S>>

    constructor ()
      ensures registry == []
    {
      registry := [];
    }

    method Register(createUsers: S -> S, createDevices: S -> S, createConstituents: S -> S, createRateLimits: S -> S)
      modifies this
      ensures registry ==
              Sorted(old(registry) + Declared(createUsers, createDevices, createConstituents, createRateLimits))
    {
      hide Sorted;
      var given := registry;
      registry := registry + [Migration(CREATE_USERS, createUsers)];
      registry := registry + [Migration(CREATE_DEVICES, createDevices)];
      registry := registry + [Migration(CREATE_CONSTITUENTS, createConstituents)];
      registry := registry + [Migration(CREATE_RATE_LIMITS, createRateLimits)];
      assert registry == given + Declared(createUsers, createDevices, createConstituents, createRateLimits);
      registry := Sorted(registry);
    }
  }

  class Connection<S> {
    var committed: Database<S>

    constructor (db: Database<S>)
      ensures committed == db
    {
      committed := db;
    }

    /** Each migration has a transaction of its own; its changes become visible together, at the commit. */
    method RunMigrations(registry: seq<Migration<S>>)
      modifies this
      ensures committed == Migrate(old(committed), registry)
    {
      assert registry[0..] == registry;
      for i := 0 to |registry|
        invariant Migrate(committed, registry[i..]) == Migrate(old(committed), registry)
      {
        assert registry[i..][1..] == registry[i + 1..];
        var tx := committed;
        if registry[i].name !in tx.ledger {
          tx := tx.(schema := registry[i].run(tx.schema));
          tx := tx.(ledger := tx.ledger + [registry[i].name]);
        }
        committed := tx;
      }
    }
  }
}
