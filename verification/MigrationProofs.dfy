/** Exactly-once migrations, whatever the crashes, and exactly when a registry may grow. */
module MigrationProofs {
  import opened Bytes
  import opened Migrations

  // ---------- runs that may stop anywhere ----------

  /** How far the current transaction is; its changes are its own until the commit. */
  datatype Transaction<S> =
    | Idle
    | Begun(work: Database<S>)
    | Checked(work: Database<S>, missing: bool)
    | Ran(work: Database<S>)
    | Recorded(work: Database<S>)

  datatype Runner<!S> = Runner(
    registry: seq<Migration<S>>,
    committed: Database<S>,
    next: nat,
    tx: Transaction<S>)

  /** `Restart` stands for a crash, an error or a finished run, followed by a run of the program with this registry. */
  datatype Step<!S> = Begin | Check | Run | Record | Commit | Restart(registry: seq<Migration<S>>)

  /** A later registry is in order again and only appends. */
  ghost predicate Grows<S(!new)>(before: seq<Migration<S>>, after: seq<Migration<S>>) {
    before <= after && StrictlySorted(after)
  }

  ghost predicate Enabled<S(!new)>(r: Runner<S>, e: Step<S>) {
    match e
    case Begin => r.tx.Idle? && r.next < |r.registry|
    case Check => r.tx.Begun?
    case Run => r.tx.Checked? && r.tx.missing && r.next < |r.registry|
    case Record => r.tx.Ran? && r.next < |r.registry|
    case Commit => r.tx.Recorded? || (r.tx.Checked? && !r.tx.missing)
    case Restart(registry) => Grows(r.registry, registry)
  }

  ghost function Apply<S(!new)>(r: Runner<S>, e: Step<S>): Runner<S>
    requires Enabled(r, e)
  {
    match e
    case Begin => r.(tx := Begun(r.committed))
    case Check => r.(tx := Checked(r.tx.work, r.next < |r.registry| && r.registry[r.next].name !in r.tx.work.ledger))
    case Run => r.(tx := Ran(r.tx.work.(schema := r.registry[r.next].run(r.tx.work.schema))))
    case Record => r.(tx := Recorded(r.tx.work.(ledger := r.tx.work.ledger + [r.registry[r.next].name])))
    case Commit => r.(committed := r.tx.work, tx := Idle, next := r.next + 1)
    case Restart(registry) => Runner(registry, r.committed, 0, Idle)
  }

  ghost predicate IsRun<S(!new)>(r: Runner<S>, steps: seq<Step<S>>)
    decreases |steps|
  {
    steps == [] || (Enabled(r, steps[0]) && IsRun(Apply(r, steps[0]), steps[1..]))
  }

  ghost function RunFrom<S(!new)>(r: Runner<S>, steps: seq<Step<S>>): Runner<S>
    requires IsRun(r, steps)
    decreases |steps|
  {
    if steps == [] then r else RunFrom(Apply(r, steps[0]), steps[1..])
  }

  /** An empty database and a runner about to start. */
  ghost function Start<S(!new)>(schema: S, registry: seq<Migration<S>>): Runner<S> {
    Runner(registry, Database(schema, []), 0, Idle)
  }

  // ---------- the invariant ----------

  /** Exactly the first `k` migrations are in, in order. */
  ghost predicate Done<S(!new)>(db: Database<S>, schema: S, registry: seq<Migration<S>>, k: nat) {
    && k <= |registry|
    && db.ledger == Names(registry)[..k]
    && db.schema == Effect(schema, registry[..k])
  }

  /** The transaction's copy is the committed state, then with the next migration run, then also with it recorded. */
  ghost predicate SoundTx<S(!new)>(r: Runner<S>, k: nat) {
    match r.tx
    case Idle => true
    case Begun(work) => work == r.committed && r.next < |r.registry|
    case Checked(work, missing) => work == r.committed && r.next < |r.registry| && (missing <==> r.next == k)
    case Ran(work) =>
      r.next == k < |r.registry| && work == r.committed.(schema := r.registry[k].run(r.committed.schema))
    case Recorded(work) =>
      && r.next == k < |r.registry|
      && work == Database(r.registry[k].run(r.committed.schema), r.committed.ledger + [r.registry[k].name])
  }

  ghost predicate Sound<S(!new)>(r: Runner<S>, schema: S, k: nat) {
    StrictlySorted(r.registry) && Done(r.committed, schema, r.registry, k) && r.next <= k && SoundTx(r, k)
  }

  lemma {:induction false} EffectOfOneMore<S>(schema: S, migrations: seq<Migration<S>>, m: Migration<S>)
    ensures Effect(schema, migrations + [m]) == m.run(Effect(schema, migrations))
    decreases |migrations|
  {
    if migrations == [] {
      assert [] + [m] == [m];
    } else {
      assert (migrations + [m])[1..] == migrations[1..] + [m];
      EffectOfOneMore(migrations[0].run(schema), migrations[1..], m);
    }
  }

  lemma DoneOneMore<S(!new)>(db: Database<S>, schema: S, registry: seq<Migration<S>>, k: nat)
    requires Done(db, schema, registry, k) && k < |registry|
    ensures Done(Database(registry[k].run(db.schema), db.ledger + [registry[k].name]), schema, registry, k + 1)
  {
    EffectOfOneMore(schema, registry[..k], registry[k]);
    assert registry[..k + 1] == registry[..k] + [registry[k]];
    assert Names(registry)[..k + 1] == Names(registry)[..k] + [registry[k].name];
  }

  lemma OrderedIsDistinct<S>(registry: seq<Migration<S>>)
    requires StrictlySorted(registry)
    ensures DistinctNames(registry)
  {
    forall i, j | 0 <= i < j < |registry| ensures registry[i].name != registry[j].name {
      LessIsAsymmetric(registry[i].name, registry[j].name);
    }
  }

  lemma StepSound<S(!new)>(r: Runner<S>, e: Step<S>, schema: S, k: nat) returns (k': nat)
    requires Enabled(r, e) && Sound(r, schema, k)
    ensures k <= k' <= k + 1 && Sound(Apply(r, e), schema, k')
  {
    hide Names, Effect, StrictlySorted;
    k' := k;
    match e {
      case Check =>
        OrderedIsDistinct(r.registry);
        RecordedInPrefix(r.registry, k, r.next);
      case Commit =>
        if r.tx.Recorded? {
          DoneOneMore(r.committed, schema, r.registry, k);
          k' := k + 1;
        }
      case Restart(registry) =>
        DoneInLonger(r.committed, schema, r.registry, registry, k);
      case _ =>
    }
  }

  lemma DoneInLonger<S(!new)>(
    db: Database<S>, schema: S, before: seq<Migration<S>>, after: seq<Migration<S>>, k: nat)
    requires Done(db, schema, before, k) && before <= after
    ensures Done(db, schema, after, k)
  {
    assert Names(before)[..k] == Names(after)[..k];
    assert before[..k] == after[..k];
  }

  lemma {:induction false} RunSound<S(!new)>(r: Runner<S>, steps: seq<Step<S>>, schema: S, k: nat) returns (k': nat)
    requires IsRun(r, steps) && Sound(r, schema, k)
    ensures k <= k' && Sound(RunFrom(r, steps), schema, k')
    decreases |steps|
  {
    hide Sound, Enabled, Apply;
    if steps == [] {
      k' := k;
    } else {
      k' := StepSound(r, steps[0], schema, k);
      k' := RunSound(Apply(r, steps[0]), steps[1..], schema, k');
    }
  }

  // ---------- main results ----------

  /**
   * However many runs there were, each cut off anywhere, with a registry that only ever grew at its end: what is
   * committed is the result of the first migrations of the registry, each run once, in order.
   */
  lemma ExactlyOnce<S(!new)>(schema: S, registry: seq<Migration<S>>, steps: seq<Step<S>>)
    requires StrictlySorted(registry) && IsRun(Start(schema, registry), steps)
    ensures var r := RunFrom(Start(schema, registry), steps);
            exists k: nat :: Done(r.committed, schema, r.registry, k)
  {
    assert registry[..0] == [] && Names(registry)[..0] == [];
    var k := RunSound(Start(schema, registry), steps, schema, 0);
    var r := RunFrom(Start(schema, registry), steps);
    assert Done(r.committed, schema, r.registry, k);
  }

  lemma {:induction false} MigrateFinishes<S(!new)>(
    db: Database<S>, schema: S, registry: seq<Migration<S>>, i: nat, k: nat)
    requires StrictlySorted(registry) && Done(db, schema, registry, k) && i <= k
    ensures Done(Migrate(db, registry[i..]), schema, registry, |registry|)
    decreases |registry| - i
  {
    hide StrictlySorted, Done;
    DoneBound(db, schema, registry, k);
    if i == |registry| {
      assert registry[i..] == [];
    } else {
      NextMigration(db, schema, registry, i, k);
      assert registry[i..][1..] == registry[i + 1..];
      MigrateFinishes(MigrateOne(db, registry[i]), schema, registry, i + 1, if i == k then k + 1 else k);
    }
  }

  lemma DoneBound<S(!new)>(db: Database<S>, schema: S, registry: seq<Migration<S>>, k: nat)
    requires Done(db, schema, registry, k)
    ensures k <= |registry|
  {
  }

  lemma NextMigration<S(!new)>(db: Database<S>, schema: S, registry: seq<Migration<S>>, i: nat, k: nat)
    requires StrictlySorted(registry) && Done(db, schema, registry, k) && i <= k && i < |registry|
    ensures Done(MigrateOne(db, registry[i]), schema, registry, if i == k then k + 1 else k)
  {
    OrderedIsDistinct(registry);
    RecordedInPrefix(registry, k, i);
    if i == k {
      DoneOneMore(db, schema, registry, k);
    }
  }

  /** From whatever point the crashes left, one run that completes reaches the one final state. */
  lemma CompletedRunConverges<S(!new)>(schema: S, registry: seq<Migration<S>>, steps: seq<Step<S>>)
    requires StrictlySorted(registry) && IsRun(Start(schema, registry), steps)
    ensures var r := RunFrom(Start(schema, registry), steps);
            var final := Database(Effect(schema, r.registry), Names(r.registry));
            && Migrate(r.committed, r.registry) == final
            && (r.next == |r.registry| ==> r.committed == final)
  {
    assert registry[..0] == [] && Names(registry)[..0] == [];
    var k := RunSound(Start(schema, registry), steps, schema, 0);
    var r := RunFrom(Start(schema, registry), steps);
    MigrateFinishes(r.committed, schema, r.registry, 0, k);
    assert r.registry[0..] == r.registry && r.registry[..|r.registry|] == r.registry;
    assert Names(r.registry)[..|r.registry|] == Names(r.registry);
  }

  // ---------- registries that do not only append ----------

  lemma {:induction false} MissingAfterOneMore<S>(registry: seq<Migration<S>>, ledger: seq<bytes>, name: bytes)
    requires forall i | 0 <= i < |registry| :: registry[i].name != name
    ensures Missing(registry, ledger + [name]) == Missing(registry, ledger)
  {
    if registry != [] {
      MissingAfterOneMore(registry[1..], ledger, name);
    }
  }

  /** From any ledger at all, a complete run applies and records what is missing, in the order of the registry. */
  lemma {:induction false} MigrateAddsMissing<S>(db: Database<S>, registry: seq<Migration<S>>)
    requires DistinctNames(registry)
    ensures var missing := Missing(registry, db.ledger);
            Migrate(db, registry) == Database(Effect(db.schema, missing), db.ledger + Names(missing))
    decreases |registry|
  {
    if registry == [] {
      assert db.ledger + Names<S>([]) == db.ledger;
    } else {
      var (m, rest) := (registry[0], registry[1..]);
      MigrateAddsMissing(MigrateOne(db, m), rest);
      if m.name !in db.ledger {
        MissingAfterOneMore(rest, db.ledger, m.name);
        NamesOfOneMore(m, Missing(rest, db.ledger), db.ledger);
      } else {
        assert [] + Missing(rest, db.ledger) == Missing(rest, db.ledger);
      }
    }
  }

  lemma NamesOfOneMore<S>(m: Migration<S>, missing: seq<Migration<S>>, ledger: seq<bytes>)
    ensures ([m] + missing)[1..] == missing
    ensures ledger + [m.name] + Names(missing) == ledger + Names([m] + missing)
  {
    assert Names([m] + missing) == [m.name] + Names(missing);
  }

  lemma {:induction false} MissingFromPrefix<S>(registry: seq<Migration<S>>, k: nat, i: nat)
    requires DistinctNames(registry) && k <= |registry| && i <= |registry|
    ensures Missing(registry[i..], Names(registry)[..k]) == registry[if i <= k then k else i..]
    decreases |registry| - i
  {
    hide Names, DistinctNames;
    if i == |registry| {
      assert registry[i..] == [];
    } else {
      MissingFromPrefix(registry, k, i + 1);
      RecordedInPrefix(registry, k, i);
      assert registry[i..][1..] == registry[i + 1..];
      assert registry[i..] == [registry[i]] + registry[i + 1..];
      assert i < k ==> [] + registry[k..] == registry[k..];
    }
  }

  lemma RecordedInPrefix<S>(registry: seq<Migration<S>>, k: nat, i: nat)
    requires DistinctNames(registry) && k <= |registry| && i < |registry|
    ensures registry[i].name in Names(registry)[..k] <==> i < k
  {
    var ledger := Names(registry)[..k];
    if i < k {
      assert ledger[i] == registry[i].name;
    } else {
      forall j | 0 <= j < k ensures ledger[j] != registry[i].name {
        assert registry[j].name != registry[i].name;
      }
    }
  }

  lemma NamesCut<S>(registry: seq<Migration<S>>, k: nat)
    requires k <= |registry|
    ensures Names(registry) == Names(registry)[..k] + Names(registry[k..])
  {
  }

  /** A complete run brings the ledger into the order of the registry exactly when it was a prefix of it before. */
  lemma OrderedExactlyWhenPrefix<S>(db: Database<S>, registry: seq<Migration<S>>)
    requires DistinctNames(registry)
    ensures Migrate(db, registry).ledger == Names(registry) <==> db.ledger <= Names(registry)
  {
    MigrateAddsMissing(db, registry);
    hide Migrate, Missing, DistinctNames, Effect;
    if db.ledger <= Names(registry) {
      var k := |db.ledger|;
      assert registry[0..] == registry && db.ledger == Names(registry)[..k];
      MissingFromPrefix(registry, k, 0);
      NamesCut(registry, k);
    }
  }

  /** A migration registered late under a smaller name is run late: the ledger is then out of order for good. */
  lemma LateSmallerNameRunsLate<S>(schema: S, a: S -> S, b: S -> S)
    ensures var registry := Sorted([Migration("2", b), Migration("1", a)]);
            && StrictlySorted(registry) && Names(registry) == ["1", "2"]
            && Migrate(Database(b(schema), ["2"]), registry) == Database(a(b(schema)), ["2", "1"])
  {
    var (ma, mb) := (Migration("1", a), Migration("2", b));
    assert Less("1", "2") && !Less("2", "1");
    assert Sorted([ma]) == Insert(ma, Sorted<S>([])) == [ma];
    assert [mb, ma][1..] == [ma];
    assert Sorted([mb, ma]) == Insert(mb, [ma]) == [ma] + Insert(mb, []) == [ma, mb];
    var db := Database(b(schema), ["2"]);
    assert MigrateOne(db, ma) == Database(a(b(schema)), ["2", "1"]);
    assert [ma, mb][1..] == [mb];
    assert Migrate(MigrateOne(db, ma), [mb]) == MigrateOne(db, ma);
  }
}
