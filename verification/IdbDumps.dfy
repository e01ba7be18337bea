/**
 * Dumps of a database. A dump holds no indexes: importing it builds them record by record, and
 * puts them where a running transaction would.
 */
module IdbDumps {
  import opened Wrappers
  import opened Keys
  import opened KeyRanges
  import opened IdbRecords
  import opened IdbDeletion
  import opened IdbTransactions

  /** One store in a dump: its records in key order. */
  datatype StoreDump = StoreDump(keyGenerator: int, records: seq<(Key, Value)>)

  datatype DatabaseDump = DatabaseDump(schema: Schema, stores: map<string, StoreDump>)

  function Listing(data: Data, left: set<Key>): seq<(Key, Value)>
    requires left <= data.Keys
    decreases |left|
  {
    match First(left, true)
    case None => []
    case Some(k) => [(k, data[k])] + Listing(data, left - {k})
  }

  /** exportDump */
  function Exported(s: DbState): DatabaseDump {
    DatabaseDump(s.committedSchema, map n | n in s.committed ::
      StoreDump(s.committed[n].keyGenerator, Listing(s.committed[n].records, s.committed[n].records.Keys)))
  }

  function Loaded(records: seq<(Key, Value)>): Data {
    if records == [] then map[]
    else Loaded(records[..|records| - 1])[records[|records| - 1].0 := records[|records| - 1].1]
  }

  /** The indexes that importDump builds from the records; nothing when a record breaks a unique index. */
  function BuiltIndexes(data: Data, p: StoreProperties): Option<map<string, IndexState>> {
    if exists i :: i in p.indexes && Built(EMPTY_INDEX, data, data.Keys, p.indexes[i]).error.Some? then None
    else Some(map i | i in p.indexes :: Built(EMPTY_INDEX, data, data.Keys, p.indexes[i]).state)
  }

  /** importDump of one store. */
  function ImportedStore(d: StoreDump, p: StoreProperties): Option<StoreState> {
    var data := Loaded(d.records);
    match BuiltIndexes(data, p)
    case None => None
    case Some(indexes) => Some(StoreState(data, None, d.keyGenerator, None, indexes))
  }

  /** importDump into a fresh backend. */
  function Imported(d: DatabaseDump): Option<DbState>
    requires d.stores.Keys == d.schema.stores.Keys
  {
    if exists n :: n in d.stores && ImportedStore(d.stores[n], d.schema.stores[n]).None? then None
    else
      var working := map n | n in d.stores :: ImportedStore(d.stores[n], d.schema.stores[n]).value;
      Some(DbState(d.schema, map n | n in working :: Originals(working[n]), d.schema, working, Idle, None, {}, map[], 1))
  }

  lemma {:induction false} LoadedAppend(a: seq<(Key, Value)>, b: seq<(Key, Value)>)
    ensures Loaded(a + b) == Loaded(a) + Loaded(b)
    decreases |b|
  {
    if b == [] {
      assert a + b == a;
    } else {
      assert (a + b)[..|a + b| - 1] == a + b[..|b| - 1];
      LoadedAppend(a, b[..|b| - 1]);
    }
  }

  lemma {:induction false} ListingLoads(data: Data, left: set<Key>)
    requires left <= data.Keys
    ensures Loaded(Listing(data, left)) == Restricted(data, left)
    decreases |left|
  {
    if left == {} {
      assert Restricted(data, left) == map[];
    } else {
      var k := First(left, true).value;
      ListingLoads(data, left - {k});
      LoadedAppend([(k, data[k])], Listing(data, left - {k}));
      assert Loaded([(k, data[k])]) == map[k := data[k]] by {
        assert [(k, data[k])][..0] == [];
      }
      assert map[k := data[k]] + Restricted(data, left - {k}) == Restricted(data, left);
    }
  }

  lemma CommittedStore(s: DbState, n: string)
    requires Inv(s) && CommittedAgreement(s) && n in s.committed
    ensures n in s.committedSchema.stores
    ensures Listed(Restored(s.committed[n]), s.committedSchema.stores[n])
    ensures StoreAgrees(Restored(s.committed[n]), s.committedSchema.stores[n])
  {
    hide Listed, StoreAgrees, Clean, Linked;
  }

  /** What the import of a store makes of it. */
  ghost predicate Revived(st: StoreState, c: Snapshot, p: StoreProperties) {
    && st.original == c.records && st.modified.None?
    && st.originalKeyGenerator == c.keyGenerator && st.modifiedKeyGenerator.None?
    && st.indexes.Keys == c.indexes.Keys
    && (forall i :: i in c.indexes ==> st.indexes[i].original == map[] && Entries(st.indexes[i]) == c.indexes[i])
    && Listed(st, p) && StoreAgrees(st, p)
  }

  /** Each rebuilt index has the committed entries, as those of a running transaction. */
  lemma Rebuilt(c: Snapshot, p: StoreProperties, i: string)
    requires Listed(Restored(c), p) && StoreAgrees(Restored(c), p) && i in p.indexes
    ensures var o := Built(EMPTY_INDEX, c.records, c.records.Keys, p.indexes[i]);
            && i in c.indexes && o.error.None? && Entries(o.state) == c.indexes[i] && o.state.original == map[]
            && IndexAgrees(o.state, c.records, p.indexes[i])
  {
    hide Built, IndexOf, UniqueHolds;
    assert i in p.indexNames;
    var j :| 0 <= j < |p.indexNames| && p.indexNames[j] == i;
    assert IndexAgrees(Restored(c).indexes[p.indexNames[j]], c.records, p.indexes[i]);
    BuildAgrees(c.records, p.indexes[i]);
    BuiltKeepsOriginal(EMPTY_INDEX, c.records, c.records.Keys, p.indexes[i]);
  }

  lemma StoreRoundTrip(c: Snapshot, p: StoreProperties)
    requires Listed(Restored(c), p) && StoreAgrees(Restored(c), p)
    ensures var o := ImportedStore(StoreDump(c.keyGenerator, Listing(c.records, c.records.Keys)), p);
            o.Some? && Revived(o.value, c, p)
  {
    hide Built, IndexAgrees, Listing;
    var data := c.records;
    ListingLoads(data, data.Keys);
    assert Restricted(data, data.Keys) == data;
    forall i | i in p.indexes
      ensures var o := Built(EMPTY_INDEX, data, data.Keys, p.indexes[i]);
              && i in c.indexes && o.error.None? && Entries(o.state) == c.indexes[i] && o.state.original == map[]
              && IndexAgrees(o.state, data, p.indexes[i])
    {
      Rebuilt(c, p, i);
    }
    assert Restored(c).indexes.Keys == c.indexes.Keys;
  }

  lemma {:induction false} BuiltKeepsOriginal(i: IndexState, data: Data, left: set<Key>, p: IndexProperties)
    requires left <= data.Keys
    ensures Built(i, data, left, p).state.original == i.original
    decreases |left|
  {
    if left != {} {
      var k := First(left, true).value;
      var r := Inserted(i, k, data[k], p);
      if r.Ok? {
        BuiltKeepsOriginal(r.value, data, left - {k}, p);
      } else if r.error == DataError {
        BuiltKeepsOriginal(i, data, left - {k}, p);
      }
    }
  }

  /** The database that the import of a dump of s makes. */
  ghost predicate Twin(t: DbState, s: DbState) {
    && t.level.Idle? && t.schema == s.committedSchema && t.committedSchema == s.committedSchema
    && t.working.Keys == s.committed.Keys && t.committed.Keys == s.committed.Keys
    && s.committed.Keys == s.committedSchema.stores.Keys && t.running == map[]
    && forall n :: n in s.committed ==>
         Revived(t.working[n], s.committed[n], s.committedSchema.stores[n]) && t.committed[n] == Originals(t.working[n])
  }

  lemma ImportIsTwin(s: DbState)
    requires Inv(s) && CommittedAgreement(s)
    ensures Exported(s).stores.Keys == Exported(s).schema.stores.Keys
    ensures Imported(Exported(s)).Some? && Twin(Imported(Exported(s)).value, s)
  {
    hide Listing, CommittedAgreement, Listed, Linked, Clean, ImportedStore, Revived, Originals;
    var d := Exported(s);
    forall n | n in s.committed
      ensures n in d.schema.stores
      ensures var o := ImportedStore(d.stores[n], d.schema.stores[n]);
              o.Some? && Revived(o.value, s.committed[n], d.schema.stores[n])
    {
      CommittedStore(s, n);
      StoreRoundTrip(s.committed[n], s.committedSchema.stores[n]);
    }
  }

  /**
   * Importing an exported dump succeeds, and everything that was committed is visible again:
   * records, key generators, schema, and the indexes, which are not in the dump, exactly as they
   * were kept up over the whole history. All indexes agree with their records.
   */
  lemma DumpRoundTrip(s: DbState)
    requires Inv(s) && CommittedAgreement(s)
    ensures Exported(s).stores.Keys == Exported(s).schema.stores.Keys
    ensures var o := Imported(Exported(s));
            o.Some? && View(o.value) == s.committed && o.value.schema == s.committedSchema && Agreement(o.value)
            && Base(o.value)
  {
    hide Imported, Exported, Inv, CommittedAgreement;
    ImportIsTwin(s);
    TwinView(Imported(Exported(s)).value, s);
  }

  lemma TwinView(t: DbState, s: DbState)
    requires Twin(t, s)
    ensures View(t) == s.committed && Agreement(t) && Base(t)
  {
    hide StoreAgrees, WellFormed;
    forall n | n in s.committed
      ensures Visible(t.working[n]) == s.committed[n]
      ensures Listed(Restored(t.committed[n]), t.committedSchema.stores[n])
    {
      var st, c := t.working[n], s.committed[n];
      assert Revived(st, c, s.committedSchema.stores[n]);
      assert Visible(st).indexes == c.indexes;
    }
    assert View(t) == s.committed;
  }

  // ---------- The first transaction after an import ----------

  lemma {:induction false} UntilTheEnd(m: Monitored, actions: seq<Action>)
    requires Base(m.db) && (!m.failed ==> Agreement(m.db)) && NoEnd(actions)
    ensures var m' := Run(m, actions); Base(m'.db) && (!m'.failed ==> Agreement(m'.db))
    decreases |actions|
  {
    hide Base, Agreement, Step;
    if actions != [] {
      var a := actions[0];
      assert a == actions[0];
      StepBase(m.db, a);
      if !m.failed && !Step(m.db, a).outcome.Failed? {
        StepAgreement(m.db, a);
      }
      UntilTheEnd(Advance(m, a), actions[1..]);
    }
  }

  /** When the first transaction after an import is committed, the database is sound from then on. */
  lemma CommitAfterImport(s: DbState, actions: seq<Action>, tx: nat)
    requires Inv(s) && CommittedAgreement(s) && NoEnd(actions)
    requires Exported(s).stores.Keys == Exported(s).schema.stores.Keys && Imported(Exported(s)).Some?
    requires var m := Run(Monitored(Imported(Exported(s)).value, false), actions);
             !m.failed && Step(m.db, Commit(tx)).outcome == Done
    ensures var m := Run(Monitored(Imported(Exported(s)).value, false), actions);
            RunInv(Advance(m, Commit(tx)))
  {
    hide Imported, Exported, Agreement, CommittedAgreement, Inv, Run;
    DumpRoundTrip(s);
    var m := Monitored(Imported(Exported(s)).value, false);
    UntilTheEnd(m, actions);
    var m' := Run(m, actions);
    CommitInv(m'.db, tx);
    StepAgreement(m'.db, Commit(tx));
  }

  /** All indexes of all stores are empty. */
  ghost predicate NoEntries(s: DbState) {
    forall n, i :: n in s.committed && i in s.committed[n].indexes ==> s.committed[n].indexes[i] == map[]
  }

  lemma {:induction false} RunKeepsBase(m: Monitored, actions: seq<Action>)
    requires Base(m.db) && NoEnd(actions)
    ensures var m' := Run(m, actions);
            Base(m'.db) && m'.db.committed == m.db.committed && m'.db.committedSchema == m.db.committedSchema
    decreases |actions|
  {
    hide Base, Step;
    if actions != [] {
      assert !actions[0].Commit?;
      StepBase(m.db, actions[0]);
      StepCommitted(m.db, actions[0]);
      RunKeepsBase(Advance(m, actions[0]), actions[1..]);
    }
  }

  /**
   * When the first transaction after an import is rolled back, the records are still there but
   * every index is empty. So the indexes still agree exactly when they had no entries to lose.
   */
  lemma RollbackAfterImport(s: DbState, actions: seq<Action>, tx: nat)
    requires Inv(s) && CommittedAgreement(s) && NoEnd(actions)
    requires Exported(s).stores.Keys == Exported(s).schema.stores.Keys && Imported(Exported(s)).Some?
    requires Step(Run(Monitored(Imported(Exported(s)).value, false), actions).db, Rollback(tx)).outcome == Done
    ensures var after := Step(Run(Monitored(Imported(Exported(s)).value, false), actions).db, Rollback(tx)).state;
            && after.working.Keys == s.committed.Keys
            && (forall n :: n in s.committed ==> Records(after.working[n]) == s.committed[n].records)
            && (Agreement(after) <==> NoEntries(s))
  {
    hide Imported, Exported, Agreement, CommittedAgreement, Base, Run, NoEntries;
    DumpRoundTrip(s);
    ImportIsTwin(s);
    var t := Imported(Exported(s)).value;
    RunKeepsBase(Monitored(t, false), actions);
    var u := Run(Monitored(t, false), actions).db;
    var after := Step(u, Rollback(tx)).state;
    assert forall n :: n in s.committed ==> after.working[n] == Restored(Originals(t.working[n]));
    EmptiedAgreement(s, t, after);
  }

  lemma EmptiedAgreement(s: DbState, t: DbState, after: DbState)
    requires Twin(t, s) && Base(s) && CommittedAgreement(s)
    requires after.working.Keys == s.committed.Keys && after.schema == s.committedSchema
    requires forall n :: n in s.committed ==> after.working[n] == Restored(Originals(t.working[n]))
    ensures forall n :: n in s.committed ==> Records(after.working[n]) == s.committed[n].records
    ensures Agreement(after) <==> NoEntries(s)
  {
    hide StoreAgrees, Listed, WellFormed, Originals, Restored;
    forall n | n in s.committed
      ensures Records(after.working[n]) == s.committed[n].records
      ensures StoreAgrees(after.working[n], s.committedSchema.stores[n])
              <==> forall i :: i in s.committed[n].indexes ==> s.committed[n].indexes[i] == map[]
    {
      assert Revived(t.working[n], s.committed[n], s.committedSchema.stores[n]);
      EmptiedStore(t.working[n], s.committed[n], s.committedSchema.stores[n]);
    }
  }

  /** An index that has lost its entries. */
  lemma EmptiedIndex(st: StoreState, c: Snapshot, p: StoreProperties, j: nat)
    requires Revived(st, c, p) && j < |p.indexNames|
    ensures p.indexNames[j] in c.indexes && p.indexNames[j] in p.indexes
    ensures var i := p.indexNames[j];
            IndexAgrees(Restored(Originals(st)).indexes[i], c.records, p.indexes[i]) <==> c.indexes[i] == map[]
  {
    hide IndexOf, UniqueHolds;
    var i := p.indexNames[j];
    assert IndexAgrees(st.indexes[i], c.records, p.indexes[i]);
    assert Entries(Restored(Originals(st)).indexes[i]) == map[];
  }

  lemma EmptiedStore(st: StoreState, c: Snapshot, p: StoreProperties)
    requires Revived(st, c, p)
    ensures var after := Restored(Originals(st));
            && Records(after) == c.records
            && (StoreAgrees(after, p) <==> forall i :: i in c.indexes ==> c.indexes[i] == map[])
  {
    hide IndexAgrees, Listed, WellFormed;
    var after := Restored(Originals(st));
    assert WellFormed(p) && forall i :: i in c.indexes ==> i in p.indexNames by { RevivedNames(st, c, p); }
    forall j | 0 <= j < |p.indexNames|
      ensures p.indexNames[j] in c.indexes && p.indexNames[j] in p.indexes
      ensures var i := p.indexNames[j];
              IndexAgrees(after.indexes[i], c.records, p.indexes[i]) <==> c.indexes[i] == map[]
    {
      EmptiedIndex(st, c, p, j);
    }
  }

  lemma RevivedNames(st: StoreState, c: Snapshot, p: StoreProperties)
    requires Revived(st, c, p)
    ensures WellFormed(p) && forall i :: i in c.indexes ==> i in p.indexNames
  {
    hide StoreAgrees;
  }
}
