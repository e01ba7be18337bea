/**
 * One database of the backend as a state machine: connections, transactions and everything
 * that can happen in them, in any interleaving.
 */
module IdbTransactions {
  import opened Wrappers
  import opened Keys
  import opened KeyRanges
  import opened IdbRecords
  import opened IdbDeletion

  datatype Schema = Schema(version: int, stores: map<string, StoreProperties>)

  /** What is committed for one store. */
  datatype Snapshot = Snapshot(records: Data, keyGenerator: int, indexes: map<string, IndexData>)

  datatype Level = Idle | Read | Write | VersionChange

  /**
   * The committed part, and the part that the running transaction works on (the modified
   * versions of the stores and indexes in its schema). Transactions and connections have
   * numbers; at any time the running transactions are mapped to their connections.
   */
  datatype DbState = DbState(
    committedSchema: Schema,
    committed: map<string, Snapshot>,
    schema: Schema,
    working: map<string, StoreState>,
    level: Level,
    scope: Option<seq<string>>,
    connections: set<nat>,
    running: map<nat, nat>,
    nextTransaction: nat)

  const INITIAL := DbState(Schema(0, map[]), map[], Schema(0, map[]), map[], Idle, None, {}, map[], 1)

  datatype Action =
    | Connect(conn: nat)
    | Close(conn: nat)
    | Begin(conn: nat, stores: seq<string>, write: bool)
    | EnterVersionChange(conn: nat, version: int)
    | Put(tx: nat, name: string, req: StoreRequest)
    | Remove(tx: nat, name: string, range: KeyRange)
    | Clear(tx: nat, name: string)
    | CreateStore(tx: nat, name: string, props: StoreProperties)
    | DeleteStore(tx: nat, name: string)
    | CreateIndex(tx: nat, name: string, index: string, indexProps: IndexProperties)
    | DeleteIndex(tx: nat, name: string, index: string)
    | Commit(tx: nat)
    | Rollback(tx: nat)

  /** Done, refused or failed with an error, or left waiting. */
  datatype Outcome = Done | Failed | Blocked

  datatype StepResult = StepResult(state: DbState, outcome: Outcome)

  // ---------- Single steps ----------

  /** The checks at the head of every operation on the records of a store. */
  predicate MayWrite(s: DbState, tx: nat, name: string) {
    && tx in s.running && (s.level.Write? || s.level.VersionChange?)
    && (s.scope.Some? ==> name in s.scope.value)
    && name in s.working && name in s.schema.stores && WellFormed(s.schema.stores[name])
  }

  predicate MayChangeSchema(s: DbState, tx: nat) { tx in s.running && s.level.VersionChange? }

  /** A transaction number is used up even if the transaction does not begin. */
  function Numbered(s: DbState): DbState { s.(nextTransaction := s.nextTransaction + 1) }

  function BeginStep(s: DbState, conn: nat, stores: seq<string>, write: bool): StepResult {
    if conn !in s.connections then StepResult(Numbered(s), Failed)
    else if !s.level.Idle? then StepResult(Numbered(s), Blocked)
    else
      StepResult(s.(level := if write then Write else Read, scope := Some(stores),
                    running := s.running[s.nextTransaction := conn], nextTransaction := s.nextTransaction + 1), Done)
  }

  // Callers wait until no other connection is open before they change the version.
  function EnterVersionChangeStep(s: DbState, conn: nat, version: int): StepResult {
    if conn !in s.connections then StepResult(Numbered(s), Failed)
    else if !s.level.Idle? || s.connections != {conn} then StepResult(Numbered(s), Blocked)
    else
      StepResult(s.(level := VersionChange, scope := None, schema := s.schema.(version := version),
                    running := s.running[s.nextTransaction := conn], nextTransaction := s.nextTransaction + 1), Done)
  }

  function PutStep(s: DbState, tx: nat, name: string, req: StoreRequest): StepResult {
    if !MayWrite(s, tx, name) then StepResult(s, Failed)
    else
      var o := StoreRecordResult(s.working[name], s.schema.stores[name], req);
      StepResult(s.(working := s.working[name := o.state]), if o.result.Ok? then Done else Failed)
  }

  function RemoveStep(s: DbState, tx: nat, name: string, range: KeyRange): StepResult {
    if !MayWrite(s, tx, name) then StepResult(s, Failed)
    else
      var (st, error) := DeleteResult(s.working[name], s.schema.stores[name], range);
      StepResult(s.(working := s.working[name := st]), if error.None? then Done else Failed)
  }

  function ClearStep(s: DbState, tx: nat, name: string): StepResult {
    if !MayWrite(s, tx, name) then StepResult(s, Failed)
    else
      var (st, error) := ClearResult(s.working[name], s.schema.stores[name]);
      StepResult(s.(working := s.working[name := st]), if error.None? then Done else Failed)
  }

  const EMPTY_STORE := StoreState(map[], None, 1, None, map[])

  function CreateStoreStep(s: DbState, tx: nat, name: string, props: StoreProperties): StepResult {
    if !MayChangeSchema(s, tx) then StepResult(s, Failed)
    else
      var props' := props.(indexNames := [], indexes := map[]);
      StepResult(s.(schema := s.schema.(stores := s.schema.stores[name := props']),
                    working := s.working[name := EMPTY_STORE]), Done)
  }

  function DeleteStoreStep(s: DbState, tx: nat, name: string): StepResult {
    if !MayChangeSchema(s, tx) || name !in s.schema.stores || name !in s.working then StepResult(s, Failed)
    else
      StepResult(s.(schema := s.schema.(stores := s.schema.stores - {name}), working := s.working - {name}), Done)
  }

  function WithIndex(p: StoreProperties, index: string, ip: IndexProperties): StoreProperties {
    p.(indexNames := if index in p.indexNames then p.indexNames else p.indexNames + [index],
       indexes := p.indexes[index := ip])
  }

  function Filter(names: seq<string>, index: string): seq<string> {
    if names == [] then [] else (if names[0] == index then [] else [names[0]]) + Filter(names[1..], index)
  }

  function WithoutIndex(p: StoreProperties, index: string): StoreProperties {
    p.(indexNames := Filter(p.indexNames, index), indexes := p.indexes - {index})
  }

  function CreateIndexStep(s: DbState, tx: nat, name: string, index: string, ip: IndexProperties): StepResult {
    if !MayChangeSchema(s, tx) || name !in s.schema.stores || name !in s.working then StepResult(s, Failed)
    else
      var st := s.working[name];
      var o := Built(EMPTY_INDEX, Records(st), Records(st).Keys, ip);
      StepResult(s.(schema := s.schema.(stores := s.schema.stores[name := WithIndex(s.schema.stores[name], index, ip)]),
                    working := s.working[name := st.(indexes := st.indexes[index := o.state])]),
                 if o.error.None? then Done else Failed)
  }

  function DeleteIndexStep(s: DbState, tx: nat, name: string, index: string): StepResult {
    if !MayChangeSchema(s, tx) || name !in s.schema.stores || name !in s.working
       || index !in s.schema.stores[name].indexes || index !in s.working[name].indexes
    then StepResult(s, Failed)
    else
      var st := s.working[name];
      StepResult(s.(schema := s.schema.(stores := s.schema.stores[name := WithoutIndex(s.schema.stores[name], index)]),
                    working := s.working[name := st.(indexes := st.indexes - {index})]), Done)
  }

  /** The key generator that commit publishes. */
  function CommittedGenerator(st: StoreState): int {
    if st.modifiedKeyGenerator.Some? then st.modifiedKeyGenerator.value else st.originalKeyGenerator
  }

  function Published(st: StoreState): Snapshot {
    Snapshot(Records(st), CommittedGenerator(st), map i | i in st.indexes :: Entries(st.indexes[i]))
  }

  function SettledIndex(i: IndexState): IndexState { i.(original := Entries(i)) }

  /** The store after a commit: the modified versions stay, as the new originals. */
  function Settled(st: StoreState): StoreState {
    st.(original := Records(st), originalKeyGenerator := CommittedGenerator(st),
        indexes := map i | i in st.indexes :: SettledIndex(st.indexes[i]))
  }

  /** The original versions of a store are what counts as committed. */
  function Originals(st: StoreState): Snapshot {
    Snapshot(st.original, st.originalKeyGenerator, map i | i in st.indexes :: st.indexes[i].original)
  }

  function Restored(c: Snapshot): StoreState {
    StoreState(c.records, None, c.keyGenerator, None, map i | i in c.indexes :: IndexState(c.indexes[i], None))
  }

  function CommitStep(s: DbState, tx: nat): StepResult {
    if tx !in s.running || s.level.Idle? then StepResult(s, Failed)
    else
      StepResult(s.(committedSchema := s.schema, committed := map n | n in s.working :: Published(s.working[n]),
                    working := map n | n in s.working :: Settled(s.working[n]),
                    level := Idle, scope := None, running := s.running - {tx}), Done)
  }

  function RollbackStep(s: DbState, tx: nat): StepResult {
    if tx !in s.running || s.level.Idle? then StepResult(s, Failed)
    else
      StepResult(s.(schema := s.committedSchema, working := map n | n in s.committed :: Restored(s.committed[n]),
                    level := Idle, scope := None, running := s.running - {tx}), Done)
  }

  function Step(s: DbState, a: Action): StepResult {
    match a
    // Callers do not connect while the version is changed.
    case Connect(c) => if s.level.VersionChange? then StepResult(s, Blocked)
                       else StepResult(s.(connections := s.connections + {c}), Done)
    case Close(c) => if c !in s.connections then StepResult(s, Failed)
                     else StepResult(s.(connections := s.connections - {c}), Done)
    case Begin(c, stores, write) => BeginStep(s, c, stores, write)
    case EnterVersionChange(c, version) => EnterVersionChangeStep(s, c, version)
    case Put(tx, name, req) => PutStep(s, tx, name, req)
    case Remove(tx, name, range) => RemoveStep(s, tx, name, range)
    case Clear(tx, name) => ClearStep(s, tx, name)
    case CreateStore(tx, name, props) => CreateStoreStep(s, tx, name, props)
    case DeleteStore(tx, name) => DeleteStoreStep(s, tx, name)
    case CreateIndex(tx, name, index, ip) => CreateIndexStep(s, tx, name, index, ip)
    case DeleteIndex(tx, name, index) => DeleteIndexStep(s, tx, name, index)
    case Commit(tx) => CommitStep(s, tx)
    case Rollback(tx) => RollbackStep(s, tx)
  }

  // ---------- Invariant ----------

  /** A working store has the indexes its schema lists. */
  predicate Listed(st: StoreState, p: StoreProperties) {
    WellFormed(p) && st.indexes.Keys == p.indexes.Keys && forall i :: i in p.indexes ==> i in p.indexNames
  }

  /** The original versions are what is committed. */
  ghost predicate Linked(st: StoreState, c: Snapshot) {
    && st.original == c.records && st.originalKeyGenerator == c.keyGenerator && st.indexes.Keys == c.indexes.Keys
    && forall i :: i in c.indexes ==> st.indexes[i].original == c.indexes[i]
  }

  /** And nothing else is visible. */
  ghost predicate Clean(st: StoreState, c: Snapshot) {
    && Linked(st, c) && Records(st) == c.records && Generator(st) == c.keyGenerator
    && forall i :: i in c.indexes ==> Entries(st.indexes[i]) == c.indexes[i]
  }

  ghost predicate Base(s: DbState) {
    // at most one transaction runs, and the level says whether one does
    && (s.level.Idle? <==> s.running == map[])
    && (forall a, b :: a in s.running && b in s.running ==> a == b)
    && (forall a :: a in s.running ==> a < s.nextTransaction)
    // the committed and the working stores are those of their schemas
    && s.committed.Keys == s.committedSchema.stores.Keys
    && (forall n :: n in s.committed ==> Listed(Restored(s.committed[n]), s.committedSchema.stores[n]))
    && s.working.Keys == s.schema.stores.Keys
    && (forall n :: n in s.working ==> Listed(s.working[n], s.schema.stores[n]))
    // outside a version change all connections share the committed schema and stores
    && (!s.level.VersionChange? ==>
          s.schema == s.committedSchema && forall n :: n in s.committed ==> Linked(s.working[n], s.committed[n]))
  }

  /** Moreover, nothing but what is committed is visible unless a transaction writes. */
  ghost predicate Inv(s: DbState) {
    && Base(s)
    && (s.level.Idle? || s.level.Read? ==> forall n :: n in s.committed ==> Clean(s.working[n], s.committed[n]))
  }

  lemma InitialInv()
    ensures Inv(INITIAL)
  {
  }

  lemma {:induction false} ReindexKeepsKeys(indexes: map<string, IndexState>, p: StoreProperties, j: nat,
                                            pk: Key, previous: Option<Value>, value: Value)
    requires WellFormed(p) && j <= |p.indexNames|
    ensures var o := ReindexAll(indexes, p, j, pk, previous, value);
            o.indexes.Keys == indexes.Keys && forall i :: i in indexes ==> o.indexes[i].original == indexes[i].original
    decreases |p.indexNames| - j
  {
    if j < |p.indexNames| && p.indexNames[j] in indexes {
      var name := p.indexNames[j];
      var o := Reindexed(indexes[name], pk, previous, value, p.indexes[name]);
      ReindexKeepsKeys(indexes[name := o.state], p, j + 1, pk, previous, value);
    }
  }

  lemma {:induction false} DeleteFromAllKeepsKeys(indexes: map<string, IndexState>, p: StoreProperties, j: nat,
                                                  pk: Key, value: Value)
    requires WellFormed(p) && j <= |p.indexNames|
    ensures var o := DeleteFromAll(indexes, p, j, pk, value);
            o.indexes.Keys == indexes.Keys && forall i :: i in indexes ==> o.indexes[i].original == indexes[i].original
    decreases |p.indexNames| - j
  {
    if j < |p.indexNames| && p.indexNames[j] in indexes {
      var name := p.indexNames[j];
      var r := Deleted(indexes[name], pk, value, p.indexes[name]);
      if r.Ok? {
        DeleteFromAllKeepsKeys(indexes[name := r.value], p, j + 1, pk, value);
      }
    }
  }

  lemma {:induction false} DeleteLoopKeepsKeys(data: Data, indexes: map<string, IndexState>, p: StoreProperties,
                                               curr: Option<Key>, range: KeyRange)
    requires WellFormed(p)
    ensures var o := DeleteLoop(data, indexes, p, curr, range);
            o.indexes.Keys == indexes.Keys && forall i :: i in indexes ==> o.indexes[i].original == indexes[i].original
    decreases |data|
  {
    hide Stops, DeleteFromAll;
    if curr.Some? && !Stops(range, curr.value) && curr.value in data {
      var k := curr.value;
      DeleteFromAllKeepsKeys(indexes, p, 0, k, data[k]);
      var o := DeleteFromAll(indexes, p, 0, k, data[k]);
      DeleteLoopKeepsKeys(data - {k}, o.indexes, p, Next((data - {k}).Keys, true, k), range);
    }
  }

  lemma {:induction false} ClearAllKeepsKeys(indexes: map<string, IndexState>, p: StoreProperties, j: nat)
    requires j <= |p.indexNames|
    ensures var o := ClearAll(indexes, p, j);
            o.indexes.Keys == indexes.Keys && forall i :: i in indexes ==> o.indexes[i].original == indexes[i].original
    decreases |p.indexNames| - j
  {
    if j < |p.indexNames| && p.indexNames[j] in indexes {
      var name := p.indexNames[j];
      ClearAllKeepsKeys(indexes[name := indexes[name].(modified := Some(map[]))], p, j + 1);
    }
  }

  /** The record operations touch only modified versions. */
  predicate SameOriginals(a: StoreState, b: StoreState) {
    && a.original == b.original && a.originalKeyGenerator == b.originalKeyGenerator && a.indexes.Keys == b.indexes.Keys
    && forall i :: i in a.indexes ==> a.indexes[i].original == b.indexes[i].original
  }

  lemma RecordsKeepOriginals(st: StoreState, p: StoreProperties, req: StoreRequest, range: KeyRange)
    requires WellFormed(p)
    ensures SameOriginals(st, StoreRecordResult(st, p, req).state)
    ensures SameOriginals(st, DeleteResult(st, p, range).0)
    ensures SameOriginals(st, ClearResult(st, p).0)
  {
    hide ReindexAll, DeleteLoop, ClearAll, Aligned, StartKey;
    var target := Resolved(st, p, req);
    if target.Ok? {
      var pk, value := target.value.key, target.value.value;
      ReindexKeepsKeys(st.indexes, p, 0, pk, Lookup(Records(st), pk), value);
    }
    var start := StartKey(Records(st), range);
    if start.Some? {
      DeleteLoopKeepsKeys(Records(st), st.indexes, p, Aligned(Records(st), start.value), range);
    }
    ClearAllKeepsKeys(st.indexes, p, 0);
  }

  /** A write to one store keeps the invariant when it keeps the originals. */
  lemma WorkingUpdate(s: DbState, tx: nat, name: string, st: StoreState)
    requires Base(s) && MayWrite(s, tx, name) && SameOriginals(s.working[name], st)
    ensures Base(s.(working := s.working[name := st]))
  {
    hide WellFormed;
    assert Listed(st, s.schema.stores[name]);
  }

  lemma {:induction false} FilterElements(names: seq<string>, index: string)
    requires forall j, k :: 0 <= j < k < |names| ==> names[j] != names[k]
    ensures var f := Filter(names, index);
            && (forall x :: x in f <==> x in names && x != index)
            && forall j, k :: 0 <= j < k < |f| ==> f[j] != f[k]
  {
    if names != [] {
      FilterElements(names[1..], index);
      var f := Filter(names[1..], index);
      assert names == [names[0]] + names[1..];
      assert names[0] !in names[1..];
      assert names[0] !in f;
    }
  }

  lemma AppendDistinct(names: seq<string>, index: string)
    requires index !in names && forall j, k :: 0 <= j < k < |names| ==> names[j] != names[k]
    ensures var a := names + [index]; forall j, k :: 0 <= j < k < |a| ==> a[j] != a[k]
  {
  }

  lemma IndexListing(st: StoreState, p: StoreProperties, index: string, ip: IndexProperties, i: IndexState)
    requires Listed(st, p)
    ensures Listed(st.(indexes := st.indexes[index := i]), WithIndex(p, index, ip))
    ensures Listed(st.(indexes := st.indexes - {index}), WithoutIndex(p, index))
  {
    hide *;
    AddListing(st, p, index, ip, i);
    DropListing(st, p, index);
  }

  lemma AddListing(st: StoreState, p: StoreProperties, index: string, ip: IndexProperties, i: IndexState)
    requires Listed(st, p)
    ensures Listed(st.(indexes := st.indexes[index := i]), WithIndex(p, index, ip))
  {
    if index !in p.indexNames {
      AppendDistinct(p.indexNames, index);
      var names := p.indexNames + [index];
      assert names[|names| - 1] == index;
      assert forall x :: x in p.indexNames ==> x in names;
    }
  }

  lemma DropListing(st: StoreState, p: StoreProperties, index: string)
    requires Listed(st, p)
    ensures Listed(st.(indexes := st.indexes - {index}), WithoutIndex(p, index))
  {
    hide Filter;
    FilterElements(p.indexNames, index);
    var less := Filter(p.indexNames, index);
    forall j | 0 <= j < |less|
      ensures less[j] in p.indexes - {index}
    {
      assert less[j] in less;
      assert less[j] in p.indexNames;
      var k :| 0 <= k < |p.indexNames| && p.indexNames[k] == less[j];
    }
  }

  lemma SettledListed(st: StoreState, p: StoreProperties)
    requires Listed(st, p)
    ensures Listed(Settled(st), p) && Listed(Restored(Published(st)), p) && Clean(Settled(st), Published(st))
  {
    hide WellFormed;
  }

  lemma CommitInv(s: DbState, tx: nat)
    requires Base(s) && tx in s.running
    ensures Inv(CommitStep(s, tx).state)
  {
    hide Listed, Clean, Settled, Published, Restored;
    var s' := CommitStep(s, tx).state;
    forall n | n in s'.committed
      ensures Clean(s'.working[n], s'.committed[n]) && Linked(s'.working[n], s'.committed[n])
      ensures Listed(Restored(s'.committed[n]), s'.committedSchema.stores[n])
      ensures Listed(s'.working[n], s'.schema.stores[n])
    {
      SettledListed(s.working[n], s.schema.stores[n]);
      CleanIsLinked(s'.working[n], s'.committed[n]);
    }
    assert s'.running == map[];
  }

  lemma CleanIsLinked(st: StoreState, c: Snapshot)
    requires Clean(st, c)
    ensures Linked(st, c)
  {
  }

  lemma RestoredClean(c: Snapshot)
    ensures Clean(Restored(c), c)
  {
  }

  lemma RollbackInv(s: DbState, tx: nat)
    requires Base(s) && tx in s.running
    ensures Inv(RollbackStep(s, tx).state)
  {
    hide Listed, Clean, Linked, Restored;
    var after := RollbackStep(s, tx).state;
    forall n | n in after.committed
      ensures Clean(after.working[n], after.committed[n]) && Linked(after.working[n], after.committed[n])
    {
      RestoredClean(s.committed[n]);
      CleanIsLinked(after.working[n], after.committed[n]);
    }
    assert after.running == map[];
  }

  /** Replacing the store and its properties together keeps the invariant of a version change. */
  lemma SchemaUpdate(s: DbState, tx: nat, name: string, st: StoreState, p: StoreProperties)
    requires Base(s) && MayChangeSchema(s, tx) && Listed(st, p)
    ensures Base(s.(schema := s.schema.(stores := s.schema.stores[name := p]), working := s.working[name := st]))
    ensures Base(s.(schema := s.schema.(stores := s.schema.stores - {name}), working := s.working - {name}))
  {
    hide Listed, Linked, Clean;
  }

  lemma SchemaStepInv(s: DbState, a: Action)
    requires Base(s) && (a.CreateStore? || a.DeleteStore? || a.CreateIndex? || a.DeleteIndex?)
    ensures Base(Step(s, a).state)
  {
    hide WellFormed, Built, Base, Listed, WithIndex, WithoutIndex;
    if MayChangeSchema(s, a.tx) {
      match a
      case CreateStore(tx, name, props) =>
        NoIndexes(props);
        SchemaUpdate(s, tx, name, EMPTY_STORE, props.(indexNames := [], indexes := map[]));
      case DeleteStore(tx, name) =>
        NoIndexes(NO_PROPERTIES);
        SchemaUpdate(s, tx, name, EMPTY_STORE, NO_PROPERTIES);
      case CreateIndex(tx, name, index, ip) =>
        if name in s.working && name in s.schema.stores {
          var st, p := s.working[name], s.schema.stores[name];
          var i := Built(EMPTY_INDEX, Records(st), Records(st).Keys, ip).state;
          WorkingListed(s, name);
          IndexListing(st, p, index, ip, i);
          SchemaUpdate(s, tx, name, st.(indexes := st.indexes[index := i]), WithIndex(p, index, ip));
        }
      case DeleteIndex(tx, name, index) =>
        if name in s.working && name in s.schema.stores && index in s.schema.stores[name].indexes {
          var st, p := s.working[name], s.schema.stores[name];
          WorkingListed(s, name);
          IndexListing(st, p, index, p.indexes[index], EMPTY_INDEX);
          SchemaUpdate(s, tx, name, st.(indexes := st.indexes - {index}), WithoutIndex(p, index));
        }
    }
  }

  lemma WorkingListed(s: DbState, name: string)
    requires Base(s) && name in s.working
    ensures name in s.schema.stores && Listed(s.working[name], s.schema.stores[name])
  {
    hide Listed, Linked, Clean;
  }

  const NO_PROPERTIES := StoreProperties(false, (v, k, g) => None, [], map[])

  lemma NoIndexes(props: StoreProperties)
    ensures Listed(EMPTY_STORE, props.(indexNames := [], indexes := map[]))
    ensures props == NO_PROPERTIES ==> Listed(EMPTY_STORE, NO_PROPERTIES)
  {
  }

  lemma StepBase(s: DbState, a: Action)
    requires Base(s)
    ensures Base(Step(s, a).state)
  {
    hide Inv, Base, StoreRecordResult, DeleteResult, ClearResult, CreateStoreStep, DeleteStoreStep, CreateIndexStep,
         DeleteIndexStep, CommitStep, RollbackStep, SameOriginals, BeginStep, EnterVersionChangeStep;
    match a
    case Connect(_) => ConnectionsFree(s, s.connections + {a.conn});
    case Close(_) => ConnectionsFree(s, s.connections - {a.conn});
    case Begin(conn, stores, write) => BeginBase(s, conn, stores, write);
    case EnterVersionChange(conn, version) => EnterBase(s, conn, version);
    case Put(tx, name, req) =>
      if MayWrite(s, tx, name) {
        RecordsKeepOriginals(s.working[name], s.schema.stores[name], req, KeyRange(None, None, true, true));
        WorkingUpdate(s, tx, name, StoreRecordResult(s.working[name], s.schema.stores[name], req).state);
      }
    case Remove(tx, name, range) =>
      if MayWrite(s, tx, name) {
        KeepOriginalsRemove(s.working[name], s.schema.stores[name], range);
        WorkingUpdate(s, tx, name, DeleteResult(s.working[name], s.schema.stores[name], range).0);
      }
    case Clear(tx, name) =>
      if MayWrite(s, tx, name) {
        KeepOriginalsRemove(s.working[name], s.schema.stores[name], KeyRange(None, None, true, true));
        WorkingUpdate(s, tx, name, ClearResult(s.working[name], s.schema.stores[name]).0);
      }
    case CreateStore(_, _, _) => SchemaStepInv(s, a);
    case DeleteStore(_, _) => SchemaStepInv(s, a);
    case CreateIndex(_, _, _, _) => SchemaStepInv(s, a);
    case DeleteIndex(_, _, _) => SchemaStepInv(s, a);
    case Commit(tx) => CommitOrRollbackBase(s, tx);
    case Rollback(tx) => CommitOrRollbackBase(s, tx);
  }

  lemma KeepOriginalsRemove(st: StoreState, p: StoreProperties, range: KeyRange)
    requires WellFormed(p)
    ensures SameOriginals(st, DeleteResult(st, p, range).0) && SameOriginals(st, ClearResult(st, p).0)
  {
    hide DeleteLoop, ClearAll, Aligned, StartKey;
    var start := StartKey(Records(st), range);
    if start.Some? {
      DeleteLoopKeepsKeys(Records(st), st.indexes, p, Aligned(Records(st), start.value), range);
    }
    ClearAllKeepsKeys(st.indexes, p, 0);
  }

  lemma ConnectionsFree(s: DbState, connections: set<nat>)
    requires Base(s)
    ensures Base(s.(connections := connections))
  {
    hide Listed, Linked, Clean;
  }

  lemma BeginBase(s: DbState, conn: nat, stores: seq<string>, write: bool)
    requires Base(s)
    ensures Base(BeginStep(s, conn, stores, write).state)
  {
    hide Listed, Linked, Clean;
    assert s.nextTransaction in s.running[s.nextTransaction := conn];
  }

  lemma EnterBase(s: DbState, conn: nat, version: int)
    requires Base(s)
    ensures Base(EnterVersionChangeStep(s, conn, version).state)
  {
    hide Listed, Linked, Clean;
    assert s.nextTransaction in s.running[s.nextTransaction := conn];
  }

  lemma CommitOrRollbackBase(s: DbState, tx: nat)
    requires Base(s)
    ensures Base(CommitStep(s, tx).state) && Base(RollbackStep(s, tx).state)
  {
    if tx in s.running {
      CommitInv(s, tx);
      RollbackInv(s, tx);
    }
  }

  /** Every step keeps the invariant, whether it succeeds or fails. */
  lemma StepInv(s: DbState, a: Action)
    requires Inv(s)
    ensures Inv(Step(s, a).state)
  {
    hide Base, Clean, StoreRecordResult, DeleteResult, ClearResult, Built, CommitStep, RollbackStep;
    StepBase(s, a);
    match a {
      case Commit(tx) => EndInv(s, tx);
      case Rollback(tx) => EndInv(s, tx);
      case _ =>
    }
  }

  lemma EndInv(s: DbState, tx: nat)
    requires Inv(s)
    ensures Inv(CommitStep(s, tx).state) && Inv(RollbackStep(s, tx).state)
  {
    if tx in s.running {
      CommitInv(s, tx);
      RollbackInv(s, tx);
    }
  }

  // ---------- Agreement over whole runs ----------

  /** Every index in the schema of the running transaction agrees with the records it sees. */
  ghost predicate Agreement(s: DbState) {
    forall n :: n in s.working && n in s.schema.stores ==> StoreAgrees(s.working[n], s.schema.stores[n])
  }

  /** The same for what is committed. */
  ghost predicate CommittedAgreement(s: DbState) {
    forall n :: n in s.committed && n in s.committedSchema.stores ==>
      StoreAgrees(Restored(s.committed[n]), s.committedSchema.stores[n])
  }

  lemma SettledAgrees(st: StoreState, p: StoreProperties)
    requires StoreAgrees(st, p)
    ensures StoreAgrees(Settled(st), p) && StoreAgrees(Restored(Published(st)), p)
  {
    hide WellFormed, IndexOf, UniqueHolds;
  }

  lemma NewIndexAgrees(st: StoreState, p: StoreProperties, index: string, ip: IndexProperties)
    requires StoreAgrees(st, p) && Built(EMPTY_INDEX, Records(st), Records(st).Keys, ip).error.None?
    requires Listed(st, p)
    ensures var i := Built(EMPTY_INDEX, Records(st), Records(st).Keys, ip).state;
            StoreAgrees(st.(indexes := st.indexes[index := i]), WithIndex(p, index, ip))
  {
    hide Built, IndexAgrees;
    var i := Built(EMPTY_INDEX, Records(st), Records(st).Keys, ip).state;
    BuildAgrees(Records(st), ip);
    IndexListing(st, p, index, ip, i);
    var p' := WithIndex(p, index, ip);
    forall j | 0 <= j < |p'.indexNames|
      ensures IndexAgrees(st.indexes[index := i][p'.indexNames[j]], Records(st), p'.indexes[p'.indexNames[j]])
    {
      if p'.indexNames[j] != index {
        assert p'.indexNames[j] == p.indexNames[j];
      }
    }
  }

  lemma LessIndexAgrees(st: StoreState, p: StoreProperties, index: string)
    requires StoreAgrees(st, p) && Listed(st, p)
    ensures StoreAgrees(st.(indexes := st.indexes - {index}), WithoutIndex(p, index))
  {
    hide IndexAgrees, Filter;
    IndexListing(st, p, index, IndexProperties(v => NoKey, false), EMPTY_INDEX);
    FilterElements(p.indexNames, index);
    var f := Filter(p.indexNames, index);
    forall j | 0 <= j < |f|
      ensures f[j] in p.indexNames && f[j] != index
    {
      assert f[j] in f;
    }
  }

  /** A successful step keeps agreement; a rollback restores it from what is committed. */
  lemma StepAgreement(s: DbState, a: Action)
    requires Base(s)
    requires if a.Rollback? then CommittedAgreement(s) else Agreement(s)
    requires Step(s, a).outcome != Failed
    ensures Agreement(Step(s, a).state)
    ensures a.Commit? || CommittedAgreement(s) ==> CommittedAgreement(Step(s, a).state)
  {
    hide StoreAgrees, StoreRecordResult, DeleteResult, ClearResult, Listed, Built, Restored, Settled, Published,
         WithIndex, WithoutIndex, Linked, Clean;
    match a
    case Connect(_) =>
    case Close(_) =>
    case Begin(_, _, _) =>
    case EnterVersionChange(_, _) =>
    case Put(_, name, req) =>
      StoreKeepsAgreement(s.working[name], s.schema.stores[name], req);
    case Remove(_, name, range) =>
      DeleteKeepsAgreement(s.working[name], s.schema.stores[name], range);
    case Clear(_, name) =>
      ClearKeepsAgreement(s.working[name], s.schema.stores[name]);
    case CreateStore(_, _, props) =>
      EmptyStoreAgrees(props);
    case DeleteStore(_, _) =>
    case CreateIndex(_, name, index, ip) =>
      WorkingListed(s, name);
      NewIndexAgrees(s.working[name], s.schema.stores[name], index, ip);
    case DeleteIndex(_, name, index) =>
      WorkingListed(s, name);
      LessIndexAgrees(s.working[name], s.schema.stores[name], index);
    case Commit(_) =>
      forall n | n in s.working && n in s.schema.stores
        ensures StoreAgrees(Settled(s.working[n]), s.schema.stores[n])
        ensures StoreAgrees(Restored(Published(s.working[n])), s.schema.stores[n])
      {
        SettledAgrees(s.working[n], s.schema.stores[n]);
      }
    case Rollback(_) =>
  }

  lemma EmptyStoreAgrees(props: StoreProperties)
    ensures StoreAgrees(EMPTY_STORE, props.(indexNames := [], indexes := map[]))
  {
  }

  /** A failed step changes nothing that is committed. */
  lemma StepCommitted(s: DbState, a: Action)
    requires !a.Commit? || Step(s, a).outcome != Done
    ensures var s' := Step(s, a).state; s'.committed == s.committed && s'.committedSchema == s.committedSchema
  {
  }

  /** A database and whether an operation of its running transaction has failed. */
  datatype Monitored = Monitored(db: DbState, failed: bool)

  function Advance(m: Monitored, a: Action): Monitored {
    var r := Step(m.db, a);
    Monitored(r.state, if (a.Commit? || a.Rollback?) && r.outcome.Done? then false else m.failed || r.outcome.Failed?)
  }

  function Run(m: Monitored, actions: seq<Action>): Monitored
    decreases |actions|
  {
    if actions == [] then m else Run(Advance(m, actions[0]), actions[1..])
  }

  /** Callers do not commit a transaction in which an operation failed; they roll it back. */
  predicate Disciplined(m: Monitored, actions: seq<Action>)
    decreases |actions|
  {
    actions == [] || (!(actions[0].Commit? && m.failed) && Disciplined(Advance(m, actions[0]), actions[1..]))
  }

  ghost predicate RunInv(m: Monitored) {
    Inv(m.db) && CommittedAgreement(m.db) && (!m.failed ==> Agreement(m.db))
  }

  /**
   * Over every run of a disciplined client, in every interleaving: at most one transaction
   * runs, everything committed has indexes that agree with its records, and so has everything
   * the running transaction sees until one of its operations fails.
   */
  lemma {:induction false} RunsAgree(m: Monitored, actions: seq<Action>)
    requires RunInv(m) && Disciplined(m, actions)
    ensures RunInv(Run(m, actions))
    decreases |actions|
  {
    hide Base, Clean, Agreement, CommittedAgreement, Step;
    if actions != [] {
      var a := actions[0];
      StepInv(m.db, a);
      if Step(m.db, a).outcome.Failed? {
        StepCommitted(m.db, a);
        SameCommitted(m.db, Step(m.db, a).state);
      } else if a.Rollback? || !m.failed {
        StepAgreement(m.db, a);
      } else {
        StepCommitted(m.db, a);
        SameCommitted(m.db, Step(m.db, a).state);
      }
      RunsAgree(Advance(m, a), actions[1..]);
    }
  }

  lemma SameCommitted(s: DbState, s': DbState)
    requires s'.committed == s.committed && s'.committedSchema == s.committedSchema && CommittedAgreement(s)
    ensures CommittedAgreement(s')
  {
    hide StoreAgrees, Restored;
  }

  lemma AllRunsAgree(actions: seq<Action>)
    requires Disciplined(Monitored(INITIAL, false), actions)
    ensures RunInv(Run(Monitored(INITIAL, false), actions))
  {
    InitialInv();
    RunsAgree(Monitored(INITIAL, false), actions);
  }

  // ---------- Atomicity ----------

  /** What a client can see of a store. */
  function Visible(st: StoreState): Snapshot {
    Snapshot(Records(st), Generator(st), map i | i in st.indexes :: Entries(st.indexes[i]))
  }

  ghost function View(s: DbState): map<string, Snapshot> { map n | n in s.working :: Visible(s.working[n]) }

  predicate NoCommit(actions: seq<Action>) { forall j :: 0 <= j < |actions| ==> !actions[j].Commit? }

  /** Nothing ends a transaction. */
  predicate NoEnd(actions: seq<Action>) {
    forall j :: 0 <= j < |actions| ==> !actions[j].Commit? && !actions[j].Rollback?
  }

  lemma CleanIsVisible(st: StoreState, c: Snapshot)
    requires Clean(st, c)
    ensures Visible(st) == c
  {
    assert Visible(st).indexes == c.indexes;
  }

  /** Between transactions exactly the committed contents are visible. */
  lemma IdleView(s: DbState)
    requires Inv(s) && (s.level.Idle? || s.level.Read?)
    ensures View(s) == s.committed && s.schema == s.committedSchema
  {
    hide Listed, Linked, Clean, Visible;
    forall n | n in s.working
      ensures Visible(s.working[n]) == s.committed[n]
    {
      CleanIsVisible(s.working[n], s.committed[n]);
    }
  }

  lemma {:induction false} RunKeepsCommitted(m: Monitored, actions: seq<Action>)
    requires Inv(m.db) && NoCommit(actions)
    ensures var m' := Run(m, actions);
            Inv(m'.db) && m'.db.committed == m.db.committed && m'.db.committedSchema == m.db.committedSchema
    decreases |actions|
  {
    hide Inv, Step;
    if actions != [] {
      StepInv(m.db, actions[0]);
      StepCommitted(m.db, actions[0]);
      RunKeepsCommitted(Advance(m, actions[0]), actions[1..]);
    }
  }

  /**
   * Whatever operations are tried, by whomever, and whether they succeed or fail: when the
   * transaction is then rolled back, records, indexes, key generators and schema are visibly
   * what they were before it began.
   */
  lemma RollbackRestores(s: DbState, actions: seq<Action>, tx: nat)
    requires Inv(s) && s.level.Idle? && NoCommit(actions)
    requires var s' := Run(Monitored(s, false), actions).db; Step(s', Rollback(tx)).outcome == Done
    ensures var after := Step(Run(Monitored(s, false), actions).db, Rollback(tx)).state;
            View(after) == View(s) && after.schema == s.schema && after.running == map[]
  {
    hide View;
    var s' := Run(Monitored(s, false), actions).db;
    RunKeepsCommitted(Monitored(s, false), actions);
    IdleView(s);
    StepInv(s', Rollback(tx));
    IdleView(Step(s', Rollback(tx)).state);
    assert forall x :: x in s'.running ==> x == tx;
    assert Step(s', Rollback(tx)).state.running == map[];
  }

  /**
   * A commit changes nothing that the transaction saw, except a key generator that has come to
   * be 0, which counts as absent until then; and from then on it is what is committed.
   */
  lemma CommitPublishes(s: DbState, tx: nat)
    requires Inv(s) && Step(s, Commit(tx)).outcome == Done
    ensures var s' := Step(s, Commit(tx)).state;
            && s'.committedSchema == s.schema && s'.committed.Keys == View(s).Keys && View(s') == s'.committed
            && forall n :: n in s.working ==>
                 var c, v := s'.committed[n], View(s)[n];
                 && c.records == v.records && c.indexes == v.indexes
                 && (c.keyGenerator == v.keyGenerator <==>
                     !(s.working[n].modifiedKeyGenerator == Some(0) && s.working[n].originalKeyGenerator != 0))
  {
    hide Listed, Linked, Clean, Inv;
    StepInv(s, Commit(tx));
    IdleView(Step(s, Commit(tx)).state);
  }

  /** A transaction that begins while another one runs is left waiting. */
  lemma Exclusive(s: DbState, conn: nat, stores: seq<string>, write: bool, version: int)
    requires Inv(s) && s.running != map[] && conn in s.connections
    ensures Step(s, Begin(conn, stores, write)) == StepResult(Numbered(s), Blocked)
    ensures Step(s, EnterVersionChange(conn, version)) == StepResult(Numbered(s), Blocked)
    ensures |s.running| == 1
  {
    hide Listed, Linked, Clean;
    var t :| t in s.running;
    assert s.running.Keys == {t};
    assert |s.running| == |s.running.Keys|;
  }
}
