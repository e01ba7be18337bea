/** What the mode of a transaction allows, from its beginning to its end. */
module IdbModes {
  import opened Wrappers
  import opened Keys
  import opened KeyRanges
  import opened IdbRecords
  import opened IdbDeletion
  import opened IdbTransactions

  predicate WritesRecords(a: Action) { a.Put? || a.Remove? || a.Clear? }
  predicate ChangesSchema(a: Action) { a.CreateStore? || a.DeleteStore? || a.CreateIndex? || a.DeleteIndex? }

  /** The state after some actions, whether they succeed or not */
  function After(s: DbState, actions: seq<Action>): DbState { Run(Monitored(s, false), actions).db }

  /** A transaction with this number runs at this level and with this scope. */
  ghost predicate RunsAt(s: DbState, tx: nat, level: Level, scope: Option<seq<string>>) {
    !s.level.Idle? && s.level == level && s.scope == scope && s.running.Keys == {tx}
  }

  /** Until a transaction ends, its level and scope stay, whatever anyone does. */
  lemma StepKeepsMode(s: DbState, a: Action, tx: nat, level: Level, scope: Option<seq<string>>)
    requires RunsAt(s, tx, level, scope) && !a.Commit? && !a.Rollback?
    ensures RunsAt(Step(s, a).state, tx, level, scope)
  {
    hide WellFormed, StoreRecordResult, DeleteResult, ClearResult, Built;
  }

  lemma {:induction false} RunKeepsMode(m: Monitored, actions: seq<Action>, tx: nat, level: Level, scope: Option<seq<string>>)
    requires RunsAt(m.db, tx, level, scope) && NoEnd(actions)
    ensures RunsAt(Run(m, actions).db, tx, level, scope)
    decreases |actions|
  {
    hide Step, RunsAt;
    if actions != [] {
      StepKeepsMode(m.db, actions[0], tx, level, scope);
      RunKeepsMode(Advance(m, actions[0]), actions[1..], tx, level, scope);
    }
  }

  /** At the level Read nothing can be changed, under any transaction number. */
  lemma ReadStep(s: DbState, a: Action)
    requires s.level.Read? && !a.Commit? && !a.Rollback?
    ensures WritesRecords(a) || ChangesSchema(a) ==> Step(s, a).outcome == Failed
    ensures Step(s, a).state.working == s.working && Step(s, a).state.schema == s.schema
  {
    hide WellFormed, StoreRecordResult, DeleteResult, ClearResult, Built;
  }

  lemma {:induction false} ReadRun(m: Monitored, actions: seq<Action>, tx: nat, scope: Option<seq<string>>)
    requires RunsAt(m.db, tx, Read, scope) && NoEnd(actions)
    ensures Run(m, actions).db.working == m.db.working && Run(m, actions).db.schema == m.db.schema
    decreases |actions|
  {
    hide Step;
    if actions != [] {
      ReadStep(m.db, actions[0]);
      StepKeepsMode(m.db, actions[0], tx, Read, scope);
      ReadRun(Advance(m, actions[0]), actions[1..], tx, scope);
    }
  }

  /**
   * A transaction that begins read-only cannot change anything until it ends: whatever is done
   * meanwhile, every operation on records or schema fails, and all that is visible stays.
   */
  lemma ReadOnly(s: DbState, conn: nat, stores: seq<string>, actions: seq<Action>, a: Action)
    requires Inv(s) && Step(s, Begin(conn, stores, false)).outcome == Done
    requires NoEnd(actions) && (WritesRecords(a) || ChangesSchema(a))
    ensures var t := After(Step(s, Begin(conn, stores, false)).state, actions);
            && View(t) == View(s) && t.schema == s.schema
            && Step(t, a).outcome == Failed && View(Step(t, a).state) == View(s)
  {
    hide Step, Inv, View;
    var b := Begun(s, conn, stores, false);
    ReadRun(Monitored(b, false), actions, s.nextTransaction, Some(stores));
    RunKeepsMode(Monitored(b, false), actions, s.nextTransaction, Read, Some(stores));
    var t := After(b, actions);
    ReadStep(t, a);
    SameView(s, t);
    SameView(s, Step(t, a).state);
  }

  lemma SameView(s: DbState, t: DbState)
    requires t.working == s.working
    ensures View(t) == View(s)
  {
  }

  lemma Begun(s: DbState, conn: nat, stores: seq<string>, write: bool) returns (b: DbState)
    requires Inv(s) && Step(s, Begin(conn, stores, write)).outcome == Done
    ensures b == Step(s, Begin(conn, stores, write)).state && b.working == s.working && b.schema == s.schema
    ensures RunsAt(b, s.nextTransaction, if write then Write else Read, Some(stores))
  {
    b := Step(s, Begin(conn, stores, write)).state;
    assert s.running == map[];
  }

  /**
   * A transaction that begins for writing stores records in the stores of its scope until it ends:
   * the outcome and what is then visible are those of storing the record, and other stores stay.
   * Outside its scope, under another number, or of the schema, it can change nothing.
   */
  lemma ReadWrite(s: DbState, conn: nat, stores: seq<string>, actions: seq<Action>, name: string, req: StoreRequest)
    requires Inv(s) && Step(s, Begin(conn, stores, true)).outcome == Done && NoEnd(actions)
    ensures var tx := s.nextTransaction;
            var t := After(Step(s, Begin(conn, stores, true)).state, actions);
            var r := Step(t, Put(tx, name, req));
            if name in stores && name in t.working && name in t.schema.stores && WellFormed(t.schema.stores[name]) then
              var o := StoreRecordResult(t.working[name], t.schema.stores[name], req);
              (r.outcome == Done <==> o.result.Ok?) && View(r.state) == View(t)[name := Visible(o.state)]
            else r == StepResult(t, Failed)
  {
    hide Inv, Visible;
    var b := Begun(s, conn, stores, true);
    RunKeepsMode(Monitored(b, false), actions, s.nextTransaction, Write, Some(stores));
    var t := After(b, actions);
    var tx := s.nextTransaction;
    if MayWrite(t, tx, name) {
      hide StoreRecordResult;
      PutIsVisible(t, tx, name, req);
    }
  }

  /**
   * Until the end of a transaction for writing, records can be written by it and no one else, in the
   * stores of its scope and no others; removing and clearing are then visible as they should be.
   */
  lemma WritesInScope(s: DbState, conn: nat, stores: seq<string>, actions: seq<Action>, tx: nat, name: string, range: KeyRange)
    requires Inv(s) && Step(s, Begin(conn, stores, true)).outcome == Done && NoEnd(actions)
    ensures var t := After(Step(s, Begin(conn, stores, true)).state, actions);
            && (MayWrite(t, tx, name) <==>
                tx == s.nextTransaction && name in stores
                && name in t.working && name in t.schema.stores && WellFormed(t.schema.stores[name]))
            && (MayWrite(t, tx, name) ==>
                  var (st, error) := DeleteResult(t.working[name], t.schema.stores[name], range);
                  var r := Step(t, Remove(tx, name, range));
                  (r.outcome == Done <==> error.None?) && View(r.state) == View(t)[name := Visible(st)])
            && (MayWrite(t, tx, name) ==>
                  var (st, error) := ClearResult(t.working[name], t.schema.stores[name]);
                  var r := Step(t, Clear(tx, name));
                  (r.outcome == Done <==> error.None?) && View(r.state) == View(t)[name := Visible(st)])
  {
    hide Inv, Visible, DeleteResult, ClearResult, WellFormed;
    var b := Begun(s, conn, stores, true);
    RunKeepsMode(Monitored(b, false), actions, s.nextTransaction, Write, Some(stores));
    var t := After(b, actions);
    if MayWrite(t, tx, name) {
      OtherWritesVisible(t, tx, name, range);
    }
  }

  lemma OtherWritesVisible(t: DbState, tx: nat, name: string, range: KeyRange)
    requires MayWrite(t, tx, name)
    ensures View(Step(t, Remove(tx, name, range)).state)
         == View(t)[name := Visible(DeleteResult(t.working[name], t.schema.stores[name], range).0)]
    ensures View(Step(t, Clear(tx, name)).state)
         == View(t)[name := Visible(ClearResult(t.working[name], t.schema.stores[name]).0)]
  {
    hide DeleteResult, ClearResult, Visible;
  }

  lemma PutIsVisible(t: DbState, tx: nat, name: string, req: StoreRequest)
    requires MayWrite(t, tx, name)
    ensures var o := StoreRecordResult(t.working[name], t.schema.stores[name], req);
            View(Step(t, Put(tx, name, req)).state) == View(t)[name := Visible(o.state)]
  {
    hide StoreRecordResult, Visible;
  }

  /** A transaction for writing does not change the schema, and no one else changes anything. */
  lemma OnlyItself(s: DbState, conn: nat, stores: seq<string>, write: bool, actions: seq<Action>, a: Action)
    requires Inv(s) && Step(s, Begin(conn, stores, write)).outcome == Done && NoEnd(actions)
    requires ChangesSchema(a) || (WritesRecords(a) && a.tx != s.nextTransaction)
    ensures var t := After(Step(s, Begin(conn, stores, write)).state, actions);
            Step(t, a) == StepResult(t, Failed)
  {
    hide Inv, StoreRecordResult, DeleteResult, ClearResult, Built;
    var b := Begun(s, conn, stores, write);
    RunKeepsMode(Monitored(b, false), actions, s.nextTransaction, if write then Write else Read, Some(stores));
  }

  // ---------- Changes of the schema ----------

  /** At the level of a version change the schema can be changed by the transaction and no one else. */
  lemma VersionChanges(s: DbState, conn: nat, version: int, actions: seq<Action>)
    requires Inv(s) && Step(s, EnterVersionChange(conn, version)).outcome == Done && NoEnd(actions)
    ensures var b := Step(s, EnterVersionChange(conn, version)).state;
            b.schema.version == version && View(b) == View(s)
            && RunsAt(After(b, actions), s.nextTransaction, VersionChange, None)
            && forall tx :: MayChangeSchema(After(b, actions), tx) <==> tx == s.nextTransaction
  {
    hide Step;
    assert s.running == map[] by { LevelIdle(s, conn, version); }
    VersionBegun(s, conn, version);
    var b := Step(s, EnterVersionChange(conn, version)).state;
    RunKeepsMode(Monitored(b, false), actions, s.nextTransaction, VersionChange, None);
  }

  lemma LevelIdle(s: DbState, conn: nat, version: int)
    requires Inv(s) && Step(s, EnterVersionChange(conn, version)).outcome == Done
    ensures s.running == map[]
  {
  }

  lemma VersionBegun(s: DbState, conn: nat, version: int)
    requires s.running == map[] && Step(s, EnterVersionChange(conn, version)).outcome == Done
    ensures var b := Step(s, EnterVersionChange(conn, version)).state;
            b.schema.version == version && View(b) == View(s) && RunsAt(b, s.nextTransaction, VersionChange, None)
  {
  }

  /** A new store is empty and has the properties it was given, but no indexes yet. */
  lemma StoreCreated(s: DbState, tx: nat, name: string, props: StoreProperties)
    requires MayChangeSchema(s, tx)
    ensures var r := Step(s, CreateStore(tx, name, props));
            && r.outcome == Done && name in r.state.schema.stores && View(r.state) == View(s)[name := Snapshot(map[], 1, map[])]
            && r.state.schema.stores[name].hasKeyPath == props.hasKeyPath && r.state.schema.stores[name].make == props.make
            && r.state.schema.stores[name].indexNames == [] && r.state.schema.stores[name].indexes == map[]
            && forall n :: n != name ==>
                 (n in r.state.schema.stores <==> n in s.schema.stores)
                 && (n in s.schema.stores ==> r.state.schema.stores[n] == s.schema.stores[n])
  {
    assert Visible(EMPTY_STORE) == Snapshot(map[], 1, map[]);
  }

  /** A deleted store is gone, and with it nothing else. */
  lemma StoreDeleted(s: DbState, tx: nat, name: string)
    requires MayChangeSchema(s, tx) && name in s.working && name in s.schema.stores
    ensures var r := Step(s, DeleteStore(tx, name));
            r.outcome == Done && View(r.state) == View(s) - {name} && r.state.schema.stores == s.schema.stores - {name}
  {
    hide Visible;
  }

  /**
   * Creating an index succeeds exactly if the records keep it unique where it should be; then it is listed in the schema with the
   * properties it was given, holds exactly what the records say, and everything else stays.
   */
  lemma IndexCreated(s: DbState, tx: nat, name: string, index: string, ip: IndexProperties)
    requires MayChangeSchema(s, tx) && name in s.working && name in s.schema.stores
    ensures var r := Step(s, CreateIndex(tx, name, index, ip));
            var records := Records(s.working[name]);
            && (r.outcome == Done <==> UniqueHolds(records, ip))
            && (r.outcome == Done ==>
                 && index in r.state.schema.stores[name].indexNames && r.state.schema.stores[name].indexes[index] == ip
                 && View(r.state) == View(s)[name := View(s)[name].(indexes := View(s)[name].indexes[index := IndexOf(records, ip)])])
  {
    hide IndexOf, Built, Records, UniqueHolds;
    var records := Records(s.working[name]);
    var o := Built(EMPTY_INDEX, records, records.Keys, ip);
    BuildAgrees(records, ip);
    AddedVisible(s.working[name], index, o.state);
  }

  lemma AddedVisible(st: StoreState, index: string, i: IndexState)
    ensures var t := st.(indexes := st.indexes[index := i]);
            Visible(t) == Visible(st).(indexes := Visible(st).indexes[index := Entries(i)])
  {
    var t := st.(indexes := st.indexes[index := i]);
    assert Visible(t).indexes == Visible(st).indexes[index := Entries(i)];
  }

  /** A deleted index is neither listed nor visible any more, and nothing else changes. */
  lemma IndexDeleted(s: DbState, tx: nat, name: string, index: string)
    requires MayChangeSchema(s, tx) && name in s.working && name in s.schema.stores
    requires index in s.schema.stores[name].indexes && index in s.working[name].indexes
    ensures var r := Step(s, DeleteIndex(tx, name, index));
            && r.outcome == Done && index !in r.state.schema.stores[name].indexNames
            && r.state.schema.stores[name].indexes == s.schema.stores[name].indexes - {index}
            && (forall i :: i != index ==> (i in r.state.schema.stores[name].indexNames <==> i in s.schema.stores[name].indexNames))
            && View(r.state) == View(s)[name := View(s)[name].(indexes := View(s)[name].indexes - {index})]
  {
    FilterExactly(s.schema.stores[name].indexNames, index);
    RemovedVisible(s.working[name], index);
  }

  lemma {:induction false} FilterExactly(names: seq<string>, index: string)
    ensures forall i :: i in Filter(names, index) <==> i in names && i != index
  {
    if names != [] {
      FilterExactly(names[1..], index);
    }
  }

  lemma RemovedVisible(st: StoreState, index: string)
    ensures var t := st.(indexes := st.indexes - {index});
            Visible(t) == Visible(st).(indexes := Visible(st).indexes - {index})
  {
    var t := st.(indexes := st.indexes - {index});
    assert Visible(t).indexes == Visible(st).indexes - {index};
  }
}
