/**
 * The in-memory backend with one database: connections, and stores and indexes that are shared
 * by reference between what is committed and what the connections work on. Every method is
 * proved to take the step of the database state machine that it should.
 */
module MemoryBackend {
  import opened Wrappers
  import opened Keys
  import opened KeyRanges
  import opened IdbRecords
  import opened IdbDeletion
  import opened IdbTransactions
  import opened MemoryStore

  class Connection {
    const number: nat
    var modifiedSchema: Schema
    var objectStoreMap: map<string, Entry>

    constructor (number: nat, modifiedSchema: Schema, objectStoreMap: map<string, Entry>)
      ensures this.number == number && this.modifiedSchema == modifiedSchema && this.objectStoreMap == objectStoreMap
    {
      this.number, this.modifiedSchema, this.objectStoreMap := number, modifiedSchema, objectStoreMap;
    }
  }

  // ---------- Maps of entries ----------

  ghost function MapStores(m: map<string, Entry>): set<ObjectStore> {
    set n | n in m :: m[n].store
  }

  ghost function MapIndexes(m: map<string, Entry>): set<Index> {
    set n, i | n in m && i in m[n].indexMap :: m[n].indexMap[i]
  }

  /** An entry has its own store and indexes, among them all that the schema lists. */
  ghost predicate EntryFits(e: Entry, n: string, p: StoreProperties) {
    && e.store.originalName == n && OwnIndexes(e.store, e.indexMap)
    && WellFormed(p) && p.indexes.Keys <= e.indexMap.Keys && forall i :: i in p.indexes ==> i in p.indexNames
  }

  ghost predicate MapFits(m: map<string, Entry>, stores: map<string, StoreProperties>) {
    m.Keys == stores.Keys && forall n :: n in m ==> EntryFits(m[n], n, stores[n])
  }

  /** What a map of entries stands for. */
  ghost function MapView(m: map<string, Entry>, stores: map<string, StoreProperties>): (v: map<string, StoreState>)
    reads MapStores(m)`originalData, MapStores(m)`modifiedData
    reads MapStores(m)`originalKeyGenerator, MapStores(m)`modifiedKeyGenerator
    reads MapIndexes(m)`originalData, MapIndexes(m)`modifiedData
    ensures m.Keys == stores.Keys ==> v.Keys == m.Keys
  {
    map n | n in m && n in stores :: EntryView(m[n], stores[n])
  }

  /** The original versions of an entry; the modified versions do not matter for them. */
  ghost function OriginalIndexes(e: Entry, p: StoreProperties): map<string, IndexData>
    reads e.indexMap.Values`originalData
  {
    map i | i in e.indexMap && i in p.indexes :: e.indexMap[i].originalData
  }

  ghost function OriginalView(e: Entry, p: StoreProperties): Snapshot
    reads e.store`originalData, e.store`originalKeyGenerator, e.indexMap.Values`originalData
  {
    Snapshot(e.store.originalData, e.store.originalKeyGenerator, OriginalIndexes(e, p))
  }

  ghost function OriginalsView(m: map<string, Entry>, stores: map<string, StoreProperties>): map<string, Snapshot>
    reads MapStores(m)`originalData, MapStores(m)`originalKeyGenerator, MapIndexes(m)`originalData
  {
    map n | n in m && n in stores :: OriginalView(m[n], stores[n])
  }

  /** Different entries share no objects. */
  lemma Apart(m: map<string, Entry>, stores: map<string, StoreProperties>, a: string, b: string)
    requires MapFits(m, stores) && a in m && b in m && a != b
    ensures m[a].store != m[b].store && m[a].indexMap.Values !! m[b].indexMap.Values
  {
    hide WellFormed;
  }

  lemma OneFits(m: map<string, Entry>, stores: map<string, StoreProperties>, name: string)
    requires MapFits(m, stores) && name in m
    ensures WellFormed(stores[name]) && OwnIndexes(m[name].store, m[name].indexMap)
  {
  }

  /** The methods of an entry leave what is committed in any map. */
  method StoreAndKeep(e: Entry, p: StoreProperties, req: StoreRequest,
                      ghost cm: map<string, Entry>, ghost cs: map<string, StoreProperties>)
    returns (r: Result<Key, Error>)
    requires WellFormed(p) && OwnIndexes(e.store, e.indexMap)
    modifies e.store`modifiedData, e.store`modifiedKeyGenerator, e.indexMap.Values`modifiedData
    ensures StoreOutcome(EntryView(e, p), r) == StoreRecordResult(old(EntryView(e, p)), p, req)
    ensures OriginalsView(cm, cs) == old(OriginalsView(cm, cs))
  {
    hide StoreRecordResult, WellFormed, EntryView, OwnIndexes;
    r := StoreIntoEntry(e, p, req);
    forall n | n in cm && n in cs
      ensures OriginalView(cm[n], cs[n]) == old(OriginalView(cm[n], cs[n]))
    {
      assert OriginalIndexes(cm[n], cs[n]) == old(OriginalIndexes(cm[n], cs[n]));
    }
  }

  method DeleteAndKeep(e: Entry, p: StoreProperties, range: KeyRange,
                       ghost cm: map<string, Entry>, ghost cs: map<string, StoreProperties>)
    returns (error: Option<Error>)
    requires WellFormed(p) && OwnIndexes(e.store, e.indexMap)
    modifies e.store`modifiedData, e.store`modifiedKeyGenerator, e.indexMap.Values`modifiedData
    ensures (EntryView(e, p), error) == DeleteResult(old(EntryView(e, p)), p, range)
    ensures OriginalsView(cm, cs) == old(OriginalsView(cm, cs))
  {
    hide DeleteResult, WellFormed, EntryView, OwnIndexes;
    error := DeleteFromEntry(e, p, range);
    forall n | n in cm && n in cs
      ensures OriginalView(cm[n], cs[n]) == old(OriginalView(cm[n], cs[n]))
    {
      assert OriginalIndexes(cm[n], cs[n]) == old(OriginalIndexes(cm[n], cs[n]));
    }
  }

  method ClearAndKeep(e: Entry, p: StoreProperties,
                      ghost cm: map<string, Entry>, ghost cs: map<string, StoreProperties>)
    returns (error: Option<Error>)
    requires WellFormed(p) && OwnIndexes(e.store, e.indexMap)
    modifies e.store`modifiedData, e.store`modifiedKeyGenerator, e.indexMap.Values`modifiedData
    ensures (EntryView(e, p), error) == ClearResult(old(EntryView(e, p)), p)
    ensures OriginalsView(cm, cs) == old(OriginalsView(cm, cs))
  {
    hide ClearResult, WellFormed, EntryView, OwnIndexes;
    error := ClearEntry(e, p);
    forall n | n in cm && n in cs
      ensures OriginalView(cm[n], cs[n]) == old(OriginalView(cm[n], cs[n]))
    {
      assert OriginalIndexes(cm[n], cs[n]) == old(OriginalIndexes(cm[n], cs[n]));
    }
  }

  /** storeRecord on one entry of a map; what is committed in any map stays. */
  method StoreInto(m: map<string, Entry>, stores: map<string, StoreProperties>, name: string, req: StoreRequest,
                   ghost cm: map<string, Entry>, ghost cs: map<string, StoreProperties>)
    returns (r: Result<Key, Error>)
    requires MapFits(m, stores) && name in m
    modifies m[name].store`modifiedData, m[name].store`modifiedKeyGenerator, m[name].indexMap.Values`modifiedData
    ensures OriginalsView(cm, cs) == old(OriginalsView(cm, cs))
    ensures var o := StoreRecordResult(old(MapView(m, stores))[name], stores[name], req);
            r == o.result && MapView(m, stores) == old(MapView(m, stores))[name := o.state]
  {
    hide StoreRecordResult, WellFormed, EntryView, OwnIndexes, OriginalsView, EntryFits;
    OneFits(m, stores, name);
    r := StoreAndKeep(m[name], stores[name], req, cm, cs);
    forall n | n in m && n != name
      ensures EntryView(m[n], stores[n]) == old(EntryView(m[n], stores[n]))
    {
      Apart(m, stores, n, name);
    }
  }

  /** deleteRecord on one entry of a map. */
  method DeleteFrom(m: map<string, Entry>, stores: map<string, StoreProperties>, name: string, range: KeyRange,
                    ghost cm: map<string, Entry>, ghost cs: map<string, StoreProperties>)
    returns (error: Option<Error>)
    requires MapFits(m, stores) && name in m
    modifies m[name].store`modifiedData, m[name].store`modifiedKeyGenerator, m[name].indexMap.Values`modifiedData
    ensures OriginalsView(cm, cs) == old(OriginalsView(cm, cs))
    ensures var d := DeleteResult(old(MapView(m, stores))[name], stores[name], range);
            error == d.1 && MapView(m, stores) == old(MapView(m, stores))[name := d.0]
  {
    hide DeleteResult, WellFormed, EntryView, OwnIndexes, OriginalsView, EntryFits;
    OneFits(m, stores, name);
    error := DeleteAndKeep(m[name], stores[name], range, cm, cs);
    forall n | n in m && n != name
      ensures EntryView(m[n], stores[n]) == old(EntryView(m[n], stores[n]))
    {
      Apart(m, stores, n, name);
    }
  }

  /** clearObjectStore on one entry of a map. */
  method ClearIn(m: map<string, Entry>, stores: map<string, StoreProperties>, name: string,
                 ghost cm: map<string, Entry>, ghost cs: map<string, StoreProperties>)
    returns (error: Option<Error>)
    requires MapFits(m, stores) && name in m
    modifies m[name].store`modifiedData, m[name].store`modifiedKeyGenerator, m[name].indexMap.Values`modifiedData
    ensures OriginalsView(cm, cs) == old(OriginalsView(cm, cs))
    ensures var d := ClearResult(old(MapView(m, stores))[name], stores[name]);
            error == d.1 && MapView(m, stores) == old(MapView(m, stores))[name := d.0]
  {
    hide ClearResult, WellFormed, EntryView, OwnIndexes, OriginalsView, EntryFits;
    OneFits(m, stores, name);
    error := ClearAndKeep(m[name], stores[name], cm, cs);
    forall n | n in m && n != name
      ensures EntryView(m[n], stores[n]) == old(EntryView(m[n], stores[n]))
    {
      Apart(m, stores, n, name);
    }
  }

  /** createIndex fills the new index of one entry. */
  method BuildIn(m: map<string, Entry>, stores: map<string, StoreProperties>, name: string, index: string,
                 ghost cm: map<string, Entry>, ghost cs: map<string, StoreProperties>)
    returns (error: Option<Error>)
    requires MapFits(m, stores) && name in m && index in stores[name].indexes
    requires m[name].indexMap[index].State() == EMPTY_INDEX
    modifies m[name].indexMap[index]
    ensures OriginalsView(cm, cs) == old(OriginalsView(cm, cs))
    ensures var st := old(MapView(m, stores))[name];
            var o := Built(EMPTY_INDEX, Records(st), Records(st).Keys, stores[name].indexes[index]);
            error == o.error && MapView(m, stores) == old(MapView(m, stores))[name := st.(indexes := st.indexes[index := o.state])]
  {
    hide Built, WellFormed, EntryView, EntryFits;
    OneFits(m, stores, name);
    NamesKnown(m[name], name, stores[name]);
    error := FillEntry(m[name], stores[name], index);
    forall n | n in cm && n in cs
      ensures OriginalView(cm[n], cs[n]) == old(OriginalView(cm[n], cs[n]))
    {
      assert OriginalIndexes(cm[n], cs[n]) == old(OriginalIndexes(cm[n], cs[n]));
    }
    forall n | n in m && n != name
      ensures EntryView(m[n], stores[n]) == old(EntryView(m[n], stores[n]))
    {
      Apart(m, stores, n, name);
    }
  }

  // ---------- Commit and rollback of all stores ----------

  /** The entries of these stores with their committed indexes. */
  function CommittedEntries(stores: map<string, ObjectStore>): map<string, Entry>
    reads stores.Values`committedIndexes
  {
    map n | n in stores :: Entry(stores[n], stores[n].committedIndexes)
  }

  ghost function Stores(m: map<string, Entry>): map<string, ObjectStore> { map n | n in m :: m[n].store }

  /** A store is as it was, or it is settled and its indexes are among the committed ones. */
  ghost predicate EntryCommitted(e: Entry, p: StoreProperties, left: bool, was: StoreState, indexes: map<string, Index>)
    reads e.store, e.indexMap.Values
  {
    && EntryView(e, p) == (if left then was else Settled(was))
    && e.store.committedIndexes == (if left then indexes else indexes + e.indexMap)
  }

  /** All stores but those left are settled. */
  ghost predicate PartlySettled(m: map<string, Entry>, stores: map<string, StoreProperties>, left: set<string>,
                                was: map<string, StoreState>, indexes: map<string, map<string, Index>>)
    requires m.Keys == stores.Keys == was.Keys == indexes.Keys
    reads MapStores(m), MapIndexes(m)
  {
    forall n :: n in m ==> EntryCommitted(m[n], stores[n], n in left, was[n], indexes[n])
  }

  method SettleOne(e: Entry, ghost p: StoreProperties, ghost was: StoreState, ghost indexes: map<string, Index>)
    requires OwnIndexes(e.store, e.indexMap) && EntryCommitted(e, p, true, was, indexes)
    modifies e.store`originalData, e.store`originalKeyGenerator, e.store`committedIndexes
    modifies e.indexMap.Values`originalData
    ensures EntryCommitted(e, p, false, was, indexes)
  {
    hide Settled, EntryView, OwnIndexes, SettledIndex;
    SettleEntry(e, p);
  }

  method SettleStore(m: map<string, Entry>, n: string, ghost stores: map<string, StoreProperties>,
                     ghost left: set<string>, ghost was: map<string, StoreState>,
                     ghost indexes: map<string, map<string, Index>>)
    requires MapFits(m, stores) && m.Keys == was.Keys == indexes.Keys && n in left && n in m
    requires PartlySettled(m, stores, left, was, indexes)
    modifies m[n].store`originalData, m[n].store`originalKeyGenerator, m[n].store`committedIndexes
    modifies m[n].indexMap.Values`originalData
    ensures PartlySettled(m, stores, left - {n}, was, indexes)
  {
    hide WellFormed, OwnIndexes, EntryCommitted, EntryFits;
    OneFits(m, stores, n);
    SettleOne(m[n], stores[n], was[n], indexes[n]);
    forall o | o in m && o != n
      ensures EntryCommitted(m[o], stores[o], o in left, was[o], indexes[o])
    {
      Apart(m, stores, o, n);
    }
  }

  ghost function CommittedIndexMaps(m: map<string, Entry>): map<string, map<string, Index>>
    reads MapStores(m)`committedIndexes
  {
    map n | n in m :: m[n].store.committedIndexes
  }

  ghost function StoresBut(m: map<string, Entry>, left: set<string>): map<string, ObjectStore> {
    map n | n in m && n !in left :: m[n].store
  }

  lemma StoresSteps(m: map<string, Entry>)
    ensures StoresBut(m, m.Keys) == map[] && StoresBut(m, {}) == Stores(m)
    ensures forall left, n :: n in left && n in m ==> StoresBut(m, left)[n := m[n].store] == StoresBut(m, left - {n})
  {
  }

  /** The loop of commit: every store and index is settled and becomes a committed one. */
  method SettleAll(m: map<string, Entry>, ghost stores: map<string, StoreProperties>,
                   ghost was: map<string, StoreState>, ghost indexes: map<string, map<string, Index>>)
    returns (r: map<string, ObjectStore>)
    requires MapFits(m, stores) && m.Keys == stores.Keys == was.Keys == indexes.Keys
    requires PartlySettled(m, stores, m.Keys, was, indexes)
    modifies MapStores(m)`originalData, MapStores(m)`originalKeyGenerator, MapStores(m)`committedIndexes
    modifies MapIndexes(m)`originalData
    ensures r == Stores(m) && PartlySettled(m, stores, {}, was, indexes)
  {
    hide PartlySettled, MapFits, StoresBut, Stores;
    r := map[];
    var left := m.Keys;
    StoresSteps(m);
    while left != {}
      invariant left <= m.Keys && r == StoresBut(m, left)
      invariant PartlySettled(m, stores, left, was, indexes)
      decreases |left|
    {
      var n :| n in left;
      SettleStore(m, n, stores, left, was, indexes);
      r := r[n := m[n].store];
      left := left - {n};
    }
  }

  lemma NoneSettled(m: map<string, Entry>, stores: map<string, StoreProperties>)
    requires m.Keys == stores.Keys
    ensures PartlySettled(m, stores, m.Keys, MapView(m, stores), CommittedIndexMaps(m))
  {
  }

  /** After the loop, the committed entries stand for the settled stores. */
  lemma SettledEntries(m: map<string, Entry>, stores: map<string, StoreProperties>,
                       was: map<string, StoreState>, indexes: map<string, map<string, Index>>)
    requires MapFits(m, stores) && m.Keys == was.Keys == indexes.Keys
    requires PartlySettled(m, stores, {}, was, indexes)
    requires forall n :: n in m ==> OwnIndexes(m[n].store, indexes[n])
    ensures MapFits(CommittedEntries(Stores(m)), stores)
    ensures MapView(CommittedEntries(Stores(m)), stores) == map n | n in was :: Settled(was[n])
    ensures OriginalsView(CommittedEntries(Stores(m)), stores) == map n | n in was :: Published(was[n])
  {
    hide EntryFits, Settled, Published, OwnIndexes, EntryView, OriginalView, PartlySettled, MapView, OriginalsView;
    var c := CommittedEntries(Stores(m));
    forall n | n in m
      ensures EntryFits(c[n], n, stores[n])
      ensures EntryView(c[n], stores[n]) == Settled(was[n]) && OriginalView(c[n], stores[n]) == Published(was[n])
    {
      SettledAt(m, stores, was, indexes, n);
    }
    EntriesMake(c, stores, map n | n in was :: Settled(was[n]), map n | n in was :: Published(was[n]));
  }

  lemma EntriesMake(m: map<string, Entry>, stores: map<string, StoreProperties>,
                    v: map<string, StoreState>, o: map<string, Snapshot>)
    requires m.Keys == stores.Keys == v.Keys == o.Keys
    requires forall n :: n in m ==> EntryFits(m[n], n, stores[n])
    requires forall n :: n in m ==> EntryView(m[n], stores[n]) == v[n] && OriginalView(m[n], stores[n]) == o[n]
    ensures MapFits(m, stores) && MapView(m, stores) == v && OriginalsView(m, stores) == o
  {
    hide EntryFits, EntryView, OriginalView;
  }

  lemma IndexesSettled(m: map<string, Entry>, stores: map<string, StoreProperties>,
                       was: map<string, StoreState>, indexes: map<string, map<string, Index>>)
    requires m.Keys == stores.Keys == was.Keys == indexes.Keys && PartlySettled(m, stores, {}, was, indexes)
    ensures CommittedIndexMaps(m) == map n | n in m :: indexes[n] + m[n].indexMap
  {
    hide EntryView, Settled;
  }

  lemma SettledAt(m: map<string, Entry>, stores: map<string, StoreProperties>,
                  was: map<string, StoreState>, indexes: map<string, map<string, Index>>, n: string)
    requires MapFits(m, stores) && m.Keys == was.Keys == indexes.Keys && n in m
    requires PartlySettled(m, stores, {}, was, indexes) && OwnIndexes(m[n].store, indexes[n])
    ensures m[n].store.committedIndexes == indexes[n] + m[n].indexMap
    ensures var c := Entry(m[n].store, m[n].store.committedIndexes);
            && EntryFits(c, n, stores[n]) && EntryView(c, stores[n]) == Settled(was[n])
            && OriginalView(c, stores[n]) == Published(was[n])
  {
    hide EntryFits, Settled, Published, OwnIndexes, EntryView, OriginalView;
    var c := Entry(m[n].store, m[n].store.committedIndexes);
    SettledEntry(m[n], n, stores[n], indexes[n]);
    OriginalsOf(c, stores[n]);
    SettledOriginals(was[n]);
  }

  lemma SettledEntry(e: Entry, n: string, p: StoreProperties, indexes: map<string, Index>)
    requires EntryFits(e, n, p) && OwnIndexes(e.store, indexes) && e.store.committedIndexes == indexes + e.indexMap
    ensures var c := Entry(e.store, e.store.committedIndexes);
            EntryFits(c, n, p) && EntryView(c, p) == EntryView(e, p)
  {
    hide WellFormed;
    var c := Entry(e.store, e.store.committedIndexes);
    assert IndexStates(c.indexMap, p) == IndexStates(e.indexMap, p);
  }

  lemma OriginalsOf(e: Entry, p: StoreProperties)
    ensures OriginalView(e, p) == Originals(EntryView(e, p))
  {
  }

  lemma SettledOriginals(st: StoreState)
    ensures Originals(Settled(st)) == Published(st)
  {
    assert Originals(Settled(st)).indexes == Published(st).indexes;
  }

  /** All stores but those left are restored. */
  ghost predicate PartlyRestored(m: map<string, Entry>, stores: map<string, StoreProperties>, left: set<string>)
    requires m.Keys == stores.Keys
    reads MapStores(m), MapIndexes(m)
  {
    forall n :: n in m && n !in left ==> EntryView(m[n], stores[n]) == Restored(OriginalView(m[n], stores[n]))
  }

  lemma NamesKnown(e: Entry, n: string, p: StoreProperties)
    requires EntryFits(e, n, p)
    ensures forall i :: i in p.indexes <==> i in p.indexNames
    ensures forall i :: i in p.indexNames ==> i in e.indexMap
  {
  }

  method RestoreAndKeep(store: ObjectStore, indexNames: seq<string>,
                        ghost cm: map<string, Entry>, ghost cs: map<string, StoreProperties>)
    requires OwnIndexes(store, store.committedIndexes)
    requires forall i :: i in indexNames ==> i in store.committedIndexes
    modifies store`modifiedData, store`modifiedKeyGenerator, store.committedIndexes.Values`modifiedData
    ensures store.modifiedData == None && store.modifiedKeyGenerator == None
    ensures forall i :: i in indexNames ==> store.committedIndexes[i].modifiedData == None
    ensures OriginalsView(cm, cs) == old(OriginalsView(cm, cs))
  {
    hide OwnIndexes;
    RestoreStore(store, indexNames);
    forall n | n in cm && n in cs
      ensures OriginalView(cm[n], cs[n]) == old(OriginalView(cm[n], cs[n]))
    {
      assert OriginalIndexes(cm[n], cs[n]) == old(OriginalIndexes(cm[n], cs[n]));
    }
  }

  method RestoreOne(m: map<string, Entry>, n: string, stores: map<string, StoreProperties>, ghost left: set<string>)
    requires MapFits(m, stores) && n in left && n in m && PartlyRestored(m, stores, left)
    requires m[n].store.committedIndexes == m[n].indexMap
    modifies m[n].store`modifiedData, m[n].store`modifiedKeyGenerator, m[n].indexMap.Values`modifiedData
    ensures PartlyRestored(m, stores, left - {n}) && OriginalsView(m, stores) == old(OriginalsView(m, stores))
  {
    hide EntryView, OwnIndexes, Restored, WellFormed, OriginalsView, EntryFits;
    OneFits(m, stores, n);
    NamesKnown(m[n], n, stores[n]);
    RestoreAndKeep(m[n].store, stores[n].indexNames, m, stores);
    RestoredEntry(m[n], stores[n]);
    forall o | o in m && o != n
      ensures EntryView(m[o], stores[o]) == old(EntryView(m[o], stores[o]))
    {
      Apart(m, stores, o, n);
    }
  }

  lemma RestoredEntry(e: Entry, p: StoreProperties)
    requires e.store.modifiedData == None && e.store.modifiedKeyGenerator == None
    requires forall i :: i in p.indexes ==> i in p.indexNames
    requires forall i :: i in p.indexNames ==> i in e.indexMap && e.indexMap[i].modifiedData == None
    ensures EntryView(e, p) == Restored(OriginalView(e, p))
  {
    assert IndexStates(e.indexMap, p) == Restored(OriginalView(e, p)).indexes;
  }

  /** The loop of rollback over the committed stores. */
  method RestoreAll(m: map<string, Entry>, stores: map<string, StoreProperties>)
    requires MapFits(m, stores) && forall n :: n in m ==> m[n].store.committedIndexes == m[n].indexMap
    modifies MapStores(m)`modifiedData, MapStores(m)`modifiedKeyGenerator, MapIndexes(m)`modifiedData
    ensures PartlyRestored(m, stores, {}) && OriginalsView(m, stores) == old(OriginalsView(m, stores))
  {
    hide EntryFits, PartlyRestored, OwnIndexes, OriginalsView;
    assert PartlyRestored(m, stores, m.Keys) by { NoneRestored(m, stores); }
    var left := m.Keys;
    while left != {}
      invariant left <= m.Keys && PartlyRestored(m, stores, left)
      invariant OriginalsView(m, stores) == old(OriginalsView(m, stores))
      decreases |left|
    {
      var n :| n in left;
      RestoreOne(m, n, stores, left);
      left := left - {n};
    }
  }

  lemma NoneRestored(m: map<string, Entry>, stores: map<string, StoreProperties>)
    requires m.Keys == stores.Keys
    ensures PartlyRestored(m, stores, m.Keys)
  {
  }

  lemma RestoredEntries(m: map<string, Entry>, stores: map<string, StoreProperties>)
    requires MapFits(m, stores) && PartlyRestored(m, stores, {})
    ensures MapView(m, stores) == map n | n in OriginalsView(m, stores) :: Restored(OriginalsView(m, stores)[n])
  {
    hide EntryView, OriginalView, Restored;
  }

  // ---------- Maps that differ in one entry ----------

  lemma MapViewUpdate(m: map<string, Entry>, stores: map<string, StoreProperties>, name: string, e: Entry,
                      p: StoreProperties)
    requires MapFits(m, stores)
    ensures MapView(m[name := e], stores[name := p]) == MapView(m, stores)[name := EntryView(e, p)]
  {
    hide EntryView;
  }

  lemma FitsUpdate(m: map<string, Entry>, stores: map<string, StoreProperties>, name: string, e: Entry,
                   p: StoreProperties)
    requires MapFits(m, stores)
    ensures EntryFits(e, name, p) ==> MapFits(m[name := e], stores[name := p])
  {
    hide EntryFits;
  }

  lemma FitsRemoval(m: map<string, Entry>, stores: map<string, StoreProperties>, name: string)
    requires MapFits(m, stores)
    ensures MapFits(m - {name}, stores - {name}) && MapView(m - {name}, stores - {name}) == MapView(m, stores) - {name}
  {
    hide EntryFits, EntryView;
  }

  /** An entry with one index more fits the schema with one index more. */
  lemma IndexAdded(e: Entry, n: string, p: StoreProperties, index: string, ip: IndexProperties, i: Index)
    requires EntryFits(e, n, p) && i.home == e.store && i.originalName == index
    ensures EntryFits(Entry(e.store, e.indexMap[index := i]), n, WithIndex(p, index, ip))
    ensures EntryView(Entry(e.store, e.indexMap[index := i]), WithIndex(p, index, ip))
            == EntryView(e, p).(indexes := EntryView(e, p).indexes[index := i.State()])
  {
    hide WellFormed;
    assert Listed(EntryView(e, p), p);
    AddListing(EntryView(e, p), p, index, ip, i.State());
    assert IndexStates(e.indexMap[index := i], WithIndex(p, index, ip)) == IndexStates(e.indexMap, p)[index := i.State()];
  }

  lemma IndexRemoved(e: Entry, n: string, p: StoreProperties, index: string)
    requires EntryFits(e, n, p)
    ensures EntryFits(Entry(e.store, e.indexMap - {index}), n, WithoutIndex(p, index))
    ensures EntryView(Entry(e.store, e.indexMap - {index}), WithoutIndex(p, index))
            == EntryView(e, p).(indexes := EntryView(e, p).indexes - {index})
  {
    hide Filter, WellFormed;
    assert Listed(EntryView(e, p), p);
    DropListing(EntryView(e, p), p, index);
    assert IndexStates(e.indexMap - {index}, WithoutIndex(p, index)) == IndexStates(e.indexMap, p) - {index};
  }

  // ---------- The backend ----------

  /** The other connections work on these stores. */
  ghost predicate Others(connections: map<nat, Connection>, myConn: Connection, m: map<string, Entry>, schema: Schema)
    reads connections.Values
  {
    forall c :: c in connections && connections[c] != myConn ==>
      connections[c].objectStoreMap == m && connections[c].modifiedSchema == schema
  }

  lemma NoOthers(connections: map<nat, Connection>, myConn: Connection, m: map<string, Entry>, schema: Schema)
    requires forall c :: c in connections ==> connections[c] == myConn
    ensures Others(connections, myConn, m, schema)
  {
  }

  class MemoryBackend {
    var committedObjectStores: map<string, ObjectStore>
    var committedSchema: Schema
    var txLevel: Level
    // the connection that changes the version
    var txOwner: Connection?
    var txRestrictObjectStores: Option<seq<string>>
    var connectionIdCounter: nat
    var transactionIdCounter: nat
    var connections: map<nat, Connection>
    var connectionsByTransaction: map<nat, Connection>
    // what a running transaction works with
    ghost var current: map<string, Entry>
    ghost var currentSchema: Schema
    ghost var Repr: set<object>

    constructor ()
      ensures Valid() && fresh(Repr) && View() == INITIAL
    {
      committedObjectStores, committedSchema := map[], Schema(0, map[]);
      txLevel, txOwner, txRestrictObjectStores := Idle, null, None;
      connectionIdCounter, transactionIdCounter := 1, 1;
      connections, connectionsByTransaction := map[], map[];
      current, currentSchema, Repr := map[], Schema(0, map[]), {this};
    }

    function MakeObjectStoreMap(): map<string, Entry>
      reads `committedObjectStores, committedObjectStores.Values`committedIndexes
    {
      CommittedEntries(committedObjectStores)
    }

    /** The objects of an entry are known, and so are the indexes that its store has committed. */
    ghost predicate EntryAtHand(e: Entry)
      reads `Repr, e.store`committedIndexes
    {
      && e.store in Repr && e.indexMap.Values <= Repr && e.store.committedIndexes.Values <= Repr
      && OwnIndexes(e.store, e.store.committedIndexes)
    }

    ghost predicate AtHand(m: map<string, Entry>)
      reads `Repr, MapStores(m)`committedIndexes
    {
      forall n :: n in m ==> EntryAtHand(m[n])
    }

    ghost predicate CommittedValid()
      reads `Repr, `committedSchema, `committedObjectStores, committedObjectStores.Values`committedIndexes
    {
      MapStores(MakeObjectStoreMap()) + MapIndexes(MakeObjectStoreMap()) <= Repr && MapFits(MakeObjectStoreMap(), committedSchema.stores)
    }

    ghost predicate CurrentValid()
      reads `Repr, `current, `currentSchema, MapStores(current)`committedIndexes
    {
      AtHand(current) && MapFits(current, currentSchema.stores)
    }

    /** Outside a version change the connections work with what is committed. */
    ghost predicate InStep()
      reads `txLevel, `current, `currentSchema
      reads `committedSchema, `committedObjectStores, committedObjectStores.Values`committedIndexes
    {
      !txLevel.VersionChange? ==> current == MakeObjectStoreMap() && currentSchema == committedSchema
    }

    ghost predicate Synchronized(c: Connection)
      reads c, `current, `currentSchema
    {
      c.objectStoreMap == current && c.modifiedSchema == currentSchema
    }

    ghost predicate ConnectionsValid()
      reads `connections, connections.Values, `connectionIdCounter, `current, `currentSchema
      reads `connectionsByTransaction, connectionsByTransaction.Values
    {
      && (forall c :: c in connections ==> connections[c].number == c < connectionIdCounter && Synchronized(connections[c]))
      && (forall t :: t in connectionsByTransaction ==> Synchronized(connectionsByTransaction[t]))
    }

    /** At most one transaction runs, and one that changes the version is alone. */
    ghost predicate TransactionsValid()
      reads `connections, `connectionsByTransaction, `txLevel, `txOwner
    {
      && (txLevel.Idle? <==> connectionsByTransaction == map[])
      && (forall a, b :: a in connectionsByTransaction && b in connectionsByTransaction ==> a == b)
      && (txLevel.VersionChange? ==>
            && txOwner != null
            && (forall c :: c in connections ==> connections[c] == txOwner)
            && (forall t :: t in connectionsByTransaction ==> connectionsByTransaction[t] == txOwner))
    }

    ghost predicate Reachable()
      reads `Repr, `connections, `connectionsByTransaction, `committedObjectStores, `current
    {
      && this in Repr
      && (forall n :: n in committedObjectStores ==> committedObjectStores[n] in Repr) && MapStores(current) <= Repr
      && (forall c :: c in connections ==> connections[c] in Repr)
      && (forall t :: t in connectionsByTransaction ==> connectionsByTransaction[t] in Repr)
    }

    ghost predicate Valid()
      reads this, Repr
    {
      Reachable() && CommittedValid() && CurrentValid() && InStep() && ConnectionsValid() && TransactionsValid()
    }

    ghost function Running(): map<nat, nat>
      reads `connectionsByTransaction
    {
      map t | t in connectionsByTransaction :: connectionsByTransaction[t].number
    }

    /** The state that the backend is in. */
    ghost function View(): DbState
      requires Valid()
      reads this, Repr
    {
      DbState(committedSchema, OriginalsView(MakeObjectStoreMap(), committedSchema.stores),
              currentSchema, MapView(current, currentSchema.stores), txLevel, txRestrictObjectStores,
              connections.Keys, Running(), transactionIdCounter)
    }

    ghost method Adopt(o: object)
      requires Valid()
      modifies `Repr
      ensures Valid() && Repr == old(Repr) + {o} && View() == old(View())
    {
      hide InStep, MapFits, MapView, OriginalsView, MapStores, MapIndexes, MakeObjectStoreMap, Synchronized;
      Repr := Repr + {o};
    }

    /** A new connection with a current copy of what is committed. */
    method Register(myConn: Connection)
      requires Valid() && !txLevel.VersionChange? && myConn in Repr
      requires Synchronized(myConn) && myConn.number == connectionIdCounter
      modifies `connectionIdCounter, `connections
      ensures Valid()
      ensures View() == old(View()).(connections := old(View()).connections + {myConn.number})
    {
      hide CommittedValid, CurrentValid, InStep, Synchronized, Running, MapView, OriginalsView, MapStores, MapIndexes, MakeObjectStoreMap;
      connectionIdCounter := connectionIdCounter + 1;
      connections := connections[myConn.number := myConn];
      assert connections.Keys == old(connections.Keys) + {myConn.number};
    }

    /** Callers do not connect while the version is changed. */
    method ConnectDatabase() returns (cookie: nat)
      requires Valid() && !txLevel.VersionChange?
      modifies `connectionIdCounter, `connections, `Repr
      ensures Valid() && fresh(Repr - old(Repr)) && cookie !in old(connections)
      ensures StepResult(View(), Done) == Step(old(View()), Connect(cookie))
    {
      hide CommittedValid, CurrentValid, MapView, OriginalsView, MapStores, MapIndexes, TransactionsValid, MakeObjectStoreMap;
      cookie := connectionIdCounter;
      var m := MakeObjectStoreMap();
      var myConn := new Connection(cookie, committedSchema, m);
      Adopt(myConn);
      Register(myConn);
    }

    method Close(conn: nat) returns (outcome: Outcome)
      requires Valid()
      modifies `connections
      ensures Valid()
      ensures StepResult(View(), outcome) == Step(old(View()), Action.Close(conn))
    {
      hide CommittedValid, CurrentValid, InStep, MapView, OriginalsView, MapStores, MapIndexes, MakeObjectStoreMap;
      if conn !in connections {
        return Failed;
      }
      connections := connections - {conn};
      outcome := Done;
    }

    /** The transaction that was given the number starts to run. */
    method Start(tx: nat, conn: nat, objectStores: seq<string>, write: bool)
      requires Valid() && conn in connections && txLevel.Idle?
      modifies `txLevel, `txRestrictObjectStores, `connectionsByTransaction
      ensures Valid() && connectionsByTransaction.Keys == {tx}
      ensures View() == old(View()).(level := if write then Write else Read, scope := Some(objectStores),
                                     running := old(View()).running[tx := conn])
    {
      hide CommittedValid, CurrentValid, MapView, OriginalsView, MapStores, MapIndexes, MakeObjectStoreMap;
      txLevel := if write then Write else Read;
      txRestrictObjectStores := Some(objectStores);
      connectionsByTransaction := connectionsByTransaction[tx := connections[conn]];
      assert tx in connectionsByTransaction;
    }

    method BeginTransaction(conn: nat, objectStores: seq<string>, write: bool) returns (outcome: Outcome, tx: nat)
      requires Valid()
      modifies `transactionIdCounter, `txLevel, `txRestrictObjectStores, `connectionsByTransaction
      ensures Valid()
      ensures outcome.Done? ==> txLevel == (if write then Write else Read) && txRestrictObjectStores == Some(objectStores)
      ensures outcome.Done? ==> connectionsByTransaction.Keys == {tx}
      ensures StepResult(View(), outcome) == BeginStep(old(View()), conn, objectStores, write)
    {
      hide CommittedValid, CurrentValid, MapView, OriginalsView, MapStores, MapIndexes, MakeObjectStoreMap, InStep, ConnectionsValid,
           TransactionsValid;
      tx := transactionIdCounter;
      transactionIdCounter := transactionIdCounter + 1;
      if conn !in connections {
        return Failed, tx;
      }
      if !txLevel.Idle? {
        return Blocked, tx;
      }
      Start(tx, conn, objectStores, write);
      outcome := Done;
    }

    /** The connection that changes the version goes on with another schema and map. */
    method Replace(myConn: Connection, schema: Schema, m: map<string, Entry>)
      requires Valid() && txLevel.VersionChange? && myConn == txOwner && myConn in Repr
      requires MapFits(m, schema.stores) && AtHand(m) && MapStores(m) <= Repr
      modifies `current, `currentSchema, myConn`modifiedSchema, myConn`objectStoreMap
      ensures Valid() && current == m && currentSchema == schema
      ensures View() == old(View()).(schema := schema, working := old(MapView(m, schema.stores)))
    {
      hide CommittedValid, AtHand, MapFits, MapView, OriginalsView, MapStores, MapIndexes, MakeObjectStoreMap, Running;
      myConn.modifiedSchema, myConn.objectStoreMap := schema, m;
      current, currentSchema := m, schema;
      assert Valid();
    }

    /** The transaction that was given the number changes the version. */
    method StartVersionChange(tx: nat, conn: nat)
      requires Valid() && connections.Keys == {conn} && txLevel.Idle?
      modifies `txLevel, `txRestrictObjectStores, `txOwner, `connectionsByTransaction
      ensures Valid() && connectionsByTransaction.Keys == {tx} && txLevel.VersionChange? && txOwner == connections[conn]
      ensures View() == old(View()).(level := VersionChange, scope := None, running := old(View()).running[tx := conn])
    {
      hide CommittedValid, CurrentValid, MapView, OriginalsView, MapStores, MapIndexes, MakeObjectStoreMap;
      txLevel, txOwner, txRestrictObjectStores := VersionChange, connections[conn], None;
      connectionsByTransaction := connectionsByTransaction[tx := connections[conn]];
      assert tx in connectionsByTransaction;
    }

    /** Callers wait until no other connection is open before they change the version. */
    method EnterVersionChange(conn: nat, newVersion: int) returns (outcome: Outcome, tx: nat)
      requires Valid() && (conn in connections && txLevel.Idle? ==> connections.Keys == {conn})
      modifies `transactionIdCounter, `txLevel, `txRestrictObjectStores, `txOwner, `connectionsByTransaction
      modifies `current, `currentSchema, connections.Values`modifiedSchema, connections.Values`objectStoreMap
      ensures Valid()
      ensures outcome.Done? ==> connectionsByTransaction.Keys == {tx}
      ensures StepResult(View(), outcome) == EnterVersionChangeStep(old(View()), conn, newVersion)
    {
      hide CommittedValid, AtHand, MapFits, MapView, OriginalsView, MapStores, MapIndexes, MakeObjectStoreMap, InStep,
           TransactionsValid;
      tx := transactionIdCounter;
      transactionIdCounter := transactionIdCounter + 1;
      if conn !in connections {
        return Failed, tx;
      }
      if !txLevel.Idle? {
        return Blocked, tx;
      }
      ghost var s := View();
      StartVersionChange(tx, conn);
      ghost var v := View();
      assert v.schema == s.schema && v.working == s.working;
      var myConn := connections[conn];
      Replace(myConn, myConn.modifiedSchema.(version := newVersion), myConn.objectStoreMap);
      assert View() == v.(schema := v.schema.(version := newVersion));
      outcome := Done;
    }

    /** The checks at the head of every operation on records: the transaction's connection, if it may write. */
    method Access(tx: nat, name: string) returns (myConn: Connection?)
      requires Valid()
      ensures myConn != null <==> MayWrite(View(), tx, name)
      ensures myConn != null ==> name in current && Synchronized(myConn) && MapFits(current, currentSchema.stores)
    {
      hide CommittedValid, AtHand, MapView, OriginalsView, MakeObjectStoreMap, InStep, OwnIndexes;
      if tx !in connectionsByTransaction {
        return null;
      }
      if !txLevel.Write? && !txLevel.VersionChange? {
        return null;
      }
      if txRestrictObjectStores.Some? && name !in txRestrictObjectStores.value {
        return null;
      }
      myConn := connectionsByTransaction[tx];
      if name !in myConn.objectStoreMap {
        return null;
      }
      assert EntryFits(current[name], name, currentSchema.stores[name]);
    }

    method StoreRecord(tx: nat, name: string, req: StoreRequest) returns (r: Option<Result<Key, Error>>)
      requires Valid()
      modifies MapStores(current)`modifiedData, MapStores(current)`modifiedKeyGenerator, MapIndexes(current)`modifiedData
      ensures Valid()
      ensures r.Some? <==> MayWrite(old(View()), tx, name)
      ensures r.Some? ==>
                r.value == StoreRecordResult(old(View()).working[name], old(View()).schema.stores[name], req).result
      ensures StepResult(View(), if r.Some? && r.value.Ok? then Done else Failed) == PutStep(old(View()), tx, name, req)
    {
      hide CommittedValid, CurrentValid, MapFits, MapView, OriginalsView, StoreRecordResult, InStep, MayWrite, TransactionsValid;
      var myConn := Access(tx, name);
      if myConn == null {
        return None;
      }
      var stored := StoreInto(myConn.objectStoreMap, myConn.modifiedSchema.stores, name, req,
                              MakeObjectStoreMap(), committedSchema.stores);
      r := Some(stored);
    }

    method DeleteRecord(tx: nat, name: string, range: KeyRange) returns (outcome: Outcome)
      requires Valid()
      modifies MapStores(current)`modifiedData, MapStores(current)`modifiedKeyGenerator, MapIndexes(current)`modifiedData
      ensures Valid()
      ensures StepResult(View(), outcome) == RemoveStep(old(View()), tx, name, range)
    {
      hide CommittedValid, CurrentValid, MapFits, MapView, OriginalsView, DeleteResult, InStep, MayWrite, TransactionsValid;
      var myConn := Access(tx, name);
      if myConn == null {
        return Failed;
      }
      var error := DeleteFrom(myConn.objectStoreMap, myConn.modifiedSchema.stores, name, range,
                              MakeObjectStoreMap(), committedSchema.stores);
      outcome := if error.None? then Done else Failed;
    }

    method ClearObjectStore(tx: nat, name: string) returns (outcome: Outcome)
      requires Valid()
      modifies MapStores(current)`modifiedData, MapStores(current)`modifiedKeyGenerator, MapIndexes(current)`modifiedData
      ensures Valid()
      ensures StepResult(View(), outcome) == ClearStep(old(View()), tx, name)
    {
      hide CommittedValid, CurrentValid, MapFits, MapView, OriginalsView, ClearResult, InStep, MayWrite, TransactionsValid;
      var myConn := Access(tx, name);
      if myConn == null {
        return Failed;
      }
      var error := ClearIn(myConn.objectStoreMap, myConn.modifiedSchema.stores, name,
                           MakeObjectStoreMap(), committedSchema.stores);
      outcome := if error.None? then Done else Failed;
    }

    // ---------- Schema changes ----------

    /** The connection of a transaction that may change the schema. */
    method Owner(tx: nat) returns (myConn: Connection?)
      requires Valid()
      ensures myConn != null <==> MayChangeSchema(View(), tx)
      ensures myConn != null ==>
                && myConn in Repr && myConn in connectionsByTransaction.Values && myConn == txOwner
                && Synchronized(myConn) && txLevel.VersionChange?
    {
      hide CommittedValid, CurrentValid, MapView, OriginalsView, MakeObjectStoreMap, InStep, MapStores;
      if tx !in connectionsByTransaction || !txLevel.VersionChange? {
        return null;
      }
      myConn := connectionsByTransaction[tx];
    }

    lemma AtHandUpdate(m: map<string, Entry>, name: string, e: Entry)
      requires AtHand(m) && EntryAtHand(e)
      ensures AtHand(m[name := e]) && MapStores(m[name := e]) <= Repr
    {
      hide OwnIndexes;
    }

    lemma AtHandRemoval(m: map<string, Entry>, name: string)
      requires AtHand(m)
      ensures AtHand(m - {name}) && MapStores(m - {name}) <= Repr
    {
      hide OwnIndexes;
    }

    /** The owner's schema and map get an entry. */
    method PutEntry(myConn: Connection, name: string, e: Entry, p: StoreProperties)
      requires Valid() && txLevel.VersionChange? && myConn == txOwner && myConn in Repr && Synchronized(myConn)
      requires EntryFits(e, name, p) && EntryAtHand(e)
      modifies `current, `currentSchema, myConn`modifiedSchema, myConn`objectStoreMap
      ensures Valid() && Synchronized(myConn) && current == old(current)[name := e] 
      ensures currentSchema == old(currentSchema).(stores := old(currentSchema).stores[name := p])
      ensures View() == old(View()).(schema := currentSchema,
                                     working := old(View()).working[name := old(EntryView(e, p))])
    {
      hide MapFits, EntryFits, MapView, OriginalsView, EntryView, CommittedValid, InStep, AtHand, EntryAtHand, MapStores;
      var schema, m := myConn.modifiedSchema, myConn.objectStoreMap;
      FitsUpdate(m, schema.stores, name, e, p);
      MapViewUpdate(m, schema.stores, name, e, p);
      AtHandUpdate(m, name, e);
      Replace(myConn, schema.(stores := schema.stores[name := p]), m[name := e]);
    }

    method CreateObjectStore(tx: nat, name: string, props: StoreProperties) returns (outcome: Outcome)
      requires Valid()
      modifies `Repr, `current, `currentSchema
      modifies connectionsByTransaction.Values`modifiedSchema, connectionsByTransaction.Values`objectStoreMap
      ensures Valid() && fresh(Repr - old(Repr))
      ensures StepResult(View(), outcome) == CreateStoreStep(old(View()), tx, name, props)
    {
      hide MapFits, MapView, OriginalsView, MayChangeSchema, CommittedValid, CurrentValid, InStep, MapStores;
      var myConn := Owner(tx);
      if myConn == null {
        return Failed;
      }
      var newObjectStore := new ObjectStore(name);
      Adopt(newObjectStore);
      PutEntry(myConn, name, Entry(newObjectStore, map[]), props.(indexNames := [], indexes := map[]));
      outcome := Done;
    }

    /** The same when it also knows the store. */
    method StoreOwner(tx: nat, name: string) returns (myConn: Connection?)
      requires Valid()
      ensures myConn != null <==>
              MayChangeSchema(View(), tx) && name in View().schema.stores && name in View().working
      ensures myConn != null ==>
                && myConn in Repr && myConn in connectionsByTransaction.Values && myConn == txOwner
                && Synchronized(myConn) && txLevel.VersionChange?
                && name in current && name in currentSchema.stores
                && EntryFits(current[name], name, currentSchema.stores[name]) && EntryAtHand(current[name])
                && View().working[name] == EntryView(current[name], currentSchema.stores[name])
    {
      hide EntryView, OriginalsView, CommittedValid, InStep, EntryFits, EntryAtHand, MayChangeSchema;
      myConn := Owner(tx);
      if myConn == null || name !in myConn.modifiedSchema.stores || name !in myConn.objectStoreMap {
        return null;
      }
    }

    method DeleteObjectStore(tx: nat, name: string) returns (outcome: Outcome)
      requires Valid()
      modifies `current, `currentSchema
      modifies connectionsByTransaction.Values`modifiedSchema, connectionsByTransaction.Values`objectStoreMap
      ensures Valid()
      ensures StepResult(View(), outcome) == DeleteStoreStep(old(View()), tx, name)
    {
      hide MapFits, MapView, OriginalsView, MayChangeSchema, CommittedValid, InStep, AtHand, MapStores;
      var myConn := StoreOwner(tx, name);
      if myConn == null {
        return Failed;
      }
      var schema, m := myConn.modifiedSchema, myConn.objectStoreMap;
      FitsRemoval(m, schema.stores, name);
      AtHandRemoval(m, name);
      Replace(myConn, schema.(stores := schema.stores - {name}), m - {name});
      outcome := Done;
    }

    /** createIndex fills the new index. */
    method FillIndex(myConn: Connection, name: string, index: string) returns (error: Option<Error>)
      requires Valid() && Synchronized(myConn) && name in current && name in currentSchema.stores
      requires index in currentSchema.stores[name].indexes && index in current[name].indexMap
      requires current[name].indexMap[index].State() == EMPTY_INDEX
      modifies current[name].indexMap[index]
      ensures Valid()
      ensures var st := old(View()).working[name];
              var o := Built(EMPTY_INDEX, Records(st), Records(st).Keys, currentSchema.stores[name].indexes[index]);
              && error == o.error
              && View() == old(View()).(working := old(View()).working[name := st.(indexes := st.indexes[index := o.state])])
    {
      hide MapFits, MapView, OriginalsView, CommittedValid, AtHand, InStep, Built, TransactionsValid, EntryView;
      error := BuildIn(myConn.objectStoreMap, myConn.modifiedSchema.stores, name, index,
                       MakeObjectStoreMap(), committedSchema.stores);
    }

    /** createIndex puts a new, empty index into the map and the schema. */
    method InstallIndex(myConn: Connection, name: string, index: string, ip: IndexProperties)
      requires Valid() && txLevel.VersionChange? && myConn == txOwner && myConn in Repr && Synchronized(myConn)
      requires name in current && name in currentSchema.stores
      requires EntryFits(current[name], name, currentSchema.stores[name]) && EntryAtHand(current[name])
      requires name in View().working && View().working[name] == EntryView(current[name], currentSchema.stores[name])
      modifies `Repr, `current, `currentSchema, myConn`modifiedSchema, myConn`objectStoreMap
      ensures Valid() && fresh(Repr - old(Repr)) && Synchronized(myConn)
      ensures name in current && index in current[name].indexMap && fresh(current[name].indexMap[index])
      ensures current[name].indexMap[index].State() == EMPTY_INDEX
      ensures var s := old(View());
              var st := s.working[name];
              var stores := s.schema.stores[name := WithIndex(s.schema.stores[name], index, ip)];
              && currentSchema == s.schema.(stores := stores)
              && View() == s.(schema := currentSchema,
                              working := s.working[name := st.(indexes := st.indexes[index := EMPTY_INDEX])])
    {
      hide Valid, EntryFits, EntryView, WithIndex;
      var e, p := myConn.objectStoreMap[name], myConn.modifiedSchema.stores[name];
      var newIndex := new Index(index, e.store);
      Adopt(newIndex);
      IndexAdded(e, name, p, index, ip, newIndex);
      PutEntry(myConn, name, Entry(e.store, e.indexMap[index := newIndex]), WithIndex(p, index, ip));
    }

    /** createIndex after its checks. */
    method AddIndex(myConn: Connection, name: string, index: string, ip: IndexProperties)
      returns (error: Option<Error>)
      requires Valid() && txLevel.VersionChange? && myConn == txOwner && myConn in Repr && Synchronized(myConn)
      requires name in current && name in currentSchema.stores
      requires EntryFits(current[name], name, currentSchema.stores[name]) && EntryAtHand(current[name])
      requires name in View().working && View().working[name] == EntryView(current[name], currentSchema.stores[name])
      modifies `Repr, `current, `currentSchema, myConn`modifiedSchema, myConn`objectStoreMap
      ensures Valid() && fresh(Repr - old(Repr))
      ensures var s := old(View());
              var st := s.working[name];
              var o := Built(EMPTY_INDEX, Records(st), Records(st).Keys, ip);
              var stores := s.schema.stores[name := WithIndex(s.schema.stores[name], index, ip)];
              && error == o.error
              && View() == s.(schema := s.schema.(stores := stores),
                              working := s.working[name := st.(indexes := st.indexes[index := o.state])])
    {
      hide Valid, View, EntryFits, EntryView, EntryAtHand, Built;
      ghost var st := View().working[name];
      InstallIndex(myConn, name, index, ip);
      error := FillIndex(myConn, name, index);
      ghost var o := Built(EMPTY_INDEX, Records(st), Records(st).Keys, ip);
      assert st.indexes[index := EMPTY_INDEX][index := o.state] == st.indexes[index := o.state];
    }

    method CreateIndex(tx: nat, name: string, index: string, ip: IndexProperties) returns (outcome: Outcome)
      requires Valid()
      modifies `Repr, `current, `currentSchema
      modifies connectionsByTransaction.Values`modifiedSchema, connectionsByTransaction.Values`objectStoreMap
      ensures Valid() && fresh(Repr - old(Repr))
      ensures StepResult(View(), outcome) == CreateIndexStep(old(View()), tx, name, index, ip)
    {
      hide Valid, View, MayChangeSchema, EntryFits, EntryView, EntryAtHand, Synchronized, Built, WithIndex;
      var myConn := StoreOwner(tx, name);
      if myConn == null {
        return Failed;
      }
      var error := AddIndex(myConn, name, index, ip);
      outcome := if error.None? then Done else Failed;
    }

    method DeleteIndex(tx: nat, name: string, index: string) returns (outcome: Outcome)
      requires Valid()
      modifies `current, `currentSchema
      modifies connectionsByTransaction.Values`modifiedSchema, connectionsByTransaction.Values`objectStoreMap
      ensures Valid()
      ensures StepResult(View(), outcome) == DeleteIndexStep(old(View()), tx, name, index)
    {
      hide MapFits, MapView, OriginalsView, MayChangeSchema, CommittedValid, InStep, AtHand, MapStores;
      var myConn := StoreOwner(tx, name);
      if myConn == null {
        return Failed;
      }
      var e, p := myConn.objectStoreMap[name], myConn.modifiedSchema.stores[name];
      if index !in p.indexes || index !in e.indexMap {
        return Failed;
      }
      IndexRemoved(e, name, p, index);
      PutEntry(myConn, name, Entry(e.store, e.indexMap - {index}), WithoutIndex(p, index));
      outcome := Done;
    }

    // ---------- Commit and rollback ----------

    /** The connection of the transaction gets a new copy of what is committed. */
    method Renew(myConn: Connection, m: map<string, Entry>)
      requires m == MakeObjectStoreMap()
      requires Reachable() && MapStores(MakeObjectStoreMap()) <= Repr && TransactionsValid()
      requires CommittedValid() && AtHand(MakeObjectStoreMap()) && MapFits(MakeObjectStoreMap(), committedSchema.stores)
      requires forall t :: t in connectionsByTransaction ==> connectionsByTransaction[t] == myConn
      requires forall c :: c in connections ==> connections[c].number == c < connectionIdCounter
      requires Others(connections, myConn, MakeObjectStoreMap(), committedSchema)
      modifies `current, `currentSchema, myConn`modifiedSchema, myConn`objectStoreMap
      ensures Valid() && current == MakeObjectStoreMap() == m && currentSchema == committedSchema
      ensures View() == DbState(committedSchema, old(OriginalsView(m, committedSchema.stores)),
                                committedSchema, old(MapView(m, committedSchema.stores)),
                                txLevel, txRestrictObjectStores, connections.Keys, Running(), transactionIdCounter)
    {
      hide CommittedValid, TransactionsValid, AtHand, MapFits, MapView, OriginalsView, MapStores, MapIndexes, MakeObjectStoreMap, Running;
      myConn.modifiedSchema, myConn.objectStoreMap := committedSchema, m;
      current, currentSchema := m, committedSchema;
      assert Reachable();
      assert ConnectionsValid();
      assert CurrentValid() && InStep();
    }

    /** No transaction runs any more. */
    method Release(tx: nat)
      requires Valid() && tx in connectionsByTransaction && current == MakeObjectStoreMap() && currentSchema == committedSchema
      modifies `txLevel, `txRestrictObjectStores, `connectionsByTransaction
      ensures Valid() && View() == old(View()).(level := Idle, scope := None, running := old(View()).running - {tx})
    {
      hide CommittedValid, CurrentValid, MapView, OriginalsView, MapStores, MapIndexes, MakeObjectStoreMap, Synchronized;
      txLevel, txRestrictObjectStores := Idle, None;
      connectionsByTransaction := connectionsByTransaction - {tx};
      assert connectionsByTransaction == map[];
    }

    lemma CommittedAtHand()
      requires CommittedValid()
      ensures AtHand(MakeObjectStoreMap()) && MapFits(MakeObjectStoreMap(), committedSchema.stores) && MapStores(MakeObjectStoreMap()) <= Repr
    {
      hide WellFormed;
    }

    /** The other connections do not exist in a version change, and have what is committed otherwise. */
    lemma OthersInStep(tx: nat)
      requires Valid() && tx in connectionsByTransaction
      ensures forall t :: t in connectionsByTransaction ==> connectionsByTransaction[t] == connectionsByTransaction[tx]
      ensures Others(connections, connectionsByTransaction[tx], current, currentSchema)
      ensures Others(connections, connectionsByTransaction[tx], MakeObjectStoreMap(), committedSchema)
      ensures current != MakeObjectStoreMap() ==>
                forall c :: c in connections ==> connections[c] == connectionsByTransaction[tx]
    {
      hide MakeObjectStoreMap, AtHand, MapFits;
    }

    /** Drops the modified versions of everything that is committed. */
    method Restore()
      requires Valid() && current == MakeObjectStoreMap() && currentSchema == committedSchema
      modifies MapStores(current)`modifiedData, MapStores(current)`modifiedKeyGenerator, MapIndexes(current)`modifiedData
      ensures Valid()
      ensures var c := old(View()).committed;
              View() == old(View()).(working := map n | n in c :: Restored(c[n]))
    {
      hide CommittedValid, MapView, OriginalsView, AtHand, Restored, TransactionsValid, ConnectionsValid, MapFits, PartlyRestored;
      var m := MakeObjectStoreMap();
      RestoreAll(m, committedSchema.stores);
      RestoredEntries(m, committedSchema.stores);
    }

    method Rollback(tx: nat) returns (outcome: Outcome)
      requires Valid()
      modifies `txLevel, `txRestrictObjectStores, `connectionsByTransaction, `current, `currentSchema
      modifies connectionsByTransaction.Values`modifiedSchema, connectionsByTransaction.Values`objectStoreMap
      modifies MapStores(MakeObjectStoreMap())`modifiedData, MapStores(MakeObjectStoreMap())`modifiedKeyGenerator
      modifies MapIndexes(MakeObjectStoreMap())`modifiedData
      ensures Valid()
      ensures StepResult(View(), outcome) == RollbackStep(old(View()), tx)
    {
      hide CommittedValid, CurrentValid, InStep, MapView, OriginalsView, MapStores, Restored, MakeObjectStoreMap, AtHand, MapFits;
      if tx !in connectionsByTransaction || txLevel.Idle? {
        return Failed;
      }
      var myConn := connectionsByTransaction[tx];
      CommittedAtHand();
      OthersInStep(tx);
      var m := MakeObjectStoreMap();
      Renew(myConn, m);
      Release(tx);
      Restore();
      outcome := Done;
    }

    /** What a store will have committed is known. */
    ghost predicate Committable(m: map<string, Entry>, indexes: map<string, map<string, Index>>)
      reads `Repr
    {
      m.Keys == indexes.Keys && forall n :: n in m ==>
        && m[n].store in Repr && m[n].indexMap.Values <= Repr && indexes[n].Values <= Repr
        && OwnIndexes(m[n].store, m[n].indexMap) && OwnIndexes(m[n].store, indexes[n])
    }

    lemma CurrentCommittable()
      requires Valid()
      ensures Committable(current, CommittedIndexMaps(current)) && MapFits(current, currentSchema.stores)
    {
      hide WellFormed;
    }

    /** After the loop of commit over the stores of the map, these are the committed ones. */
    method Publish(m: map<string, Entry>, schema: Schema, ghost indexes: map<string, map<string, Index>>)
      requires MapFits(m, schema.stores) && indexes == CommittedIndexMaps(m) && Committable(m, indexes)
      modifies `committedSchema, `committedObjectStores
      modifies MapStores(m)`originalData, MapStores(m)`originalKeyGenerator, MapStores(m)`committedIndexes
      modifies MapIndexes(m)`originalData
      ensures committedSchema == schema && committedObjectStores == Stores(m)
      ensures CommittedIndexMaps(m) == map n | n in m :: indexes[n] + m[n].indexMap
      ensures MapFits(MakeObjectStoreMap(), schema.stores)
      ensures var was := old(MapView(m, schema.stores));
              && MapView(MakeObjectStoreMap(), schema.stores) == (map n | n in was :: Settled(was[n]))
              && OriginalsView(MakeObjectStoreMap(), schema.stores) == map n | n in was :: Published(was[n])
    {
      hide EntryFits, MapView, OriginalsView, Settled, Published, OwnIndexes, PartlySettled, CommittedEntries;
      ghost var was := MapView(m, schema.stores);
      NoneSettled(m, schema.stores);
      committedSchema := schema;
      committedObjectStores := SettleAll(m, schema.stores, was, indexes);
      SettledEntries(m, schema.stores, was, indexes);
      IndexesSettled(m, schema.stores, was, indexes);
    }

    lemma PublishedValid(m: map<string, Entry>, indexes: map<string, map<string, Index>>)
      requires Committable(m, indexes) && committedObjectStores == Stores(m)
      requires CommittedIndexMaps(m) == map n | n in m :: indexes[n] + m[n].indexMap
      requires MapFits(MakeObjectStoreMap(), committedSchema.stores)
      ensures forall n :: n in committedObjectStores ==> committedObjectStores[n] in Repr
      ensures MapStores(MakeObjectStoreMap()) <= Repr && CommittedValid() && AtHand(MakeObjectStoreMap())
    {
      hide MapFits;
      forall n | n in m
        ensures EntryAtHand(MakeObjectStoreMap()[n])
      {
        var e := MakeObjectStoreMap()[n];
        assert e.store == m[n].store && e.indexMap == indexes[n] + m[n].indexMap;
      }
    }

    lemma Unmoved(m: map<string, Entry>, indexes: map<string, map<string, Index>>)
      requires m.Keys == indexes.Keys && committedObjectStores == Stores(m)
      requires CommittedIndexMaps(m) == map n | n in m :: indexes[n] + m[n].indexMap
      requires forall n :: n in m ==> m[n].indexMap == indexes[n]
      ensures MakeObjectStoreMap() == m
    {
      forall n | n in m
        ensures MakeObjectStoreMap()[n] == m[n]
      {
        assert CommittedIndexMaps(m)[n] == indexes[n] + indexes[n];
      }
    }

    lemma SameIndexes(m: map<string, Entry>)
      requires m == MakeObjectStoreMap()
      ensures forall n :: n in m ==> m[n].indexMap == CommittedIndexMaps(m)[n]
    {
    }

    /** The first half of commit: the stores and indexes of the transaction become the committed ones. */
    method SettleStores(tx: nat, myConn: Connection)
      requires Valid() && tx in connectionsByTransaction && myConn == connectionsByTransaction[tx]
      modifies `committedSchema, `committedObjectStores
      modifies MapStores(current)`originalData, MapStores(current)`originalKeyGenerator
      modifies MapStores(current)`committedIndexes, MapIndexes(current)`originalData
      ensures committedSchema == old(View()).schema
      ensures Reachable() && MapStores(MakeObjectStoreMap()) <= Repr && TransactionsValid()
      ensures CommittedValid() && AtHand(MakeObjectStoreMap()) && MapFits(MakeObjectStoreMap(), committedSchema.stores)
      ensures forall t :: t in connectionsByTransaction ==> connectionsByTransaction[t] == myConn
      ensures forall c :: c in connections ==> connections[c].number == c < connectionIdCounter
      ensures Others(connections, myConn, MakeObjectStoreMap(), committedSchema)
      ensures var was := old(View()).working;
              && MapView(MakeObjectStoreMap(), committedSchema.stores) == (map n | n in was :: Settled(was[n]))
              && OriginalsView(MakeObjectStoreMap(), committedSchema.stores) == map n | n in was :: Published(was[n])
    {
      hide CommittedValid, CurrentValid, InStep, MapView, OriginalsView, Settled, Published, MakeObjectStoreMap, AtHand, MapFits,
           Committable, Others;
      ghost var indexes := CommittedIndexMaps(current);
      OthersInStep(tx);
      CurrentCommittable();
      ghost var inStep := current == MakeObjectStoreMap();
      if inStep {
        SameIndexes(current);
      }
      Publish(myConn.objectStoreMap, myConn.modifiedSchema, indexes);
      if inStep {
        Unmoved(current, indexes);
      } else {
        NoOthers(connections, myConn, MakeObjectStoreMap(), committedSchema);
      }
      PublishedValid(current, indexes);
    }

    method Commit(tx: nat) returns (outcome: Outcome)
      requires Valid()
      modifies `txLevel, `txRestrictObjectStores, `connectionsByTransaction, `current, `currentSchema
      modifies `committedSchema, `committedObjectStores
      modifies connectionsByTransaction.Values`modifiedSchema, connectionsByTransaction.Values`objectStoreMap
      modifies MapStores(current)`originalData, MapStores(current)`originalKeyGenerator
      modifies MapStores(current)`committedIndexes, MapIndexes(current)`originalData
      ensures Valid()
      ensures StepResult(View(), outcome) == CommitStep(old(View()), tx)
    {
      hide CommittedValid, CurrentValid, InStep, MapView, OriginalsView, Settled, Published, MakeObjectStoreMap, AtHand, MapFits,
           ConnectionsValid, TransactionsValid, Reachable, MapStores, MapIndexes;
      if tx !in connectionsByTransaction || txLevel.Idle? {
        return Failed;
      }
      var myConn := connectionsByTransaction[tx];
      SettleStores(tx, myConn);
      var m := MakeObjectStoreMap();
      Renew(myConn, m);
      Release(tx);
      outcome := Done;
    }
  }
}
