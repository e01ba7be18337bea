/** Object stores and indexes as the backend keeps them: records whose fields its methods update in place. */
module MemoryStore {
  import opened Wrappers
  import opened Keys
  import opened KeyRanges
  import opened IdbRecords
  import opened IdbDeletion
  import opened IdbTransactions

  class Index {
    const originalName: string
    // the store that the index was made for
    ghost const home: ObjectStore
    var originalData: IndexData
    var modifiedData: Option<IndexData>

    constructor (originalName: string, ghost home: ObjectStore)
      ensures this.originalName == originalName && this.home == home && State() == EMPTY_INDEX
    {
      this.originalName, this.home := originalName, home;
      originalData, modifiedData := map[], None;
    }

    function State(): IndexState
      reads `originalData, `modifiedData
    {
      IndexState(originalData, modifiedData)
    }

    /** What commit does to one index: the modified version becomes the original. */
    method Settle()
      modifies `originalData
      ensures State() == old(SettledIndex(State()))
    {
      originalData := if modifiedData.Some? then modifiedData.value else originalData;
    }

    method InsertIntoIndex(primaryKey: Key, value: Value, p: IndexProperties) returns (error: Option<Error>)
      modifies `modifiedData
      ensures match Inserted(old(State()), primaryKey, value, p)
              case Ok(i) => State() == i && error == None
              case Err(e) => State() == old(State()) && error == Some(e)
    {
      var indexData := if modifiedData.Some? then modifiedData.value else originalData;
      var extraction := p.extract(value);
      if extraction.InvalidKey? {
        return Some(DataError);
      }
      if extraction.OneKey? {
        var indexKey := extraction.key;
        if indexKey in indexData {
          if p.unique {
            return Some(ConstraintError);
          }
          modifiedData := Some(indexData[indexKey := indexData[indexKey] + {primaryKey}]);
        } else {
          modifiedData := Some(indexData[indexKey := {primaryKey}]);
        }
      }
      error := None;
    }

    method DeleteFromIndex(primaryKey: Key, value: Value, p: IndexProperties) returns (error: Option<Error>)
      modifies `modifiedData
      ensures match Deleted(old(State()), primaryKey, value, p)
              case Ok(i) => State() == i && error == None
              case Err(e) => State() == old(State()) && error == Some(e)
    {
      var indexData := if modifiedData.Some? then modifiedData.value else originalData;
      var extraction := p.extract(value);
      if extraction.InvalidKey? {
        return Some(DataError);
      }
      if extraction.OneKey? {
        var indexKey := extraction.key;
        if indexKey !in indexData {
          return Some(IndexEntryMissing);
        }
        var newPrimaryKeys := indexData[indexKey] - {primaryKey};
        if newPrimaryKeys == {} {
          modifiedData := Some(indexData - {indexKey});
        } else {
          modifiedData := Some(indexData[indexKey := newPrimaryKeys]);
        }
      }
      error := None;
    }

    /** What storeRecord does to one index. */
    method Reindex(primaryKey: Key, previous: Option<Value>, value: Value, p: IndexProperties)
      returns (error: Option<Error>)
      modifies `modifiedData
      ensures IndexOutcome(State(), error) == Reindexed(old(State()), primaryKey, previous, value, p)
    {
      // the old entry is removed first
      if previous.Some? {
        error := DeleteFromIndex(primaryKey, previous.value, p);
        if error.Some? && error.value != DataError {
          return;
        }
      }
      error := InsertIntoIndex(primaryKey, value, p);
      if error == Some(DataError) {
        error := None;
      }
    }
  }

  class ObjectStore {
    const originalName: string
    var originalData: Data
    var modifiedData: Option<Data>
    var originalKeyGenerator: int
    var modifiedKeyGenerator: Option<int>
    var committedIndexes: map<string, Index>

    constructor (originalName: string)
      ensures this.originalName == originalName && originalData == map[] && modifiedData == None
      ensures originalKeyGenerator == 1 && modifiedKeyGenerator == None && committedIndexes == map[]
    {
      this.originalName := originalName;
      originalData, modifiedData := map[], None;
      originalKeyGenerator, modifiedKeyGenerator := 1, None;
      committedIndexes := map[];
    }

    ghost function View(indexes: map<string, IndexState>): StoreState
      reads `originalData, `modifiedData, `originalKeyGenerator, `modifiedKeyGenerator
    {
      StoreState(originalData, modifiedData, originalKeyGenerator, modifiedKeyGenerator, indexes)
    }

    /** Which record storeRecord writes; starts the modified version and advances the key generator. */
    method Resolve(p: StoreProperties, req: StoreRequest, ghost indexes: map<string, IndexState>)
      returns (r: Result<Target, Error>)
      modifies `modifiedData, `modifiedKeyGenerator
      ensures r == Resolved(old(View(indexes)), p, req)
      ensures View(indexes) == Prepared(old(View(indexes)), if r.Ok? then r.value.generator else None)
    {
      if modifiedData.None? {
        modifiedData := Some(originalData);
      }
      if req.level.UpdateExisting? {
        if req.key.None? {
          return Err(UpdateWithoutKey);
        }
        if req.key.value !in modifiedData.value {
          return Err(UpdateOfMissingRecord);
        }
        return Ok(Target(req.key.value, req.value, None));
      }
      var keygen := if modifiedKeyGenerator.Some? && modifiedKeyGenerator.value != 0
                    then modifiedKeyGenerator.value else originalKeyGenerator;
      if p.hasKeyPath && req.key.Some? {
        return Err(DataError);
      }
      var made := p.make(req.value, req.key, keygen);
      if made.None? {
        return Err(DataError);
      }
      modifiedKeyGenerator := Some(made.value.updatedKeyGenerator);
      r := Ok(Target(made.value.key, made.value.value, modifiedKeyGenerator));
    }
  }

  /** ObjectStoreMapEntry: a store and its indexes by their current names. */
  datatype Entry = Entry(store: ObjectStore, indexMap: map<string, Index>)

  /** Every index belongs to the store and has the name it is found under, so no two are the same object. */
  ghost predicate OwnIndexes(store: ObjectStore, indexes: map<string, Index>) {
    forall i :: i in indexes ==> indexes[i].home == store && indexes[i].originalName == i
  }

  /** The indexes that a schema lists. */
  ghost function IndexStates(indexes: map<string, Index>, p: StoreProperties): map<string, IndexState>
    reads indexes.Values`originalData, indexes.Values`modifiedData
  {
    map i | i in indexes && i in p.indexes :: indexes[i].State()
  }

  /** What an entry stands for, under a schema. */
  ghost function EntryView(e: Entry, p: StoreProperties): StoreState
    reads e.store`originalData, e.store`modifiedData, e.store`originalKeyGenerator, e.store`modifiedKeyGenerator
    reads e.indexMap.Values`originalData, e.indexMap.Values`modifiedData
  {
    e.store.View(IndexStates(e.indexMap, p))
  }

  /** The loop of storeRecord over the indexes of the schema. */
  method ReindexEntry(e: Entry, p: StoreProperties, pk: Key, previous: Option<Value>, value: Value)
    returns (error: Option<Error>)
    requires WellFormed(p) && OwnIndexes(e.store, e.indexMap)
    modifies e.indexMap.Values`modifiedData
    ensures IndexesOutcome(IndexStates(e.indexMap, p), error)
            == ReindexAll(old(IndexStates(e.indexMap, p)), p, 0, pk, previous, value)
  {
    hide Reindexed;
    var j := 0;
    while j < |p.indexNames|
      invariant 0 <= j <= |p.indexNames|
      invariant ReindexAll(IndexStates(e.indexMap, p), p, j, pk, previous, value)
                == ReindexAll(old(IndexStates(e.indexMap, p)), p, 0, pk, previous, value)
    {
      var name := p.indexNames[j];
      if name !in e.indexMap {
        return Some(MissingIndex);
      }
      ghost var before := IndexStates(e.indexMap, p);
      error := e.indexMap[name].Reindex(pk, previous, value, p.indexes[name]);
      assert IndexStates(e.indexMap, p) == before[name := e.indexMap[name].State()];
      if error.Some? {
        return;
      }
      j := j + 1;
    }
    error := None;
  }

  method StoreIntoEntry(e: Entry, p: StoreProperties, req: StoreRequest) returns (r: Result<Key, Error>)
    requires WellFormed(p) && OwnIndexes(e.store, e.indexMap)
    modifies e.store`modifiedData, e.store`modifiedKeyGenerator, e.indexMap.Values`modifiedData
    ensures StoreOutcome(EntryView(e, p), r) == StoreRecordResult(old(EntryView(e, p)), p, req)
  {
    hide ReindexAll, Resolved, WellFormed;
    var store := e.store;
    ghost var indexes := IndexStates(e.indexMap, p);
    var target := store.Resolve(p, req, indexes);
    assert IndexStates(e.indexMap, p) == indexes;
    if target.Err? {
      return Err(target.error);
    }
    var key, value, modifiedData := target.value.key, target.value.value, store.modifiedData.value;
    if key in modifiedData && req.level.NoOverwrite? {
      return Err(ConstraintError);
    }
    var previous := if key in modifiedData then Some(modifiedData[key]) else None;
    store.modifiedData := Some(modifiedData[key := value]);
    assert IndexStates(e.indexMap, p) == indexes;
    var error := ReindexEntry(e, p, key, previous, value);
    r := if error.Some? then Err(error.value) else Ok(key);
  }

  /** The loop of deleteRecord over the indexes of the schema. */
  method UnindexEntry(e: Entry, p: StoreProperties, pk: Key, value: Value) returns (error: Option<Error>)
    requires WellFormed(p) && OwnIndexes(e.store, e.indexMap)
    modifies e.indexMap.Values`modifiedData
    ensures IndexesOutcome(IndexStates(e.indexMap, p), error)
            == DeleteFromAll(old(IndexStates(e.indexMap, p)), p, 0, pk, value)
  {
    hide Deleted;
    var j := 0;
    while j < |p.indexNames|
      invariant 0 <= j <= |p.indexNames|
      invariant DeleteFromAll(IndexStates(e.indexMap, p), p, j, pk, value)
                == DeleteFromAll(old(IndexStates(e.indexMap, p)), p, 0, pk, value)
    {
      var name := p.indexNames[j];
      if name !in e.indexMap {
        return Some(MissingIndex);
      }
      ghost var before := IndexStates(e.indexMap, p);
      error := e.indexMap[name].DeleteFromIndex(pk, value, p.indexes[name]);
      assert IndexStates(e.indexMap, p) == before[name := e.indexMap[name].State()];
      if error.Some? {
        assert IndexStates(e.indexMap, p) == before;
        return;
      }
      j := j + 1;
    }
    error := None;
  }

  method DeleteFromEntry(e: Entry, p: StoreProperties, range: KeyRange) returns (error: Option<Error>)
    requires WellFormed(p) && OwnIndexes(e.store, e.indexMap)
    modifies e.store`modifiedData, e.store`modifiedKeyGenerator, e.indexMap.Values`modifiedData
    ensures (EntryView(e, p), error) == DeleteResult(old(EntryView(e, p)), p, range)
  {
    hide DeleteFromAll, Stops;
    var store := e.store;
    if store.modifiedData.None? {
      store.modifiedData := Some(store.originalData);
    }
    var modifiedData := store.modifiedData.value;
    assert IndexStates(e.indexMap, p) == old(IndexStates(e.indexMap, p));
    ghost var data := modifiedData;
    var currKey := StartKey(modifiedData, range);
    if currKey.None? {
      return Some(InvariantViolated);
    }
    currKey := Aligned(modifiedData, currKey.value);
    ghost var expected := DeleteLoop(modifiedData, IndexStates(e.indexMap, p), p, currKey, range);
    while currKey.Some? && !Stops(range, currKey.value)
      invariant store.modifiedData == Some(data) && store.originalData == old(store.originalData)
      invariant store.originalKeyGenerator == old(store.originalKeyGenerator)
      invariant store.modifiedKeyGenerator == old(store.modifiedKeyGenerator)
      invariant DeleteLoop(modifiedData, IndexStates(e.indexMap, p), p, currKey, range) == expected
      decreases |modifiedData|
    {
      var k := currKey.value;
      if k !in modifiedData {
        return Some(InvariantViolated);
      }
      error := UnindexEntry(e, p, k, modifiedData[k]);
      if error.Some? {
        return;
      }
      modifiedData := modifiedData - {k};
      currKey := Next(modifiedData.Keys, true, k);
    }
    ghost var indexes := IndexStates(e.indexMap, p);
    store.modifiedData := Some(modifiedData);
    assert IndexStates(e.indexMap, p) == indexes;
    error := None;
  }

  /** The loop of clearObjectStore over the indexes of the schema. */
  method ClearIndexes(e: Entry, p: StoreProperties) returns (error: Option<Error>)
    requires WellFormed(p) && OwnIndexes(e.store, e.indexMap)
    modifies e.indexMap.Values`modifiedData
    ensures IndexesOutcome(IndexStates(e.indexMap, p), error) == ClearAll(old(IndexStates(e.indexMap, p)), p, 0)
  {
    var j := 0;
    while j < |p.indexNames|
      invariant 0 <= j <= |p.indexNames|
      invariant ClearAll(IndexStates(e.indexMap, p), p, j) == ClearAll(old(IndexStates(e.indexMap, p)), p, 0)
    {
      var name := p.indexNames[j];
      if name !in e.indexMap {
        return Some(MissingIndex);
      }
      ghost var before := IndexStates(e.indexMap, p);
      e.indexMap[name].modifiedData := Some(map[]);
      assert IndexStates(e.indexMap, p) == before[name := before[name].(modified := Some(map[]))];
      j := j + 1;
    }
    error := None;
  }

  method ClearEntry(e: Entry, p: StoreProperties) returns (error: Option<Error>)
    requires WellFormed(p) && OwnIndexes(e.store, e.indexMap)
    modifies e.store`modifiedData, e.store`modifiedKeyGenerator, e.indexMap.Values`modifiedData
    ensures (EntryView(e, p), error) == ClearResult(old(EntryView(e, p)), p)
  {
    hide ClearAll, WellFormed, OwnIndexes;
    e.store.modifiedData := Some(map[]);
    assert IndexStates(e.indexMap, p) == old(IndexStates(e.indexMap, p));
    error := ClearIndexes(e, p);
  }

  /** Fills a new index from the records of a store, in key order. */
  method BuildIndex(index: Index, data: Data, p: IndexProperties) returns (error: Option<Error>)
    requires index.State() == EMPTY_INDEX
    modifies index`modifiedData
    ensures IndexOutcome(index.State(), error) == Built(EMPTY_INDEX, data, data.Keys, p)
  {
    hide Inserted;
    var left := data.Keys;
    while left != {}
      invariant left <= data.Keys
      invariant Built(index.State(), data, left, p) == Built(EMPTY_INDEX, data, data.Keys, p)
      decreases |left|
    {
      var k := First(left, true).value;
      error := index.InsertIntoIndex(k, data[k], p);
      if error.Some? && error.value != DataError {
        return;
      }
      left := left - {k};
    }
    error := None;
  }

  /** createIndex fills the new index of an entry from the records of its store. */
  method FillEntry(e: Entry, p: StoreProperties, index: string) returns (error: Option<Error>)
    requires OwnIndexes(e.store, e.indexMap) && index in e.indexMap && index in p.indexes
    requires e.indexMap[index].State() == EMPTY_INDEX
    modifies e.indexMap[index]
    ensures var st := old(EntryView(e, p));
            var o := Built(EMPTY_INDEX, Records(st), Records(st).Keys, p.indexes[index]);
            error == o.error && EntryView(e, p) == st.(indexes := st.indexes[index := o.state])
    ensures forall i :: i in e.indexMap ==> e.indexMap[i].originalData == old(e.indexMap[i].originalData)
  {
    hide Built;
    ghost var before := IndexStates(e.indexMap, p);
    var store := e.store;
    var storeData := if store.modifiedData.Some? then store.modifiedData.value else store.originalData;
    error := BuildIndex(e.indexMap[index], storeData, p.indexes[index]);
    assert IndexStates(e.indexMap, p) == before[index := e.indexMap[index].State()];
  }

  /** The committed indexes when those left are still to come. */
  function Joined(base: map<string, Index>, m: map<string, Index>, left: set<string>): map<string, Index> {
    base + (m - left)
  }

  lemma JoinedSteps(base: map<string, Index>, m: map<string, Index>)
    ensures Joined(base, m, m.Keys) == base && Joined(base, m, {}) == base + m
    ensures forall left, i :: i in left && i in m ==> Joined(base, m, left)[i := m[i]] == Joined(base, m, left - {i})
  {
    assert m - {} == m;
  }

  /** All indexes but those left are settled. */
  ghost predicate Halfway(indexes: map<string, Index>, left: set<string>, was: map<string, IndexState>)
    requires was.Keys == indexes.Keys
    reads indexes.Values`originalData, indexes.Values`modifiedData
  {
    forall i :: i in indexes ==> indexes[i].State() == if i in left then was[i] else SettledIndex(was[i])
  }

  method SettleOne(e: Entry, i: string, ghost left: set<string>, ghost was: map<string, IndexState>,
                   ghost base: map<string, Index>)
    requires OwnIndexes(e.store, e.indexMap) && i in left && i in e.indexMap
    requires was.Keys == e.indexMap.Keys && Halfway(e.indexMap, left, was)
    requires e.store.committedIndexes == Joined(base, e.indexMap, left)
    modifies e.store`committedIndexes, e.indexMap.Values`originalData
    ensures Halfway(e.indexMap, left - {i}, was)
    ensures e.store.committedIndexes == Joined(base, e.indexMap, left - {i})
  {
    hide SettledIndex, Joined;
    e.indexMap[i].Settle();
    assert Halfway(e.indexMap, left - {i}, was);
    JoinedSteps(base, e.indexMap);
    e.store.committedIndexes := e.store.committedIndexes[i := e.indexMap[i]];
  }

  /** What commit does to the indexes of one entry. */
  method SettleIndexes(e: Entry)
    requires OwnIndexes(e.store, e.indexMap)
    modifies e.store`committedIndexes, e.indexMap.Values`originalData
    ensures e.store.committedIndexes == old(e.store.committedIndexes) + e.indexMap
    ensures forall i :: i in e.indexMap ==> e.indexMap[i].State() == old(SettledIndex(e.indexMap[i].State()))
  {
    hide SettledIndex;
    ghost var was := map i | i in e.indexMap :: e.indexMap[i].State();
    SettleLoop(e, was);
  }

  method SettleLoop(e: Entry, ghost was: map<string, IndexState>)
    requires OwnIndexes(e.store, e.indexMap)
    requires was.Keys == e.indexMap.Keys && Halfway(e.indexMap, e.indexMap.Keys, was)
    modifies e.store`committedIndexes, e.indexMap.Values`originalData
    ensures e.store.committedIndexes == old(e.store.committedIndexes) + e.indexMap
    ensures Halfway(e.indexMap, {}, was)
  {
    hide *;
    ghost var base := e.store.committedIndexes;
    JoinedSteps(base, e.indexMap);
    var left := e.indexMap.Keys;
    while left != {}
      invariant left <= e.indexMap.Keys
      invariant e.store.committedIndexes == Joined(base, e.indexMap, left)
      invariant Halfway(e.indexMap, left, was)
      decreases |left|
    {
      var i :| i in left;
      SettleOne(e, i, left, was, base);
      left := left - {i};
    }
  }

  /** What commit does to one entry. */
  method SettleEntry(e: Entry, ghost p: StoreProperties)
    requires OwnIndexes(e.store, e.indexMap)
    modifies e.store`originalData, e.store`originalKeyGenerator, e.store`committedIndexes
    modifies e.indexMap.Values`originalData
    ensures EntryView(e, p) == old(Settled(EntryView(e, p)))
    ensures e.store.committedIndexes == old(e.store.committedIndexes) + e.indexMap
    ensures forall i :: i in e.indexMap ==> e.indexMap[i].State() == old(SettledIndex(e.indexMap[i].State()))
  {
    hide SettledIndex;
    ghost var was := IndexStates(e.indexMap, p);
    var store := e.store;
    store.originalData := if store.modifiedData.Some? then store.modifiedData.value else store.originalData;
    if store.modifiedKeyGenerator.Some? {
      store.originalKeyGenerator := store.modifiedKeyGenerator.value;
    }
    SettleIndexes(e);
    assert IndexStates(e.indexMap, p) == map i | i in was :: SettledIndex(was[i]);
  }

  /** What rollback does to one committed store: the modified versions are dropped. */
  method RestoreStore(store: ObjectStore, indexNames: seq<string>)
    requires OwnIndexes(store, store.committedIndexes)
    requires forall j :: 0 <= j < |indexNames| ==> indexNames[j] in store.committedIndexes
    modifies store`modifiedData, store`modifiedKeyGenerator, store.committedIndexes.Values`modifiedData
    ensures store.modifiedData == None && store.modifiedKeyGenerator == None
    ensures forall i :: i in indexNames ==> store.committedIndexes[i].modifiedData == None
  {
    store.modifiedData := None;
    store.modifiedKeyGenerator := None;
    var j := 0;
    while j < |indexNames|
      invariant 0 <= j <= |indexNames|
      invariant store.modifiedData == None && store.modifiedKeyGenerator == None
      invariant forall l :: 0 <= l < j ==> store.committedIndexes[indexNames[l]].modifiedData == None
    {
      store.committedIndexes[indexNames[j]].modifiedData := None;
      j := j + 1;
    }
  }
}
