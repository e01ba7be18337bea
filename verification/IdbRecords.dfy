/**
 * Records of one object store and the secondary indexes over them, on values: what the backend
 * does to them, and why every index stays what it should be.
 */
module IdbRecords {
  import opened Wrappers
  import opened Keys

  /** A stored value; only its index keys matter here. */
  type Value(==, !new)

  datatype Error =
    | DataError | ConstraintError
    | UpdateWithoutKey | UpdateOfMissingRecord
    | MissingIndex | IndexEntryMissing | InvariantViolated

  /** What getIndexKeys makes of a value: nothing, one key, or a DataError for an invalid key. */
  datatype Extraction = NoKey | OneKey(key: Key) | InvalidKey

  datatype IndexProperties = IndexProperties(extract: Value -> Extraction, unique: bool)

  datatype StoreKey = StoreKey(key: Key, value: Value, updatedKeyGenerator: int)

  /**
   * Properties of an object store. The function is makeStoreKeyValue for its key path and
   * autoIncrement flag; nothing stands for a DataError. Index names are in creation order.
   */
  datatype StoreProperties = StoreProperties(
    hasKeyPath: bool,
    make: (Value, Option<Key>, int) -> Option<StoreKey>,
    indexNames: seq<string>,
    indexes: map<string, IndexProperties>)

  type Data = map<Key, Value>

  type IndexData = map<Key, set<Key>>

  /** An index: the committed version and the version of the running transaction. */
  datatype IndexState = IndexState(original: IndexData, modified: Option<IndexData>)

  datatype StoreState = StoreState(
    original: Data,
    modified: Option<Data>,
    originalKeyGenerator: int,
    modifiedKeyGenerator: Option<int>,
    indexes: map<string, IndexState>)

  /** modifiedData || originalData */
  function Entries(i: IndexState): IndexData { if i.modified.Some? then i.modified.value else i.original }

  function Records(st: StoreState): Data { if st.modified.Some? then st.modified.value else st.original }

  /** modifiedKeyGenerator || originalKeyGenerator, where 0 counts as absent. */
  function Generator(st: StoreState): int {
    if st.modifiedKeyGenerator.Some? && st.modifiedKeyGenerator.value != 0 then st.modifiedKeyGenerator.value
    else st.originalKeyGenerator
  }

  // ---------- What an index should be ----------

  ghost function Holders(data: Data, p: IndexProperties, k: Key): set<Key> {
    set pk | pk in data && p.extract(data[pk]) == OneKey(k)
  }

  ghost function IndexKeys(data: Data, p: IndexProperties): set<Key> {
    set pk | pk in data && p.extract(data[pk]).OneKey? :: p.extract(data[pk]).key
  }

  /** Every index key of a stored value, with exactly the primary keys of the values that have it. */
  ghost function IndexOf(data: Data, p: IndexProperties): IndexData {
    map k | k in IndexKeys(data, p) :: Holders(data, p, k)
  }

  /** No two records share an index key of a unique index. */
  ghost predicate UniqueHolds(data: Data, p: IndexProperties) {
    p.unique ==> forall a, b :: SameKey(data, p, a, b) ==> a == b
  }

  ghost predicate SameKey(data: Data, p: IndexProperties, a: Key, b: Key) {
    a in data && b in data && p.extract(data[a]).OneKey? && p.extract(data[a]) == p.extract(data[b])
  }

  lemma IndexOfEntry(data: Data, p: IndexProperties, k: Key)
    ensures k in IndexOf(data, p) <==> Holders(data, p, k) != {}
    ensures k in IndexOf(data, p) ==> IndexOf(data, p)[k] == Holders(data, p, k)
  {
    if Holders(data, p, k) != {} {
      var pk :| pk in Holders(data, p, k);
      assert p.extract(data[pk]).key in IndexKeys(data, p);
    }
    if k in IndexKeys(data, p) {
      var pk :| pk in data && p.extract(data[pk]).OneKey? && p.extract(data[pk]).key == k;
      assert pk in Holders(data, p, k);
    }
  }

  /** Two index contents with the same holders everywhere are equal. */
  lemma SameIndex(a: IndexData, data: Data, p: IndexProperties)
    requires forall k :: k in a <==> Holders(data, p, k) != {}
    requires forall k :: k in a ==> a[k] == Holders(data, p, k)
    ensures a == IndexOf(data, p)
  {
    hide Holders;
    forall k
      ensures k in a <==> k in IndexOf(data, p)
      ensures k in a ==> a[k] == IndexOf(data, p)[k]
    {
      IndexOfEntry(data, p, k);
    }
  }

  // ---------- Single index operations ----------

  /** insertIntoIndex */
  function Inserted(i: IndexState, pk: Key, value: Value, p: IndexProperties): Result<IndexState, Error> {
    var entries := Entries(i);
    match p.extract(value)
    case NoKey => Ok(i)
    case InvalidKey => Err(DataError)
    case OneKey(k) =>
      if k in entries then
        if p.unique then Err(ConstraintError)
        else Ok(i.(modified := Some(entries[k := entries[k] + {pk}])))
      else Ok(i.(modified := Some(entries[k := {pk}])))
  }

  /** deleteFromIndex */
  function Deleted(i: IndexState, pk: Key, value: Value, p: IndexProperties): Result<IndexState, Error> {
    var entries := Entries(i);
    match p.extract(value)
    case NoKey => Ok(i)
    case InvalidKey => Err(DataError)
    case OneKey(k) =>
      if k !in entries then Err(IndexEntryMissing)
      else
        var left := entries[k] - {pk};
        if left == {} then Ok(i.(modified := Some(entries - {k})))
        else Ok(i.(modified := Some(entries[k := left])))
  }

  lemma InsertedAgrees(i: IndexState, data: Data, pk: Key, value: Value, p: IndexProperties)
    requires Entries(i) == IndexOf(data, p) && pk !in data
    ensures Inserted(i, pk, value, p).Ok? ==> Entries(Inserted(i, pk, value, p).value) == IndexOf(data[pk := value], p)
    ensures p.extract(value) == InvalidKey ==> Entries(i) == IndexOf(data[pk := value], p)
    ensures Inserted(i, pk, value, p) == Err(ConstraintError) <==>
            p.unique && p.extract(value).OneKey? && Holders(data, p, p.extract(value).key) != {}
  {
    var data' := data[pk := value];
    var e := p.extract(value);
    forall k
      ensures Holders(data', p, k) == Holders(data, p, k) + if e == OneKey(k) then {pk} else {}
    {
      assert forall x :: x in data' <==> x in data || x == pk;
    }
    var r := Inserted(i, pk, value, p);
    if e.OneKey? {
      IndexOfEntry(data, p, e.key);
    }
    var a := if r.Ok? then Entries(r.value) else Entries(i);
    if r.Ok? || e == InvalidKey {
      forall k
        ensures k in a <==> Holders(data', p, k) != {}
        ensures k in a ==> a[k] == Holders(data', p, k)
      {
        IndexOfEntry(data, p, k);
      }
      SameIndex(a, data', p);
    }
  }

  lemma DeletedAgrees(i: IndexState, data: Data, pk: Key, p: IndexProperties)
    requires Entries(i) == IndexOf(data, p) && pk in data
    ensures Deleted(i, pk, data[pk], p).Ok? ==> Entries(Deleted(i, pk, data[pk], p).value) == IndexOf(data - {pk}, p)
    ensures p.extract(data[pk]) == InvalidKey ==> Entries(i) == IndexOf(data - {pk}, p)
    ensures Deleted(i, pk, data[pk], p).Err? ==> Deleted(i, pk, data[pk], p) == Err(DataError)
    ensures Deleted(i, pk, data[pk], p).Err? <==> p.extract(data[pk]) == InvalidKey
  {
    var data' := data - {pk};
    var e := p.extract(data[pk]);
    forall k
      ensures Holders(data', p, k) == Holders(data, p, k) - if e == OneKey(k) then {pk} else {}
    {
      assert forall x :: x in data' <==> x in data && x != pk;
    }
    if e.OneKey? {
      IndexOfEntry(data, p, e.key);
      assert pk in Holders(data, p, e.key);
    }
    var r := Deleted(i, pk, data[pk], p);
    var a := if r.Ok? then Entries(r.value) else Entries(i);
    forall k
      ensures k in a <==> Holders(data', p, k) != {}
      ensures k in a ==> a[k] == Holders(data', p, k)
    {
      IndexOfEntry(data, p, k);
    }
    SameIndex(a, data', p);
  }

  // ---------- storeRecord ----------

  datatype IndexOutcome = IndexOutcome(state: IndexState, error: Option<Error>)

  /** What storeRecord does to one index: a DataError is passed over, any other error stops it. */
  function Reindexed(i: IndexState, pk: Key, previous: Option<Value>, value: Value, p: IndexProperties): IndexOutcome {
    var deleted := if previous.None? then Ok(i) else Deleted(i, pk, previous.value, p);
    if deleted.Err? && deleted.error != DataError then IndexOutcome(i, Some(deleted.error))
    else
      var i' := if deleted.Ok? then deleted.value else i;
      match Inserted(i', pk, value, p)
      case Ok(inserted) => IndexOutcome(inserted, None)
      case Err(e) => IndexOutcome(i', if e == DataError then None else Some(e))
  }

  datatype IndexesOutcome = IndexesOutcome(indexes: map<string, IndexState>, error: Option<Error>)

  predicate WellFormed(p: StoreProperties) {
    && (forall j :: 0 <= j < |p.indexNames| ==> p.indexNames[j] in p.indexes)
    && (forall j, k :: 0 <= j < k < |p.indexNames| ==> p.indexNames[j] != p.indexNames[k])
  }

  /** The loop of storeRecord over the indexes in the schema, from the j-th on. */
  function ReindexAll(indexes: map<string, IndexState>, p: StoreProperties, j: nat,
                      pk: Key, previous: Option<Value>, value: Value): IndexesOutcome
    requires WellFormed(p) && j <= |p.indexNames|
    decreases |p.indexNames| - j
  {
    if j == |p.indexNames| then IndexesOutcome(indexes, None)
    else
      var name := p.indexNames[j];
      if name !in indexes then IndexesOutcome(indexes, Some(MissingIndex))
      else
        var o := Reindexed(indexes[name], pk, previous, value, p.indexes[name]);
        var indexes' := indexes[name := o.state];
        if o.error.Some? then IndexesOutcome(indexes', o.error)
        else ReindexAll(indexes', p, j + 1, pk, previous, value)
  }

  datatype StoreLevel = NoOverwrite | AllowOverwrite | UpdateExisting

  datatype StoreRequest = StoreRequest(value: Value, key: Option<Key>, level: StoreLevel)

  datatype StoreOutcome = StoreOutcome(state: StoreState, result: Result<Key, Error>)

  /** Which record a request writes: key, value and, unless it updates, the new key generator. */
  datatype Target = Target(key: Key, value: Value, generator: Option<int>)

  function Resolved(st: StoreState, p: StoreProperties, req: StoreRequest): Result<Target, Error> {
    if req.level.UpdateExisting? then
      if req.key.None? then Err(UpdateWithoutKey)
      else if req.key.value !in Records(st) then Err(UpdateOfMissingRecord)
      else Ok(Target(req.key.value, req.value, None))
    else if p.hasKeyPath && req.key.Some? then Err(DataError)
    else
      match p.make(req.value, req.key, Generator(st))
      case None => Err(DataError)
      case Some(sk) => Ok(Target(sk.key, sk.value, Some(sk.updatedKeyGenerator)))
  }

  /** The store with its modified version started and the key generator advanced. */
  function Prepared(st: StoreState, generator: Option<int>): StoreState {
    st.(modified := Some(Records(st)),
        modifiedKeyGenerator := if generator.Some? then generator else st.modifiedKeyGenerator)
  }

  function Lookup(data: Data, k: Key): Option<Value> { if k in data then Some(data[k]) else None }

  function StoreRecordResult(st: StoreState, p: StoreProperties, req: StoreRequest): StoreOutcome
    requires WellFormed(p)
  {
    match Resolved(st, p, req)
    case Err(e) => StoreOutcome(Prepared(st, None), Err(e))
    case Ok(Target(key, value, generator)) =>
      var st' := Prepared(st, generator);
      var data := Records(st');
      if key in data && req.level.NoOverwrite? then StoreOutcome(st', Err(ConstraintError))
      else
        var o := ReindexAll(st'.indexes, p, 0, key, Lookup(data, key), value);
        var stored := st'.(modified := Some(data[key := value]), indexes := o.indexes);
        StoreOutcome(stored, if o.error.Some? then Err(o.error.value) else Ok(key))
  }

  /** The index holds exactly what it should for these records. */
  ghost predicate IndexAgrees(i: IndexState, data: Data, p: IndexProperties) {
    Entries(i) == IndexOf(data, p) && UniqueHolds(data, p)
  }

  /** All indexes listed in the schema agree with the records. */
  ghost predicate Agrees(indexes: map<string, IndexState>, data: Data, p: StoreProperties) {
    forall j :: 0 <= j < |p.indexNames| ==>
      p.indexNames[j] in indexes && p.indexNames[j] in p.indexes
      && IndexAgrees(indexes[p.indexNames[j]], data, p.indexes[p.indexNames[j]])
  }

  ghost predicate StoreAgrees(st: StoreState, p: StoreProperties) {
    WellFormed(p) && Agrees(st.indexes, Records(st), p)
  }

  /** Another record already has the index key of the value in a unique index. */
  ghost predicate Conflict(data: Data, pk: Key, value: Value, p: IndexProperties) {
    && p.unique && p.extract(value).OneKey?
    && exists a :: a in data && a != pk && p.extract(data[a]) == p.extract(value)
  }

  lemma ReindexedAgrees(i: IndexState, data: Data, pk: Key, value: Value, p: IndexProperties)
    requires IndexAgrees(i, data, p)
    ensures var o := Reindexed(i, pk, Lookup(data, pk), value, p);
            if Conflict(data, pk, value, p) then o.error == Some(ConstraintError)
            else o.error.None? && IndexAgrees(o.state, data[pk := value], p)
  {
    hide IndexOf;
    var rest := data - {pk};
    var i' := i;
    if pk in data {
      DeletedAgrees(i, data, pk, p);
      var r := Deleted(i, pk, data[pk], p);
      i' := if r.Ok? then r.value else i;
    } else {
      assert rest == data;
    }
    assert Entries(i') == IndexOf(rest, p);
    assert rest[pk := value] == data[pk := value];
    InsertedAgrees(i', rest, pk, value, p);
    ConflictHolders(data, pk, value, p);
    if !Conflict(data, pk, value, p) {
      UniqueKept(data, pk, value, p);
    }
  }

  lemma ConflictHolders(data: Data, pk: Key, value: Value, p: IndexProperties)
    ensures Conflict(data, pk, value, p) <==>
            p.unique && p.extract(value).OneKey? && Holders(data - {pk}, p, p.extract(value).key) != {}
  {
    var e := p.extract(value);
    if e.OneKey? {
      if Conflict(data, pk, value, p) {
        var a :| a in data && a != pk && p.extract(data[a]) == e;
        assert a in Holders(data - {pk}, p, e.key);
      }
      if Holders(data - {pk}, p, e.key) != {} {
        var a :| a in Holders(data - {pk}, p, e.key);
        assert a in data && a != pk && p.extract(data[a]) == e;
      }
    }
  }

  lemma UniqueKept(data: Data, pk: Key, value: Value, p: IndexProperties)
    requires UniqueHolds(data, p) && !Conflict(data, pk, value, p)
    ensures UniqueHolds(data[pk := value], p)
  {
    var data' := data[pk := value];
    if p.unique {
      forall a, b | SameKey(data', p, a, b)
        ensures a == b
      {
        if a != pk && b != pk {
          assert SameKey(data, p, a, b);
        }
      }
    }
  }

  /** Some unique index in the schema, from the j-th on, refuses the value. */
  ghost predicate ConflictFrom(data: Data, pk: Key, value: Value, p: StoreProperties, j: nat)
    requires WellFormed(p)
  {
    exists l :: j <= l < |p.indexNames| && Conflict(data, pk, value, p.indexes[p.indexNames[l]])
  }

  lemma {:induction false} ReindexAllAgrees(indexes: map<string, IndexState>, data: Data, pk: Key, value: Value,
                                            p: StoreProperties, j: nat)
    requires WellFormed(p) && j <= |p.indexNames|
    requires forall l :: 0 <= l < |p.indexNames| ==> p.indexNames[l] in indexes
    requires forall l :: 0 <= l < j ==>
               IndexAgrees(indexes[p.indexNames[l]], data[pk := value], p.indexes[p.indexNames[l]])
    requires forall l :: j <= l < |p.indexNames| ==>
               IndexAgrees(indexes[p.indexNames[l]], data, p.indexes[p.indexNames[l]])
    ensures var o := ReindexAll(indexes, p, j, pk, Lookup(data, pk), value);
            if ConflictFrom(data, pk, value, p, j) then o.error == Some(ConstraintError)
            else o.error.None? && Agrees(o.indexes, data[pk := value], p)
    decreases |p.indexNames| - j
  {
    hide IndexAgrees, Conflict, Reindexed;
    if j < |p.indexNames| {
      var name := p.indexNames[j];
      ReindexedAgrees(indexes[name], data, pk, value, p.indexes[name]);
      var o := Reindexed(indexes[name], pk, Lookup(data, pk), value, p.indexes[name]);
      if o.error.None? {
        ReindexAllAgrees(indexes[name := o.state], data, pk, value, p, j + 1);
      }
    }
  }

  /**
   * Storing a record succeeds exactly when the request resolves to a record, may overwrite it,
   * and no unique index has its key elsewhere; then the record is there and every index agrees.
   */
  lemma StoreKeepsAgreement(st: StoreState, p: StoreProperties, req: StoreRequest)
    requires StoreAgrees(st, p)
    ensures var o := StoreRecordResult(st, p, req);
            var target := Resolved(st, p, req);
            && (o.result.Ok? <==>
                target.Ok? && !(target.value.key in Records(st) && req.level.NoOverwrite?)
                && !ConflictFrom(Records(st), target.value.key, target.value.value, p, 0))
            && (o.result.Ok? ==>
                  && StoreAgrees(o.state, p) && o.result.value == target.value.key
                  && Records(o.state) == Records(st)[target.value.key := target.value.value])
  {
    hide IndexAgrees, Conflict;
    var target := Resolved(st, p, req);
    if target.Ok? {
      ReindexAllAgrees(st.indexes, Records(st), target.value.key, target.value.value, p, 0);
    }
  }

  /** A key that storing gives back is the one that was asked for, or was made; nothing but its record is written. */
  lemma StoredExactly(st: StoreState, p: StoreProperties, req: StoreRequest)
    requires WellFormed(p) && StoreRecordResult(st, p, req).result.Ok?
    ensures var o := StoreRecordResult(st, p, req);
            var key := o.result.value;
            if req.level.UpdateExisting? then
              && req.key == Some(key) && key in Records(st)
              && Records(o.state) == Records(st)[key := req.value] && Generator(o.state) == Generator(st)
            else
              var made := p.make(req.value, req.key, Generator(st));
              && made.Some? && made.value.key == key && (p.hasKeyPath ==> req.key.None?)
              && (req.level.NoOverwrite? ==> key !in Records(st))
              && Records(o.state) == Records(st)[key := made.value.value]
              && o.state.modifiedKeyGenerator == Some(made.value.updatedKeyGenerator)
  {
    hide ReindexAll;
  }

  // ---------- clearObjectStore ----------

  /** The loop of clearObjectStore over the indexes in the schema, from the j-th on. */
  function ClearAll(indexes: map<string, IndexState>, p: StoreProperties, j: nat): IndexesOutcome
    requires j <= |p.indexNames|
    decreases |p.indexNames| - j
  {
    if j == |p.indexNames| then IndexesOutcome(indexes, None)
    else
      var name := p.indexNames[j];
      if name !in indexes then IndexesOutcome(indexes, Some(MissingIndex))
      else ClearAll(indexes[name := indexes[name].(modified := Some(map[]))], p, j + 1)
  }

  function ClearResult(st: StoreState, p: StoreProperties): (StoreState, Option<Error>) {
    var o := ClearAll(st.indexes, p, 0);
    (st.(modified := Some(map[]), indexes := o.indexes), o.error)
  }

  lemma {:induction false} ClearAllAgrees(indexes: map<string, IndexState>, p: StoreProperties, j: nat)
    requires WellFormed(p) && j <= |p.indexNames|
    requires forall l :: 0 <= l < |p.indexNames| ==> p.indexNames[l] in indexes
    requires forall l :: 0 <= l < j ==> Entries(indexes[p.indexNames[l]]) == map[]
    ensures var o := ClearAll(indexes, p, j); o.error.None? && Agrees(o.indexes, map[], p)
    decreases |p.indexNames| - j
  {
    if j < |p.indexNames| {
      var name := p.indexNames[j];
      ClearAllAgrees(indexes[name := indexes[name].(modified := Some(map[]))], p, j + 1);
    } else {
      forall l | 0 <= l < |p.indexNames|
        ensures IndexAgrees(indexes[p.indexNames[l]], map[], p.indexes[p.indexNames[l]])
      {
        assert IndexKeys(map[], p.indexes[p.indexNames[l]]) == {};
      }
    }
  }

  lemma ClearKeepsAgreement(st: StoreState, p: StoreProperties)
    requires StoreAgrees(st, p)
    ensures var (st', error) := ClearResult(st, p); error.None? && StoreAgrees(st', p) && Records(st') == map[]
  {
    ClearAllAgrees(st.indexes, p, 0);
  }

  // ---------- Building an index over existing records ----------

  /** The loop of createIndex and importDump over the records, here the remaining keys in order. */
  function Built(i: IndexState, data: Data, left: set<Key>, p: IndexProperties): IndexOutcome
    requires left <= data.Keys
    decreases |left|
  {
    match First(left, true)
    case None => IndexOutcome(i, None)
    case Some(k) =>
      match Inserted(i, k, data[k], p)
      case Ok(i') => Built(i', data, left - {k}, p)
      case Err(e) => if e == DataError then Built(i, data, left - {k}, p) else IndexOutcome(i, Some(e))
  }

  ghost function Restricted(data: Data, keys: set<Key>): Data { map k | k in data && k in keys :: data[k] }

  lemma {:induction false} BuiltAgrees(i: IndexState, data: Data, left: set<Key>, p: IndexProperties)
    requires left <= data.Keys && IndexAgrees(i, Restricted(data, data.Keys - left), p)
    ensures var o := Built(i, data, left, p);
            && (o.error.None? <==> UniqueHolds(data, p))
            && (o.error.None? ==> IndexAgrees(o.state, data, p))
            && (o.error.Some? ==> o.error == Some(ConstraintError))
    decreases |left|
  {
    hide IndexOf, Conflict;
    var done := Restricted(data, data.Keys - left);
    if left == {} {
      assert done == data;
    } else {
      var k := First(left, true).value;
      var done' := Restricted(data, data.Keys - (left - {k}));
      assert done' == done[k := data[k]];
      assert done - {k} == done;
      InsertedAgrees(i, done, k, data[k], p);
      ConflictHolders(done, k, data[k], p);
      if Conflict(done, k, data[k], p) {
        ConflictBreaksUnique(data, done, k, p);
      } else {
        UniqueKept(done, k, data[k], p);
        var r := Inserted(i, k, data[k], p);
        BuiltAgrees(if r.Ok? then r.value else i, data, left - {k}, p);
      }
    }
  }

  lemma ConflictBreaksUnique(data: Data, done: Data, k: Key, p: IndexProperties)
    requires k in data && Conflict(done, k, data[k], p)
    requires forall x :: x in done ==> x in data && done[x] == data[x]
    ensures !UniqueHolds(data, p)
  {
    var a :| a in done && a != k && p.extract(done[a]) == p.extract(data[k]);
    assert SameKey(data, p, a, k);
  }

  const EMPTY_INDEX := IndexState(map[], None)

  /** A new index over existing records agrees with them, exactly unless it would not be unique. */
  lemma BuildAgrees(data: Data, p: IndexProperties)
    ensures var o := Built(EMPTY_INDEX, data, data.Keys, p);
            && (o.error.None? <==> UniqueHolds(data, p))
            && (o.error.None? ==> IndexAgrees(o.state, data, p))
            && (o.error.Some? ==> o.error == Some(ConstraintError))
  {
    var none := Restricted(data, data.Keys - data.Keys);
    assert none == map[];
    assert IndexKeys(none, p) == {};
    assert IndexOf(none, p) == map[];
    BuiltAgrees(EMPTY_INDEX, data, data.Keys, p);
  }
}
