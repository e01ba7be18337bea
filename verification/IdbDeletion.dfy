/** deleteRecord: which records of a range it removes, and what it does to the indexes. */
module IdbDeletion {
  import opened Wrappers
  import opened Keys
  import opened KeyRanges
  import opened IdbRecords

  /** The loop of deleteRecord over the indexes in the schema, from the j-th on. */
  function DeleteFromAll(indexes: map<string, IndexState>, p: StoreProperties, j: nat, pk: Key, value: Value)
    : IndexesOutcome
    requires WellFormed(p) && j <= |p.indexNames|
    decreases |p.indexNames| - j
  {
    if j == |p.indexNames| then IndexesOutcome(indexes, None)
    else
      var name := p.indexNames[j];
      if name !in indexes then IndexesOutcome(indexes, Some(MissingIndex))
      else
        match Deleted(indexes[name], pk, value, p.indexes[name])
        case Err(e) => IndexesOutcome(indexes, Some(e))
        case Ok(i) => DeleteFromAll(indexes[name := i], p, j + 1, pk, value)
  }

  /** The test that ends the loop: an open upper bound ends it only on an equal key. */
  predicate Stops(range: KeyRange, k: Key) {
    range.upper.Some? &&
    (if range.upperOpen then CompareKeys(k, range.upper.value) == 0 else CompareKeys(k, range.upper.value) > 0)
  }

  datatype DeleteOutcome = DeleteOutcome(data: Data, indexes: map<string, IndexState>, error: Option<Error>)

  function DeleteLoop(data: Data, indexes: map<string, IndexState>, p: StoreProperties, curr: Option<Key>,
                      range: KeyRange): DeleteOutcome
    requires WellFormed(p)
    decreases |data|
  {
    if curr.None? || Stops(range, curr.value) then DeleteOutcome(data, indexes, None)
    else if curr.value !in data then DeleteOutcome(data, indexes, Some(InvariantViolated))
    else
      var k := curr.value;
      var o := DeleteFromAll(indexes, p, 0, k, data[k]);
      if o.error.Some? then DeleteOutcome(data, o.indexes, o.error)
      else
        var data' := data - {k};
        DeleteLoop(data', o.indexes, p, Next(data'.Keys, true, k), range)
  }

  /** The key that the deletion starts looking from; without one the backend throws. */
  function StartKey(data: Data, range: KeyRange): Option<Key> {
    if range.lower.None? then First(data.Keys, true)
    else if range.lowerOpen then Next(data.Keys, true, range.lower.value)
    else range.lower
  }

  function Aligned(data: Data, k: Key): Option<Key> {
    if k in data then Some(k) else Next(data.Keys, true, k)
  }

  function DeleteResult(st: StoreState, p: StoreProperties, range: KeyRange): (StoreState, Option<Error>)
    requires WellFormed(p)
  {
    var st' := Prepared(st, None);
    var data := Records(st');
    match StartKey(data, range)
    case None => (st', Some(InvariantViolated))
    case Some(k) =>
      var o := DeleteLoop(data, st'.indexes, p, Aligned(data, k), range);
      // the records are replaced only when the loop has come to its end
      (st'.(modified := Some(if o.error.None? then o.data else data), indexes := o.indexes), o.error)
  }

  // ---------- What is deleted ----------

  predicate AtOrAfter(x: Key, k: Key) { x == k || Ahead(true, x, k) }

  /** The keys from curr on before which no key stops the loop. */
  ghost function Doomed(keys: set<Key>, curr: Option<Key>, range: KeyRange): set<Key> {
    set x | x in keys && curr.Some? && AtOrAfter(x, curr.value)
            && forall s :: s in keys && Stops(range, s) && AtOrAfter(s, curr.value) ==> Ahead(true, s, x)
  }

  /** Deletion fails on a value whose index key is invalid, although storing it succeeded. */
  ghost predicate Undeletable(value: Value, p: StoreProperties)
    requires WellFormed(p)
  {
    exists j :: 0 <= j < |p.indexNames| && p.indexes[p.indexNames[j]].extract(value) == InvalidKey
  }

  lemma {:induction false} DeleteFromAllAgrees(indexes: map<string, IndexState>, data: Data, p: StoreProperties,
                                               j: nat, pk: Key)
    requires WellFormed(p) && j <= |p.indexNames| && pk in data
    requires forall l :: 0 <= l < |p.indexNames| ==> p.indexNames[l] in indexes
    requires forall l :: 0 <= l < j ==> p.indexes[p.indexNames[l]].extract(data[pk]) != InvalidKey
    requires forall l :: 0 <= l < j ==>
               IndexAgrees(indexes[p.indexNames[l]], data - {pk}, p.indexes[p.indexNames[l]])
    requires forall l :: j <= l < |p.indexNames| ==>
               IndexAgrees(indexes[p.indexNames[l]], data, p.indexes[p.indexNames[l]])
    ensures var o := DeleteFromAll(indexes, p, j, pk, data[pk]);
            if Undeletable(data[pk], p) then o.error == Some(DataError)
            else o.error.None? && Agrees(o.indexes, data - {pk}, p)
    decreases |p.indexNames| - j
  {
    if j < |p.indexNames| {
      hide IndexOf, UniqueHolds;
      var name := p.indexNames[j];
      DeletedAgrees(indexes[name], data, pk, p.indexes[name]);
      UniqueShrinks(data, pk, p.indexes[name]);
      var r := Deleted(indexes[name], pk, data[pk], p.indexes[name]);
      if r.Ok? {
        DeleteFromAllAgrees(indexes[name := r.value], data, p, j + 1, pk);
      }
    }
  }

  lemma UniqueShrinks(data: Data, pk: Key, p: IndexProperties)
    requires UniqueHolds(data, p)
    ensures UniqueHolds(data - {pk}, p)
  {
    if p.unique {
      forall a, b | SameKey(data - {pk}, p, a, b)
        ensures a == b
      {
        assert SameKey(data, p, a, b);
      }
    }
  }

  /** Behind a deleted key the loop goes on with the rest of the doomed keys. */
  lemma DoomedStep(keys: set<Key>, k: Key, range: KeyRange)
    requires k in keys && !Stops(range, k)
    ensures var rest := keys - {k};
            Doomed(keys, Some(k), range) == {k} + Doomed(rest, Next(rest, true, k), range)
  {
    hide Ahead, Stops;
    var rest := keys - {k};
    var n := Next(rest, true, k);
    AheadOrder(true);
    forall x
      ensures x in Beyond(rest, true, k) <==> n.Some? && x in rest && AtOrAfter(x, n.value)
    {
      if n.Some? && x in Beyond(rest, true, k) {
        assert IsFirst(Beyond(rest, true, k), true, n.value);
      }
    }
    assert forall x :: x in keys && AtOrAfter(x, k) <==> x == k || x in Beyond(rest, true, k);
  }

  lemma {:induction false} DeleteLoopAgrees(data: Data, indexes: map<string, IndexState>, p: StoreProperties,
                                            curr: Option<Key>, range: KeyRange)
    requires WellFormed(p) && Agrees(indexes, data, p)
    requires curr.Some? ==> curr.value in data
    ensures var o := DeleteLoop(data, indexes, p, curr, range);
            var doomed := Doomed(data.Keys, curr, range);
            if exists x :: x in doomed && Undeletable(data[x], p) then o.error == Some(DataError)
            else o.error.None? && o.data == data - doomed && Agrees(o.indexes, data - doomed, p)
    decreases |data|
  {
    hide Stops, Agrees, Undeletable;
    var doomed := Doomed(data.Keys, curr, range);
    if curr.None? {
      assert data - doomed == data;
    } else if Stops(range, curr.value) {
      AheadOrder(true);
      assert doomed == {};
      assert data - doomed == data;
    } else {
      DeleteOne(data, indexes, p, curr.value, range);
    }
  }

  lemma {:induction false} DeleteOne(data: Data, indexes: map<string, IndexState>, p: StoreProperties,
                                     k: Key, range: KeyRange)
    requires WellFormed(p) && Agrees(indexes, data, p) && k in data && !Stops(range, k)
    ensures var o := DeleteLoop(data, indexes, p, Some(k), range);
            var doomed := Doomed(data.Keys, Some(k), range);
            if exists x :: x in doomed && Undeletable(data[x], p) then o.error == Some(DataError)
            else o.error.None? && o.data == data - doomed && Agrees(o.indexes, data - doomed, p)
    decreases |data|, 0
  {
    hide Stops, Undeletable, IndexAgrees, Doomed;
    var doomed := Doomed(data.Keys, Some(k), range);
    var data' := data - {k};
    assert data'.Keys == data.Keys - {k};
    DoomedStep(data.Keys, k, range);
    DeleteFromAllAgrees(indexes, data, p, 0, k);
    var o := DeleteFromAll(indexes, p, 0, k, data[k]);
    assert k in doomed;
    if o.error.None? {
      var next := Next(data'.Keys, true, k);
      DeleteLoopAgrees(data', o.indexes, p, next, range);
      DoomedIn(data'.Keys, next, range);
      WithoutBoth(data, k, Doomed(data'.Keys, next, range));
    }
  }

  lemma WithoutBoth(data: Data, k: Key, rest: set<Key>)
    requires k in data && rest <= (data - {k}).Keys
    ensures data - {k} - rest == data - ({k} + rest)
    ensures forall x :: x in rest ==> (data - {k})[x] == data[x]
  {
  }

  lemma DoomedIn(keys: set<Key>, curr: Option<Key>, range: KeyRange)
    ensures Doomed(keys, curr, range) <= keys
  {
  }

  /** The loop starts at the first key past the lower bound. */
  lemma StartIsFirst(data: Data, range: KeyRange)
    requires StartKey(data, range).Some?
    ensures var c := Aligned(data, StartKey(data, range).value);
            && (c.Some? ==> c.value in data)
            && forall x :: x in data && PastStart(range, true, x) <==> x in data && c.Some? && AtOrAfter(x, c.value)
  {
    hide Ahead;
    AheadOrder(true);
    var k := StartKey(data, range).value;
    var c := Aligned(data, k);
    if k !in data {
      assert range.lower == Some(k) && !range.lowerOpen;
      forall x | x in data
        ensures PastStart(range, true, x) <==> c.Some? && AtOrAfter(x, c.value)
      {
        assert x in Beyond(data.Keys, true, k) <==> Ahead(true, x, k);
      }
    } else if range.lower.Some? && range.lowerOpen {
      forall x | x in data
        ensures PastStart(range, true, x) <==> AtOrAfter(x, k)
      {
        assert x in Beyond(data.Keys, true, range.lower.value) <==> Ahead(true, x, range.lower.value);
      }
    }
  }

  /** When the backend cannot find a key to start from. */
  lemma NoStart(data: Data, range: KeyRange)
    ensures StartKey(data, range).None? <==>
            (range.lower.None? || range.lowerOpen) && forall x :: x in data ==> !PastStart(range, true, x)
  {
    hide Ahead;
    AheadOrder(true);
    if range.lower.Some? && range.lowerOpen {
      assert forall x :: x in Beyond(data.Keys, true, range.lower.value) <==> x in data && PastStart(range, true, x);
    }
  }

  /** The keys that are gone after a successful deletion. */
  ghost function Removed(data: Data, range: KeyRange): set<Key> {
    var start := StartKey(data, range);
    if start.None? then {} else Doomed(data.Keys, Aligned(data, start.value), range)
  }

  ghost function InRange(data: Data, range: KeyRange): set<Key> {
    set x | x in data && Includes(range, x)
  }

  /** The key of an open upper bound is there to stop the loop, or nothing lies above it. */
  ghost predicate UpperIsSeen(data: Data, range: KeyRange) {
    range.upper.Some? && range.upperOpen ==>
      || (range.upper.value in data && PastStart(range, true, range.upper.value))
      || forall x :: x in data && PastStart(range, true, x) ==> Ahead(true, range.upper.value, x)
  }

  /** Exactly the records of the range are removed, if and only if an open upper bound is seen. */
  lemma RemovesTheRange(data: Data, range: KeyRange)
    ensures Removed(data, range) == InRange(data, range) <==> UpperIsSeen(data, range)
  {
    NoStart(data, range);
    if StartKey(data, range).Some? {
      RemovedMeaning(data, range);
      UpperCases(data, range);
    } else {
      NothingInRange(data, range);
    }
  }

  lemma NothingInRange(data: Data, range: KeyRange)
    requires forall x :: x in data ==> !PastStart(range, true, x)
    ensures InRange(data, range) == {} && UpperIsSeen(data, range)
  {
    hide Ahead, Includes;
    forall x | x in data
      ensures !Includes(range, x)
    {
      IncludesMeaning(range, x);
    }
  }

  lemma RemovedMeaning(data: Data, range: KeyRange)
    requires StartKey(data, range).Some?
    ensures forall x :: x in Removed(data, range) <==>
              x in data && PastStart(range, true, x)
              && forall s :: s in data && Stops(range, s) && PastStart(range, true, s) ==> Ahead(true, s, x)
  {
    hide Ahead, Stops;
    StartIsFirst(data, range);
  }

  lemma UpperCases(data: Data, range: KeyRange)
    requires forall x :: x in Removed(data, range) <==>
               x in data && PastStart(range, true, x)
               && forall s :: s in data && Stops(range, s) && PastStart(range, true, s) ==> Ahead(true, s, x)
    ensures Removed(data, range) == InRange(data, range) <==> UpperIsSeen(data, range)
  {
    hide Ahead, Includes, Removed, Stops;
    AheadOrder(true);
    forall x
      ensures Includes(range, x) <==> PastStart(range, true, x) && PastStart(range, false, x)
      ensures range.upper.Some? ==> (PastStart(range, false, x) <==>
                Ahead(true, range.upper.value, x) || (x == range.upper.value && !range.upperOpen))
      ensures Stops(range, x) <==> AtStop(range, x)
    {
      IncludesMeaning(range, x);
      StopsMeaning(range, x);
      if range.upper.Some? {
        Mirror(x, range.upper.value);
      }
    }
    if range.upper.Some? && range.upperOpen && !UpperIsSeen(data, range) {
      var x :| x in data && PastStart(range, true, x) && !Ahead(true, range.upper.value, x);
      assert x in Removed(data, range) && x !in InRange(data, range);
    }
  }

  predicate AtStop(range: KeyRange, x: Key) {
    range.upper.Some? && (if range.upperOpen then x == range.upper.value else Ahead(true, x, range.upper.value))
  }

  lemma StopsMeaning(range: KeyRange, x: Key)
    ensures Stops(range, x) <==> AtStop(range, x)
  {
    hide CompareKeys;
    if range.upper.Some? {
      KeysOrder(x, range.upper.value);
    }
  }

  lemma Mirror(a: Key, b: Key)
    ensures Ahead(false, a, b) == Ahead(true, b, a)
  {
  }

  /**
   * Deletion succeeds exactly when there is a key to start from and no doomed record has an
   * invalid index key; then exactly the doomed records are gone and every index agrees.
   */
  lemma DeleteKeepsAgreement(st: StoreState, p: StoreProperties, range: KeyRange)
    requires StoreAgrees(st, p)
    ensures var (st', error) := DeleteResult(st, p, range);
            var data := Records(st);
            && (error.None? <==>
                StartKey(data, range).Some?
                && forall x :: x in Removed(data, range) ==> !Undeletable(data[x], p))
            && (error.None? ==> StoreAgrees(st', p) && Records(st') == data - Removed(data, range))
            && (error.Some? ==> Records(st') == data)
  {
    hide Agrees, Undeletable, Doomed, DeleteLoop;
    var data := Records(st);
    var start := StartKey(data, range);
    if start.Some? {
      StartIsFirst(data, range);
      DoomedIn(data.Keys, Aligned(data, start.value), range);
      DeleteLoopAgrees(data, st.indexes, p, Aligned(data, start.value), range);
    }
  }

  /** Deleting [1, 2) from the records 1 and 3 removes both. */
  lemma OpenUpperOvershoots(v: Value)
    ensures var data: Data := map[Number(1.0) := v, Number(3.0) := v];
            var range := KeyRange(Some(Number(1.0)), Some(Number(2.0)), false, true);
            && Number(3.0) in Removed(data, range) && !Includes(range, Number(3.0))
            && !UpperIsSeen(data, range)
  {
    var data: Data := map[Number(1.0) := v, Number(3.0) := v];
    var range := KeyRange(Some(Number(1.0)), Some(Number(2.0)), false, true);
    RemovedMeaning(data, range);
  }
}
