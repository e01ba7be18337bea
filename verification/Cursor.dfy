/** Reading records in order: getObjectStoreRecords, getIndexRecords, and a cursor that pages through them. */
module Cursor {
  import opened Wrappers
  import opened Keys
  import opened KeyRanges
  import opened IdbRecords

  // ---------- Plain listings ----------

  /** A set of keys in the order of a direction. */
  function Ordered(s: set<Key>, forward: bool): (keys: seq<Key>)
    ensures |keys| == |s|
    decreases |s|
  {
    match First(s, forward)
    case None => []
    case Some(k) => [k] + Ordered(s - {k}, forward)
  }

  lemma {:induction false} OrderedMeaning(s: set<Key>, forward: bool)
    ensures forall k :: k in Ordered(s, forward) <==> k in s
    ensures forall i, j :: 0 <= i < j < |s| ==> Ahead(forward, Ordered(s, forward)[j], Ordered(s, forward)[i])
    decreases |s|
  {
    hide Ahead;
    if s != {} {
      var k := First(s, forward).value;
      OrderedMeaning(s - {k}, forward);
      var rest := Ordered(s - {k}, forward);
      assert Ordered(s, forward) == [k] + rest;
      forall j | 0 <= j < |rest|
        ensures Ahead(forward, rest[j], k)
      {
        assert rest[j] in rest;
      }
    }
  }

  /** At most limit elements; 0 means no limit. */
  function Take<T>(s: seq<T>, limit: nat): seq<T> {
    if limit == 0 || |s| <= limit then s else s[..limit]
  }

  predicate AtOrAhead(forward: bool, x: Key, k: Key) { x == k || Ahead(forward, x, k) }

  /** x is not behind the bound that is given, if one is. */
  predicate NotBehind(forward: bool, x: Key, bound: Option<Key>) { bound.None? || AtOrAhead(forward, x, bound.value) }

  // ---------- furthestKey ----------

  function Furthest(forward: bool, a: Option<Key>, b: Option<Key>): (r: Option<Key>)
    ensures r == a || r == b
  {
    if a.None? then b
    else if b.None? then a
    else
      var c := CompareKeys(a.value, b.value);
      if c == 0 then a
      else if forward then (if c == 1 then a else b)
      else (if c == 1 then b else a)
  }

  /** A key is not behind the furthest of two bounds exactly when it is behind neither. */
  lemma FurthestMeaning(forward: bool, a: Option<Key>, b: Option<Key>)
    ensures Furthest(forward, a, b).None? <==> a.None? && b.None?
    ensures forall x :: NotBehind(forward, x, Furthest(forward, a, b)) <==>
              NotBehind(forward, x, a) && NotBehind(forward, x, b)
  {
    hide CompareKeys;
    if a.Some? && b.Some? {
      KeysOrder(a.value, b.value);
      AheadOrder(forward);
      hide Ahead;
      CompareIsAhead(forward, a.value, b.value);
    }
  }

  lemma CompareIsAhead(forward: bool, a: Key, b: Key)
    ensures Ahead(forward, a, b) <==> CompareKeys(a, b) == if forward then 1 else -1
    ensures -1 <= CompareKeys(a, b) <= 1
  {
    hide CompareKeys;
    KeysOrder(a, b);
  }

  // ---------- Object stores ----------

  /** What an object store request may return: in range, past the last position, not before the key to advance to. */
  ghost function StoreCandidates(keys: set<Key>, range: KeyRange, forward: bool, last: Option<Key>, advance: Option<Key>)
    : set<Key>
  {
    set k | k in keys && Includes(range, k) && (last.Some? ==> Ahead(forward, k, last.value))
            && NotBehind(forward, k, advance)
  }

  /** The keys from a position on that are in range. */
  ghost function RangeFrom(keys: set<Key>, range: KeyRange, forward: bool, pos: Option<Key>): set<Key> {
    set k | k in keys && Includes(range, k) && pos.Some? && AtOrAhead(forward, k, pos.value)
  }

  /** The start position computed at the head of getObjectStoreRecords. */
  method StartPosition(keys: set<Key>, range: KeyRange, forward: bool, last: Option<Key>, advance: Option<Key>)
    returns (storePos: Option<Key>)
    ensures storePos.Some? ==> storePos.value in keys && PastStart(range, forward, storePos.value)
    ensures RangeFrom(keys, range, forward, storePos) == StoreCandidates(keys, range, forward, last, advance)
  {
    hide Ahead, Includes, CompareKeys, Furthest;
    var rangeStart := Start(range, forward);
    var dataStart := First(keys, forward);
    var f1 := Furthest(forward, last, rangeStart);
    var f2 := Furthest(forward, f1, dataStart);
    var f3 := Furthest(forward, f2, advance);
    FurthestMeaning(forward, last, rangeStart);
    FurthestMeaning(forward, f1, dataStart);
    FurthestMeaning(forward, f2, advance);
    AheadOrder(forward);
    storePos := f3;
    if storePos.Some? {
      if storePos.value !in keys || last == storePos {
        storePos := Next(keys, forward, storePos.value);
      }
    } else {
      storePos := First(keys, forward);
    }
    ghost var aligned := storePos;
    forall k | k in keys
      ensures aligned.Some? && AtOrAhead(forward, k, aligned.value) <==> NotBehind(forward, k, f3) && Some(k) != last
    {
      assert NotBehind(forward, k, dataStart);
      if f3.Some? {
        assert k in Beyond(keys, forward, f3.value) <==> Ahead(forward, k, f3.value);
        assert NotBehind(forward, f3.value, f3);
      }
    }
    if storePos.Some? && StartOpen(range, forward) && rangeStart == storePos {
      storePos := Next(keys, forward, storePos.value);
    }
    forall k | k in keys
      ensures k in RangeFrom(keys, range, forward, storePos)
              <==> k in StoreCandidates(keys, range, forward, last, advance)
    {
      IncludesMeaning(range, k);
      assert PastStart(range, true, k) && PastStart(range, false, k) ==> PastStart(range, forward, k);
      if aligned.Some? {
        assert k in Beyond(keys, forward, aligned.value) <==> Ahead(forward, k, aligned.value);
      }
    }
  }

  datatype ResultLevel = OnlyCount | OnlyKeys | Full

  datatype Response = Response(count: nat, indexKeys: Option<seq<Key>>, primaryKeys: Option<seq<Key>>,
                               values: Option<seq<Value>>)

  function ValuesOf(data: Data, keys: seq<Key>): seq<Value>
    requires forall j :: 0 <= j < |keys| ==> keys[j] in data
  {
    seq(|keys|, j requires 0 <= j < |keys| => data[keys[j]])
  }

  /** Stepping to the next key takes the first one off the listing. */
  lemma RangeStep(keys: set<Key>, range: KeyRange, forward: bool, k: Key)
    requires k in keys && Includes(range, k)
    ensures First(RangeFrom(keys, range, forward, Some(k)), forward) == Some(k)
    ensures RangeFrom(keys, range, forward, Some(k)) - {k}
            == RangeFrom(keys, range, forward, Next(keys, forward, k))
  {
    hide Ahead, Includes;
    AheadOrder(forward);
    var s := RangeFrom(keys, range, forward, Some(k));
    assert IsFirst(s, forward, k);
    FirstIs(s, forward, k);
    var n := Next(keys, forward, k);
    forall x | x in keys
      ensures Ahead(forward, x, k) <==> n.Some? && AtOrAhead(forward, x, n.value)
    {
      assert x in Beyond(keys, forward, k) <==> Ahead(forward, x, k);
    }
  }

  lemma FirstIs(s: set<Key>, forward: bool, k: Key)
    requires IsFirst(s, forward, k)
    ensures First(s, forward) == Some(k)
  {
    FirstIsUnique(s, forward);
  }

  /** Beyond a key that is past the start but out of range nothing is in range. */
  lemma RangeEnd(keys: set<Key>, range: KeyRange, forward: bool, k: Key)
    requires PastStart(range, forward, k) && !Includes(range, k)
    ensures RangeFrom(keys, range, forward, Some(k)) == {}
  {
    hide Includes, Ahead;
    AheadOrder(forward);
    IncludesMeaning(range, k);
    forall x | AtOrAhead(forward, x, k)
      ensures !Includes(range, x)
    {
      IncludesMeaning(range, x);
      EndPassed(range, forward, x, k);
    }
  }

  lemma EndPassed(range: KeyRange, forward: bool, x: Key, k: Key)
    requires AtOrAhead(forward, x, k) && !PastStart(range, !forward, k)
    ensures !PastStart(range, !forward, x)
  {
    hide Less;
    TotalOrder();
  }

  lemma StillPastStart(range: KeyRange, forward: bool, x: Key, k: Key)
    requires PastStart(range, forward, k) && AtOrAhead(forward, x, k)
    ensures PastStart(range, forward, x)
  {
    hide Less;
    TotalOrder();
  }

  /**
   * An object store request returns the first records, up to the limit, of the plain listing
   * of the range behind the last position, in the order of the direction.
   */
  method GetObjectStoreRecords(data: Data, range: KeyRange, forward: bool, last: Option<Key>, advance: Option<Key>,
                               limit: nat, level: ResultLevel) returns (r: Response)
    ensures var listed := Take(Ordered(StoreCandidates(data.Keys, range, forward, last, advance), forward), limit);
            && (forall j :: 0 <= j < |listed| ==> listed[j] in data)
            && r.count == |listed| && r.indexKeys == (if level.OnlyCount? then None else Some([]))
            && r.primaryKeys == (if level.OnlyCount? then None else Some(listed))
            && r.values == (if level.Full? then Some(ValuesOf(data, listed)) else None)
  {
    hide Includes, Ahead, Ordered, PastStart;
    var storePos := StartPosition(data.Keys, range, forward, last, advance);
    ghost var all := Ordered(StoreCandidates(data.Keys, range, forward, last, advance), forward);
    var numResults: nat := 0;
    ghost var listed: seq<Key> := [];
    var primaryKeys: seq<Key> := [];
    var values: seq<Value> := [];
    while true
      invariant storePos.Some? ==> storePos.value in data && PastStart(range, forward, storePos.value)
      invariant numResults == |listed| && (limit == 0 || |listed| <= limit)
      invariant forall j :: 0 <= j < |listed| ==> listed[j] in data
      invariant primaryKeys == if level.OnlyCount? then [] else listed
      invariant values == if level.Full? then ValuesOf(data, listed) else []
      invariant all == listed + Ordered(RangeFrom(data.Keys, range, forward, storePos), forward)
      decreases |all| - |listed|
    {
      if limit != 0 && numResults == limit {
        break;
      }
      if storePos.None? {
        OrderedEmpty(RangeFrom(data.Keys, range, forward, storePos), forward);
        break;
      }
      var k := storePos.value;
      if !Includes(range, k) {
        RangeEnd(data.Keys, range, forward, k);
        OrderedEmpty(RangeFrom(data.Keys, range, forward, storePos), forward);
        break;
      }
      if !level.OnlyCount? {
        primaryKeys := primaryKeys + [k];
      }
      if level.Full? {
        values := values + [data[k]];
      }
      numResults := numResults + 1;
      RangeStep(data.Keys, range, forward, k);
      OrderedStep(RangeFrom(data.Keys, range, forward, storePos), forward, k);
      storePos := Next(data.Keys, forward, k);
      if storePos.Some? {
        assert storePos.value in Beyond(data.Keys, forward, k);
        StillPastStart(range, forward, storePos.value, k);
      }
      assert ValuesOf(data, listed + [k]) == ValuesOf(data, listed) + [data[k]];
      listed := listed + [k];
    }
    assert listed == Take(all, limit);
    r := Response(numResults, if level.OnlyCount? then None else Some([]),
                  if level.OnlyCount? then None else Some(primaryKeys), if level.Full? then Some(values) else None);
  }

  lemma OrderedEmpty(s: set<Key>, forward: bool)
    ensures s == {} ==> Ordered(s, forward) == []
  {
  }

  lemma OrderedStep(s: set<Key>, forward: bool, k: Key)
    requires First(s, forward) == Some(k)
    ensures Ordered(s, forward) == [k] + Ordered(s - {k}, forward)
  {
  }

  // ---------- Indexes ----------

  /** A position in an index: the index key and the primary key of the last record returned. */
  datatype Position = Position(indexKey: Key, primaryKey: Key)

  /** The primary keys listed for one index key: all of them or, for unique, the first, if the position is not past them. */
  ghost function Row(idx: IndexData, unique: bool, pos: Option<Position>, k: Key): seq<Key>
    requires k in idx
  {
    var pks := if pos.Some? && pos.value.indexKey == k
               then (if unique then {} else Beyond(idx[k], true, pos.value.primaryKey)) else idx[k];
    if unique && pks != {} then [First(pks, true).value] else Ordered(pks, true)
  }

  function Paired(k: Key, pks: seq<Key>): (ps: seq<Position>)
    ensures |ps| == |pks|
  {
    seq(|pks|, j requires 0 <= j < |pks| => Position(k, pks[j]))
  }

  /** The plain listing of some index keys: in the order of the direction, but primary keys always ascend. */
  ghost function Rows(idx: IndexData, unique: bool, pos: Option<Position>, s: set<Key>, forward: bool): seq<Position>
    requires s <= idx.Keys
    decreases |s|
  {
    match First(s, forward)
    case None => []
    case Some(k) => Paired(k, Row(idx, unique, pos, k)) + Rows(idx, unique, pos, s - {k}, forward)
  }

  function IndexKeyOf(pos: Option<Position>): Option<Key> { if pos.None? then None else Some(pos.value.indexKey) }

  /** The index keys that a request may list. */
  ghost function IndexCandidates(idx: IndexData, range: KeyRange, forward: bool, pos: Option<Position>): (s: set<Key>)
    ensures s <= idx.Keys
  {
    set k | k in idx && Includes(range, k) && NotBehind(forward, k, IndexKeyOf(pos))
  }

  /** What an index request should list. */
  ghost function IndexListing(idx: IndexData, range: KeyRange, forward: bool, unique: bool, pos: Option<Position>)
    : seq<Position>
  {
    Rows(idx, unique, pos, IndexCandidates(idx, range, forward, pos), forward)
  }

  ghost function RowFrom(pks: set<Key>, objectStorePos: Option<Key>, unique: bool): seq<Key> {
    if objectStorePos.None? then []
    else if unique then [objectStorePos.value]
    else Ordered(set k | k in pks && AtOrAhead(true, k, objectStorePos.value), true)
  }

  /** The rest of the listing from an index entry and a primary key on. */
  ghost function Tail(idx: IndexData, range: KeyRange, forward: bool, unique: bool,
                      entry: Option<Key>, objectStorePos: Option<Key>): seq<Position>
    requires entry.Some? ==> entry.value in idx
  {
    if entry.None? || !Includes(range, entry.value) then []
    else
      var k := entry.value;
      Paired(k, RowFrom(idx[k], objectStorePos, unique))
      + Rows(idx, unique, None, RangeFrom(idx.Keys, range, forward, Next(idx.Keys, forward, k)), forward)
  }

  lemma RangeFromIn(keys: set<Key>, range: KeyRange, forward: bool, pos: Option<Key>)
    ensures RangeFrom(keys, range, forward, pos) <= keys
  {
  }

  /** A position that no listed index key equals does not matter. */
  lemma {:induction false} RowsIgnorePosition(idx: IndexData, unique: bool, pos: Option<Position>, s: set<Key>, forward: bool)
    requires s <= idx.Keys && (pos.Some? ==> pos.value.indexKey !in s)
    ensures Rows(idx, unique, pos, s, forward) == Rows(idx, unique, None, s, forward)
    decreases |s|
  {
    hide Beyond;
    if s != {} {
      var k := First(s, forward).value;
      RowsIgnorePosition(idx, unique, pos, s - {k}, forward);
    }
  }

  /** The whole listing from an entry on, when the walk begins at its first primary key. */
  lemma TailFromEntry(idx: IndexData, range: KeyRange, forward: bool, unique: bool, entry: Option<Key>)
    requires entry.Some? ==> entry.value in idx && PastStart(range, forward, entry.value)
    ensures RangeFrom(idx.Keys, range, forward, entry) <= idx.Keys
    ensures Tail(idx, range, forward, unique, entry, if entry.Some? then First(idx[entry.value], true) else None)
            == Rows(idx, unique, None, RangeFrom(idx.Keys, range, forward, entry), forward)
  {
    hide Includes, Ahead, PastStart, Ordered;
    RangeFromIn(idx.Keys, range, forward, entry);
    var s := RangeFrom(idx.Keys, range, forward, entry);
    if entry.None? {
      assert s == {};
    } else if !Includes(range, entry.value) {
      RangeEnd(idx.Keys, range, forward, entry.value);
    } else {
      var k := entry.value;
      RangeStep(idx.Keys, range, forward, k);
      RowFromFirst(idx, unique, k);
    }
  }

  lemma RowFromFirst(idx: IndexData, unique: bool, k: Key)
    requires k in idx
    ensures RowFrom(idx[k], First(idx[k], true), unique) == Row(idx, unique, None, k)
  {
    hide Ahead;
    var pks := idx[k];
    AheadOrder(true);
    if pks == {} {
      OrderedEmpty(pks, true);
    } else {
      var first := First(pks, true).value;
      assert (set x | x in pks && AtOrAhead(true, x, first)) == pks;
    }
  }

  lemma RowFromNext(pks: set<Key>, last: Key)
    ensures RowFrom(pks, Next(pks, true, last), false) == Ordered(Beyond(pks, true, last), true)
  {
    hide Ahead;
    AheadOrder(true);
    var n := Next(pks, true, last);
    var s := Beyond(pks, true, last);
    if n.None? {
      OrderedEmpty(s, true);
    } else {
      assert IsFirst(s, true, n.value);
      assert (set x | x in pks && AtOrAhead(true, x, n.value)) == s;
    }
  }

  /** Index keys from the furthest of the position and the bounds on. */
  lemma AlignedAt(idx: IndexData, forward: bool, f: Key, entry: Option<Key>)
    requires entry == if f in idx then Some(f) else Next(idx.Keys, forward, f)
    ensures forall k :: k in idx ==> (AtOrAhead(forward, k, f) <==> entry.Some? && AtOrAhead(forward, k, entry.value))
  {
    hide Ahead;
    AheadOrder(forward);
    forall k | k in idx
      ensures k in Beyond(idx.Keys, forward, f) <==> Ahead(forward, k, f)
    {
    }
  }

  /** Going on to the next entry leaves out exactly this one. */
  lemma NextEntry(idx: IndexData, forward: bool, k: Key)
    requires k in idx
    ensures var n := Next(idx.Keys, forward, k);
            && (n.Some? ==> n.value in idx && Ahead(forward, n.value, k))
            && forall x :: x in idx ==> (Ahead(forward, x, k) <==> n.Some? && AtOrAhead(forward, x, n.value))
  {
    hide Ahead;
    AheadOrder(forward);
    forall x | x in idx
      ensures x in Beyond(idx.Keys, forward, k) <==> Ahead(forward, x, k)
    {
    }
  }

  /** The index keys still to come are the ones from this entry on. */
  ghost predicate EntryFits(idx: IndexData, range: KeyRange, forward: bool, unique: bool, pos: Option<Position>,
                            entry: Option<Key>)
  {
    && (entry.Some? ==> entry.value in idx && PastStart(range, forward, entry.value))
    && forall k :: k in idx ==>
         (PastStart(range, forward, k) && NotBehind(forward, k, IndexKeyOf(pos)) && !(unique && IndexKeyOf(pos) == Some(k))
          <==> entry.Some? && AtOrAhead(forward, k, entry.value))
  }

  /** The primary key to begin with at an entry. */
  function BeginAt(idx: IndexData, unique: bool, pos: Option<Position>, entry: Option<Key>): Option<Key>
    requires entry.Some? ==> entry.value in idx
  {
    if entry.None? then None
    else if !unique && IndexKeyOf(pos) == entry then Next(idx[entry.value], true, pos.value.primaryKey)
    else First(idx[entry.value], true)
  }

  lemma CandidatesFrom(idx: IndexData, range: KeyRange, forward: bool, unique: bool, pos: Option<Position>,
                       entry: Option<Key>)
    requires EntryFits(idx, range, forward, unique, pos, entry)
    ensures IndexCandidates(idx, range, forward, pos) - (if unique && pos.Some? then {pos.value.indexKey} else {})
            == RangeFrom(idx.Keys, range, forward, entry)
  {
    hide Includes, Ahead, PastStart;
    forall k | k in idx && Includes(range, k)
      ensures PastStart(range, forward, k)
    {
      IncludesMeaning(range, k);
    }
  }

  lemma ListingFrom(idx: IndexData, range: KeyRange, forward: bool, unique: bool, pos: Option<Position>, entry: Option<Key>)
    requires EntryFits(idx, range, forward, unique, pos, entry)
    ensures Tail(idx, range, forward, unique, entry, BeginAt(idx, unique, pos, entry))
            == IndexListing(idx, range, forward, unique, pos)
  {
    hide Includes, Ahead, PastStart, Ordered, Next;
    var all := IndexCandidates(idx, range, forward, pos);
    var s := RangeFrom(idx.Keys, range, forward, entry);
    CandidatesFrom(idx, range, forward, unique, pos, entry);
    TailFromEntry(idx, range, forward, unique, entry);
    if pos.None? || pos.value.indexKey !in all {
      assert all == s;
      RowsIgnorePosition(idx, unique, pos, all, forward);
      if IndexKeyOf(pos) == entry && entry.Some? {
        assert !Includes(range, entry.value) by { AtItself(forward, entry.value); }
      }
    } else {
      var k := pos.value.indexKey;
      assert FirstAtPosition(all, forward, k) by { PositionIsFirst(idx, range, forward, pos); }
      if unique {
        assert all - {k} == s;
        assert Row(idx, unique, pos, k) == [];
        RowsIgnorePosition(idx, unique, pos, s, forward);
        assert Paired(k, []) + Rows(idx, unique, pos, s, forward) == Rows(idx, unique, pos, s, forward);
      } else {
        ListingAtPosition(idx, range, forward, pos, entry);
      }
    }
  }

  predicate FirstAtPosition(s: set<Key>, forward: bool, k: Key) { First(s, forward) == Some(k) }

  lemma AtItself(forward: bool, k: Key)
    ensures AtOrAhead(forward, k, k)
  {
  }

  lemma PositionIsFirst(idx: IndexData, range: KeyRange, forward: bool, pos: Option<Position>)
    requires pos.Some? && pos.value.indexKey in IndexCandidates(idx, range, forward, pos)
    ensures FirstAtPosition(IndexCandidates(idx, range, forward, pos), forward, pos.value.indexKey)
  {
    hide Ahead, Includes;
    FirstIs(IndexCandidates(idx, range, forward, pos), forward, pos.value.indexKey);
  }

  /** Going on inside the entry of the last position. */
  lemma ListingAtPosition(idx: IndexData, range: KeyRange, forward: bool, pos: Option<Position>, entry: Option<Key>)
    requires EntryFits(idx, range, forward, false, pos, entry)
    requires pos.Some? && pos.value.indexKey in IndexCandidates(idx, range, forward, pos)
    ensures Tail(idx, range, forward, false, entry, BeginAt(idx, false, pos, entry))
            == IndexListing(idx, range, forward, false, pos)
  {
    hide Includes, PastStart, Ordered, Next;
    var all := IndexCandidates(idx, range, forward, pos);
    var k := pos.value.indexKey;
    CandidatesFrom(idx, range, forward, false, pos, entry);
    assert all == RangeFrom(idx.Keys, range, forward, entry);
    PositionIsFirst(idx, range, forward, pos);
    assert entry == Some(k) by { EntryIsPosition(idx, range, forward, pos, entry); }
    RangeStep(idx.Keys, range, forward, k);
    RangeFromIn(idx.Keys, range, forward, Next(idx.Keys, forward, k));
    RowFromNext(idx[k], pos.value.primaryKey);
    RowsIgnorePosition(idx, false, pos, all - {k}, forward);
  }

  lemma EntryIsPosition(idx: IndexData, range: KeyRange, forward: bool, pos: Option<Position>, entry: Option<Key>)
    requires EntryFits(idx, range, forward, false, pos, entry)
    requires pos.Some? && pos.value.indexKey in IndexCandidates(idx, range, forward, pos)
    ensures entry == Some(pos.value.indexKey)
  {
    hide Includes, Ahead, PastStart;
    AheadOrder(forward);
    IncludesMeaning(range, pos.value.indexKey);
    assert PastStart(range, forward, pos.value.indexKey);
    assert entry.Some? && AtOrAhead(forward, entry.value, entry.value);
  }

  /** The index keys past the position and not before the bound, open or not, are the ones from this entry on. */
  ghost predicate ClosedFits(idx: IndexData, range: KeyRange, forward: bool, pos: Option<Position>, entry: Option<Key>) {
    && (entry.Some? ==> entry.value in idx && NotBehind(forward, entry.value, IndexKeyOf(pos)))
    && forall k :: k in idx ==>
         (NotBehind(forward, k, IndexKeyOf(pos)) && NotBehind(forward, k, Start(range, forward))
          <==> entry.Some? && AtOrAhead(forward, k, entry.value))
  }

  lemma FirstAlignment(idx: IndexData, range: KeyRange, forward: bool, pos: Option<Position>, f: Option<Key>, entry: Option<Key>)
    requires f == Furthest(forward, Furthest(forward, IndexKeyOf(pos), Start(range, forward)), First(idx.Keys, forward))
    requires entry == if f.None? || f.value in idx then f else Next(idx.Keys, forward, f.value)
    ensures ClosedFits(idx, range, forward, pos, entry)
    ensures entry.Some? && IndexKeyOf(pos) == entry ==> f == entry
  {
    hide Ahead, CompareKeys, Furthest;
    var last, rangeStart, dataStart := IndexKeyOf(pos), Start(range, forward), First(idx.Keys, forward);
    FurthestMeaning(forward, last, rangeStart);
    FurthestMeaning(forward, Furthest(forward, last, rangeStart), dataStart);
    AheadOrder(forward);
    if f.Some? {
      AlignedAt(idx, forward, f.value, entry);
      assert NotBehind(forward, f.value, f) && NotBehind(forward, f.value, last);
      if entry.Some? && f.value !in idx {
        assert entry.value in Beyond(idx.Keys, forward, f.value);
      }
    }
  }

  /** Stepping over an open bound. */
  lemma OpenAlignment(idx: IndexData, range: KeyRange, forward: bool, pos: Option<Position>, entry: Option<Key>)
    requires ClosedFits(idx, range, forward, pos, entry)
    ensures var skip := entry.Some? && StartOpen(range, forward) && Start(range, forward) == entry;
            var entry' := if skip then Next(idx.Keys, forward, entry.value) else entry;
            && EntryFits(idx, range, forward, false, pos, entry')
            && (skip && entry'.Some? ==> IndexKeyOf(pos) != entry')
  {
    hide Ahead;
    AheadOrder(forward);
    if entry.Some? {
      NextEntry(idx, forward, entry.value);
      AtItself(forward, entry.value);
    }
  }

  /** Stepping over the last index key when each is listed once. */
  lemma UniqueAlignment(idx: IndexData, range: KeyRange, forward: bool, pos: Option<Position>, entry: Option<Key>)
    requires EntryFits(idx, range, forward, false, pos, entry)
    ensures var entry' := if entry.Some? && IndexKeyOf(pos) == entry then Next(idx.Keys, forward, entry.value) else entry;
            EntryFits(idx, range, forward, true, pos, entry')
  {
    hide Ahead, PastStart;
    AheadOrder(forward);
    if entry.Some? {
      NextEntry(idx, forward, entry.value);
      AtItself(forward, entry.value);
      if IndexKeyOf(pos) != entry && pos.Some? && pos.value.indexKey in idx {
        assert NotBehind(forward, entry.value, IndexKeyOf(pos));
      }
      var n := Next(idx.Keys, forward, entry.value);
      if n.Some? {
        StillPastStart(range, forward, n.value, entry.value);
      }
    }
  }

  /** The alignment at the head of getIndexRecords. */
  method AlignIndex(idx: IndexData, range: KeyRange, forward: bool, unique: bool, pos: Option<Position>)
    returns (entry: Option<Key>, objectStorePos: Option<Key>)
    ensures entry.Some? ==> entry.value in idx && PastStart(range, forward, entry.value)
    ensures entry.None? ==> objectStorePos.None?
    ensures objectStorePos.Some? ==> objectStorePos.value in idx[entry.value]
    ensures Tail(idx, range, forward, unique, entry, objectStorePos) == IndexListing(idx, range, forward, unique, pos)
  {
    hide Ahead, CompareKeys, Furthest, Includes, Tail, IndexListing, ClosedFits;
    var last := IndexKeyOf(pos);
    var f := Furthest(forward, Furthest(forward, last, Start(range, forward)), First(idx.Keys, forward));
    entry := if f.None? || f.value in idx then f else Next(idx.Keys, forward, f.value);
    FirstAlignment(idx, range, forward, pos, f, entry);
    assert entry.Some? ==> entry.value in idx by { FirstInside(idx, forward, f); }
    if entry.None? {
      OpenAlignment(idx, range, forward, pos, entry);
      UniqueAlignment(idx, range, forward, pos, entry);
      ListingFrom(idx, range, forward, unique, pos, None);
      return None, None;
    }
    if f.value !in idx || (last.Some? && last != entry) || pos.None? {
      objectStorePos := First(idx[entry.value], true);
    } else {
      objectStorePos := Next(idx[entry.value], true, pos.value.primaryKey);
    }
    OpenAlignment(idx, range, forward, pos, entry);
    if StartOpen(range, forward) && Start(range, forward) == entry {
      entry := Next(idx.Keys, forward, entry.value);
      objectStorePos := if entry.None? then None else First(idx[entry.value], true);
    }
    assert objectStorePos == BeginAt(idx, false, pos, entry);
    UniqueAlignment(idx, range, forward, pos, entry);
    if entry.Some? && unique && last == entry {
      entry := Next(idx.Keys, forward, entry.value);
      objectStorePos := if entry.None? then None else First(idx[entry.value], true);
    }
    ListingFrom(idx, range, forward, unique, pos, entry);
  }

  lemma FirstInside(idx: IndexData, forward: bool, f: Option<Key>)
    ensures var entry := if f.None? || f.value in idx then f else Next(idx.Keys, forward, f.value);
            entry.Some? ==> entry.value in idx
  {
  }

  /** What packResult looks up for one primary key; a missing record is an inconsistency. */
  ghost predicate AllStored(data: Data, listed: seq<Position>) {
    forall j :: 0 <= j < |listed| ==> listed[j].primaryKey in data
  }

  function IndexKeysOf(ps: seq<Position>): seq<Key> { seq(|ps|, j requires 0 <= j < |ps| => ps[j].indexKey) }

  function PrimaryKeysOf(ps: seq<Position>): seq<Key> { seq(|ps|, j requires 0 <= j < |ps| => ps[j].primaryKey) }

  /** Beyond the limit, the end of the range or the last entry nothing is pushed any more. */
  lemma TailEnds(idx: IndexData, range: KeyRange, forward: bool, unique: bool, k: Key, objectStorePos: Option<Key>)
    requires k in idx && !Includes(range, k)
    ensures Tail(idx, range, forward, unique, Some(k), objectStorePos) == []
  {
  }

  /** An exhausted entry hands over to the first primary key of the next one. */
  lemma TailNext(idx: IndexData, range: KeyRange, forward: bool, unique: bool, k: Key)
    requires k in idx && Includes(range, k) && PastStart(range, forward, k)
    ensures var n := Next(idx.Keys, forward, k);
            && (n.Some? ==> n.value in idx && PastStart(range, forward, n.value))
            && Tail(idx, range, forward, unique, Some(k), None)
               == Tail(idx, range, forward, unique, n, if n.Some? then First(idx[n.value], true) else None)
            && (n.Some? ==> Beyond(idx.Keys, forward, n.value) < Beyond(idx.Keys, forward, k))
  {
    hide Ahead, Includes, PastStart;
    var n := Next(idx.Keys, forward, k);
    AheadOrder(forward);
    NextEntry(idx, forward, k);
    if n.Some? {
      StillPastStart(range, forward, n.value, k);
      assert n.value in Beyond(idx.Keys, forward, k) && n.value !in Beyond(idx.Keys, forward, n.value);
    }
    TailFromEntry(idx, range, forward, unique, n);
    assert Paired(k, []) == [];
  }

  /** Pushing one record takes it off the listing. */
  lemma TailStep(idx: IndexData, range: KeyRange, forward: bool, unique: bool, k: Key, pk: Key)
    requires k in idx && Includes(range, k) && pk in idx[k]
    ensures var next := if unique then None else Next(idx[k], true, pk);
            && Tail(idx, range, forward, unique, Some(k), Some(pk))
               == [Position(k, pk)] + Tail(idx, range, forward, unique, Some(k), next)
  {
    hide Ahead, Includes;
    var next := if unique then None else Next(idx[k], true, pk);
    RowStep(idx[k], unique, pk);
    var row := RowFrom(idx[k], next, unique);
    assert Paired(k, [pk] + row) == [Position(k, pk)] + Paired(k, row);
  }

  lemma RowStep(pks: set<Key>, unique: bool, pk: Key)
    requires pk in pks
    ensures RowFrom(pks, Some(pk), unique) == [pk] + RowFrom(pks, if unique then None else Next(pks, true, pk), unique)
  {
    hide Ahead;
    if !unique {
      AheadOrder(true);
      var s := set x | x in pks && AtOrAhead(true, x, pk);
      FirstIs(s, true, pk);
      OrderedStep(s, true, pk);
      assert s - {pk} == Beyond(pks, true, pk);
      RowFromNext(pks, pk);
    }
  }

  /**
   * An index request returns the first entries, up to the limit, of the plain listing of the
   * range behind the last position; asking for values fails only on a dangling primary key.
   */
  method GetIndexRecords(idx: IndexData, data: Data, range: KeyRange, forward: bool, unique: bool,
                         pos: Option<Position>, limit: nat, level: ResultLevel) returns (r: Result<Response, Error>)
    ensures var listed := Take(IndexListing(idx, range, forward, unique, pos), limit);
            && (r.Err? <==> level.Full? && !AllStored(data, listed)) && (r.Err? ==> r.error == InvariantViolated)
            && (r.Ok? ==>
                  && r.value.count == |listed|
                  && r.value.indexKeys == (if level.OnlyCount? then None else Some(IndexKeysOf(listed)))
                  && r.value.primaryKeys == (if level.OnlyCount? then None else Some(PrimaryKeysOf(listed)))
                  && (level.Full? ==> r.value.values == Some(ValuesOf(data, PrimaryKeysOf(listed))))
                  && (!level.Full? ==> r.value.values == None))
  {
    hide Ahead, Includes, PastStart, Tail, IndexListing;
    var entry, objectStorePos := AlignIndex(idx, range, forward, unique, pos);
    var listed: seq<Position> := [];
    ghost var all := IndexListing(idx, range, forward, unique, pos);
    while entry.Some? && !(limit != 0 && |listed| == limit) && Includes(range, entry.value)
      invariant entry.Some? ==> entry.value in idx && PastStart(range, forward, entry.value)
      invariant entry.None? ==> objectStorePos.None?
      invariant objectStorePos.Some? ==> objectStorePos.value in idx[entry.value]
      invariant limit == 0 || |listed| <= limit
      invariant all == listed + Tail(idx, range, forward, unique, entry, objectStorePos)
      decreases if entry.Some? then Beyond(idx.Keys, forward, entry.value) else {}, entry.Some?,
                |all| - |listed|
    {
      var k := entry.value;
      if objectStorePos.None? {
        TailNext(idx, range, forward, unique, k);
        entry := Next(idx.Keys, forward, k);
        objectStorePos := if entry.None? then None else First(idx[entry.value], true);
      } else {
        var pk := objectStorePos.value;
        TailStep(idx, range, forward, unique, k, pk);
        objectStorePos := if unique then None else Next(idx[k], true, pk);
        ghost var rest := Tail(idx, range, forward, unique, entry, objectStorePos);
        assert listed + ([Position(k, pk)] + rest) == listed + [Position(k, pk)] + rest;
        listed := listed + [Position(k, pk)];
      }
    }
    if entry.None? {
      EmptyTail(idx, range, forward, unique);
    } else if !Includes(range, entry.value) {
      TailEnds(idx, range, forward, unique, entry.value, objectStorePos);
    }
    assert listed == Take(all, limit);
    r := PackResult(data, listed, level);
  }

  lemma EmptyTail(idx: IndexData, range: KeyRange, forward: bool, unique: bool)
    ensures Tail(idx, range, forward, unique, None, None) == []
  {
  }

  method PackResult(data: Data, listed: seq<Position>, level: ResultLevel) returns (r: Result<Response, Error>)
    ensures r.Err? <==> level.Full? && !AllStored(data, listed)
    ensures r.Err? ==> r.error == InvariantViolated
    ensures r.Ok? ==>
              && r.value.count == |listed|
              && r.value.indexKeys == (if level.OnlyCount? then None else Some(IndexKeysOf(listed)))
              && r.value.primaryKeys == (if level.OnlyCount? then None else Some(PrimaryKeysOf(listed)))
              && (level.Full? ==> r.value.values == Some(ValuesOf(data, PrimaryKeysOf(listed))))
              && (!level.Full? ==> r.value.values == None)
  {
    var values: seq<Value> := [];
    if level.Full? {
      var i := 0;
      while i < |listed|
        invariant 0 <= i <= |listed| && |values| == i
        invariant forall j :: 0 <= j < i ==> listed[j].primaryKey in data && values[j] == data[listed[j].primaryKey]
      {
        if listed[i].primaryKey !in data {
          return Err(InvariantViolated);
        }
        values := values + [data[listed[i].primaryKey]];
        i := i + 1;
      }
      assert values == ValuesOf(data, PrimaryKeysOf(listed));
    }
    r := Ok(Response(|listed|,
                     if level.OnlyCount? then None else Some(IndexKeysOf(listed)),
                     if level.OnlyCount? then None else Some(PrimaryKeysOf(listed)),
                     if level.Full? then Some(values) else None));
  }

  // ---------- Paging ----------

  /** Every record of an index has a stored primary key when the index agrees with the records. */
  lemma AgreeingIndexNeverFails(i: IndexState, data: Data, p: IndexProperties, range: KeyRange, forward: bool,
                                unique: bool, pos: Option<Position>)
    requires IndexAgrees(i, data, p)
    ensures AllStored(data, IndexListing(Entries(i), range, forward, unique, pos))
  {
    hide Includes, Ahead, UniqueHolds;
    var idx := Entries(i);
    forall k | k in idx
      ensures idx[k] <= data.Keys
    {
      IndexOfEntry(data, p, k);
    }
    RowsStored(data, idx, unique, pos, IndexCandidates(idx, range, forward, pos), forward);
  }

  lemma {:induction false} RowsStored(data: Data, idx: IndexData, unique: bool, pos: Option<Position>, s: set<Key>,
                                      forward: bool)
    requires s <= idx.Keys && forall k :: k in idx ==> idx[k] <= data.Keys
    ensures AllStored(data, Rows(idx, unique, pos, s, forward))
    decreases |s|
  {
    hide Ordered;
    if s != {} {
      var k := First(s, forward).value;
      RowsStored(data, idx, unique, pos, s - {k}, forward);
      var pks := if pos.Some? && pos.value.indexKey == k
                 then (if unique then {} else Beyond(idx[k], true, pos.value.primaryKey)) else idx[k];
      assert pks <= data.Keys;
      OrderedMeaning(pks, true);
      var row := Row(idx, unique, pos, k);
      forall j | 0 <= j < |row|
        ensures row[j] in data
      {
        assert row[j] in row;
      }
    }
  }

  /** The entry from which a listing goes on always exists. */
  lemma EntryExists(idx: IndexData, range: KeyRange, forward: bool, unique: bool, pos: Option<Position>)
    returns (entry: Option<Key>)
    ensures EntryFits(idx, range, forward, unique, pos, entry)
  {
    hide Ahead, PastStart;
    AheadOrder(forward);
    var s := set k | k in idx && PastStart(range, forward, k) && NotBehind(forward, k, IndexKeyOf(pos))
                     && !(unique && IndexKeyOf(pos) == Some(k));
    entry := First(s, forward);
    if entry.Some? {
      var first := entry.value;
      assert IsFirst(s, forward, first);
      forall k | k in idx && AtOrAhead(forward, k, first)
        ensures k in s
      {
        StillPastStart(range, forward, k, first);
        if IndexKeyOf(pos).Some? && k != first {
          assert Ahead(forward, k, first) && AtOrAhead(forward, first, IndexKeyOf(pos).value);
          assert Ahead(forward, k, IndexKeyOf(pos).value);
        }
      }
      assert forall k :: k in s ==> AtOrAhead(forward, k, first);
    } else {
      assert s == {};
    }
    assert forall k :: k in idx ==> (k in s <==> entry.Some? && AtOrAhead(forward, k, entry.value));
  }

  /** The listing behind a position is what follows there. */
  lemma ListingBehind(idx: IndexData, range: KeyRange, forward: bool, unique: bool, k: Key, pk: Key)
    requires k in idx && Includes(range, k) && PastStart(range, forward, k) && pk in idx[k]
    ensures IndexListing(idx, range, forward, unique, Some(Position(k, pk)))
            == Tail(idx, range, forward, unique, Some(k), if unique then None else Next(idx[k], true, pk))
  {
    hide Ahead, Includes, PastStart, Tail, IndexListing;
    var pos := Some(Position(k, pk));
    AheadOrder(forward);
    NextEntry(idx, forward, k);
    forall x | x in idx && AtOrAhead(forward, x, k)
      ensures PastStart(range, forward, x)
    {
      StillPastStart(range, forward, x, k);
    }
    var entry := if unique then Next(idx.Keys, forward, k) else Some(k);
    assert EntryFits(idx, range, forward, unique, pos, entry);
    ListingFrom(idx, range, forward, unique, pos, entry);
    if unique {
      TailNext(idx, range, forward, unique, k);
    }
  }

  /** The first record of a tail, and the tail behind it. */
  lemma {:induction false} TailHead(idx: IndexData, range: KeyRange, forward: bool, unique: bool,
                                    entry: Option<Key>, objectStorePos: Option<Key>)
    requires entry.Some? ==> entry.value in idx && PastStart(range, forward, entry.value)
    requires objectStorePos.Some? ==> entry.Some? && objectStorePos.value in idx[entry.value]
    requires Tail(idx, range, forward, unique, entry, objectStorePos) != []
    ensures var tail := Tail(idx, range, forward, unique, entry, objectStorePos);
            IndexListing(idx, range, forward, unique, Some(tail[0])) == tail[1..]
    decreases if entry.Some? then Beyond(idx.Keys, forward, entry.value) else {}
  {
    hide Ahead, Includes, PastStart, Tail, IndexListing;
    if entry.None? {
      assert objectStorePos.None?;
      EmptyTail(idx, range, forward, unique);
      assert false;
    }
    var k := entry.value;
    if !Includes(range, k) {
      TailEnds(idx, range, forward, unique, k, objectStorePos);
      assert false;
    }
    if objectStorePos.Some? {
      TailStep(idx, range, forward, unique, k, objectStorePos.value);
      ListingBehind(idx, range, forward, unique, k, objectStorePos.value);
    } else {
      TailNext(idx, range, forward, unique, k);
      var n := Next(idx.Keys, forward, k);
      if n.None? {
        EmptyTail(idx, range, forward, unique);
        assert false;
      }
      TailHead(idx, range, forward, unique, n, First(idx[n.value], true));
    }
  }

  /** Asking again behind the first record of a listing gives the rest of that listing. */
  lemma NextIndexPage(idx: IndexData, range: KeyRange, forward: bool, unique: bool, pos: Option<Position>)
    requires IndexListing(idx, range, forward, unique, pos) != []
    ensures var listing := IndexListing(idx, range, forward, unique, pos);
            IndexListing(idx, range, forward, unique, Some(listing[0])) == listing[1..]
  {
    hide Tail, IndexListing;
    var entry := EntryExists(idx, range, forward, unique, pos);
    ListingFrom(idx, range, forward, unique, pos, entry);
    TailHead(idx, range, forward, unique, entry, BeginAt(idx, unique, pos, entry));
  }

  lemma NextStorePage(keys: set<Key>, range: KeyRange, forward: bool, last: Option<Key>, advance: Option<Key>)
    requires StoreCandidates(keys, range, forward, last, advance) != {}
    ensures var listing := Ordered(StoreCandidates(keys, range, forward, last, advance), forward);
            Ordered(StoreCandidates(keys, range, forward, Some(listing[0]), None), forward) == listing[1..]
  {
    hide Ahead, Includes;
    AheadOrder(forward);
    var s := StoreCandidates(keys, range, forward, last, advance);
    var k := First(s, forward).value;
    assert StoreCandidates(keys, range, forward, Some(k), None) == s - {k};
  }

  function SamePositions(keys: seq<Key>): (ps: seq<Position>)
    ensures |ps| == |keys|
  {
    seq(|keys|, j requires 0 <= j < |keys| => Position(keys[j], keys[j]))
  }

  lemma SamePositionsTail(keys: seq<Key>)
    requires keys != []
    ensures SamePositions(keys)[1..] == SamePositions(keys[1..])
  {
  }

  /**
   * A cursor over an index or an object store. The records it reads stay the same while it
   * moves.
   */
  class BridgeIDBCursor {
    const isIndex: bool
    const range: KeyRange
    const forward: bool
    const unique: bool
    const keyOnly: bool
    var gotValue: bool
    var indexPosition: Option<Key>
    var objectStorePosition: Option<Key>
    var key: Option<Key>
    var primaryKey: Option<Key>
    var value: Option<Value>

    constructor (isIndex: bool, range: KeyRange, forward: bool, unique: bool, keyOnly: bool)
      ensures this.isIndex == isIndex && this.range == range && this.forward == forward && this.unique == unique
      ensures this.keyOnly == keyOnly && Valid() && LastPosition() == None && !gotValue
    {
      this.isIndex, this.range, this.forward, this.unique, this.keyOnly := isIndex, range, forward, unique, keyOnly;
      gotValue := false;
      indexPosition, objectStorePosition := None, None;
      key, primaryKey, value := None, None, None;
    }

    /** Both positions are set together in an index; an object store has only one. */
    ghost predicate Valid()
      reads this
    {
      if isIndex then indexPosition.Some? == objectStorePosition.Some? else indexPosition.None?
    }

    function LastPosition(): Option<Position>
      requires Valid()
      reads this
    {
      if objectStorePosition.None? then None
      else if isIndex then Some(Position(indexPosition.value, objectStorePosition.value))
      else Some(Position(objectStorePosition.value, objectStorePosition.value))
    }

    /** What is still to be visited; in an object store the key of a record is its primary key. */
    ghost function ToVisit(idx: IndexData, data: Data, advance: Option<Key>): seq<Position>
      requires Valid()
      reads this
    {
      if isIndex then IndexListing(idx, range, forward, unique, LastPosition())
      else
        SamePositions(Ordered(StoreCandidates(data.Keys, range, forward, objectStorePosition, advance), forward))
    }

    /** _iterate; an object store cursor can be told the key to advance to. */
    method Iterate(idx: IndexData, data: Data, advance: Option<Key>) returns (found: Result<bool, Error>)
      requires Valid() && (isIndex ==> advance.None?)
      modifies this
      ensures Valid()
      ensures var ahead := old(ToVisit(idx, data, advance));
              if isIndex && !keyOnly && ahead != [] && ahead[0].primaryKey !in data then found == Err(InvariantViolated)
              else
                && found == Ok(ahead != []) && gotValue == (ahead != [])
                && (ahead == [] ==> LastPosition() == old(LastPosition()))
                && (ahead != [] ==>
                      && LastPosition() == Some(ahead[0]) && key == Some(ahead[0].indexKey)
                      && primaryKey == Some(ahead[0].primaryKey)
                      && (!keyOnly ==> ahead[0].primaryKey in data && value == Some(data[ahead[0].primaryKey]))
                      && ToVisit(idx, data, None) == ahead[1..])
    {
      hide IndexListing, Ordered, StoreCandidates;
      var level := if keyOnly then OnlyKeys else Full;
      ghost var ahead := ToVisit(idx, data, advance);
      if isIndex {
        var r := GetIndexRecords(idx, data, range, forward, unique, LastPosition(), 1, level);
        if r.Err? {
          return Err(r.error);
        }
        var response := r.value;
        if response.count == 0 {
          gotValue := false;
          return Ok(false);
        }
        NextIndexPage(idx, range, forward, unique, LastPosition());
        key := Some(response.indexKeys.value[0]);
        primaryKey := Some(response.primaryKeys.value[0]);
        if !keyOnly {
          value := Some(response.values.value[0]);
        }
        gotValue := true;
        objectStorePosition := primaryKey;
        indexPosition := key;
      } else {
        var response := GetObjectStoreRecords(data, range, forward, objectStorePosition, advance, 1, level);
        if response.count == 0 {
          gotValue := false;
          return Ok(false);
        }
        OrderedNonEmpty(StoreCandidates(data.Keys, range, forward, objectStorePosition, advance), forward);
        NextStorePage(data.Keys, range, forward, objectStorePosition, advance);
        SamePositionsTail(Ordered(StoreCandidates(data.Keys, range, forward, objectStorePosition, advance), forward));
        key := Some(response.primaryKeys.value[0]);
        primaryKey := Some(response.primaryKeys.value[0]);
        if !keyOnly {
          value := Some(response.values.value[0]);
        }
        gotValue := true;
        objectStorePosition := primaryKey;
      }
      return Ok(true);
    }

    /** The operation that advance queues: count iterations, the last of which decides. */
    method Advance(idx: IndexData, data: Data, count: nat) returns (found: Result<bool, Error>)
      requires Valid() && count > 0
      requires isIndex && !keyOnly ==> AllStored(data, ToVisit(idx, data, None))
      modifies this
      ensures Valid()
      ensures var ahead := old(ToVisit(idx, data, None));
              && found == Ok(count <= |ahead|)
              && (count <= |ahead| ==> LastPosition() == Some(ahead[count - 1]) && ToVisit(idx, data, None) == ahead[count..])
              && (count > |ahead| ==> ToVisit(idx, data, None) == [])
    {
      ghost var ahead := ToVisit(idx, data, None);
      var i := 0;
      found := Ok(false);
      while i < count
        invariant 0 <= i <= count && Valid()
        invariant ToVisit(idx, data, None) == if i <= |ahead| then ahead[i..] else []
        invariant i > 0 ==> found == Ok(i <= |ahead|)
        invariant 0 < i <= |ahead| ==> LastPosition() == Some(ahead[i - 1])
      {
        found := Iterate(idx, data, None);
        i := i + 1;
      }
    }
  }

  lemma OrderedNonEmpty(s: set<Key>, forward: bool)
    ensures Ordered(s, forward) != [] <==> s != {}
  {
  }
}