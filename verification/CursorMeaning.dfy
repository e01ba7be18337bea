/** What the listing of an index is, without reference to how it is walked. */
module CursorMeaning {
  import opened Wrappers
  import opened Keys
  import opened KeyRanges
  import opened IdbRecords
  import opened Cursor

  /** p comes behind q: at an index key further on in the direction, or at the same one with a greater primary key. */
  predicate Behind(forward: bool, p: Position, q: Position) {
    Ahead(forward, p.indexKey, q.indexKey) || (p.indexKey == q.indexKey && Ahead(true, p.primaryKey, q.primaryKey))
  }

  /** An entry of the index that is in range; for unique only the first record of each index key */
  predicate InIndex(idx: IndexData, range: KeyRange, unique: bool, p: Position) {
    && p.indexKey in idx && Includes(range, p.indexKey) && p.primaryKey in idx[p.indexKey]
    && (unique ==> IsFirst(idx[p.indexKey], true, p.primaryKey))
  }

  /** An entry that is still to come; after a record of an index key, unique leaves out that key. */
  predicate ToCome(forward: bool, unique: bool, pos: Option<Position>, p: Position) {
    pos.None? || (if unique then Ahead(forward, p.indexKey, pos.value.indexKey) else Behind(forward, p, pos.value))
  }

  ghost predicate InOrder(forward: bool, s: seq<Position>) {
    forall i, j :: 0 <= i < j < |s| ==> Behind(forward, s[j], s[i])
  }

  lemma RowMeaning(idx: IndexData, unique: bool, pos: Option<Position>, k: Key)
    requires k in idx
    ensures forall pk :: pk in Row(idx, unique, pos, k) <==>
              && pk in idx[k] && (unique ==> IsFirst(idx[k], true, pk))
              && (pos.Some? && pos.value.indexKey == k ==> !unique && Ahead(true, pk, pos.value.primaryKey))
    ensures forall i, j :: 0 <= i < j < |Row(idx, unique, pos, k)| ==> Ahead(true, Row(idx, unique, pos, k)[j], Row(idx, unique, pos, k)[i])
  {
    hide Ahead;
    var pks := if pos.Some? && pos.value.indexKey == k
               then (if unique then {} else Beyond(idx[k], true, pos.value.primaryKey)) else idx[k];
    OrderedMeaning(pks, true);
    if unique && pks != {} {
      FirstIsUnique(pks, true);
    }
  }

  lemma {:induction false} RowsMeaning(idx: IndexData, unique: bool, pos: Option<Position>, s: set<Key>, forward: bool)
    requires s <= idx.Keys
    ensures forall p :: p in Rows(idx, unique, pos, s, forward) <==>
              p.indexKey in s && p.primaryKey in Row(idx, unique, pos, p.indexKey)
    ensures InOrder(forward, Rows(idx, unique, pos, s, forward))
    decreases |s|
  {
    hide Ahead, Row;
    if s != {} {
      var k := First(s, forward).value;
      var row, rest := Row(idx, unique, pos, k), Rows(idx, unique, pos, s - {k}, forward);
      RowMeaning(idx, unique, pos, k);
      RowsMeaning(idx, unique, pos, s - {k}, forward);
      PairedMeaning(k, row, forward);
      JoinedRows(idx, unique, pos, s, forward, k);
    }
  }

  lemma PairedMeaning(k: Key, pks: seq<Key>, forward: bool)
    requires forall i, j :: 0 <= i < j < |pks| ==> Ahead(true, pks[j], pks[i])
    ensures forall p :: p in Paired(k, pks) <==> p.indexKey == k && p.primaryKey in pks
    ensures InOrder(forward, Paired(k, pks))
  {
    hide Ahead;
    forall p: Position | p.indexKey == k && p.primaryKey in pks
      ensures p in Paired(k, pks)
    {
      var i :| 0 <= i < |pks| && pks[i] == p.primaryKey;
      assert Paired(k, pks)[i] == p;
    }
  }

  lemma JoinedRows(idx: IndexData, unique: bool, pos: Option<Position>, s: set<Key>, forward: bool, k: Key)
    requires s <= idx.Keys && First(s, forward) == Some(k)
    requires var a := Paired(k, Row(idx, unique, pos, k));
             InOrder(forward, a) && forall p :: p in a <==> p.indexKey == k && p.primaryKey in Row(idx, unique, pos, k)
    requires var b := Rows(idx, unique, pos, s - {k}, forward);
             InOrder(forward, b)
             && forall p :: p in b <==> p.indexKey in s - {k} && p.primaryKey in Row(idx, unique, pos, p.indexKey)
    ensures InOrder(forward, Rows(idx, unique, pos, s, forward))
    ensures forall p :: p in Rows(idx, unique, pos, s, forward) <==>
              p.indexKey in s && p.primaryKey in Row(idx, unique, pos, p.indexKey)
  {
    hide Ahead, Row, Paired;
    var a, b := Paired(k, Row(idx, unique, pos, k)), Rows(idx, unique, pos, s - {k}, forward);
    assert Rows(idx, unique, pos, s, forward) == a + b;
    FirstIsUnique(s, forward);
    forall i, j | 0 <= i < |a| && 0 <= j < |b|
      ensures Behind(forward, b[j], a[i])
    {
      assert a[i] in a && b[j] in b;
      assert Ahead(forward, b[j].indexKey, k);
    }
    forall p
      ensures p in a + b <==> p.indexKey in s && p.primaryKey in Row(idx, unique, pos, p.indexKey)
    {
      assert p in a + b <==> p in a || p in b;
    }
  }

  /**
   * A request lists exactly the entries of the index that are in range and still to come, each once, index keys
   * in the order of the direction and primary keys ascending.
   */
  lemma IndexListingMeaning(idx: IndexData, range: KeyRange, forward: bool, unique: bool, pos: Option<Position>)
    ensures forall p :: p in IndexListing(idx, range, forward, unique, pos) <==>
              InIndex(idx, range, unique, p) && ToCome(forward, unique, pos, p)
    ensures InOrder(forward, IndexListing(idx, range, forward, unique, pos))
  {
    hide Ahead, Includes, Row, Rows, InOrder, IsFirst;
    var s := IndexCandidates(idx, range, forward, pos);
    RowsMeaning(idx, unique, pos, s, forward);
    AheadOrder(forward);
    forall p
      ensures p in IndexListing(idx, range, forward, unique, pos) <==>
                InIndex(idx, range, unique, p) && ToCome(forward, unique, pos, p)
    {
      if p.indexKey in idx {
        RowMeaning(idx, unique, pos, p.indexKey);
      }
    }
  }

  /** The same for an object store */
  lemma StoreListingMeaning(keys: set<Key>, range: KeyRange, forward: bool, last: Option<Key>, advance: Option<Key>)
    ensures var l := Ordered(StoreCandidates(keys, range, forward, last, advance), forward);
            && (forall k :: k in l <==>
                  && k in keys && Includes(range, k) && (last.Some? ==> Ahead(forward, k, last.value))
                  && (advance.Some? ==> k == advance.value || Ahead(forward, k, advance.value)))
            && forall i, j :: 0 <= i < j < |l| ==> Ahead(forward, l[j], l[i])
  {
    hide Ahead, Includes;
    OrderedMeaning(StoreCandidates(keys, range, forward, last, advance), forward);
  }
}
