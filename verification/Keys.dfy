/** IndexedDB keys, their order, and neighbours in a finite set of keys. */
module Keys {
  import opened Wrappers
  import opened Utf16

  datatype Key =
    | Number(n: real)
    | Date(time: real)
    | String(s: seq<CodeUnit>)
    | Binary(bytes: seq<int>)
    | Array(items: seq<Key>)

  // ---------- compareKeys ----------

  function Rank(k: Key): int {
    match k
    case Number(_) => 0
    case Date(_) => 1
    case String(_) => 2
    case Binary(_) => 3
    case Array(_) => 4
  }

  function CompareReals(a: real, b: real): int {
    if a == b then 0 else if a > b then 1 else -1
  }

  /** Element by element from position i, then the shorter one first. */
  function CompareInts(a: seq<int>, b: seq<int>, i: nat): int
    requires i <= |a| && i <= |b|
    decreases |a| - i
  {
    if i == |a| && i == |b| then 0
    else if i == |a| then -1
    else if i == |b| then 1
    else if a[i] == b[i] then CompareInts(a, b, i + 1)
    else if a[i] > b[i] then 1
    else -1
  }

  function CompareItems(a: seq<Key>, b: seq<Key>, i: nat): int
    requires i <= |a| && i <= |b|
    decreases a, |a| - i
  {
    if i == |a| && i == |b| then 0
    else if i == |a| then -1
    else if i == |b| then 1
    else
      var result := CompareKeys(a[i], b[i]);
      if result != 0 then result else CompareItems(a, b, i + 1)
  }

  function CompareKeys(a: Key, b: Key): int
    decreases a
  {
    if Rank(a) != Rank(b) then (if Rank(a) > Rank(b) then 1 else -1)
    else
      match a
      case Number(n) => CompareReals(n, b.n)
      case Date(time) => CompareReals(time, b.time)
      case String(s) => CompareInts(s, b.s, 0)
      case Binary(bytes) => CompareInts(bytes, b.bytes, 0)
      case Array(items) => CompareItems(items, b.items, 0)
  }

  predicate Less(a: Key, b: Key) { CompareKeys(a, b) < 0 }

  // ---------- A total order ----------

  lemma {:induction false} IntsOrder(a: seq<int>, b: seq<int>, i: nat)
    requires i <= |a| && i <= |b|
    ensures -1 <= CompareInts(a, b, i) <= 1 && CompareInts(b, a, i) == -CompareInts(a, b, i)
    ensures CompareInts(a, b, i) == 0 <==> a[i..] == b[i..]
    decreases |a| - i
  {
    if i < |a| && i < |b| {
      IntsOrder(a, b, i + 1);
      assert a[i..] == [a[i]] + a[i + 1..] && b[i..] == [b[i]] + b[i + 1..];
    }
  }

  lemma {:induction false} IntsTransitive(a: seq<int>, b: seq<int>, c: seq<int>, i: nat)
    requires i <= |a| && i <= |b| && i <= |c|
    requires CompareInts(a, b, i) < 0 && CompareInts(b, c, i) < 0
    ensures CompareInts(a, c, i) < 0
    decreases |a| - i
  {
    if i < |a| && i < |b| && i < |c| && a[i] == b[i] == c[i] {
      IntsTransitive(a, b, c, i + 1);
    }
  }

  lemma {:induction false} ItemsOrder(a: seq<Key>, b: seq<Key>, i: nat)
    requires i <= |a| && i <= |b|
    ensures -1 <= CompareItems(a, b, i) <= 1 && CompareItems(b, a, i) == -CompareItems(a, b, i)
    ensures CompareItems(a, b, i) == 0 <==> a[i..] == b[i..]
    decreases a, |a| - i
  {
    if i < |a| && i < |b| {
      KeysOrder(a[i], b[i]);
      ItemsOrder(a, b, i + 1);
      assert a[i..] == [a[i]] + a[i + 1..] && b[i..] == [b[i]] + b[i + 1..];
    }
  }

  /** Comparison is antisymmetric, and 0 only for equal keys. */
  lemma {:induction false} KeysOrder(a: Key, b: Key)
    ensures -1 <= CompareKeys(a, b) <= 1 && CompareKeys(b, a) == -CompareKeys(a, b)
    ensures CompareKeys(a, b) == 0 <==> a == b
    decreases a
  {
    if Rank(a) == Rank(b) {
      match a
      case Number(_) =>
      case Date(_) =>
      case String(s) =>
        IntsOrder(s, b.s, 0);
      case Binary(bytes) =>
        IntsOrder(bytes, b.bytes, 0);
      case Array(items) =>
        ItemsOrder(items, b.items, 0);
    }
  }

  lemma {:induction false} ItemsTransitive(a: seq<Key>, b: seq<Key>, c: seq<Key>, i: nat)
    requires i <= |a| && i <= |b| && i <= |c|
    requires CompareItems(a, b, i) < 0 && CompareItems(b, c, i) < 0
    ensures CompareItems(a, c, i) < 0
    decreases a, |a| - i
  {
    if i < |a| && i < |b| && i < |c| {
      KeysOrder(a[i], b[i]);
      KeysOrder(b[i], c[i]);
      KeysOrder(a[i], c[i]);
      if a[i] == b[i] == c[i] {
        ItemsTransitive(a, b, c, i + 1);
      } else if a[i] != b[i] && b[i] != c[i] {
        KeysTransitive(a[i], b[i], c[i]);
      }
    }
  }

  lemma {:induction false} KeysTransitive(a: Key, b: Key, c: Key)
    requires Less(a, b) && Less(b, c)
    ensures Less(a, c)
    decreases a
  {
    if Rank(a) == Rank(b) == Rank(c) {
      match a
      case Number(_) =>
      case Date(_) =>
      case String(s) =>
        IntsTransitive(s, b.s, c.s, 0);
      case Binary(bytes) =>
        IntsTransitive(bytes, b.bytes, c.bytes, 0);
      case Array(items) =>
        ItemsTransitive(items, b.items, c.items, 0);
    }
  }

  /** The order on all keys, for proofs that need it on many of them. */
  lemma TotalOrder()
    ensures forall a, b :: a == b || Less(a, b) || Less(b, a)
    ensures forall a, b :: Less(a, b) ==> a != b && !Less(b, a)
    ensures forall a, b, c :: Less(a, b) && Less(b, c) ==> Less(a, c)
  {
    hide CompareKeys;
    forall a, b
      ensures a == b || Less(a, b) || Less(b, a)
      ensures Less(a, b) ==> a != b && !Less(b, a)
    {
      KeysOrder(a, b);
    }
    forall a, b, c | Less(a, b) && Less(b, c)
      ensures Less(a, c)
    {
      KeysTransitive(a, b, c);
    }
  }

  // ---------- Neighbours ----------

  predicate IsFirst(s: set<Key>, forward: bool, k: Key) {
    k in s && forall x :: x in s && x != k ==> Ahead(forward, x, k)
  }

  /** x comes after k when going in the given direction. */
  predicate Ahead(forward: bool, x: Key, k: Key) { if forward then Less(k, x) else Less(x, k) }

  lemma {:induction false} FirstExists(s: set<Key>, forward: bool) returns (k: Key)
    requires s != {}
    ensures IsFirst(s, forward, k)
  {
    hide Ahead;
    k :| k in s;
    var rest := s - {k};
    assert forall x :: x in s ==> x == k || x in rest;
    if rest != {} {
      var m := FirstExists(rest, forward);
      AheadOrder(forward);
      if Ahead(forward, k, m) {
        k := m;
      } else {
        assert Ahead(forward, m, k);
      }
    }
  }

  lemma AheadOrder(forward: bool)
    ensures forall a, b :: a == b || Ahead(forward, a, b) || Ahead(forward, b, a)
    ensures forall a, b :: Ahead(forward, a, b) ==> a != b && !Ahead(forward, b, a)
    ensures forall a, b, c :: Ahead(forward, a, b) && Ahead(forward, b, c) ==> Ahead(forward, a, c)
  {
    hide Less;
    TotalOrder();
  }

  lemma FirstIsUnique(s: set<Key>, forward: bool)
    requires s != {}
    ensures exists k :: IsFirst(s, forward, k)
    ensures forall k, k' :: IsFirst(s, forward, k) && IsFirst(s, forward, k') ==> k == k'
  {
    hide Ahead;
    var k := FirstExists(s, forward);
    AheadOrder(forward);
  }

  /** The first key of a set: minKey forwards, maxKey backwards. */
  function First(s: set<Key>, forward: bool): (r: Option<Key>)
    ensures r == None <==> s == {}
    ensures r.Some? ==> IsFirst(s, forward, r.value)
  {
    if s == {} then None
    else
      FirstIsUnique(s, forward);
      var k :| IsFirst(s, forward, k);
      Some(k)
  }

  /** nextHigherKey forwards, nextLowerKey backwards. */
  function Next(s: set<Key>, forward: bool, k: Key): Option<Key>
  {
    First(Beyond(s, forward, k), forward)
  }

  function Beyond(s: set<Key>, forward: bool, k: Key): set<Key> {
    set x | x in s && Ahead(forward, x, k)
  }
}
