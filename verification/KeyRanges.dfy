/** BridgeIDBKeyRange */
module KeyRanges {
  import opened Wrappers
  import opened Keys

  datatype KeyRange = KeyRange(lower: Option<Key>, upper: Option<Key>, lowerOpen: bool, upperOpen: bool)

  predicate Includes(r: KeyRange, k: Key) {
    && !(r.lower.Some? && (CompareKeys(r.lower.value, k) == 1 || (CompareKeys(r.lower.value, k) == 0 && r.lowerOpen)))
    && !(r.upper.Some? && (CompareKeys(r.upper.value, k) == -1 || (CompareKeys(r.upper.value, k) == 0 && r.upperOpen)))
  }

  /** The bound that a walk in the given direction starts from, and whether it is open. */
  function Start(r: KeyRange, forward: bool): Option<Key> { if forward then r.lower else r.upper }

  predicate StartOpen(r: KeyRange, forward: bool) { if forward then r.lowerOpen else r.upperOpen }

  /** k lies on the right side of the bound where a walk in the given direction starts. */
  predicate PastStart(r: KeyRange, forward: bool, k: Key) {
    Start(r, forward).None? || Ahead(forward, k, Start(r, forward).value)
    || (k == Start(r, forward).value && !StartOpen(r, forward))
  }

  /** A range is what lies past its two bounds. */
  lemma IncludesMeaning(r: KeyRange, k: Key)
    ensures Includes(r, k) <==> PastStart(r, true, k) && PastStart(r, false, k)
  {
    hide CompareKeys;
    if r.lower.Some? {
      KeysOrder(r.lower.value, k);
    }
    if r.upper.Some? {
      KeysOrder(r.upper.value, k);
    }
  }

  /** bound, which refuses an empty range. */
  function Bound(lower: Key, upper: Key, lowerOpen: bool, upperOpen: bool): Option<KeyRange> {
    var c := CompareKeys(lower, upper);
    if c == 1 || (c == 0 && (lowerOpen || upperOpen)) then None
    else Some(KeyRange(Some(lower), Some(upper), lowerOpen, upperOpen))
  }

  /** A bound is refused exactly when its open or closed ends leave no room between them. */
  lemma BoundRefused(lower: Key, upper: Key, lowerOpen: bool, upperOpen: bool)
    ensures Bound(lower, upper, lowerOpen, upperOpen).None? <==>
            var r := KeyRange(Some(lower), Some(upper), lowerOpen, upperOpen);
            !Less(lower, upper) && !(Includes(r, lower) && Includes(r, upper))
  {
    hide CompareKeys;
    KeysOrder(lower, upper);
    KeysOrder(lower, lower);
    KeysOrder(upper, upper);
  }
}
