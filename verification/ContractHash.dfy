/** What the contract hash commits to, and which members forgetting takes away. */
module ContractHash {
  import opened Wrappers
  import opened Utf16
  import opened Json
  import opened CanonicalJson
  import opened ContractTerms

  /** Digests of different texts or under different salts differ. */
  ghost predicate InjectiveDigest(c: Crypto) {
    forall text, salt, other, pepper :: c.digest(text, salt) == c.digest(other, pepper) ==> text == other && salt == pepper
  }

  /** Nothing is forgotten yet. */
  ghost predicate Fresh(j: Json) {
    match j
    case Arr(items) => forall i :: 0 <= i < |items| ==> Fresh(items[i])
    case Obj(m) => FORGOTTEN !in m && forall k :: k in m && !Special(k) ==> Fresh(m[k])
    case _ => true
  }

  /** The terms of a contract as they are signed */
  ghost predicate Terms(c: Crypto, j: Json) { Valid(c, j) && Shaped(j) && Fresh(j) }

  /** Without empty lists of forgettable members, which mean nothing */
  function Tidy(j: Json): Json {
    match j
    case Arr(items) => Arr(seq(|items|, i requires 0 <= i < |items| => Tidy(items[i])))
    case Obj(m) =>
      Obj(map k | k in m && !(k == FORGETTABLE && m[k] == Obj(map[])) :: if Special(k) then m[k] else Tidy(m[k]))
    case _ => j
  }

  /** No list of forgettable members is empty. */
  ghost predicate NoEmptyList(j: Json) {
    match j
    case Arr(items) => forall i :: 0 <= i < |items| ==> NoEmptyList(items[i])
    case Obj(m) => (FORGETTABLE in m ==> m[FORGETTABLE] != Obj(map[])) && forall k :: k in m && !Special(k) ==> NoEmptyList(m[k])
    case _ => true
  }

  lemma {:induction false} TidyAlready(j: Json)
    requires NoEmptyList(j)
    ensures Tidy(j) == j
  {
    match j
    case Arr(items) =>
      forall i | 0 <= i < |items|
        ensures Tidy(items[i]) == items[i]
      {
        TidyAlready(items[i]);
      }
      assert Tidy(j).items == items;
    case Obj(m) =>
      forall k | k in m && !Special(k)
        ensures Tidy(m[k]) == m[k]
      {
        TidyAlready(m[k]);
      }
      assert Tidy(j).members == m;
    case _ =>
  }

  lemma SamePath(c: Crypto, j: Json, path: Path)
    ensures Forgot(c, j, path, Always) == Forgot(c, j, [], Always)
  {
    var always: Predicate := Always;
    assert forall x: Path :: always(path + x) == always([] + x);
    SameForgot(c, j, path, Always, [], Always);
  }

  lemma TermsItems(c: Crypto, items: seq<Json>)
    requires Terms(c, Arr(items))
    ensures forall i :: 0 <= i < |items| ==> Terms(c, items[i])
  {
  }

  lemma TermsMembers(c: Crypto, m: map<JsString, Json>)
    requires Terms(c, Obj(m))
    ensures FORGOTTEN !in m && Hashes(m) == map[]
    ensures forall k :: k in m && k != FORGETTABLE ==> !Special(k) && Terms(c, m[k])
    ensures FORGETTABLE in m ==> m[FORGETTABLE].Obj?
    ensures forall x :: x in Marked(m) ==> x in m && Marked(m)[x].Str? && !Special(x)
    ensures Special(FORGETTABLE)
  {
    hide NameOk;
    SpecialNames();
    ValidParts(c, m);
    forall k | k in m && k != FORGETTABLE
      ensures !Special(k)
    {
      NamesAreNotSpecial(k);
    }
  }

  /** What an object of signed terms looks like when all that is marked is forgotten. */
  lemma Scrubbed(c: Crypto, m: map<JsString, Json>) returns (after: map<JsString, Json>)
    requires Terms(c, Obj(m))
    ensures Forgot(c, Obj(m), [], Always) == Obj(after)
    ensures Hashes(after) == map x | x in Marked(m) :: Str(c.digest(Text(Forgot(c, m[x], [], Always)), Marked(m)[x].s))
    ensures FORGETTABLE !in after && (FORGOTTEN in after <==> Marked(m) != map[])
    ensures FORGOTTEN in after ==> after[FORGOTTEN].Obj?
    ensures forall k :: k != FORGETTABLE && k != FORGOTTEN ==>
              && (k in after <==> k in m && k !in Marked(m))
              && (k in after ==> after[k] == Forgot(c, m[k], [], Always))
  {
    hide Valid, Shaped, Fresh, Text, Marked, Special, Hashes, Forgot, DigestOf, Chosen;
    TermsMembers(c, m);
    ForgottenParts(c, m, [], Always);
    after := Forgot(c, Obj(m), [], Always).members;
    AllChosen(m);
    forall x | x in Marked(m)
      ensures DigestOf(c, Obj(m), x) == Str(c.digest(Text(Forgot(c, m[x], [], Always)), Marked(m)[x].s))
    {
      DigestIs(c, m, x);
    }
    DigestsLeftOf(c, m, after);
    forall k | k in m && k != FORGETTABLE
      ensures Forgot(c, m[k], [] + [k], Always) == Forgot(c, m[k], [], Always)
    {
      SamePath(c, m[k], [] + [k]);
    }
    NoneMarked(m);
  }

  lemma DigestIs(c: Crypto, m: map<JsString, Json>, x: JsString)
    requires Hashes(m) == map[] && x in Marked(m) && x in m && Marked(m)[x].Str?
    ensures DigestOf(c, Obj(m), x) == Str(c.digest(Text(Forgot(c, m[x], [], Always)), Marked(m)[x].s))
  {
    hide Forgot, Text, Marked, Hashes;
  }

  lemma DigestsLeftOf(c: Crypto, m: map<JsString, Json>, after: map<JsString, Json>)
    requires Chosen(m, [], Always) == Marked(m).Keys && DigestPart(c, m, Chosen(m, [], Always), after) && Hashes(m) == map[]
    ensures Hashes(after) == map x | x in Marked(m) :: DigestOf(c, Obj(m), x)
  {
    hide DigestOf, Marked, Hashes, Chosen;
  }

  lemma AllChosen(m: map<JsString, Json>)
    ensures Chosen(m, [], Always) == Marked(m).Keys
  {
  }

  lemma NoneMarked(m: map<JsString, Json>)
    ensures Marked(m).Keys == {} <==> Marked(m) == map[]
    ensures FORGETTABLE in m && m[FORGETTABLE].Obj? ==> m[FORGETTABLE].members == Marked(m)
    ensures FORGETTABLE !in m ==> Marked(m) == map[]
  {
  }

  // ---------- Signed terms are determined by what is left of them ----------

  lemma {:induction false} ScrubDetermines(c: Crypto, a: Json, b: Json)
    requires InjectiveDigest(c) && Terms(c, a) && Terms(c, b)
    requires Forgot(c, a, [], Always) == Forgot(c, b, [], Always)
    ensures Tidy(a) == Tidy(b)
    decreases a
  {
    hide Valid, Shaped, Fresh, Text, InjectiveDigest;
    match a
    case Arr(items) =>
      assert b.Arr? && |b.items| == |items|;
      TermsItems(c, items);
      TermsItems(c, b.items);
      forall i | 0 <= i < |items|
        ensures Tidy(items[i]) == Tidy(b.items[i])
      {
        assert Forgot(c, a, [], Always).items[i] == Forgot(c, b, [], Always).items[i];
        SamePath(c, items[i], [] + [Digits(i)]);
        SamePath(c, b.items[i], [] + [Digits(i)]);
        ScrubDetermines(c, items[i], b.items[i]);
      }
      assert Tidy(a).items == Tidy(b).items;
    case Obj(m) =>
      assert b.Obj?;
      var n := b.members;
      SameNames(c, m, n);
      forall k | k in m && k != FORGETTABLE
        ensures k in n && Tidy(m[k]) == Tidy(n[k])
      {
        TermsMembers(c, m);
        TermsMembers(c, n);
        SameLeft(c, m, n, k);
        ScrubDetermines(c, m[k], n[k]);
      }
      SameTidy(c, m, n);
    case _ =>
  }

  lemma SameNames(c: Crypto, m: map<JsString, Json>, n: map<JsString, Json>)
    requires InjectiveDigest(c) && Terms(c, Obj(m)) && Terms(c, Obj(n))
    requires Forgot(c, Obj(m), [], Always) == Forgot(c, Obj(n), [], Always)
    ensures Marked(m) == Marked(n)
    ensures forall k :: k != FORGETTABLE ==> (k in m <==> k in n)
  {
    hide Valid, Shaped, Fresh, Text, Marked, Special, Hashes, Forgot, Terms;
    TermsMembers(c, m);
    TermsMembers(c, n);
    var after := Scrubbed(c, m);
    var other := Scrubbed(c, n);
    assert after == other;
    SameDigests(c, m, n, Hashes(after));
    forall k | k != FORGETTABLE
      ensures k in m <==> k in n
    {
      assert k in m <==> k in Marked(m) || (k in after && k != FORGOTTEN);
      assert k in n <==> k in Marked(n) || (k in after && k != FORGOTTEN);
    }
  }

  lemma SameDigests(c: Crypto, m: map<JsString, Json>, n: map<JsString, Json>, hashes: map<JsString, Json>)
    requires InjectiveDigest(c)
    requires forall x :: x in Marked(m) ==> x in m && Marked(m)[x].Str?
    requires forall x :: x in Marked(n) ==> x in n && Marked(n)[x].Str?
    requires hashes == map x | x in Marked(m) :: Str(c.digest(Text(Forgot(c, m[x], [], Always)), Marked(m)[x].s))
    requires hashes == map x | x in Marked(n) :: Str(c.digest(Text(Forgot(c, n[x], [], Always)), Marked(n)[x].s))
    ensures Marked(m) == Marked(n)
  {
    hide Marked, Text, Forgot;
    assert hashes.Keys == Marked(m).Keys == Marked(n).Keys;
    forall x | x in Marked(m)
      ensures Marked(m)[x] == Marked(n)[x]
    {
      assert hashes[x].s == c.digest(Text(Forgot(c, m[x], [], Always)), Marked(m)[x].s);
      assert hashes[x].s == c.digest(Text(Forgot(c, n[x], [], Always)), Marked(n)[x].s);
    }
  }

  /** A member that is left, and one whose digest is left, is determined after scrubbing. */
  lemma SameLeft(c: Crypto, m: map<JsString, Json>, n: map<JsString, Json>, k: JsString)
    requires InjectiveDigest(c) && Terms(c, Obj(m)) && Terms(c, Obj(n))
    requires Forgot(c, Obj(m), [], Always) == Forgot(c, Obj(n), [], Always)
    requires k in m && k in n && k != FORGETTABLE && Marked(m) == Marked(n)
    ensures Forgot(c, m[k], [], Always) == Forgot(c, n[k], [], Always)
  {
    hide Valid, Shaped, Fresh, Text, Marked, Special, Hashes, Forgot, Terms;
    TermsMembers(c, m);
    var after := Scrubbed(c, m);
    var other := Scrubbed(c, n);
    if k in Marked(m) {
      assert Hashes(after)[k].s == c.digest(Text(Forgot(c, m[k], [], Always)), Marked(m)[k].s);
      assert Hashes(other)[k].s == c.digest(Text(Forgot(c, n[k], [], Always)), Marked(n)[k].s);
      Canonical(Forgot(c, m[k], [], Always), Forgot(c, n[k], [], Always));
    } else {
      assert after[k] == other[k];
    }
  }

  lemma SameTidy(c: Crypto, m: map<JsString, Json>, n: map<JsString, Json>)
    requires Terms(c, Obj(m)) && Terms(c, Obj(n)) && Marked(m) == Marked(n)
    requires forall k :: k != FORGETTABLE ==> (k in m <==> k in n)
    requires forall k :: k in m && k != FORGETTABLE ==> Tidy(m[k]) == Tidy(n[k])
    ensures Tidy(Obj(m)) == Tidy(Obj(n))
  {
    hide Terms, Marked, Special;
    TermsMembers(c, m);
    TermsMembers(c, n);
    NoneMarked(m);
    NoneMarked(n);
    assert Tidy(Obj(m)).members == Tidy(Obj(n)).members;
  }

  // ---------- Tidying changes nothing that is hashed ----------

  lemma TidyMembers(c: Crypto, m: map<JsString, Json>) returns (t: map<JsString, Json>)
    requires Terms(c, Obj(m))
    ensures Tidy(Obj(m)) == Obj(t) && Marked(t) == Marked(m) && FORGOTTEN !in t
    ensures forall k :: k != FORGETTABLE ==> (k in t <==> k in m)
    ensures forall k :: k in m && k != FORGETTABLE ==> t[k] == Tidy(m[k])
    ensures FORGETTABLE in t ==> t[FORGETTABLE].Obj?
  {
    hide Terms, Special;
    TermsMembers(c, m);
    t := Tidy(Obj(m)).members;
  }

  lemma {:induction false} TidyTerms(c: Crypto, j: Json)
    requires Terms(c, j)
    ensures Terms(c, Tidy(j)) && Forgot(c, Tidy(j), [], Always) == Forgot(c, j, [], Always)
    decreases j
  {
    match j
    case Arr(items) =>
      TermsItems(c, items);
      forall i | 0 <= i < |items|
        ensures Terms(c, Tidy(items[i]))
        ensures Forgot(c, Tidy(items[i]), [] + [Digits(i)], Always) == Forgot(c, items[i], [] + [Digits(i)], Always)
      {
        TidyTerms(c, items[i]);
        SamePath(c, items[i], [] + [Digits(i)]);
        SamePath(c, Tidy(items[i]), [] + [Digits(i)]);
      }
      assert Forgot(c, Tidy(j), [], Always).items == Forgot(c, j, [], Always).items;
    case Obj(m) =>
      hide Terms;
      TermsMembers(c, m);
      forall k | k in m && k != FORGETTABLE
        ensures Terms(c, Tidy(m[k])) && Forgot(c, Tidy(m[k]), [], Always) == Forgot(c, m[k], [], Always)
      {
        TidyTerms(c, m[k]);
      }
      TidyObject(c, m);
    case _ =>
  }

  lemma TidyObject(c: Crypto, m: map<JsString, Json>)
    requires Terms(c, Obj(m))
    requires forall k :: k in m && k != FORGETTABLE ==>
               Terms(c, Tidy(m[k])) && Forgot(c, Tidy(m[k]), [], Always) == Forgot(c, m[k], [], Always)
    ensures Terms(c, Tidy(Obj(m))) && Forgot(c, Tidy(Obj(m)), [], Always) == Forgot(c, Obj(m), [], Always)
  {
    hide Text, Marked, Special, Hashes, Forgot, Tidy, Terms, NameOk;
    TermsMembers(c, m);
    var t := TidyMembers(c, m);
    TidyValid(c, m, t);
    var after := Scrubbed(c, m);
    var other := Scrubbed(c, t);
    assert Hashes(after) == Hashes(other);
    AfterIsAll(after, other);
  }

  lemma TidyValid(c: Crypto, m: map<JsString, Json>, t: map<JsString, Json>)
    requires Terms(c, Obj(m)) && Marked(t) == Marked(m) && FORGOTTEN !in t
    requires forall k :: k != FORGETTABLE ==> (k in t <==> k in m)
    requires forall k :: k in m && k != FORGETTABLE ==> Terms(c, t[k])
    requires FORGETTABLE in t ==> t[FORGETTABLE].Obj?
    ensures Terms(c, Obj(t))
  {
    hide NameOk, Special;
    ValidParts(c, m);
    TermsMembers(c, m);
    ValidFromParts(c, t) by {
      assert Hashes(t) == map[];
      SpecialNames();
      NamesAreNotSpecial(FORGETTABLE);
    }
    forall k | k in t && !Special(k)
      ensures Fresh(t[k])
    {
    }
  }

  lemma AfterIsAll(a: map<JsString, Json>, b: map<JsString, Json>)
    requires FORGETTABLE !in a && FORGETTABLE !in b && Hashes(a) == Hashes(b)
    requires FORGOTTEN in a <==> FORGOTTEN in b
    requires FORGOTTEN in a ==> a[FORGOTTEN].Obj? && b[FORGOTTEN].Obj?
    requires forall k :: k != FORGETTABLE && k != FORGOTTEN ==> (k in a <==> k in b) && (k in a ==> a[k] == b[k])
    ensures a == b
  {
    SameObject(a, b);
  }

  // ---------- The hash is a commitment ----------

  /** Hashes of different texts differ. */
  ghost predicate InjectiveHash(hash: JsString -> JsString) { forall x, y :: hash(x) == hash(y) ==> x == y }

  /**
   * Whatever parts of two contracts have been forgotten since, and in however different ways, their
   * hashes agree if and only if the terms as they were signed are the same, empty lists aside.
   */
  lemma HashCommits(c: Crypto, hash: JsString -> JsString, a: Json, b: Json, p: Predicate, q: Predicate)
    requires Sound(c) && InjectiveDigest(c) && InjectiveHash(hash) && Terms(c, a) && Terms(c, b)
    ensures ForgetAll(c, a, p).Some? && ForgetAll(c, b, q).Some?
    ensures HashContractTerms(c, hash, ForgetAll(c, a, p).value).Some?
    ensures HashContractTerms(c, hash, ForgetAll(c, a, p).value) == HashContractTerms(c, hash, ForgetAll(c, b, q).value)
       <==> Tidy(a) == Tidy(b)
  {
    hide Valid, Shaped, Fresh, Forgot, Throws, InjectiveDigest, Tidy, Sound;
    ValidityKept(c, a, [], p);
    ValidityKept(c, b, [], q);
    ValidityKept(c, a, [], Always);
    ValidityKept(c, b, [], Always);
    HashUnchanged(c, hash, a, p);
    HashUnchanged(c, hash, b, q);
    HashIdentifies(c, hash, a, b);
    if Forgot(c, a, [], Always) == Forgot(c, b, [], Always) {
      ScrubDetermines(c, a, b);
    }
    TidyTerms(c, a);
    TidyTerms(c, b);
  }

  /** Of terms without empty lists the hash is that of one contract only. */
  lemma HashDetermines(c: Crypto, hash: JsString -> JsString, a: Json, b: Json)
    requires Sound(c) && InjectiveDigest(c) && InjectiveHash(hash) && Terms(c, a) && Terms(c, b)
    requires NoEmptyList(a) && NoEmptyList(b)
    ensures HashContractTerms(c, hash, a) == HashContractTerms(c, hash, b) <==> a == b
  {
    hide Valid, Shaped, Fresh, Forgot, Throws, InjectiveDigest, Tidy, Sound;
    HashCommits(c, hash, a, b, Always, Always);
    ValidityKept(c, a, [], Always);
    ValidityKept(c, b, [], Always);
    HashUnchanged(c, hash, a, Always);
    HashUnchanged(c, hash, b, Always);
    TidyAlready(a);
    TidyAlready(b);
  }

  /** With an empty list of forgettable members and without it, the hash is the same. */
  lemma EmptyListIsNotHashed(c: Crypto, hash: JsString -> JsString)
    ensures var a, b := Obj(map[FORGETTABLE := Obj(map[])]), Obj(map[]);
            a != b && HashContractTerms(c, hash, a) == HashContractTerms(c, hash, b)
  {
    var a, b := Obj(map[FORGETTABLE := Obj(map[])]), Obj(map[]);
    assert FORGETTABLE in a.members && FORGETTABLE !in b.members;
    assert Chosen(a.members, [], Always) == {} == Chosen(b.members, [], Always);
    assert Forgot(c, a, [], Always).members == map[] == Forgot(c, b, [], Always).members;
    assert !Throws(a, [], Always) && !Throws(b, [], Always);
  }

  // ---------- What is forgotten ----------

  /** The item that a text is the number of */
  function Item(items: seq<Json>, x: JsString): Option<nat> {
    var v := DigitsValue(x);
    if 0 <= v < |items| && Digits(v) == x then Some(v) else None
  }

  /** What stands at a path of names and item numbers */
  function At(j: Json, q: Path): Option<Json>
    decreases |q|
  {
    if q == [] then Some(j)
    else
      match j
      case Obj(m) => if q[0] in m && !Special(q[0]) then At(m[q[0]], q[1..]) else None
      case Arr(items) => var i := Item(items, q[0]); if i.Some? then At(items[i.value], q[1..]) else None
      case _ => None
  }

  /** The member at a path is marked as forgettable. */
  predicate MarkedAt(j: Json, q: Path) {
    q != [] && var o := At(j, q[..|q| - 1]);
    o.Some? && o.value.Obj? && q[|q| - 1] in Marked(o.value.members)
  }

  /** A member on the way to a path, or at it, is forgotten by itself. */
  ghost predicate ForgottenOnTheWay(j: Json, path: Path, pred: Predicate, q: Path) {
    exists n :: 1 <= n <= |q| && MarkedAt(j, q[..n]) && pred(path + q[..n])
  }

  lemma WayStep(j: Json, path: Path, pred: Predicate, q: Path, sub: Json)
    requires q != [] && forall r: Path :: r != [] && r[0] == q[0] ==> At(j, r) == At(sub, r[1..])
    ensures ForgottenOnTheWay(j, path, pred, q)
       <==> (|| (j.Obj? && q[0] in Marked(j.members) && pred(path + [q[0]]))
             || ForgottenOnTheWay(sub, path + [q[0]], pred, q[1..]))
  {
    hide MarkedAt, At;
    FirstStep(j, q);
    if ForgottenOnTheWay(j, path, pred, q) {
      var n :| 1 <= n <= |q| && MarkedAt(j, q[..n]) && pred(path + q[..n]);
      if n > 1 {
        PrefixStep(j, path, q, sub, n);
        assert MarkedAt(sub, q[1..][..n - 1]) && pred(path + [q[0]] + q[1..][..n - 1]);
      }
    }
    if ForgottenOnTheWay(sub, path + [q[0]], pred, q[1..]) {
      var n :| 1 <= n <= |q[1..]| && MarkedAt(sub, q[1..][..n]) && pred(path + [q[0]] + q[1..][..n]);
      PrefixStep(j, path, q, sub, n + 1);
      assert MarkedAt(j, q[..n + 1]) && pred(path + q[..n + 1]);
    }
    if j.Obj? && q[0] in Marked(j.members) && pred(path + [q[0]]) {
      assert MarkedAt(j, q[..1]) && pred(path + q[..1]);
    }
  }

  lemma FirstStep(j: Json, q: Path)
    requires q != []
    ensures q[..1] == [q[0]] && (MarkedAt(j, q[..1]) <==> j.Obj? && q[0] in Marked(j.members))
  {
    assert q[..1][..0] == [];
  }

  lemma PrefixStep(j: Json, path: Path, q: Path, sub: Json, n: nat)
    requires 2 <= n <= |q| && forall r: Path :: r != [] && r[0] == q[0] ==> At(j, r) == At(sub, r[1..])
    ensures MarkedAt(j, q[..n]) == MarkedAt(sub, q[1..][..n - 1])
    ensures path + q[..n] == path + [q[0]] + q[1..][..n - 1]
  {
    hide At;
    var r, t := q[..n], q[1..][..n - 1];
    var a, b := r[..n - 1][1..], t[..n - 2];
    assert |a| == |b| && forall i :: 0 <= i < |a| ==> a[i] == b[i];
    assert a == b && r[n - 1] == t[n - 2];
  }

  /**
   * Exactly what is marked and chosen by the predicate is taken away, with everything in it: something is
   * left at a path if and only if it was there and no marked member on the way to it is chosen.
   */
  lemma {:induction false} LeftExactly(c: Crypto, j: Json, path: Path, pred: Predicate, q: Path)
    requires Shaped(j)
    ensures At(Forgot(c, j, path, pred), q).Some? <==> At(j, q).Some? && !ForgottenOnTheWay(j, path, pred, q)
    ensures At(Forgot(c, j, path, pred), q).Some? ==>
              At(Forgot(c, j, path, pred), q).value == Forgot(c, At(j, q).value, path + q, pred)
    decreases |q|
  {
    hide Marked, Special, Forgot, Shaped;
    if q == [] {
      assert path + q == path;
    } else if j.Obj? && q[0] in j.members && !Special(q[0]) {
      var sub := j.members[q[0]];
      ShapedMember(j, q[0]);
      WayStep(j, path, pred, q, sub);
      LeftExactly(c, sub, path + [q[0]], pred, q[1..]);
      ForgottenMember(c, j.members, path, pred, q[0]);
      assert path + [q[0]] + q[1..] == path + q;
    } else if j.Obj? {
      NoMember(c, j, path, pred, q[0]);
    } else if j.Arr? && Item(j.items, q[0]).Some? {
      var i := Item(j.items, q[0]).value;
      ShapedItem(j, i);
      WayStep(j, path, pred, q, j.items[i]);
      LeftExactly(c, j.items[i], path + [q[0]], pred, q[1..]);
      ForgottenItem(c, j, path, pred, i);
      assert path + [q[0]] + q[1..] == path + q;
    } else {
      ForgottenKind(c, j, path, pred);
    }
  }

  lemma ShapedMember(j: Json, k: JsString)
    requires Shaped(j) && j.Obj? && k in j.members && !Special(k)
    ensures Shaped(j.members[k])
  {
  }

  lemma ShapedItem(j: Json, i: nat)
    requires Shaped(j) && j.Arr? && i < |j.items|
    ensures Shaped(j.items[i])
  {
  }

  lemma ForgottenMember(c: Crypto, m: map<JsString, Json>, path: Path, pred: Predicate, k: JsString)
    requires Shaped(Obj(m)) && k in m && !Special(k)
    ensures var f := Forgot(c, Obj(m), path, pred);
            f.Obj? && (k in f.members <==> !(k in Marked(m) && pred(path + [k])))
            && (k in f.members ==> f.members[k] == Forgot(c, m[k], path + [k], pred))
  {
    hide Forgot, Marked, Special;
    SpecialNames();
    ForgottenParts(c, m, path, pred);
  }

  lemma NoMember(c: Crypto, j: Json, path: Path, pred: Predicate, k: JsString)
    requires Shaped(j) && j.Obj? && !(k in j.members && !Special(k))
    ensures var f := Forgot(c, j, path, pred); f.Obj? && !(k in f.members && !Special(k))
  {
    hide Forgot, Marked, Special, Chosen;
    SpecialNames();
    ForgottenParts(c, j.members, path, pred);
  }

  lemma ForgottenItem(c: Crypto, j: Json, path: Path, pred: Predicate, i: nat)
    requires j.Arr? && i < |j.items|
    ensures var f := Forgot(c, j, path, pred);
            f.Arr? && |f.items| == |j.items| && f.items[i] == Forgot(c, j.items[i], path + [Digits(i)], pred)
  {
  }

  lemma ForgottenKind(c: Crypto, j: Json, path: Path, pred: Predicate)
    ensures var f := Forgot(c, j, path, pred); KindOf(f) == KindOf(j) && (j.Arr? ==> |f.items| == |j.items|)
  {
  }
}
