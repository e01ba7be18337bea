/** forgetAllImpl as it works: on a copy, whose members it replaces and deletes one by one. */
module ContractTermsCode {
  import opened Wrappers
  import opened Utf16
  import opened Json
  import opened CanonicalJson
  import opened ContractTerms

  /** An object when the names in s are dealt with: their values and salts are gone, their digests are there. */
  ghost function Partial(c: Crypto, m: map<JsString, Json>, s: set<JsString>): map<JsString, Json>
    requires forall x :: x in s ==> x in Marked(m)
  {
    map k | k in m.Keys - s + if s == {} then {} else {FORGOTTEN} ::
      if k == FORGOTTEN && s != {} then Obj(Hashes(m) + map x | x in s :: DigestOf(c, Obj(m), x))
      else if k !in m then Null
      else if k == FORGETTABLE && m[k].Obj? then Obj(m[k].members - s)
      else m[k]
  }

  /** The digests that are there by then. */
  ghost function DigestsSoFar(c: Crypto, m: map<JsString, Json>, s: set<JsString>): map<JsString, Json>
    requires forall x :: x in s ==> x in Marked(m)
  {
    Hashes(m) + map x | x in s :: DigestOf(c, Obj(m), x)
  }

  lemma PartialParts(c: Crypto, m: map<JsString, Json>, s: set<JsString>, x: JsString)
    requires Shaped(Obj(m)) && x in Marked(m) && x !in s && forall y :: y in s ==> y in Marked(m)
    ensures var d := Partial(c, m, s);
            && !Special(x) && (x in d <==> x in m) && (x in d ==> d[x] == m[x])
            && FORGETTABLE in d && d[FORGETTABLE] == Obj(Marked(m) - s)
            && (FORGOTTEN in d <==> FORGOTTEN in m || s != {})
            && (FORGOTTEN in d ==> d[FORGOTTEN] == if s != {} then Obj(DigestsSoFar(c, m, s)) else m[FORGOTTEN])
  {
    hide DigestOf, Hashes;
    SpecialNames();
    assert !Special(x);
    assert FORGETTABLE !in s;
  }

  lemma PartialNext(c: Crypto, m: map<JsString, Json>, s: set<JsString>, x: JsString)
    requires Shaped(Obj(m)) && x in Marked(m) && x !in s && forall y :: y in s ==> y in Marked(m)
    ensures Partial(c, m, s + {x})
            == (Partial(c, m, s) - {x})[FORGOTTEN := Obj(DigestsSoFar(c, m, s)[x := DigestOf(c, Obj(m), x)])]
                 [FORGETTABLE := Obj(Marked(m) - s - {x})]
  {
    hide DigestOf, Hashes, Marked, Partial, DigestsSoFar, Special;
    SpecialNames();
    var t := s + {x};
    var e, n := Partial(c, m, t), (Partial(c, m, s) - {x})[FORGOTTEN := Obj(DigestsSoFar(c, m, s)[x := DigestOf(c, Obj(m), x)])]
                                    [FORGETTABLE := Obj(Marked(m) - s - {x})];
    assert Marked(m) - s - {x} == Marked(m) - t;
    OneMoreDigest(c, m, s, x);
    PartialSpecial(c, m, t, x);
    forall k | k != FORGETTABLE && k != FORGOTTEN
      ensures k in n <==> k in e
      ensures k in n ==> n[k] == e[k]
    {
      PartialOther(c, m, s, k);
      PartialOther(c, m, t, k);
    }
  }

  lemma OneMoreDigest(c: Crypto, m: map<JsString, Json>, s: set<JsString>, x: JsString)
    requires x in Marked(m) && forall y :: y in s ==> y in Marked(m)
    ensures DigestsSoFar(c, m, s)[x := DigestOf(c, Obj(m), x)] == DigestsSoFar(c, m, s + {x})
  {
    hide DigestOf, Hashes, Marked;
  }

  lemma PartialSpecial(c: Crypto, m: map<JsString, Json>, s: set<JsString>, x: JsString)
    requires Shaped(Obj(m)) && x in s && forall y :: y in s ==> y in Marked(m)
    ensures var d := Partial(c, m, s);
            && FORGETTABLE in d && d[FORGETTABLE] == Obj(Marked(m) - s)
            && FORGOTTEN in d && d[FORGOTTEN] == Obj(DigestsSoFar(c, m, s))
  {
    hide DigestOf, Hashes;
    SpecialNames();
    assert FORGETTABLE !in s && FORGOTTEN !in s;
  }

  lemma PartialOther(c: Crypto, m: map<JsString, Json>, s: set<JsString>, k: JsString)
    requires forall y :: y in s ==> y in Marked(m)
    requires k != FORGETTABLE && k != FORGOTTEN
    ensures k in Partial(c, m, s) <==> k in m && k !in s
    ensures k in Partial(c, m, s) ==> Partial(c, m, s)[k] == m[k]
  {
    hide DigestOf, Hashes, Marked;
  }

  lemma SoFarMeaning(c: Crypto, m: map<JsString, Json>, s: set<JsString>, x: JsString)
    requires x in Marked(m) && x !in s && forall y :: y in s ==> y in Marked(m)
    ensures var g := DigestsSoFar(c, m, s);
            && (x in g && Truthy(g[x]) <==> Digested(m, x))
            && (Digested(m, x) ==> g == g[x := DigestOf(c, Obj(m), x)])
            && (s == {} && !(FORGOTTEN in m && m[FORGOTTEN].Obj?) ==> g == map[])
            && (s == {} && FORGOTTEN in m && m[FORGOTTEN].Obj? ==> g == m[FORGOTTEN].members)
  {
    hide Forgot, Text, SaltText, Marked;
  }

  /** One name of the loop over the forgettable members; nothing when it throws. */
  method ForgetOne(c: Crypto, anyJson: Json, ghost s: set<JsString>, dup: map<JsString, Json>, x: JsString)
    returns (r: Option<map<JsString, Json>>)
    requires anyJson.Obj? && Shaped(anyJson) && x in Marked(anyJson.members) && x !in s
    requires forall y :: y in s ==> y in Marked(anyJson.members)
    requires dup == Partial(c, anyJson.members, s) && !BadDigests(anyJson.members, s)
    ensures r.None? <==> Unhashable(anyJson.members, x) || BadDigests(anyJson.members, s + {x})
    ensures r.Some? ==> r.value == Partial(c, anyJson.members, s + {x})
    decreases anyJson, 0
  {
    hide Forgot, Throws, Partial, DigestsSoFar, Marked, Hashes, Digested, Text, SaltText, Special;
    ghost var m := anyJson.members;
    ghost var g := DigestsSoFar(c, m, s);
    SpecialNames();
    PartialParts(c, m, s, x);
    SoFarMeaning(c, m, s, x);
    PartialNext(c, m, s, x);
    var members := dup;
    if FORGOTTEN !in members || !Truthy(members[FORGOTTEN]) {
      members := members[FORGOTTEN := Obj(map[])];
    }
    assert members[FORGOTTEN].Obj? <==> !BadDigests(m, s + {x});
    assert members[FORGOTTEN].Obj? ==> members[FORGOTTEN].members == g;
    if !(members[FORGOTTEN].Obj? && x in members[FORGOTTEN].members && Truthy(members[FORGOTTEN].members[x])) {
      assert members[FORGOTTEN].Obj? ==> !Digested(m, x);
      if x !in members {
        return None;
      }
      var cleaned := ForgetAllImpl(c, members[x], [], Always);
      if cleaned.None? {
        return None;
      }
      var h := c.digest(Text(cleaned.value), SaltText(members[FORGETTABLE].members[x]));
      if !members[FORGOTTEN].Obj? {
        return None;
      }
      assert DigestOf(c, anyJson, x) == Str(h);
      members := members[FORGOTTEN := Obj(members[FORGOTTEN].members[x := Str(h)])];
    }
    members := members - {x};
    members := members[FORGETTABLE := Obj(members[FORGETTABLE].members - {x})];
    r := Some(members);
  }

  lemma PartialNone(c: Crypto, m: map<JsString, Json>)
    ensures Partial(c, m, {}) == m
  {
    hide DigestOf, Hashes;
    forall k | k in m && m[k].Obj?
      ensures m[k].members - {} == m[k].members
    {
    }
  }

  lemma BadMore(m: map<JsString, Json>, s: set<JsString>, t: set<JsString>)
    requires s <= t && BadDigests(m, s)
    ensures BadDigests(m, t)
  {
  }

  lemma NotBad(m: map<JsString, Json>)
    ensures !BadDigests(m, {})
  {
  }

  lemma MarkedKeys(m: map<JsString, Json>)
    requires FORGETTABLE in m && m[FORGETTABLE].Obj?
    ensures Marked(m) == m[FORGETTABLE].members
  {
  }

  /** The loop over the forgettable members; nothing when it throws. */
  method ForgetMarked(c: Crypto, anyJson: Json, path: Path, pred: Predicate) returns (r: Option<map<JsString, Json>>)
    requires anyJson.Obj? && Shaped(anyJson)
    requires FORGETTABLE in anyJson.members && anyJson.members[FORGETTABLE].Obj?
    ensures r.None? <==>
            var chosen := Chosen(anyJson.members, path, pred);
            BadDigests(anyJson.members, chosen) || exists x :: x in chosen && Unhashable(anyJson.members, x)
    ensures r.Some? ==> r.value == Partial(c, anyJson.members, Chosen(anyJson.members, path, pred))
    decreases anyJson, 1
  {
    hide Forgot, Partial, Unhashable, Shaped, BadDigests, Marked;
    ghost var m := anyJson.members;
    ghost var chosen := Chosen(m, path, pred);
    ghost var s: set<JsString> := {};
    var members := anyJson.members;
    PartialNone(c, m);
    assert !BadDigests(m, {}) by { NotBad(m); }
    var left := members[FORGETTABLE].members.Keys;
    assert left == Marked(m).Keys by { MarkedKeys(m); }
    while left != {}
      invariant left <= Marked(m).Keys && s == chosen - left
      invariant members == Partial(c, m, s)
      invariant !BadDigests(m, s) && forall x :: x in s ==> !Unhashable(m, x)
      decreases |left|
    {
      var x :| x in left;
      if pred(path + [x]) {
        assert chosen - (left - {x}) == s + {x};
        var one := ForgetOne(c, anyJson, s, members, x);
        if one.None? {
          if BadDigests(m, s + {x}) {
            BadMore(m, s + {x}, chosen);
          }
          return None;
        }
        members := one.value;
        s := s + {x};
      } else {
        assert chosen - (left - {x}) == s;
      }
      left := left - {x};
    }
    assert s == chosen;
    r := Some(members);
  }

  /** An object when nothing is left to delete but its members are not yet replaced. */
  ghost function Stripped(c: Crypto, m: map<JsString, Json>, chosen: set<JsString>): map<JsString, Json>
    requires forall x :: x in chosen ==> x in Marked(m)
  {
    if FORGETTABLE in m && m[FORGETTABLE].Obj? && m[FORGETTABLE].members.Keys <= chosen
    then Partial(c, m, chosen) - {FORGETTABLE}
    else Partial(c, m, chosen)
  }

  lemma StrippedMembers(c: Crypto, m: map<JsString, Json>, path: Path, pred: Predicate)
    requires Shaped(Obj(m))
    ensures (forall x :: x in Chosen(m, path, pred) ==> x in Marked(m))
    ensures var d := Stripped(c, m, Chosen(m, path, pred));
            && d.Keys == Remaining(m, Chosen(m, path, pred))
            && forall k :: k in d ==>
                 if Special(k) then d[k] == Left(c, m, path, pred, k)
                 else k in m && k !in Chosen(m, path, pred) && d[k] == m[k]
                      && Left(c, m, path, pred, k) == Forgot(c, m[k], path + [k], pred)
    ensures forall k :: k in m && !Special(k) && k !in Chosen(m, path, pred) ==> k in Remaining(m, Chosen(m, path, pred))
  {
    hide Forgot, DigestOf, Hashes, Marked, Chosen;
    SpecialNames();
    ChosenMarked(m, path, pred);
    var chosen := Chosen(m, path, pred);
    assert forall x :: x in chosen ==> !Special(x);
    assert FORGOTTEN !in chosen && FORGETTABLE !in chosen;
  }

  /** The loop over the members that are not special. */
  method ForgetMembers(c: Crypto, anyJson: Json, start: map<JsString, Json>, path: Path, pred: Predicate)
    returns (r: Option<Json>)
    requires anyJson.Obj? && Shaped(anyJson)
    requires forall x :: x in Chosen(anyJson.members, path, pred) ==> x in Marked(anyJson.members)
    requires start == Stripped(c, anyJson.members, Chosen(anyJson.members, path, pred))
    ensures r.None? <==> exists k :: MemberThrows(anyJson.members, path, pred, k)
    ensures r.Some? ==> r.value == Forgot(c, anyJson, path, pred)
    decreases anyJson, 1
  {
    hide Forgot, Throws, Stripped, Chosen, Left, Remaining, Special;
    ghost var m := anyJson.members;
    StrippedMembers(c, m, path, pred);
    var members := start;
    var left := members.Keys;
    while left != {}
      invariant left <= start.Keys == members.Keys
      invariant forall k :: k in members ==>
                  members[k] == if k in left || Special(k) then start[k] else Left(c, m, path, pred, k)
      invariant forall k :: k in members && k !in left ==> !MemberThrows(m, path, pred, k)
      decreases |left|
    {
      var x :| x in left;
      left := left - {x};
      if !(|x| > 0 && x[0] == 36) {
        assert !Special(x) by { NotSpecial(x); }
        var one := ForgetAllImpl(c, members[x], path + [x], pred);
        if one.None? {
          assert MemberThrows(m, path, pred, x);
          return None;
        }
        members := members[x := one.value];
      } else {
        assert Special(x) by { IsSpecial(x); }
      }
    }
    ForgottenMembers(c, m, path, pred);
    assert members == map k | k in Remaining(m, Chosen(m, path, pred)) :: Left(c, m, path, pred, k);
    r := Some(Obj(members));
  }

  lemma NotSpecial(x: JsString)
    requires !(|x| > 0 && x[0] == 36)
    ensures !Special(x)
  {
  }

  lemma IsSpecial(x: JsString)
    requires |x| > 0 && x[0] == 36
    ensures Special(x)
  {
  }

  lemma ForgottenItems(c: Crypto, items: seq<Json>, path: Path, pred: Predicate, dup: seq<Json>)
    requires |dup| == |items|
    requires forall k :: 0 <= k < |items| ==> dup[k] == Forgot(c, items[k], path + [Digits(k)], pred)
    ensures Forgot(c, Arr(items), path, pred) == Arr(dup)
  {
    hide Digits;
    assert Forgot(c, Arr(items), path, pred).items == dup;
  }

  ghost predicate ItemThrows(items: seq<Json>, path: Path, pred: Predicate, i: int) {
    0 <= i < |items| && Throws(items[i], path + [Digits(i)], pred)
  }

  ghost predicate ItemDone(c: Crypto, items: seq<Json>, path: Path, pred: Predicate, i: int, dup: Json) {
    0 <= i < |items| && !ItemThrows(items, path, pred, i) && dup == Forgot(c, items[i], path + [Digits(i)], pred)
  }

  lemma ItemsThrow(items: seq<Json>, path: Path, pred: Predicate)
    ensures Throws(Arr(items), path, pred) <==> exists i :: ItemThrows(items, path, pred, i)
  {
    hide Digits;
    if Throws(Arr(items), path, pred) {
      var i :| 0 <= i < |items| && Throws(items[i], path + [Digits(i)], pred);
      assert ItemThrows(items, path, pred, i);
    }
  }

  /** One step of the loop over an array. */
  method ForgetItem(c: Crypto, anyJson: Json, path: Path, pred: Predicate, i: nat) returns (r: Option<Json>)
    requires anyJson.Arr? && i < |anyJson.items| && Shaped(anyJson)
    ensures r.None? <==> ItemThrows(anyJson.items, path, pred, i)
    ensures r.Some? ==> ItemDone(c, anyJson.items, path, pred, i, r.value)
    decreases anyJson, 0
  {
    hide Digits, Forgot, Throws;
    r := ForgetAllImpl(c, anyJson.items[i], path + [Digits(i)], pred);
  }

  method ForgetItems(c: Crypto, anyJson: Json, path: Path, pred: Predicate) returns (r: Option<Json>)
    requires anyJson.Arr? && Shaped(anyJson)
    ensures r == if Throws(anyJson, path, pred) then None else Some(Forgot(c, anyJson, path, pred))
    decreases anyJson, 1
  {
    hide Digits, Forgot, Throws, Shaped, ItemDone, ItemThrows;
    var dup := [];
    ItemsThrow(anyJson.items, path, pred);
    while |dup| < |anyJson.items|
      invariant |dup| <= |anyJson.items|
      invariant forall k :: 0 <= k < |dup| ==> ItemDone(c, anyJson.items, path, pred, k, dup[k])
    {
      var one := ForgetItem(c, anyJson, path, pred, |dup|);
      if one.None? {
        return None;
      }
      dup := dup + [one.value];
    }
    AllDone(c, anyJson.items, path, pred, dup);
    r := Some(Arr(dup));
  }

  lemma AllDone(c: Crypto, items: seq<Json>, path: Path, pred: Predicate, dup: seq<Json>)
    requires |dup| == |items| && forall k :: 0 <= k < |dup| ==> ItemDone(c, items, path, pred, k, dup[k])
    ensures Forgot(c, Arr(items), path, pred) == Arr(dup) && !Throws(Arr(items), path, pred)
  {
    hide Digits, Forgot, Throws;
    ItemsThrow(items, path, pred);
    forall i
      ensures !ItemThrows(items, path, pred, i)
    {
      assert 0 <= i < |items| ==> ItemDone(c, items, path, pred, i, dup[i]);
    }
    ForgottenItems(c, items, path, pred, dup);
  }

  /** forgetAllImpl does what it should, in whatever order the names of an object come. */
  method ForgetAllImpl(c: Crypto, anyJson: Json, path: Path, pred: Predicate) returns (r: Option<Json>)
    requires Shaped(anyJson)
    ensures r == if Throws(anyJson, path, pred) then None else Some(Forgot(c, anyJson, path, pred))
    decreases anyJson, 3
  {
    if anyJson.Arr? {
      r := ForgetItems(c, anyJson, path, pred);
    } else if anyJson.Obj? {
      r := ForgetObject(c, anyJson, path, pred);
    } else {
      r := Some(anyJson);
    }
  }

  method ForgetObject(c: Crypto, anyJson: Json, path: Path, pred: Predicate) returns (r: Option<Json>)
    requires anyJson.Obj? && Shaped(anyJson)
    ensures r == if Throws(anyJson, path, pred) then None else Some(Forgot(c, anyJson, path, pred))
    decreases anyJson, 2
  {
    hide Forgot, Throws, Chosen, Unhashable, BadDigests, Partial, MemberThrows, Shaped;
    ghost var m := anyJson.members;
    ghost var chosen := Chosen(m, path, pred);
    ThrowsCases(m, path, pred);
    ChosenMarked(m, path, pred);
    var members := anyJson.members;
    if FORGETTABLE in members && members[FORGETTABLE].Null? {
      return None;
    }
    if FORGETTABLE in members && members[FORGETTABLE].Obj? {
      var marked := ForgetMarked(c, anyJson, path, pred);
      if marked.None? {
        return None;
      }
      members := marked.value;
      PartialMarked(c, m, chosen);
      if members[FORGETTABLE].members == map[] {
        members := members - {FORGETTABLE};
      }
    } else {
      assert chosen == {};
      PartialNone(c, m);
      NotBad(m);
    }
    r := ForgetMembers(c, anyJson, members, path, pred);
  }

  lemma NothingLeft(salts: map<JsString, Json>, s: set<JsString>)
    ensures salts - s == map[] <==> salts.Keys <= s
  {
    if salts - s == map[] {
      forall x | x in salts
        ensures x in s
      {
        assert x !in salts - s;
      }
    }
  }

  lemma PartialMarked(c: Crypto, m: map<JsString, Json>, s: set<JsString>)
    requires Shaped(Obj(m)) && FORGETTABLE in m && m[FORGETTABLE].Obj? && forall x :: x in s ==> x in Marked(m)
    ensures var d := Partial(c, m, s);
            && FORGETTABLE in d && d[FORGETTABLE].Obj?
            && (d[FORGETTABLE].members == map[] <==> m[FORGETTABLE].members.Keys <= s)
  {
    hide DigestOf, Hashes;
    SpecialNames();
    assert FORGETTABLE !in s;
    NothingLeft(m[FORGETTABLE].members, s);
  }
}
