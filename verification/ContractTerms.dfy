/** Forgettable contract terms: what may be forgotten without changing the contract hash. */
module ContractTerms {
  import opened Wrappers
  import opened Utf16
  import opened Json
  import opened CanonicalJson

  /** Where a member is: the names and item numbers on the way to it. */
  type Path = seq<JsString>

  type Predicate = Path -> bool

  /**
   * The digest that replaces a forgotten member, of its canonical text and its salt, and
   * whether a text decodes to 64 bytes as digests do.
   */
  datatype Crypto = Crypto(digest: (JsString, JsString) -> JsString, decodes: JsString -> bool)

  const FORGETTABLE: JsString := Ascii("$forgettable")
  const FORGOTTEN: JsString := Ascii("$forgotten")

  /** x.startsWith("$") */
  predicate Special(x: JsString) { x != [] && x[0] == 36 }

  lemma SpecialNames()
    ensures FORGETTABLE != FORGOTTEN && Special(FORGETTABLE) && Special(FORGOTTEN)
  {
  }

  predicate Always(path: Path) { true }

  function Either(p: Predicate, q: Predicate): Predicate { path => p(path) || q(path) }

  /** Conversion of a salt to a string; array elements that are null give nothing. */
  function SaltText(j: Json): JsString {
    match j
    case Str(s) => s
    case Arr(items) => SaltItems(items, 0)
    case Obj(_) => Ascii("[object Object]")
    case _ => AtomText(j)
  }

  function SaltItems(items: seq<Json>, i: nat): JsString
    requires i <= |items|
    decreases items, |items| - i
  {
    if i == |items| then []
    else
      (if i > 0 then [COMMA] else []) + (if items[i].Null? then [] else SaltText(items[i])) + SaltItems(items, i + 1)
  }

  // ---------- Members of an object ----------

  /** The names marked as forgettable, with their salts. */
  function Marked(m: map<JsString, Json>): map<JsString, Json> {
    if FORGETTABLE in m && m[FORGETTABLE].Obj? then m[FORGETTABLE].members else map[]
  }

  /** The digests of what is forgotten already. */
  function Hashes(m: map<JsString, Json>): map<JsString, Json> {
    if FORGOTTEN in m && m[FORGOTTEN].Obj? then m[FORGOTTEN].members else map[]
  }

  function Chosen(m: map<JsString, Json>, path: Path, pred: Predicate): set<JsString> {
    set x | x in Marked(m) && pred(path + [x])
  }

  /** A digest is there already. */
  predicate Digested(m: map<JsString, Json>, x: JsString) { x in Hashes(m) && Truthy(Hashes(m)[x]) }

  function Member(m: map<JsString, Json>, x: JsString): Json { if x in m then m[x] else Null }

  /** The names of the members that are left. */
  function Remaining(m: map<JsString, Json>, chosen: set<JsString>): set<JsString> {
    var names := m.Keys - chosen + if chosen == {} then {} else {FORGOTTEN};
    if FORGETTABLE in m && m[FORGETTABLE].Obj? && m[FORGETTABLE].members.Keys <= chosen then names - {FORGETTABLE} else names
  }

  // ---------- Forgetting ----------

  /** The digest that stands for a member of an object that is forgotten. */
  function DigestOf(c: Crypto, j: Json, x: JsString): Json
    requires j.Obj? && x in Marked(j.members)
    decreases j, 0
  {
    if Digested(j.members, x) then Hashes(j.members)[x]
    else
      var cleaned := if x in j.members then Forgot(c, j.members[x], [], Always) else Null;
      Str(c.digest(Text(cleaned), SaltText(Marked(j.members)[x])))
  }

  /** What forgetAllImpl makes of a value, unless it throws. */
  function Forgot(c: Crypto, j: Json, path: Path, pred: Predicate): Json
    decreases j, 1
  {
    match j
    case Arr(items) =>
      Arr(seq(|items|, i requires 0 <= i < |items| => Forgot(c, items[i], path + [Digits(i)], pred)))
    case Obj(m) =>
      var chosen := Chosen(m, path, pred);
      Obj(map k | k in Remaining(m, chosen) ::
        if k == FORGOTTEN && chosen != {} then Obj(Hashes(m) + map x | x in chosen :: DigestOf(c, j, x))
        else if k !in m then Null
        else if k == FORGETTABLE && m[k].Obj? then Obj(m[k].members - chosen)
        else if Special(k) then m[k]
        else Forgot(c, m[k], path + [k], pred))
    case _ => j
  }

  /** When forgetAllImpl throws: on null as $forgettable, on members to forget that are not there. */
  ghost predicate Throws(j: Json, path: Path, pred: Predicate)
    decreases j
  {
    match j
    case Arr(items) => exists i :: 0 <= i < |items| && Throws(items[i], path + [Digits(i)], pred)
    case Obj(m) =>
      var chosen := Chosen(m, path, pred);
      || (FORGETTABLE in m && m[FORGETTABLE].Null?)
      || (chosen != {} && FORGOTTEN in m && Truthy(m[FORGOTTEN]) && !m[FORGOTTEN].Obj?)
      || (exists x :: x in chosen && !Digested(m, x) && (x !in m || Throws(m[x], [], Always)))
      || (exists k :: k in m && k !in chosen && !Special(k) && Throws(m[k], path + [k], pred))
    case _ => false
  }

  /**
   * Neither an array nor text stands where the names of an object are expected, and the names
   * to forget are not special ones.
   */
  ghost predicate Shaped(j: Json) {
    match j
    case Arr(items) => forall i :: 0 <= i < |items| ==> Shaped(items[i])
    case Obj(m) =>
      && (FORGETTABLE in m ==> !m[FORGETTABLE].Arr?)
      && (FORGOTTEN in m ==> !m[FORGOTTEN].Arr? && (m[FORGOTTEN].Str? ==> !Truthy(m[FORGOTTEN])))
      && (forall x :: x in Marked(m) ==> !Special(x))
      && (forall k :: k in m && !Special(k) ==> Shaped(m[k]))
    case _ => true
  }

  // ---------- Forgetting step by step ----------

  /** Only what the predicate says below the path matters. */
  ghost predicate Agree(path: Path, p: Predicate, other: Path, q: Predicate) {
    forall x: Path :: p(path + x) == q(other + x)
  }

  lemma AgreeBelow(path: Path, p: Predicate, other: Path, q: Predicate, x: JsString)
    requires Agree(path, p, other, q)
    ensures p(path + [x]) == q(other + [x]) && Agree(path + [x], p, other + [x], q)
  {
    forall y: Path
      ensures p(path + [x] + y) == q(other + [x] + y)
    {
      assert path + [x] + y == path + ([x] + y) && other + [x] + y == other + ([x] + y);
    }
  }

  lemma SameChosen(m: map<JsString, Json>, path: Path, p: Predicate, other: Path, q: Predicate)
    requires Agree(path, p, other, q)
    ensures Chosen(m, path, p) == Chosen(m, other, q)
  {
    forall x | x in Marked(m)
      ensures p(path + [x]) == q(other + [x])
    {
      AgreeBelow(path, p, other, q, x);
    }
  }

  lemma {:induction false} SameForgot(c: Crypto, j: Json, path: Path, p: Predicate, other: Path, q: Predicate)
    requires Agree(path, p, other, q)
    ensures Forgot(c, j, path, p) == Forgot(c, j, other, q) && Throws(j, path, p) == Throws(j, other, q)
    decreases j
  {
    hide Agree, Chosen, Digested, Hashes, Marked, Remaining, Text, Digits, DigestOf;
    match j
    case Arr(items) =>
      forall i | 0 <= i < |items|
        ensures Forgot(c, items[i], path + [Digits(i)], p) == Forgot(c, items[i], other + [Digits(i)], q)
        ensures Throws(items[i], path + [Digits(i)], p) == Throws(items[i], other + [Digits(i)], q)
      {
        AgreeBelow(path, p, other, q, Digits(i));
        SameForgot(c, items[i], path + [Digits(i)], p, other + [Digits(i)], q);
      }
      assert Forgot(c, j, path, p).items == Forgot(c, j, other, q).items;
    case Obj(m) =>
      SameChosen(m, path, p, other, q);
      forall k | k in m
        ensures Forgot(c, m[k], path + [k], p) == Forgot(c, m[k], other + [k], q)
        ensures Throws(m[k], path + [k], p) == Throws(m[k], other + [k], q)
      {
        AgreeBelow(path, p, other, q, k);
        SameForgot(c, m[k], path + [k], p, other + [k], q);
      }
      assert Forgot(c, j, path, p).members == Forgot(c, j, other, q).members;
    case _ =>
  }

  // What an object consists of after some of its members are forgotten: the names that are
  // still marked, the digests, and the other members.

  ghost predicate MarkedPart(m: map<JsString, Json>, chosen: set<JsString>, after: map<JsString, Json>) {
    && Marked(after) == Marked(m) - chosen
    && (FORGETTABLE in after <==> FORGETTABLE in m && !(m[FORGETTABLE].Obj? && Marked(m).Keys <= chosen))
    && (FORGETTABLE in after ==> if m[FORGETTABLE].Obj? then after[FORGETTABLE].Obj? else after[FORGETTABLE] == m[FORGETTABLE])
  }

  ghost predicate DigestPart(c: Crypto, m: map<JsString, Json>, chosen: set<JsString>, after: map<JsString, Json>)
    requires forall x :: x in chosen ==> x in Marked(m)
  {
    && Hashes(after) == Hashes(m) + (map x | x in chosen :: DigestOf(c, Obj(m), x))
    && (FORGOTTEN in after <==> FORGOTTEN in m || chosen != {})
    && (FORGOTTEN in after ==> if chosen != {} then after[FORGOTTEN].Obj? else after[FORGOTTEN] == m[FORGOTTEN])
  }

  ghost predicate OtherPart(c: Crypto, m: map<JsString, Json>, path: Path, p: Predicate, after: map<JsString, Json>) {
    forall k :: k != FORGETTABLE && k != FORGOTTEN ==>
      && (k in after <==> k in m && k !in Chosen(m, path, p))
      && (k in after ==> after[k] == if Special(k) then m[k] else Forgot(c, m[k], path + [k], p))
  }

  ghost predicate AfterForgetting(c: Crypto, m: map<JsString, Json>, path: Path, p: Predicate, after: map<JsString, Json>) {
    && MarkedPart(m, Chosen(m, path, p), after) && DigestPart(c, m, Chosen(m, path, p), after)
    && OtherPart(c, m, path, p, after)
  }

  /** The member that forgetting leaves under a name. */
  function Left(c: Crypto, m: map<JsString, Json>, path: Path, p: Predicate, k: JsString): Json {
    var chosen := Chosen(m, path, p);
    if k == FORGOTTEN && chosen != {} then Obj(Hashes(m) + map x | x in chosen :: DigestOf(c, Obj(m), x))
    else if k !in m then Null
    else if k == FORGETTABLE && m[k].Obj? then Obj(m[k].members - chosen)
    else if Special(k) then m[k]
    else Forgot(c, m[k], path + [k], p)
  }

  lemma ForgottenMembers(c: Crypto, m: map<JsString, Json>, path: Path, p: Predicate)
    ensures Forgot(c, Obj(m), path, p)
            == Obj(map k | k in Remaining(m, Chosen(m, path, p)) :: Left(c, m, path, p, k))
  {
    hide DigestOf, Hashes, Chosen, Special, Remaining;
  }

  lemma ForgottenParts(c: Crypto, m: map<JsString, Json>, path: Path, p: Predicate)
    requires forall x :: x in Marked(m) ==> !Special(x)
    ensures Forgot(c, Obj(m), path, p).Obj?
    ensures AfterForgetting(c, m, path, p, Forgot(c, Obj(m), path, p).members)
  {
    hide DigestOf, Forgot, Marked;
    SpecialNames();
    ForgottenMembers(c, m, path, p);
    var chosen := Chosen(m, path, p);
    var after := map k | k in Remaining(m, chosen) :: Left(c, m, path, p, k);
    assert MarkedPart(m, chosen, after) by { MarkedLeft(c, m, path, p, after); }
    assert DigestPart(c, m, chosen, after) by { DigestsLeft(c, m, path, p, after); }
    assert OtherPart(c, m, path, p, after) by { hide Special; }
  }

  lemma MarkedLeft(c: Crypto, m: map<JsString, Json>, path: Path, p: Predicate, after: map<JsString, Json>)
    requires after == map k | k in Remaining(m, Chosen(m, path, p)) :: Left(c, m, path, p, k)
    requires forall x :: x in Marked(m) ==> !Special(x)
    ensures MarkedPart(m, Chosen(m, path, p), after)
  {
    hide DigestOf, Forgot, Chosen, Special, Hashes;
    SpecialNames();
    var chosen := Chosen(m, path, p);
    assert forall x :: x in chosen ==> x in Marked(m) by { ChosenMarked(m, path, p); }
    assert FORGETTABLE !in chosen;
  }

  lemma ChosenMarked(m: map<JsString, Json>, path: Path, p: Predicate)
    ensures forall x :: x in Chosen(m, path, p) ==> x in Marked(m)
  {
  }

  lemma DigestsLeft(c: Crypto, m: map<JsString, Json>, path: Path, p: Predicate, after: map<JsString, Json>)
    requires after == map k | k in Remaining(m, Chosen(m, path, p)) :: Left(c, m, path, p, k)
    requires forall x :: x in Marked(m) ==> !Special(x)
    ensures DigestPart(c, m, Chosen(m, path, p), after)
  {
    hide DigestOf, Forgot, Marked, Special, Chosen;
    SpecialNames();
    var chosen := Chosen(m, path, p);
    ChosenMarked(m, path, p);
    assert FORGOTTEN !in chosen;
    var digests := map x | x in chosen :: DigestOf(c, Obj(m), x);
    assert chosen == {} ==> Hashes(m) + digests == Hashes(m);
  }

  lemma TwoChosen(m: map<JsString, Json>, m1: map<JsString, Json>, path: Path, p: Predicate, q: Predicate)
    requires Marked(m1) == Marked(m) - Chosen(m, path, p)
    ensures Chosen(m, path, Either(p, q)) == Chosen(m, path, p) + Chosen(m, path, q)
    ensures Chosen(m1, path, q) == Chosen(m, path, q) - Chosen(m, path, p)
  {
    hide Marked;
  }

  /** A member that is forgotten in the second step has the digest that it has in one step. */
  lemma SameDigest(c: Crypto, m: map<JsString, Json>, m1: map<JsString, Json>, path: Path, p: Predicate, x: JsString)
    requires AfterForgetting(c, m, path, p, m1)
    requires x in Marked(m) && !Special(x) && x !in Chosen(m, path, p)
    requires x in m ==> Forgot(c, Forgot(c, m[x], path + [x], p), [], Always) == Forgot(c, m[x], [], Always)
    ensures x in Marked(m1) && DigestOf(c, Obj(m1), x) == DigestOf(c, Obj(m), x) && Digested(m1, x) == Digested(m, x)
  {
    hide Forgot, Marked, Hashes, Text, SaltText, Chosen, Special;
    SpecialNames();
    ChosenMarked(m, path, p);
    assert x in Hashes(m1) <==> x in Hashes(m);
    assert x in m1 <==> x in m;
    assert x in m ==> m1[x] == Forgot(c, m[x], path + [x], p);
    assert Marked(m1)[x] == Marked(m)[x];
  }

  /** An object is determined by its marked names, its digests and its other members. */
  lemma SameObject(a: map<JsString, Json>, b: map<JsString, Json>)
    requires Marked(a) == Marked(b) && Hashes(a) == Hashes(b)
    requires FORGETTABLE in a <==> FORGETTABLE in b
    requires FORGETTABLE in a ==> a[FORGETTABLE] == b[FORGETTABLE] || (a[FORGETTABLE].Obj? && b[FORGETTABLE].Obj?)
    requires FORGOTTEN in a <==> FORGOTTEN in b
    requires FORGOTTEN in a ==> a[FORGOTTEN] == b[FORGOTTEN] || (a[FORGOTTEN].Obj? && b[FORGOTTEN].Obj?)
    requires forall k :: k != FORGETTABLE && k != FORGOTTEN ==> (k in a <==> k in b) && (k in a ==> a[k] == b[k])
    ensures a == b
  {
    assert FORGETTABLE in a ==> a[FORGETTABLE] == b[FORGETTABLE];
    assert FORGOTTEN in a ==> a[FORGOTTEN] == b[FORGOTTEN];
  }

  lemma CoveredInSteps(names: set<JsString>, s: set<JsString>, t: set<JsString>)
    ensures names - s <= t - s <==> names <= s + t
  {
    if names - s <= t - s {
      forall x | x in names
        ensures x in s + t
      {
        assert x in s || x in names - s;
      }
    }
  }

  lemma SameMarkedMember(m: map<JsString, Json>, m1: map<JsString, Json>, m2: map<JsString, Json>,
                         me: map<JsString, Json>, s: set<JsString>, t: set<JsString>)
    requires MarkedPart(m, s, m1) && MarkedPart(m1, t - s, m2) && MarkedPart(m, s + t, me)
    ensures Marked(m2) == Marked(me)
    ensures FORGETTABLE in m2 <==> FORGETTABLE in me
    ensures FORGETTABLE in m2 ==> m2[FORGETTABLE] == me[FORGETTABLE] || (m2[FORGETTABLE].Obj? && me[FORGETTABLE].Obj?)
  {
    hide Marked;
    assert Marked(m1).Keys == Marked(m).Keys - s;
    CoveredInSteps(Marked(m).Keys, s, t);
  }

  lemma SameDigestMember(c: Crypto, m: map<JsString, Json>, m1: map<JsString, Json>, m2: map<JsString, Json>,
                         me: map<JsString, Json>, s: set<JsString>, t: set<JsString>)
    requires (forall x :: x in s + t ==> x in Marked(m)) && forall x :: x in t - s ==> x in Marked(m1)
    requires DigestPart(c, m, s, m1) && DigestPart(c, m1, t - s, m2) && DigestPart(c, m, s + t, me)
    requires forall x :: x in t - s ==> DigestOf(c, Obj(m1), x) == DigestOf(c, Obj(m), x)
    ensures Hashes(m2) == Hashes(me)
    ensures FORGOTTEN in m2 <==> FORGOTTEN in me
    ensures FORGOTTEN in m2 ==> m2[FORGOTTEN] == me[FORGOTTEN] || (m2[FORGOTTEN].Obj? && me[FORGOTTEN].Obj?)
  {
    hide DigestOf, Marked, Hashes;
    assert s == {} && t - s == {} ==> s + t == {};
  }

  lemma SameOtherMember(c: Crypto, m: map<JsString, Json>, m1: map<JsString, Json>, m2: map<JsString, Json>,
                        me: map<JsString, Json>, path: Path, p: Predicate, q: Predicate, k: JsString)
    requires OtherPart(c, m, path, p, m1) && OtherPart(c, m1, path, q, m2) && OtherPart(c, m, path, Either(p, q), me)
    requires Chosen(m, path, Either(p, q)) == Chosen(m, path, p) + Chosen(m, path, q)
    requires Chosen(m1, path, q) == Chosen(m, path, q) - Chosen(m, path, p)
    requires k != FORGETTABLE && k != FORGOTTEN
    requires k in m && !Special(k) && k !in Chosen(m, path, p) ==>
               Forgot(c, Forgot(c, m[k], path + [k], p), path + [k], q) == Forgot(c, m[k], path + [k], Either(p, q))
    ensures k in m2 <==> k in me
    ensures k in m2 ==> m2[k] == me[k]
  {
    hide Forgot, Chosen, Special, Either;
  }

  /** Forgetting in two steps or in one leaves the same members. */
  lemma SameAfterwards(c: Crypto, m: map<JsString, Json>, m1: map<JsString, Json>, m2: map<JsString, Json>,
                       me: map<JsString, Json>, path: Path, p: Predicate, q: Predicate)
    requires AfterForgetting(c, m, path, p, m1) && AfterForgetting(c, m1, path, q, m2)
    requires AfterForgetting(c, m, path, Either(p, q), me)
    requires forall x :: x in Chosen(m1, path, q) ==> DigestOf(c, Obj(m1), x) == DigestOf(c, Obj(m), x)
    requires forall k :: k in m && !Special(k) && k !in Chosen(m, path, p) ==>
               Forgot(c, Forgot(c, m[k], path + [k], p), path + [k], q) == Forgot(c, m[k], path + [k], Either(p, q))
    ensures m2 == me
  {
    hide Forgot, DigestOf, Chosen, Special, Marked, Hashes, Either, MarkedPart, DigestPart, OtherPart;
    assert Marked(m1) == Marked(m) - Chosen(m, path, p) by { MarkedIs(m, Chosen(m, path, p), m1); }
    TwoChosen(m, m1, path, p, q);
    ChosenMarked(m, path, p);
    ChosenMarked(m, path, q);
    ChosenMarked(m1, path, q);
    SameMarkedMember(m, m1, m2, me, Chosen(m, path, p), Chosen(m, path, q));
    SameDigestMember(c, m, m1, m2, me, Chosen(m, path, p), Chosen(m, path, q));
    forall k | k != FORGETTABLE && k != FORGOTTEN
      ensures k in m2 <==> k in me
      ensures k in m2 ==> m2[k] == me[k]
    {
      SameOtherMember(c, m, m1, m2, me, path, p, q, k);
    }
    SameObject(m2, me);
  }

  lemma MarkedIs(m: map<JsString, Json>, chosen: set<JsString>, after: map<JsString, Json>)
    requires MarkedPart(m, chosen, after)
    ensures Marked(after) == Marked(m) - chosen
  {
  }

  lemma ScrubAnywhere(c: Crypto, j: Json, path: Path, p: Predicate)
    ensures Forgot(c, j, path, Either(p, Always)) == Forgot(c, j, [], Always)
    ensures Throws(j, path, Either(p, Always)) == Throws(j, [], Always)
  {
    var always: Predicate := Always;
    forall x: Path
      ensures Either(p, always)(path + x) == always([] + x)
    {
      assert always(path + x) && always([] + x);
    }
    SameForgot(c, j, path, Either(p, Always), [], Always);
  }

  // Why forgetting throws on an object.

  ghost predicate BadDigests(m: map<JsString, Json>, chosen: set<JsString>) {
    chosen != {} && FORGOTTEN in m && Truthy(m[FORGOTTEN]) && !m[FORGOTTEN].Obj?
  }

  ghost predicate Unhashable(m: map<JsString, Json>, x: JsString) {
    !Digested(m, x) && (x !in m || Throws(m[x], [], Always))
  }

  ghost predicate MemberThrows(m: map<JsString, Json>, path: Path, p: Predicate, k: JsString) {
    k in m && k !in Chosen(m, path, p) && !Special(k) && Throws(m[k], path + [k], p)
  }

  lemma ThrowsCases(m: map<JsString, Json>, path: Path, p: Predicate)
    ensures Throws(Obj(m), path, p) <==>
            || (FORGETTABLE in m && m[FORGETTABLE].Null?) || BadDigests(m, Chosen(m, path, p))
            || (exists x :: x in Chosen(m, path, p) && Unhashable(m, x)) || (exists k :: MemberThrows(m, path, p, k))
  {
    hide Chosen, Special, Digested, Truthy;
    if Throws(Obj(m), path, p) {
      if x :| x in Chosen(m, path, p) && !Digested(m, x) && (x !in m || Throws(m[x], [], Always)) {
        assert Unhashable(m, x);
      } else if k :| k in m && k !in Chosen(m, path, p) && !Special(k) && Throws(m[k], path + [k], p) {
        assert MemberThrows(m, path, p, k);
      }
    }
  }

  lemma SameUnhashable(c: Crypto, m: map<JsString, Json>, m1: map<JsString, Json>, path: Path, p: Predicate, x: JsString)
    requires AfterForgetting(c, m, path, p, m1) && x in Marked(m) && !Special(x) && x !in Chosen(m, path, p)
    requires x in m ==> Throws(Forgot(c, m[x], path + [x], p), [], Always) == Throws(m[x], [], Always)
    ensures Unhashable(m1, x) == Unhashable(m, x)
  {
    hide Forgot, Chosen, Special, Throws, Marked, Hashes, Truthy;
    SpecialNames();
    ChosenMarked(m, path, p);
  }

  lemma SameMemberThrows(c: Crypto, m: map<JsString, Json>, m1: map<JsString, Json>, path: Path,
                         p: Predicate, q: Predicate, k: JsString)
    requires OtherPart(c, m, path, p, m1)
    requires Chosen(m, path, Either(p, q)) == Chosen(m, path, p) + Chosen(m, path, q)
    requires Chosen(m1, path, q) == Chosen(m, path, q) - Chosen(m, path, p)
    requires k in m && !Special(k) && k !in Chosen(m, path, p) ==>
               Throws(Forgot(c, m[k], path + [k], p), path + [k], q) == Throws(m[k], path + [k], Either(p, q))
    ensures MemberThrows(m1, path, q, k) == MemberThrows(m, path, Either(p, q), k)
  {
    hide Forgot, Chosen, Special, Throws, Either;
    SpecialNames();
  }

  lemma SameBadDigests(c: Crypto, m: map<JsString, Json>, m1: map<JsString, Json>, s: set<JsString>, t: set<JsString>)
    requires (forall x :: x in s ==> x in Marked(m)) && DigestPart(c, m, s, m1) && !BadDigests(m, s)
    ensures BadDigests(m1, t - s) == BadDigests(m, s + t)
  {
    hide Hashes, Marked, DigestOf;
    assert s == {} ==> t - s == t && s + t == t;
  }

  /** Whether the second step throws on an object depends on the original object alone. */
  lemma ThrowsInSteps(c: Crypto, m: map<JsString, Json>, m1: map<JsString, Json>, path: Path, p: Predicate, q: Predicate)
    requires AfterForgetting(c, m, path, p, m1) && !Throws(Obj(m), path, p) && forall x :: x in Marked(m) ==> !Special(x)
    requires forall k :: k in m && !Special(k) && k !in Chosen(m, path, p) ==>
               && Throws(Forgot(c, m[k], path + [k], p), path + [k], q) == Throws(m[k], path + [k], Either(p, q))
               && Throws(Forgot(c, m[k], path + [k], p), [], Always) == Throws(m[k], [], Always)
    ensures Throws(Obj(m1), path, q) == Throws(Obj(m), path, Either(p, q))
  {
    hide Forgot, Special, Marked, Either, Throws, Chosen, DigestPart, OtherPart, Unhashable, MemberThrows, BadDigests;
    TwoChosen(m, m1, path, p, q);
    ChosenMarked(m, path, p);
    ChosenMarked(m, path, q);
    ThrowsCases(m, path, p);
    ThrowsCases(m1, path, q);
    ThrowsCases(m, path, Either(p, q));
    SameBadDigests(c, m, m1, Chosen(m, path, p), Chosen(m, path, q));
    forall x | x in Chosen(m1, path, q)
      ensures Unhashable(m1, x) == Unhashable(m, x)
    {
      SameUnhashable(c, m, m1, path, p, x);
    }
    forall k
      ensures MemberThrows(m1, path, q, k) == MemberThrows(m, path, Either(p, q), k)
    {
      SameMemberThrows(c, m, m1, path, p, q, k);
    }
  }

  /**
   * Forgetting what one predicate says and then what another one says is the same as
   * forgetting at once what either says.
   */
  lemma {:induction false} ForgottenInSteps(c: Crypto, j: Json, path: Path, p: Predicate, q: Predicate)
    requires Shaped(j) && !Throws(j, path, p)
    ensures Forgot(c, Forgot(c, j, path, p), path, q) == Forgot(c, j, path, Either(p, q))
    ensures Throws(Forgot(c, j, path, p), path, q) == Throws(j, path, Either(p, q))
    decreases j
  {
    hide Chosen, Marked, Hashes, Remaining, Digested, DigestOf, Special, Either, AfterForgetting, Text, Digits, Truthy;
    match j
    case Arr(items) =>
      var first := Forgot(c, j, path, p);
      forall i | 0 <= i < |items|
        ensures first.items[i] == Forgot(c, items[i], path + [Digits(i)], p)
        ensures Forgot(c, first.items[i], path + [Digits(i)], q) == Forgot(c, items[i], path + [Digits(i)], Either(p, q))
        ensures Throws(first.items[i], path + [Digits(i)], q) == Throws(items[i], path + [Digits(i)], Either(p, q))
      {
        ForgottenInSteps(c, items[i], path + [Digits(i)], p, q);
      }
      assert Forgot(c, first, path, q).items == Forgot(c, j, path, Either(p, q)).items;
    case Obj(m) =>
      forall k | k in m && !Special(k) && k !in Chosen(m, path, p)
        ensures Forgot(c, Forgot(c, m[k], path + [k], p), path + [k], q) == Forgot(c, m[k], path + [k], Either(p, q))
        ensures Throws(Forgot(c, m[k], path + [k], p), path + [k], q) == Throws(m[k], path + [k], Either(p, q))
        ensures Forgot(c, Forgot(c, m[k], path + [k], p), [], Always) == Forgot(c, m[k], [], Always)
        ensures Throws(Forgot(c, m[k], path + [k], p), [], Always) == Throws(m[k], [], Always)
      {
        ForgottenInSteps(c, m[k], path + [k], p, q);
        ForgottenInSteps(c, m[k], path + [k], p, Always);
        ScrubAnywhere(c, m[k], path + [k], p);
        SameForgot(c, Forgot(c, m[k], path + [k], p), path + [k], Always, [], Always);
      }
      ObjectInSteps(c, m, path, p, q);
    case _ =>
  }

  lemma ObjectInSteps(c: Crypto, m: map<JsString, Json>, path: Path, p: Predicate, q: Predicate)
    requires Shaped(Obj(m)) && !Throws(Obj(m), path, p)
    requires forall k :: k in m && !Special(k) && k !in Chosen(m, path, p) ==>
               && Forgot(c, Forgot(c, m[k], path + [k], p), path + [k], q) == Forgot(c, m[k], path + [k], Either(p, q))
               && Throws(Forgot(c, m[k], path + [k], p), path + [k], q) == Throws(m[k], path + [k], Either(p, q))
               && Forgot(c, Forgot(c, m[k], path + [k], p), [], Always) == Forgot(c, m[k], [], Always)
               && Throws(Forgot(c, m[k], path + [k], p), [], Always) == Throws(m[k], [], Always)
    ensures Forgot(c, Forgot(c, Obj(m), path, p), path, q) == Forgot(c, Obj(m), path, Either(p, q))
    ensures Throws(Forgot(c, Obj(m), path, p), path, q) == Throws(Obj(m), path, Either(p, q))
  {
    hide Forgot, Chosen, Marked, Hashes, DigestOf, Special, Either, AfterForgetting, Throws;
    assert forall x :: x in Marked(m) ==> !Special(x);
    ForgottenParts(c, m, path, p);
    ForgottenParts(c, m, path, Either(p, q));
    var m1 := Forgot(c, Obj(m), path, p).members;
    ThrowsInSteps(c, m, m1, path, p, q);
    assert Marked(m1) == Marked(m) - Chosen(m, path, p) by { AfterMarked(c, m, path, p, m1); }
    ForgottenParts(c, m1, path, q);
    ChosenMarked(m1, path, q);
    TwoChosen(m, m1, path, p, q);
    forall x | x in Chosen(m1, path, q)
      ensures DigestOf(c, Obj(m1), x) == DigestOf(c, Obj(m), x)
    {
      SameDigest(c, m, m1, path, p, x);
    }
    SameAfterwards(c, m, m1, Forgot(c, Obj(m1), path, q).members, Forgot(c, Obj(m), path, Either(p, q)).members, path, p, q);
  }

  lemma AfterMarked(c: Crypto, m: map<JsString, Json>, path: Path, p: Predicate, after: map<JsString, Json>)
    requires AfterForgetting(c, m, path, p, after)
    ensures Marked(after) == Marked(m) - Chosen(m, path, p)
  {
    hide Marked, DigestPart, OtherPart;
  }

  // ---------- The contract hash ----------

  /** forgetAll; nothing when it throws. */
  ghost function ForgetAll(c: Crypto, j: Json, pred: Predicate): Option<Json> {
    if Throws(j, [], pred) then None else Some(Forgot(c, j, [], pred))
  }

  ghost function Scrub(c: Crypto, j: Json): Option<Json> { ForgetAll(c, j, Always) }

  /** hashContractTerms, with the hash of a text followed by a zero. */
  ghost function HashContractTerms(c: Crypto, hash: JsString -> JsString, j: Json): Option<JsString> {
    match Scrub(c, j)
    case None => None
    case Some(cleaned) => Some(hash(Text(cleaned) + [0]))
  }

  /** Whatever is forgotten, scrubbing gives the same, and the contract hash does not change. */
  lemma HashUnchanged(c: Crypto, hash: JsString -> JsString, j: Json, pred: Predicate)
    requires Shaped(j) && ForgetAll(c, j, pred).Some?
    ensures Scrub(c, ForgetAll(c, j, pred).value) == Scrub(c, j)
    ensures HashContractTerms(c, hash, ForgetAll(c, j, pred).value) == HashContractTerms(c, hash, j)
  {
    hide Forgot, Throws;
    ForgottenInSteps(c, j, [], pred, Always);
    ScrubAnywhere(c, j, [], pred);
  }

  /** Forgetting in two steps, in either order, is forgetting at once. */
  lemma OrderDoesNotMatter(c: Crypto, j: Json, p: Predicate, q: Predicate)
    requires Shaped(j) && ForgetAll(c, j, p).Some? && ForgetAll(c, j, q).Some?
    ensures ForgetAll(c, ForgetAll(c, j, p).value, q) == ForgetAll(c, j, Either(p, q))
    ensures ForgetAll(c, ForgetAll(c, j, q).value, p) == ForgetAll(c, j, Either(p, q))
  {
    hide Forgot, Throws;
    ForgottenInSteps(c, j, [], p, q);
    ForgottenInSteps(c, j, [], q, p);
    SameForgot(c, j, [], Either(p, q), [], Either(q, p));
  }

  /** With a hash that has no collisions, the contract hash is that of one scrubbed value only. */
  lemma HashIdentifies(c: Crypto, hash: JsString -> JsString, a: Json, b: Json)
    requires forall x, y :: hash(x) == hash(y) ==> x == y
    requires Scrub(c, a).Some? && Scrub(c, b).Some?
    ensures HashContractTerms(c, hash, a) == HashContractTerms(c, hash, b) <==> Scrub(c, a) == Scrub(c, b)
  {
    hide Forgot, Throws, Text;
    var x, y := Scrub(c, a).value, Scrub(c, b).value;
    if hash(Text(x) + [0]) == hash(Text(y) + [0]) {
      assert (Text(x) + [0])[..|Text(x)|] == Text(x) && (Text(y) + [0])[..|Text(y)|] == Text(y);
      Canonical(x, y);
    }
  }

  // ---------- Validation ----------

  predicate NameUnit(u: CodeUnit) { 48 <= u <= 57 || 65 <= u <= 90 || u == 95 || 97 <= u <= 122 }

  /** /^[0-9A-Za-z_]+$/ */
  predicate NameOk(x: JsString) { x != [] && forall i :: 0 <= i < |x| ==> NameUnit(x[i]) }

  /** The first n elements of an array under their numbers. */
  function Numbered(items: seq<Json>, n: nat): map<JsString, Json>
    requires n <= |items|
  {
    if n == 0 then map[] else Numbered(items, n - 1)[Digits(n - 1) := items[n - 1]]
  }

  /** The members that Object.keys finds. */
  function Fields(j: Json): map<JsString, Json> {
    match j
    case Obj(m) => m
    case Arr(items) => Numbered(items, |items|)
    case _ => map[]
  }

  ghost predicate SaltsValid(m: map<JsString, Json>, salts: Json) {
    (salts.Obj? || salts.Arr?) && forall x :: x in Fields(salts) ==> NameOk(x) && x in m && Fields(salts)[x].Str?
  }

  ghost predicate DigestsValid(c: Crypto, m: map<JsString, Json>, digests: Json) {
    && (digests.Obj? || digests.Arr?)
    && (forall x :: x in Fields(digests) ==>
          NameOk(x) && x !in m && Fields(digests)[x].Str? && c.decodes(Fields(digests)[x].s))
    && (Fields(digests) != map[] && FORGETTABLE in m && m[FORGETTABLE].Obj? ==> FORGOTTEN !in m[FORGETTABLE].members)
  }

  /** validateForgettable */
  ghost predicate Valid(c: Crypto, j: Json) {
    match j
    case Num(n) => -0x1F_FFFF_FFFF_FFFF <= n <= 0x1F_FFFF_FFFF_FFFF
    case Arr(items) => forall i :: 0 <= i < |items| ==> Valid(c, items[i])
    case Obj(m) =>
      forall k :: k in m ==>
        if NameOk(k) then Valid(c, m[k])
        else if k == FORGETTABLE then SaltsValid(m, m[k])
        else k == FORGOTTEN && DigestsValid(c, m, m[k])
    case _ => true
  }

  /** Digests are digests. */
  ghost predicate Sound(c: Crypto) { forall text, salt :: c.decodes(c.digest(text, salt)) }

  lemma NamesAreNotSpecial(x: JsString)
    ensures NameOk(x) ==> !Special(x)
  {
    SpecialNames();
  }

  /** Forgetting does not throw on valid terms, and they stay valid. */
  lemma {:induction false} ValidityKept(c: Crypto, j: Json, path: Path, p: Predicate)
    requires Sound(c) && Valid(c, j) && Shaped(j)
    ensures !Throws(j, path, p) && Valid(c, Forgot(c, j, path, p)) && Shaped(Forgot(c, j, path, p))
    decreases j
  {
    hide Chosen, Marked, Hashes, Remaining, Digested, DigestOf, Special, Text, Digits, Truthy, Sound, NameOk;
    match j
    case Arr(items) =>
      forall i | 0 <= i < |items|
        ensures !Throws(items[i], path + [Digits(i)], p) && Valid(c, Forgot(c, items[i], path + [Digits(i)], p))
        ensures Shaped(Forgot(c, items[i], path + [Digits(i)], p))
      {
        ValidityKept(c, items[i], path + [Digits(i)], p);
      }
    case Obj(m) =>
      forall k | k in m && NameOk(k)
        ensures !Throws(m[k], [], Always) && !Throws(m[k], path + [k], p)
        ensures Valid(c, Forgot(c, m[k], path + [k], p)) && Shaped(Forgot(c, m[k], path + [k], p))
      {
        NamesAreNotSpecial(k);
        ValidityKept(c, m[k], [], Always);
        ValidityKept(c, m[k], path + [k], p);
      }
      ObjectStaysValid(c, m, path, p);
    case _ =>
  }

  /** What validity says about the parts of an object. */
  lemma ValidParts(c: Crypto, m: map<JsString, Json>)
    requires Valid(c, Obj(m)) && Shaped(Obj(m))
    ensures forall k :: k in m ==> NameOk(k) || k == FORGETTABLE || k == FORGOTTEN
    ensures FORGETTABLE in m ==> m[FORGETTABLE].Obj?
    ensures FORGOTTEN in m ==> m[FORGOTTEN].Obj?
    ensures forall x :: x in Marked(m) ==> NameOk(x) && x in m && Marked(m)[x].Str? && !Special(x)
    ensures forall x :: x in Hashes(m) ==> NameOk(x) && x !in m && Hashes(m)[x].Str? && c.decodes(Hashes(m)[x].s)
    ensures !NameOk(FORGETTABLE) && !NameOk(FORGOTTEN)
  {
    hide NameOk;
    SpecialNames();
    NamesAreNotSpecial(FORGETTABLE);
    NamesAreNotSpecial(FORGOTTEN);
    forall x | x in Marked(m)
      ensures !Special(x)
    {
      NamesAreNotSpecial(x);
    }
  }

  lemma ObjectStaysValid(c: Crypto, m: map<JsString, Json>, path: Path, p: Predicate)
    requires Sound(c) && Valid(c, Obj(m)) && Shaped(Obj(m))
    requires forall k :: k in m && NameOk(k) ==>
               && !Throws(m[k], [], Always) && !Throws(m[k], path + [k], p)
               && Valid(c, Forgot(c, m[k], path + [k], p)) && Shaped(Forgot(c, m[k], path + [k], p))
    ensures !Throws(Obj(m), path, p)
    ensures Valid(c, Forgot(c, Obj(m), path, p)) && Shaped(Forgot(c, Obj(m), path, p))
  {
    hide NameOk, Marked, Hashes, Forgot, Throws, DigestOf, Special, Chosen, Valid, Shaped, Sound, MarkedPart, DigestPart,
         OtherPart, Unhashable, MemberThrows, BadDigests;
    SpecialNames();
    ValidParts(c, m);
    ChosenMarked(m, path, p);
    ForgottenParts(c, m, path, p);
    ThrowsCases(m, path, p);
    assert !BadDigests(m, Chosen(m, path, p)) by { GoodDigests(m, Chosen(m, path, p)); }
    forall x | x in Chosen(m, path, p)
      ensures !Unhashable(m, x)
    {
      Hashable(m, x);
    }
    forall k
      ensures !MemberThrows(m, path, p, k)
    {
      MemberFine(c, m, path, p, k);
    }
    ValidAfter(c, m, path, p, Forgot(c, Obj(m), path, p).members);
  }

  lemma GoodDigests(m: map<JsString, Json>, chosen: set<JsString>)
    requires FORGOTTEN in m ==> m[FORGOTTEN].Obj?
    ensures !BadDigests(m, chosen)
  {
  }

  lemma Hashable(m: map<JsString, Json>, x: JsString)
    requires x in m && !Throws(m[x], [], Always)
    ensures !Unhashable(m, x)
  {
    hide Throws;
  }

  lemma MemberFine(c: Crypto, m: map<JsString, Json>, path: Path, p: Predicate, k: JsString)
    requires forall k :: k in m ==> NameOk(k) || k == FORGETTABLE || k == FORGOTTEN
    requires k in m && NameOk(k) ==> !Throws(m[k], path + [k], p)
    ensures !MemberThrows(m, path, p, k)
  {
    hide Throws, NameOk, Chosen;
    SpecialNames();
  }

  lemma ValidFromParts(c: Crypto, a: map<JsString, Json>)
    requires forall k :: k in a ==> NameOk(k) || k == FORGETTABLE || k == FORGOTTEN
    requires FORGETTABLE in a ==> a[FORGETTABLE].Obj?
    requires FORGOTTEN in a ==> a[FORGOTTEN].Obj?
    requires forall x :: x in Marked(a) ==> NameOk(x) && x in a && Marked(a)[x].Str?
    requires forall x :: x in Hashes(a) ==> NameOk(x) && x !in a && Hashes(a)[x].Str? && c.decodes(Hashes(a)[x].s)
    requires forall k :: k in a && NameOk(k) ==> Valid(c, a[k]) && Shaped(a[k])
    ensures Valid(c, Obj(a)) && Shaped(Obj(a))
  {
    hide NameOk;
    SpecialNames();
    NamesAreNotSpecial(FORGETTABLE);
    NamesAreNotSpecial(FORGOTTEN);
    forall x | x in Marked(a)
      ensures !Special(x)
    {
      NamesAreNotSpecial(x);
    }
    forall k | k in a && !Special(k)
      ensures NameOk(k)
    {
      assert k != FORGETTABLE && k != FORGOTTEN;
    }
  }

  /** A digest of valid terms is one. */
  lemma DigestValid(c: Crypto, m: map<JsString, Json>, x: JsString)
    requires Sound(c) && x in Marked(m) && !Digested(m, x)
    ensures DigestOf(c, Obj(m), x).Str? && c.decodes(DigestOf(c, Obj(m), x).s)
  {
    hide Forgot, Text, Marked, Digested;
  }

  lemma ValidAfter(c: Crypto, m: map<JsString, Json>, path: Path, p: Predicate, after: map<JsString, Json>)
    requires Sound(c) && Valid(c, Obj(m)) && Shaped(Obj(m)) && AfterForgetting(c, m, path, p, after)
    requires forall k :: k in m && NameOk(k) ==>
               Valid(c, Forgot(c, m[k], path + [k], p)) && Shaped(Forgot(c, m[k], path + [k], p))
    ensures Valid(c, Obj(after)) && Shaped(Obj(after))
  {
    hide NameOk, Marked, Hashes, Forgot, DigestOf, Special, Chosen, Valid, Shaped, Sound;
    SpecialNames();
    ValidParts(c, m);
    ChosenMarked(m, path, p);
    var chosen := Chosen(m, path, p);
    forall x | x in chosen
      ensures DigestOf(c, Obj(m), x).Str? && c.decodes(DigestOf(c, Obj(m), x).s)
    {
      DigestValid(c, m, x);
    }
    forall k | NameOk(k)
      ensures k in after <==> k in m && k !in chosen
      ensures k in after ==> after[k] == Forgot(c, m[k], path + [k], p)
    {
      NamesAreNotSpecial(k);
    }
    ValidFromParts(c, after);
  }
}
