/** Printing JSON with sorted keys and no white space, and why the result identifies the value. */
module CanonicalJson {
  import opened Utf16
  import opened Json
  import opened Keys

  const QUOTE: CodeUnit := 34
  const COMMA: CodeUnit := 44
  const COLON: CodeUnit := 58
  const BACKSLASH: CodeUnit := 92

  // ---------- Numbers ----------

  predicate IsDigit(u: CodeUnit) { 48 <= u <= 57 }

  function DigitsValue(s: seq<int>): int {
    if s == [] then 0 else 10 * DigitsValue(s[..|s| - 1]) + (s[|s| - 1] as int - 48)
  }

  lemma {:induction false} DigitsRead(n: nat)
    ensures DigitsValue(Digits(n)) == n && |Digits(n)| > 0
    ensures forall i :: 0 <= i < |Digits(n)| ==> IsDigit(Digits(n)[i])
  {
    if n >= 10 {
      DigitsRead(n / 10);
      assert Digits(n)[..|Digits(n)| - 1] == Digits(n / 10);
    } else {
      assert Digits(n)[..0] == [];
    }
  }

  /** Nothing, or what may follow a value inside another one. */
  predicate Ends(r: JsString) { r == [] || r[0] == COMMA || r[0] == 93 || r[0] == 125 }

  /** What follows the digits does not go on with a digit. */
  lemma AtLeastAsLong(x: JsString, y: JsString, r: JsString, t: JsString)
    requires x + r == y + t && Ends(r) && forall i :: 0 <= i < |y| ==> IsDigit(y[i])
    ensures |y| <= |x|
  {
    var w := x + r;
    assert w[..|x|] == x && w[|x|..] == r;
    assert forall i :: 0 <= i < |y| ==> IsDigit(w[i]);
  }

  lemma DigitsPrefix(a: nat, b: nat, r: JsString, t: JsString)
    requires Digits(a) + r == Digits(b) + t && Ends(r) && Ends(t)
    ensures a == b && r == t
  {
    hide Ends, Digits;
    DigitsRead(a);
    DigitsRead(b);
    var x, y := Digits(a), Digits(b);
    AtLeastAsLong(x, y, r, t);
    AtLeastAsLong(y, x, t, r);
    assert x == (x + r)[..|x|] == (y + t)[..|y|] == y;
    assert r == (x + r)[|x|..] == (y + t)[|y|..] == t;
  }

  // ---------- Strings ----------

  function HexDigit(d: int): CodeUnit
    requires 0 <= d < 16
  {
    if d < 10 then 48 + d else 87 + d
  }

  function HexValue(u: CodeUnit): int { if u < 87 then u - 48 else u - 87 }

  function UnicodeEscape(u: CodeUnit): JsString {
    [BACKSLASH, 117, HexDigit(u / 4096), HexDigit(u / 256 % 16), HexDigit(u / 16 % 16), HexDigit(u % 16)]
  }

  /** The surrogate at position i is one of a pair. */
  predicate Paired(s: JsString, i: nat)
    requires i < |s|
  {
    || (IsHighSurrogate(s[i]) && i + 1 < |s| && IsLowSurrogate(s[i + 1]))
    || (IsLowSurrogate(s[i]) && i > 0 && IsHighSurrogate(s[i - 1]))
  }

  /** One code unit in a JSON string; unmatched surrogates and control characters are escaped. */
  function EscapedUnit(s: JsString, i: nat): JsString
    requires i < |s|
  {
    var u := s[i];
    if u == QUOTE || u == BACKSLASH then [BACKSLASH, u]
    else if u == 8 then [BACKSLASH, 98]
    else if u == 9 then [BACKSLASH, 116]
    else if u == 10 then [BACKSLASH, 110]
    else if u == 12 then [BACKSLASH, 102]
    else if u == 13 then [BACKSLASH, 114]
    else if u < 32 || ((IsHighSurrogate(u) || IsLowSurrogate(u)) && !Paired(s, i)) then UnicodeEscape(u)
    else [u]
  }

  function Escaped(s: JsString, i: nat): JsString
    requires i <= |s|
    decreases |s| - i
  {
    if i == |s| then [] else EscapedUnit(s, i) + Escaped(s, i + 1)
  }

  /** JSON.stringify of a string */
  function Quote(s: JsString): JsString { [QUOTE] + Escaped(s, 0) + [QUOTE] }

  /** The code unit that a piece of a JSON string stands for, and the length of the piece. */
  function ReadUnit(t: JsString): (int, nat) {
    if |t| == 0 then (0, 0)
    else if t[0] != BACKSLASH then (t[0], 1)
    else if |t| == 1 then (0, 1)
    else if t[1] == 98 then (8, 2)
    else if t[1] == 116 then (9, 2)
    else if t[1] == 110 then (10, 2)
    else if t[1] == 102 then (12, 2)
    else if t[1] == 114 then (13, 2)
    else if t[1] == 117 && |t| >= 6 then
      (4096 * HexValue(t[2]) + 256 * HexValue(t[3]) + 16 * HexValue(t[4]) + HexValue(t[5]), 6)
    else (t[1], 2)
  }

  lemma HexRead(u: CodeUnit)
    ensures 4096 * (u / 4096) + 256 * (u / 256 % 16) + 16 * (u / 16 % 16) + u % 16 == u
    ensures u / 4096 < 16
  {
  }

  lemma UnitRead(s: JsString, i: nat, rest: JsString)
    requires i < |s|
    ensures ReadUnit(EscapedUnit(s, i) + rest) == (s[i], |EscapedUnit(s, i)|)
    ensures |EscapedUnit(s, i)| > 0 && EscapedUnit(s, i)[0] != QUOTE
  {
    hide Paired;
    HexRead(s[i]);
  }

  lemma {:induction false} EscapedPrefix(a: JsString, i: nat, b: JsString, k: nat, r: JsString, t: JsString)
    requires i <= |a| && k <= |b|
    requires Escaped(a, i) + [QUOTE] + r == Escaped(b, k) + [QUOTE] + t
    ensures a[i..] == b[k..] && r == t
    decreases |a| - i
  {
    hide EscapedUnit, ReadUnit;
    var x := Escaped(a, i) + [QUOTE] + r;
    if i < |a| {
      UnitRead(a, i, Escaped(a, i + 1) + [QUOTE] + r);
      assert x == EscapedUnit(a, i) + (Escaped(a, i + 1) + [QUOTE] + r);
    }
    if k < |b| {
      UnitRead(b, k, Escaped(b, k + 1) + [QUOTE] + t);
      assert x == EscapedUnit(b, k) + (Escaped(b, k + 1) + [QUOTE] + t);
    }
    if i < |a| && k < |b| {
      var n := |EscapedUnit(a, i)|;
      assert x[n..] == Escaped(a, i + 1) + [QUOTE] + r;
      assert x[n..] == Escaped(b, k + 1) + [QUOTE] + t;
      EscapedPrefix(a, i + 1, b, k + 1, r, t);
      assert a[i..] == [a[i]] + a[i + 1..] && b[k..] == [b[k]] + b[k + 1..];
    } else {
      assert i == |a| <==> x[0] == QUOTE;
      assert k == |b| <==> x[0] == QUOTE;
      assert r == x[1..] == t;
    }
  }

  lemma QuotePrefix(a: JsString, b: JsString, r: JsString, t: JsString)
    requires Quote(a) + r == Quote(b) + t
    ensures a == b && r == t
  {
    hide Escaped;
    var x := Quote(a) + r;
    assert x[1..] == Escaped(a, 0) + [QUOTE] + r;
    assert x[1..] == Escaped(b, 0) + [QUOTE] + t;
    EscapedPrefix(a, 0, b, 0, r, t);
  }

  // ---------- Sorted names ----------

  /** The order of JavaScript strings: code unit by code unit. */
  predicate Precedes(a: JsString, b: JsString) { CompareInts(a, b, 0) < 0 }

  predicate IsLeast(names: set<JsString>, x: JsString) {
    x in names && forall y :: y in names && y != x ==> Precedes(x, y)
  }

  lemma PrecedesOrder(a: JsString, b: JsString)
    ensures !Precedes(a, a) && (a == b || Precedes(a, b) || Precedes(b, a)) && !(Precedes(a, b) && Precedes(b, a))
  {
    hide CompareInts;
    IntsOrder(a, b, 0);
    IntsOrder(a, a, 0);
    assert a[0..] == a && b[0..] == b;
  }

  lemma {:induction false} LeastExists(names: set<JsString>) returns (x: JsString)
    requires names != {}
    ensures IsLeast(names, x)
    decreases |names|
  {
    hide Precedes;
    var y :| y in names;
    if names == {y} {
      x := y;
    } else {
      var z := LeastExists(names - {y});
      PrecedesOrder(y, z);
      if Precedes(z, y) {
        x := z;
      } else {
        x := y;
        forall w | w in names && w != y
          ensures Precedes(y, w)
        {
          if w != z {
            PrecedesTransitive(y, z, w);
          }
        }
      }
    }
  }

  lemma PrecedesTransitive(a: JsString, b: JsString, c: JsString)
    requires Precedes(a, b) && Precedes(b, c)
    ensures Precedes(a, c)
  {
    IntsTransitive(a, b, c, 0);
  }

  lemma OneLeast(names: set<JsString>)
    requires names != {}
    ensures exists x :: IsLeast(names, x)
    ensures forall x, y :: IsLeast(names, x) && IsLeast(names, y) ==> x == y
  {
    hide Precedes;
    var least := LeastExists(names);
    forall x, y | IsLeast(names, x) && IsLeast(names, y)
      ensures x == y
    {
      PrecedesOrder(x, y);
    }
  }

  function Least(names: set<JsString>): (x: JsString)
    requires names != {}
    ensures IsLeast(names, x)
  {
    OneLeast(names);
    var x :| x in names && IsLeast(names, x);
    x
  }

  /** The names in increasing order. */
  function SortedNames(names: set<JsString>): (s: seq<JsString>)
    decreases |names|
  {
    if names == {} then [] else [Least(names)] + SortedNames(names - {Least(names)})
  }

  predicate Increasing(s: seq<JsString>) { forall i, k :: 0 <= i < k < |s| ==> Precedes(s[i], s[k]) }

  lemma {:induction false} SortedNamesList(names: set<JsString>)
    ensures forall x :: x in SortedNames(names) <==> x in names
    ensures Increasing(SortedNames(names))
    decreases |names|
  {
    hide Precedes;
    if names != {} {
      var x := Least(names);
      SortedNamesList(names - {x});
      var rest := SortedNames(names - {x});
      forall i | 0 <= i < |rest|
        ensures Precedes(x, rest[i])
      {
        assert rest[i] in rest;
      }
      assert SortedNames(names) == [x] + rest;
    }
  }

  /** There is only one increasing list of the names. */
  lemma {:induction false} OneSortedList(s: seq<JsString>, names: set<JsString>)
    requires Increasing(s) && forall x :: x in s <==> x in names
    ensures s == SortedNames(names)
    decreases |s|
  {
    hide Precedes;
    if s == [] {
      assert names == {};
    } else {
      var x := s[0];
      assert x in names;
      forall y | y in names && y != x
        ensures Precedes(x, y)
      {
        assert y in s;
        var i :| 0 <= i < |s| && s[i] == y;
      }
      var least := Least(names);
      PrecedesOrder(x, least);
      assert least == x;
      forall y
        ensures y in s[1..] <==> y in names - {x}
      {
        PrecedesOrder(x, x);
      }
      OneSortedList(s[1..], names - {x});
      assert s == [x] + s[1..];
    }
  }

  // ---------- Values ----------

  /** JSON.stringify of a value without parts */
  function AtomText(j: Json): JsString
    requires !j.Arr? && !j.Obj?
  {
    match j
    case Null => [110, 117, 108, 108]
    case Bool(b) => if b then [116, 114, 117, 101] else [102, 97, 108, 115, 101]
    case Num(n) => NumberText(n)
    case Str(s) => Quote(s)
  }

  function ItemsText(items: seq<Json>, i: nat): JsString
    requires i <= |items|
    decreases items, 0, |items| - i
  {
    if i == |items| then []
    else (if i > 0 then [COMMA] else []) + Text(items[i]) + ItemsText(items, i + 1)
  }

  /** The members of these names, from the i-th on. */
  function MembersText(j: Json, names: seq<JsString>, i: nat): JsString
    requires j.Obj? && i <= |names| && forall k :: 0 <= k < |names| ==> names[k] in j.members
    decreases j, 0, |names| - i
  {
    if i == |names| then []
    else
      (if i > 0 then [COMMA] else []) + Quote(names[i]) + [COLON] + Text(j.members[names[i]])
      + MembersText(j, names, i + 1)
  }

  /** The canonical text of a value. */
  function Text(j: Json): JsString
    decreases j, 1, 0
  {
    match j
    case Null => AtomText(j)
    case Bool(_) => AtomText(j)
    case Num(_) => AtomText(j)
    case Str(_) => AtomText(j)
    case Arr(items) => [91] + ItemsText(items, 0) + [93]
    case Obj(members) =>
      SortedNamesList(members.Keys);
      [123] + MembersText(j, SortedNames(members.Keys), 0) + [125]
  }

  /** The first code unit tells which kind of value follows. */
  function Kind(u: CodeUnit): int {
    if u == 110 then 0 else if u == 116 || u == 102 then 1 else if u == 45 || IsDigit(u) then 2
    else if u == QUOTE then 3 else if u == 91 then 4 else if u == 123 then 5 else 6
  }

  function KindOf(j: Json): int {
    match j
    case Null => 0
    case Bool(_) => 1
    case Num(_) => 2
    case Str(_) => 3
    case Arr(_) => 4
    case Obj(_) => 5
  }

  lemma FirstUnit(j: Json)
    ensures Text(j) != [] && Kind(Text(j)[0]) == KindOf(j)
  {
    hide ItemsText, MembersText, SortedNames, Digits, Escaped;
    if j.Num? {
      DigitsRead(if j.n < 0 then -j.n else j.n);
    }
  }

  function Magnitude(n: int): nat { if n < 0 then -n else n }

  lemma NumberStart(n: int, rest: JsString)
    ensures var w := NumberText(n) + rest;
            w != [] && (w[0] == 45 <==> n < 0) && w[if n < 0 then 1 else 0..] == Digits(Magnitude(n)) + rest
  {
    hide Digits;
    DigitsRead(Magnitude(n));
    if n < 0 {
      assert [45] + Digits(-n) + rest == [45] + (Digits(-n) + rest);
    }
  }

  lemma NumberPrefix(a: int, b: int, r: JsString, t: JsString)
    requires NumberText(a) + r == NumberText(b) + t && Ends(r) && Ends(t)
    ensures a == b && r == t
  {
    hide NumberText, Digits, Ends;
    NumberStart(a, r);
    NumberStart(b, t);
    DigitsPrefix(Magnitude(a), Magnitude(b), r, t);
  }

  /** Each text ends where it ends: no other value has a text that goes on in the same way. */
  lemma {:induction false} TextPrefix(a: Json, b: Json, r: JsString, t: JsString)
    requires Text(a) + r == Text(b) + t && Ends(r) && Ends(t)
    ensures a == b && r == t
    decreases a, 1, 0
  {
    hide Ends, ItemsText, MembersText, NumberText, Quote, Kind;
    var w := Text(a) + r;
    FirstUnit(a);
    FirstUnit(b);
    assert w[0] == Text(a)[0] == Text(b)[0];
    match a
    case Null =>
      assert w[4..] == r && w[4..] == t;
    case Bool(_) =>
      var n := if a.b then 4 else 5;
      assert a.b <==> w[0] == 116;
      assert b.b <==> w[0] == 116;
      assert w[n..] == r && w[n..] == t;
    case Num(n) => NumberPrefix(n, b.n, r, t);
    case Str(s) => QuotePrefix(s, b.s, r, t);
    case Arr(items) =>
      assert w[1..] == ItemsText(items, 0) + ([93] + r) && w[1..] == ItemsText(b.items, 0) + ([93] + t);
      ItemsPrefix(items, b.items, 0, r, t);
      assert items == items[0..] == b.items[0..] == b.items;
    case Obj(_) => ObjectPrefix(a, b, r, t);
  }

  lemma {:induction false} ObjectPrefix(a: Json, b: Json, r: JsString, t: JsString)
    requires a.Obj? && b.Obj? && Text(a) + r == Text(b) + t
    ensures a == b && r == t
    decreases a, 0, |a.members| + 1
  {
    hide MembersText, SortedNames;
    var w := Text(a) + r;
    var x, y := SortedNames(a.members.Keys), SortedNames(b.members.Keys);
    SortedNamesList(a.members.Keys);
    SortedNamesList(b.members.Keys);
    NamesCount(a.members.Keys);
    assert w[1..] == MembersText(a, x, 0) + ([125] + r) && w[1..] == MembersText(b, y, 0) + ([125] + t);
    MembersPrefix(a, b, x, y, 0, r, t);
    SameMembers(a.members, b.members, x, y);
  }

  lemma {:induction false} NamesCount(names: set<JsString>)
    ensures |SortedNames(names)| == |names|
    decreases |names|
  {
    if names != {} {
      NamesCount(names - {Least(names)});
    }
  }

  lemma SameMembers(a: map<JsString, Json>, b: map<JsString, Json>, x: seq<JsString>, y: seq<JsString>)
    requires (forall k :: k in x <==> k in a) && (forall k :: k in y <==> k in b)
    requires x[0..] == y[0..] && forall k :: 0 <= k < |x| ==> a[x[k]] == b[x[k]]
    ensures a == b
  {
    assert x == x[0..] && y == y[0..];
    forall k | k in a
      ensures k in b && a[k] == b[k]
    {
      assert k in x;
    }
  }

  function Separator(i: nat): JsString { if i > 0 then [COMMA] else [] }

  /** How the text of items begins: with the next one, or with the end of the array. */
  lemma ItemsStart(items: seq<Json>, i: nat, end: JsString)
    requires i <= |items| && end != [] && end[0] == 93
    ensures var w := ItemsText(items, i) + end;
            if i == |items| then w == end
            else w[0] != 93 && w == Separator(i) + (Text(items[i]) + (ItemsText(items, i + 1) + end))
  {
    hide Text;
    if i < |items| {
      FirstUnit(items[i]);
      JoinThree(Separator(i), Text(items[i]), ItemsText(items, i + 1), end);
    }
  }

  lemma JoinThree(a: JsString, b: JsString, c: JsString, d: JsString)
    ensures a + b + c + d == a + (b + (c + d))
  {
  }

  lemma {:induction false} ItemsPrefix(a: seq<Json>, b: seq<Json>, i: nat, r: JsString, t: JsString)
    requires i <= |a| && i <= |b| && ItemsText(a, i) + ([93] + r) == ItemsText(b, i) + ([93] + t)
    ensures a[i..] == b[i..] && r == t
    decreases a, 0, |a| - i
  {
    hide Text, ItemsText, Separator;
    var w := ItemsText(a, i) + ([93] + r);
    ItemsStart(a, i, [93] + r);
    ItemsStart(b, i, [93] + t);
    if i == |a| {
      assert w[1..] == r && w[1..] == t;
    } else {
      var n := |Separator(i)|;
      var p, q := ItemsText(a, i + 1) + ([93] + r), ItemsText(b, i + 1) + ([93] + t);
      assert w[n..] == Text(a[i]) + p && w[n..] == Text(b[i]) + q;
      ItemsEnd(a, i + 1, r);
      ItemsEnd(b, i + 1, t);
      TextPrefix(a[i], b[i], p, q);
      ItemsPrefix(a, b, i + 1, r, t);
      assert a[i..] == [a[i]] + a[i + 1..] && b[i..] == [b[i]] + b[i + 1..];
    }
  }

  lemma ItemsEnd(items: seq<Json>, i: nat, r: JsString)
    requires 0 < i <= |items|
    ensures Ends(ItemsText(items, i) + ([93] + r))
  {
    hide Text;
  }

  lemma {:induction false} MembersPrefix(a: Json, b: Json, x: seq<JsString>, y: seq<JsString>, i: nat,
                                         r: JsString, t: JsString)
    requires a.Obj? && b.Obj? && i <= |x| && i <= |y|
    requires (forall k :: 0 <= k < |x| ==> x[k] in a.members) && (forall k :: 0 <= k < |y| ==> y[k] in b.members)
    requires MembersText(a, x, i) + ([125] + r) == MembersText(b, y, i) + ([125] + t)
    ensures x[i..] == y[i..] && r == t && forall k :: i <= k < |x| ==> a.members[x[k]] == b.members[y[k]]
    decreases a, 0, |x| - i
  {
    hide Text, Quote;
    var w := MembersText(a, x, i) + ([125] + r);
    MembersStart(a, x, i, [125] + r);
    MembersStart(b, y, i, [125] + t);
    if i == |x| {
      assert w[1..] == r && w[1..] == t;
    } else {
      MemberPrefix(a, b, x, y, i, MembersText(a, x, i + 1) + ([125] + r), MembersText(b, y, i + 1) + ([125] + t));
      MembersPrefix(a, b, x, y, i + 1, r, t);
      assert x[i..] == [x[i]] + x[i + 1..] && y[i..] == [y[i]] + y[i + 1..];
    }
  }

  lemma QuoteStarts(s: JsString)
    ensures Quote(s) != [] && Quote(s)[0] == QUOTE
  {
  }

  lemma JoinFour(a: JsString, b: JsString, c: JsString, d: JsString, e: JsString, f: JsString)
    ensures a + b + c + d + e + f == a + (b + (c + (d + (e + f))))
  {
    assert a + b + c + d + e + f == a + b + c + (d + (e + f));
  }

  /** How the text of members begins: with the next one, or with the end of the object. */
  lemma MembersStart(j: Json, names: seq<JsString>, i: nat, end: JsString)
    requires j.Obj? && i <= |names| && forall k :: 0 <= k < |names| ==> names[k] in j.members
    requires end != [] && end[0] == 125
    ensures var w := MembersText(j, names, i) + end;
            if i == |names| then w == end
            else w[0] != 125 && w == Separator(i) + (Quote(names[i]) + ([COLON] + (Text(j.members[names[i]])
                                                     + (MembersText(j, names, i + 1) + end))))
  {
    hide Text, Quote;
    if i < |names| {
      var n, v, rest := Quote(names[i]), Text(j.members[names[i]]), MembersText(j, names, i + 1);
      assert MembersText(j, names, i) == Separator(i) + n + [COLON] + v + rest;
      JoinFour(Separator(i), n, [COLON], v, rest, end);
      assert n[0] == QUOTE by { QuoteStarts(names[i]); }
    }
  }

  lemma {:induction false} MemberPrefix(a: Json, b: Json, x: seq<JsString>, y: seq<JsString>, i: nat,
                                        p: JsString, q: JsString)
    requires a.Obj? && b.Obj? && i < |x| && i < |y| && x[i] in a.members && y[i] in b.members && Ends(p) && Ends(q)
    requires Separator(i) + (Quote(x[i]) + ([COLON] + (Text(a.members[x[i]]) + p)))
             == Separator(i) + (Quote(y[i]) + ([COLON] + (Text(b.members[y[i]]) + q)))
    ensures x[i] == y[i] && a.members[x[i]] == b.members[y[i]] && p == q
    decreases a, 0, 0
  {
    hide Text, Quote, Ends;
    var v, u := Text(a.members[x[i]]) + p, Text(b.members[y[i]]) + q;
    var w := Separator(i) + (Quote(x[i]) + ([COLON] + v));
    assert w[|Separator(i)|..] == Quote(x[i]) + ([COLON] + v) && w[|Separator(i)|..] == Quote(y[i]) + ([COLON] + u);
    QuotePrefix(x[i], y[i], [COLON] + v, [COLON] + u);
    assert v == ([COLON] + v)[1..] && u == ([COLON] + u)[1..];
    TextPrefix(a.members[x[i]], b.members[y[i]], p, q);
  }

  /** Canonical text identifies the value. */
  lemma Canonical(a: Json, b: Json)
    ensures Text(a) == Text(b) <==> a == b
  {
    if Text(a) == Text(b) {
      assert Text(a) + [] == Text(b) + [];
      TextPrefix(a, b, [], []);
    }
  }

  // ---------- Printing objects whose members have an order ----------

  /** A JSON value as it is in memory, where the names of an object's members come in some order. */
  datatype Ordered =
    | Atom(value: Json)
    | List(items: seq<Ordered>)
    | Record(names: seq<JsString>, members: map<JsString, Ordered>)

  predicate Distinct(names: seq<JsString>) { forall i, k :: 0 <= i < k < |names| ==> names[i] != names[k] }

  /** The names of a record are its members', each of them once. */
  ghost predicate WellFormed(t: Ordered) {
    match t
    case Atom(value) => !value.Arr? && !value.Obj?
    case List(items) => forall i :: 0 <= i < |items| ==> WellFormed(items[i])
    case Record(names, members) =>
      && Distinct(names) && (forall x :: x in names <==> x in members)
      && forall x :: x in members ==> WellFormed(members[x])
  }

  /** The value without the order of members. */
  ghost function Value(t: Ordered): Json {
    match t
    case Atom(value) => value
    case List(items) => Arr(seq(|items|, i requires 0 <= i < |items| => Value(items[i])))
    case Record(_, members) => Obj(map x | x in members :: Value(members[x]))
  }

  function Insert(x: JsString, s: seq<JsString>): seq<JsString> {
    if s == [] || Precedes(x, s[0]) then [x] + s else [s[0]] + Insert(x, s[1..])
  }

  /** The library's sort */
  function Sort(s: seq<JsString>): seq<JsString> {
    if s == [] then [] else Insert(s[0], Sort(s[1..]))
  }

  lemma {:induction false} InsertSorts(x: JsString, s: seq<JsString>)
    requires Increasing(s) && x !in s
    ensures Increasing(Insert(x, s)) && forall y :: y in Insert(x, s) <==> y == x || y in s
  {
    hide Precedes;
    if s != [] && !Precedes(x, s[0]) {
      InsertSorts(x, s[1..]);
      PrecedesOrder(x, s[0]);
      var r := Insert(x, s[1..]);
      forall k | 0 <= k < |r|
        ensures Precedes(s[0], r[k])
      {
        assert r[k] in r;
      }
      assert s == [s[0]] + s[1..];
    } else if s != [] {
      forall k | 0 <= k < |s|
        ensures Precedes(x, s[k])
      {
        if k > 0 {
          PrecedesTransitive(x, s[0], s[k]);
        }
      }
    }
  }

  lemma {:induction false} SortSorts(s: seq<JsString>)
    requires Distinct(s)
    ensures Increasing(Sort(s)) && forall y :: y in Sort(s) <==> y in s
  {
    if s != [] {
      SortSorts(s[1..]);
      InsertSorts(s[0], Sort(s[1..]));
      assert s == [s[0]] + s[1..];
    }
  }

  function Join(parts: seq<JsString>): JsString {
    if parts == [] then []
    else if |parts| == 1 then parts[0]
    else Join(parts[..|parts| - 1]) + [COMMA] + parts[|parts| - 1]
  }

  lemma JoinStep(parts: seq<JsString>, i: nat)
    requires 0 < i <= |parts|
    ensures Join(parts[..i]) == Join(parts[..i - 1]) + Separator(i - 1) + parts[i - 1]
  {
    assert parts[..i][..i - 1] == parts[..i - 1];
    if i == 1 {
      assert parts[..0] == [];
      assert [] + [] + parts[0] == parts[0];
    }
  }

  lemma {:induction false} JoinIsItems(parts: seq<JsString>, items: seq<Json>, i: nat)
    requires |parts| == |items| && i <= |items| && forall k :: 0 <= k < |items| ==> parts[k] == Text(items[k])
    ensures Join(parts[..i]) + ItemsText(items, i) == ItemsText(items, 0)
    decreases i
  {
    hide Text, Join, Separator;
    if i > 0 {
      JoinIsItems(parts, items, i - 1);
      JoinStep(parts, i);
      var front, rest := Join(parts[..i - 1]), ItemsText(items, i);
      assert ItemsText(items, i - 1) == Separator(i - 1) + parts[i - 1] + rest by { ItemsTextStep(items, i - 1); }
      assert front + Separator(i - 1) + parts[i - 1] + rest == front + (Separator(i - 1) + parts[i - 1] + rest);
    } else {
      assert parts[..0] == [];
      assert Join([]) == [] by { JoinNone(); }
    }
  }

  lemma JoinNone()
    ensures Join([]) == []
  {
  }

  lemma ItemsTextStep(items: seq<Json>, i: nat)
    requires i < |items|
    ensures ItemsText(items, i) == Separator(i) + Text(items[i]) + ItemsText(items, i + 1)
  {
  }

  /** The members that are left when the comma is already there. */
  ghost function MembersLeft(j: Json, names: seq<JsString>, i: nat): JsString
    requires j.Obj? && i <= |names| && forall k :: 0 <= k < |names| ==> names[k] in j.members
  {
    if 0 < i < |names| then MembersText(j, names, i)[1..] else MembersText(j, names, i)
  }

  lemma MembersLeftStep(j: Json, names: seq<JsString>, i: nat)
    requires j.Obj? && i < |names| && forall k :: 0 <= k < |names| ==> names[k] in j.members
    ensures MembersLeft(j, names, i) == Quote(names[i]) + [COLON] + Text(j.members[names[i]])
                                        + (if i != |names| - 1 then [COMMA] else []) + MembersLeft(j, names, i + 1)
  {
    hide Text, Quote;
    var n, v := Quote(names[i]), Text(j.members[names[i]]);
    var rest := MembersText(j, names, i + 1);
    assert rest == (if i != |names| - 1 then [COMMA] else []) + MembersLeft(j, names, i + 1);
    assert (Separator(i) + n + [COLON] + v + rest)[|Separator(i)|..] == n + [COLON] + v + rest;
  }

  /** canonicalJson: the text does not depend on the order of members. */
  method Print(t: Ordered) returns (s: JsString)
    requires WellFormed(t)
    ensures s == Text(Value(t))
    decreases t, 2
  {
    hide AtomText, ItemsText, MembersText, Quote;
    match t {
      case Atom(value) =>
        s := AtomText(value);
      case List(items) =>
        var objs := [];
        while |objs| < |items|
          invariant |objs| <= |items|
          invariant forall k :: 0 <= k < |objs| ==> objs[k] == Text(Value(items[k]))
        {
          var part := Print(items[|objs|]);
          objs := objs + [part];
        }
        JoinIsItems(objs, Value(t).items, |items|);
        assert ItemsText(Value(t).items, |items|) == [] by { ItemsTextEnd(Value(t).items); }
        assert objs[..|items|] == objs;
        s := [91] + Join(objs) + [93];
      case Record(names, members) =>
        s := PrintRecord(t);
    }
  }

  lemma ItemsTextEnd(items: seq<Json>)
    ensures ItemsText(items, |items|) == []
  {
  }

  method PrintRecord(t: Ordered) returns (s: JsString)
    requires t.Record? && WellFormed(t)
    ensures s == Text(Value(t))
    decreases t, 1
  {
    hide MembersLeft, Quote, Insert, MembersText, Sort;
    var keys := [];
    while |keys| < |t.names|
      invariant |keys| <= |t.names| && keys == t.names[..|keys|]
    {
      keys := keys + [t.names[|keys|]];
    }
    assert keys == t.names;
    SortSorts(keys);
    keys := Sort(keys);
    OneSortedList(keys, Value(t).members.Keys);
    s := PrintMembers(t, keys);
  }

  /** The loop over the sorted keys of a record. */
  method PrintMembers(t: Ordered, keys: seq<JsString>) returns (s: JsString)
    requires t.Record? && WellFormed(t) && forall k :: 0 <= k < |keys| ==> keys[k] in t.members
    ensures s == [123] + MembersText(Value(t), keys, 0) + [125]
    decreases t, 0
  {
    hide MembersLeft, Quote, MembersText, Text;
    ghost var j := Value(t);
    s := [123];
    var i := 0;
    LeftEnds(j, keys);
    while i < |keys|
      invariant 0 <= i <= |keys|
      invariant s + MembersLeft(j, keys, i) == [123] + MembersText(j, keys, 0)
    {
      var key := keys[i];
      assert WellFormed(t.members[key]) && Value(t.members[key]) == j.members[key];
      var value := Print(t.members[key]);
      MembersLeftStep(j, keys, i);
      ghost var before := s;
      s := s + Quote(key) + [COLON] + value;
      if i != |keys| - 1 {
        s := s + [COMMA];
      }
      AppendMember(before, Quote(key), value, if i != |keys| - 1 then [COMMA] else [], MembersLeft(j, keys, i + 1));
      i := i + 1;
    }
    assert s + [] == s;
    s := s + [125];
  }

  lemma LeftEnds(j: Json, names: seq<JsString>)
    requires j.Obj? && forall k :: 0 <= k < |names| ==> names[k] in j.members
    ensures MembersLeft(j, names, 0) == MembersText(j, names, 0) && MembersLeft(j, names, |names|) == []
  {
  }

  lemma AppendMember(before: JsString, n: JsString, v: JsString, c: JsString, rest: JsString)
    ensures before + n + [COLON] + v + c + rest == before + (n + [COLON] + v + c + rest)
    ensures c == [] ==> before + n + [COLON] + v + rest == before + (n + [COLON] + v + c + rest)
  {
    assert n + [COLON] + v + c + rest == n + ([COLON] + (v + (c + rest)));
    JoinFour(before, n, [COLON], v, c, rest);
  }
}
