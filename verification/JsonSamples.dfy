/** The order of names, and a sample text (RFC 8785, section 3.2). */
module JsonSamples {
  import opened Utf16
  import opened Keys
  import opened Json
  import opened CanonicalJson

  /** Names are in the order of their code units: the first that differs decides, or the shorter name comes first. */
  lemma PrecedesMeaning(a: JsString, b: JsString)
    ensures Precedes(a, b) <==> exists k :: 0 <= k <= |a| && k <= |b| && DecidedAt(a, b, k)
  {
    DecidedFrom(a, b, 0);
    assert a[..0] == b[..0];
  }

  ghost predicate DecidedAt(a: JsString, b: JsString, k: nat)
    requires k <= |a| && k <= |b|
  {
    a[..k] == b[..k] && ((k == |a| && k < |b|) || (k < |a| && k < |b| && a[k] < b[k]))
  }

  lemma {:induction false} DecidedFrom(a: JsString, b: JsString, i: nat)
    requires i <= |a| && i <= |b| && a[..i] == b[..i]
    ensures CompareInts(a, b, i) < 0 <==> exists k :: i <= k <= |a| && k <= |b| && DecidedAt(a, b, k)
    decreases |a| - i
  {
    if i < |a| && i < |b| && a[i] == b[i] {
      assert a[..i + 1] == a[..i] + [a[i]] && b[..i + 1] == b[..i] + [b[i]];
      DecidedFrom(a, b, i + 1);
    } else {
      forall k | i < k <= |a| && k <= |b|
        ensures !DecidedAt(a, b, k)
      {
        assert a[..k][i] == a[i] && b[..k][i] == b[i];
      }
      assert CompareInts(a, b, i) < 0 <==> DecidedAt(a, b, i);
    }
  }

  const NAME_A: JsString := [97]
  const NAME_B: JsString := [98]
  const ITEMS: seq<Json> := [Num(-10), Bool(true), Null, Bool(false)]
  const SAMPLE: Json := Obj(map[NAME_B := Arr(ITEMS), NAME_A := Str([120, 10, 34, 1])])

  /** The array of the sample: -10, true, null and false */
  lemma ItemsSample()
    ensures ItemsText(ITEMS, 0) == [45, 49, 48, 44, 116, 114, 117, 101, 44, 110, 117, 108, 108, 44, 102, 97, 108, 115, 101]
  {
    assert Digits(10) == [49, 48];
    assert ItemsText(ITEMS, 4) == [];
    assert ItemsText(ITEMS, 3) == [44, 102, 97, 108, 115, 101];
    assert ItemsText(ITEMS, 2) == [44, 110, 117, 108, 108, 44, 102, 97, 108, 115, 101];
    assert ItemsText(ITEMS, 1) == [44, 116, 114, 117, 101, 44, 110, 117, 108, 108, 44, 102, 97, 108, 115, 101];
  }

  /** A string with a line feed, a quotation mark and a control character */
  lemma StringSample()
    ensures Quote([120, 10, 34, 1]) == [34, 120, 92, 110, 92, 34, 92, 117, 48, 48, 48, 49, 34]
  {
    var s: JsString := [120, 10, 34, 1];
    assert Escaped(s, 4) == [];
    assert Escaped(s, 3) == [92, 117, 48, 48, 48, 49];
    assert Escaped(s, 2) == [92, 34, 92, 117, 48, 48, 48, 49];
    assert Escaped(s, 1) == [92, 110, 92, 34, 92, 117, 48, 48, 48, 49];
    assert Escaped(s, 0) == [120, 92, 110, 92, 34, 92, 117, 48, 48, 48, 49];
  }

  /** An object with two members */
  lemma TwoMembers(j: Json, x: JsString, y: JsString)
    requires j.Obj? && Increasing([x, y]) && j.members.Keys == {x, y}
    ensures Text(j) == [123] + (Quote(x) + [COLON] + Text(j.members[x])) + ([COMMA] + Quote(y) + [COLON] + Text(j.members[y])) + [125]
  {
    hide Quote;
    var names := [x, y];
    OneSortedList(names, j.members.Keys);
    assert MembersText(j, names, 2) == [];
    var v, w := Text(j.members[x]), Text(j.members[y]);
    assert MembersText(j, names, 1) == [COMMA] + Quote(y) + [COLON] + w;
    assert MembersText(j, names, 0) == Quote(x) + [COLON] + v + MembersText(j, names, 1);
  }

  /** The whole text of the sample, with its names in order */
  lemma TextSample()
    ensures Text(SAMPLE) == [123] + [34, 97, 34, 58, 34, 120, 92, 110, 92, 34, 92, 117, 48, 48, 48, 49, 34] + [44, 34, 98, 34, 58, 91, 45, 49, 48, 44, 116, 114, 117, 101, 44, 110, 117, 108, 108, 44, 102, 97, 108, 115, 101, 93] + [125]
  {
    hide Text, Quote, Precedes;
    KeysSample();
    TwoMembers(SAMPLE, NAME_A, NAME_B);
    FirstPart();
    SecondPart();
  }

  lemma KeysSample()
    ensures SAMPLE.members.Keys == {NAME_A, NAME_B} && Increasing([NAME_A, NAME_B])
  {
    assert Precedes(NAME_A, NAME_B);
  }

  lemma FirstPart()
    ensures Quote(NAME_A) + [COLON] + Text(SAMPLE.members[NAME_A]) == [34, 97, 34, 58, 34, 120, 92, 110, 92, 34, 92, 117, 48, 48, 48, 49, 34]
  {
    hide Escaped, Quote;
    StringSample();
    NamesQuoted();
    assert NAME_A != NAME_B;
  }

  lemma SecondPart()
    ensures [COMMA] + Quote(NAME_B) + [COLON] + Text(SAMPLE.members[NAME_B]) == [44, 34, 98, 34, 58, 91, 45, 49, 48, 44, 116, 114, 117, 101, 44, 110, 117, 108, 108, 44, 102, 97, 108, 115, 101, 93]
  {
    hide Escaped, ItemsText, Quote;
    ItemsSample();
    NamesQuoted();
    assert NAME_A != NAME_B;
    assert Text(SAMPLE.members[NAME_B]) == [91] + ItemsText(ITEMS, 0) + [93];
  }

  lemma NamesQuoted()
    ensures Quote(NAME_A) == [34, 97, 34] && Quote(NAME_B) == [34, 98, 34]
  {
    assert Escaped(NAME_A, 1) == [] == Escaped(NAME_B, 1);
    assert Escaped(NAME_A, 0) == NAME_A && Escaped(NAME_B, 0) == NAME_B;
  }
}
