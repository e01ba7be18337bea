/** The two backtracking enumerations: of provider mappings, and of method selections. */
module Enumeration {

  /**
   * What a call of the inner function should list: all ways to go on from a prefix with numbers
   * from start up, the lowest first. Numbers may come again, or each is above the one before.
   */
  function Listed(prefix: seq<nat>, start: nat, n: nat, m: nat, again: bool): seq<seq<nat>>
    requires |prefix| <= n
    decreases n - |prefix|, if start < m then m - start else 0
  {
    if |prefix| == n then [prefix]
    else if start >= m then []
    else Listed(prefix + [start], if again then 0 else start + 1, n, m, again) + Listed(prefix, start + 1, n, m, again)
  }

  /** A list is put behind what is there; with a limit other than 0, as much of it as there is room for. */
  function Appended(s: seq<seq<nat>>, list: seq<seq<nat>>, limit: nat): (r: seq<seq<nat>>)
  {
    if limit == 0 || |s| + |list| <= limit then s + list
    else if |s| >= limit then s
    else s + list[..limit - |s|]
  }

  lemma AppendedTwice(s: seq<seq<nat>>, a: seq<seq<nat>>, b: seq<seq<nat>>, limit: nat)
    ensures Appended(Appended(s, a, limit), b, limit) == Appended(s, a + b, limit)
  {
    if limit != 0 && |s| < limit && |s| + |a| + |b| > limit {
      if |s| + |a| > limit {
        assert (a + b)[..limit - |s|] == a[..limit - |s|];
      } else {
        assert (a + b)[..limit - |s|] == a + b[..limit - |s| - |a|];
        assert s + (a + b[..limit - |s| - |a|]) == s + a + b[..limit - |s| - |a|];
      }
    } else {
      assert s + a + b == s + (a + b);
    }
  }

  /** The variables that the calls of the inner function share */
  class Enumerator {
    const a: array<nat>
    const n: nat
    const m: nat
    const limit: nat
    const again: bool
    var selections: seq<seq<nat>>

    constructor (n: nat, m: nat, limit: nat, again: bool)
      ensures this.n == n && this.m == m && this.limit == limit && this.again == again
      ensures a.Length == n && fresh(a) && selections == []
    {
      this.n, this.m, this.limit, this.again := n, m, limit, again;
      a := new nat[n];
      selections := [];
    }

    method Sel(i: nat, start: nat)
      requires a.Length == n && i <= n && (limit == 0 || |selections| < limit)
      modifies this, a
      ensures a[..i] == old(a[..i])
      ensures selections == Appended(old(selections), Listed(old(a[..i]), start, n, m, again), limit)
      decreases n - i
    {
      hide Listed, Appended;
      ghost var prefix := a[..i];
      Steps(prefix, selections);
      if i == n {
        assert a[..] == prefix;
        selections := selections + [a[..]];
        return;
      }
      ghost var before := selections;
      ghost var all := Listed(prefix, start, n, m, again);
      var j := start;
      while j < m
        invariant a[..i] == prefix && j >= start
        invariant limit == 0 || |selections| < limit
        invariant Appended(selections, Listed(prefix, j, n, m, again), limit) == Appended(before, all, limit)
      {
        ghost var was, rest := selections, Listed(prefix, j + 1, n, m, again);
        a[i] := j;
        assert a[..i + 1] == prefix + [j];
        Sel(i + 1, if again then 0 else j + 1);
        assert a[..i] == a[..i + 1][..i];
        Next(prefix, j);
        AppendedTwice(was, Listed(prefix + [j], if again then 0 else j + 1, n, m, again), rest, limit);
        if limit != 0 && |selections| >= limit {
          Full(selections, rest);
          return;
        }
        j := j + 1;
      }
      Ended(prefix, j, selections);
    }

    lemma Steps(prefix: seq<nat>, s: seq<seq<nat>>)
      requires |prefix| <= n && (limit == 0 || |s| < limit)
      ensures |prefix| == n ==> forall start: nat :: Appended(s, Listed(prefix, start, n, m, again), limit) == s + [prefix]
    {
    }

    lemma Next(prefix: seq<nat>, j: nat)
      requires |prefix| < n && j < m
      ensures Listed(prefix, j, n, m, again)
           == Listed(prefix + [j], if again then 0 else j + 1, n, m, again) + Listed(prefix, j + 1, n, m, again)
    {
    }

    lemma Full(s: seq<seq<nat>>, rest: seq<seq<nat>>)
      requires limit != 0 && |s| >= limit
      ensures Appended(s, rest, limit) == s
    {
    }

    lemma Ended(prefix: seq<nat>, j: nat, s: seq<seq<nat>>)
      requires |prefix| < n && j >= m
      ensures Appended(s, Listed(prefix, j, n, m, again), limit) == s
    {
    }
  }

  function First(list: seq<seq<nat>>, limit: nat): seq<seq<nat>> {
    if |list| <= limit then list else list[..limit]
  }

  /** All tuples of n providers out of m, and all increasing selections of n methods out of m */
  function Mappings(n: nat, m: nat): seq<seq<nat>> { Listed([], 0, n, m, true) }
  function Selections(n: nat, m: nat): seq<seq<nat>> { Listed([], 0, n, m, false) }

  method EnumerateProviderMappings(n: nat, m: nat, limit: nat) returns (r: seq<seq<nat>>)
    ensures limit > 0 ==> r == First(Mappings(n, m), limit)
    ensures limit == 0 ==> r == Mappings(n, m)
  {
    hide Listed;
    var e := new Enumerator(n, m, limit, true);
    e.Sel(0, 0);
    r := e.selections;
  }

  method EnumerateMethodSelections(n: nat, m: nat, limit: nat) returns (r: seq<seq<nat>>)
    ensures limit > 0 ==> r == First(Selections(n, m), limit)
    ensures limit == 0 ==> r == Selections(n, m)
  {
    hide Listed;
    var e := new Enumerator(n, m, limit, false);
    e.Sel(0, 0);
    r := e.selections;
  }

  // ---------- What is listed, and in which order ----------

  predicate Increasing(s: seq<nat>, from: nat) {
    forall i, j :: from <= i < j < |s| ==> s[i] < s[j]
  }

  predicate Below(s: seq<nat>, from: nat, m: nat) {
    forall i :: from <= i < |s| ==> s[i] < m
  }

  /** A tuple that goes on from a prefix with numbers from start up. */
  predicate GoesOn(s: seq<nat>, prefix: seq<nat>, start: nat, n: nat, m: nat, again: bool) {
    && |prefix| <= |s| == n && s[..|prefix|] == prefix
    && (|prefix| < n ==> s[|prefix|] >= start)
    && Below(s, |prefix|, m) && (again || Increasing(s, |prefix|))
  }

  /** The next number is the lowest one or a higher one. */
  lemma GoesOnStep(s: seq<nat>, prefix: seq<nat>, start: nat, n: nat, m: nat, again: bool)
    requires |prefix| < n && start < m
    ensures GoesOn(s, prefix, start, n, m, again)
       <==> (|| GoesOn(s, prefix + [start], if again then 0 else start + 1, n, m, again)
             || GoesOn(s, prefix, start + 1, n, m, again))
    ensures !(GoesOn(s, prefix + [start], if again then 0 else start + 1, n, m, again) && GoesOn(s, prefix, start + 1, n, m, again))
  {
    var p := |prefix|;
    if p < |s| {
      assert s[..p + 1] == s[..p] + [s[p]];
      if s[..p + 1] == prefix + [start] {
        assert s[p] == (prefix + [start])[p] && s[..p] == (prefix + [start])[..p];
      }
    }
  }

  lemma {:induction false} ListedExactly(prefix: seq<nat>, start: nat, n: nat, m: nat, again: bool, s: seq<nat>)
    requires |prefix| <= n
    ensures s in Listed(prefix, start, n, m, again) <==> GoesOn(s, prefix, start, n, m, again)
    decreases n - |prefix|, if start < m then m - start else 0
  {
    if |prefix| == n {
      assert s[..|s|] == s;
    } else if start < m {
      hide GoesOn;
      GoesOnStep(s, prefix, start, n, m, again);
      ListedExactly(prefix + [start], if again then 0 else start + 1, n, m, again, s);
      ListedExactly(prefix, start + 1, n, m, again, s);
    }
  }

  /** The order of tuples by the first number in which they differ */
  ghost predicate Before(s: seq<nat>, t: seq<nat>) {
    exists k :: 0 <= k < |s| && k < |t| && (forall i :: 0 <= i < k ==> s[i] == t[i]) && s[k] < t[k]
  }

  /** Each before all that come later */
  ghost predicate Ordered(l: seq<seq<nat>>) {
    forall i, j :: 0 <= i < j < |l| ==> Before(l[i], l[j])
  }

  lemma {:induction false} ListedInOrder(prefix: seq<nat>, start: nat, n: nat, m: nat, again: bool)
    requires |prefix| <= n
    ensures Ordered(Listed(prefix, start, n, m, again))
    decreases n - |prefix|, if start < m then m - start else 0
  {
    hide Before;
    if |prefix| == n || start >= m {
      assert |Listed(prefix, start, n, m, again)| <= 1;
    } else {
      var next := if again then 0 else start + 1;
      var a, b := Listed(prefix + [start], next, n, m, again), Listed(prefix, start + 1, n, m, again);
      ListedInOrder(prefix + [start], next, n, m, again);
      ListedInOrder(prefix, start + 1, n, m, again);
      forall i, j | 0 <= i < |a| && 0 <= j < |b|
        ensures Before(a[i], b[j])
      {
        ListedExactly(prefix + [start], next, n, m, again, a[i]);
        ListedExactly(prefix, start + 1, n, m, again, b[j]);
        LowerNext(a[i], b[j], prefix, start, n);
      }
    }
  }

  lemma LowerNext(s: seq<nat>, t: seq<nat>, prefix: seq<nat>, start: nat, n: nat)
    requires |prefix| < n == |s| == |t| && s[..|prefix| + 1] == prefix + [start]
    requires t[..|prefix|] == prefix && t[|prefix|] > start
    ensures Before(s, t)
  {
    var p := |prefix|;
    assert s[..p] == s[..p + 1][..p] == t[..p] && s[p] == s[..p + 1][p];
    assert forall i :: 0 <= i < p ==> s[i] == s[..p][i] == t[..p][i] == t[i];
  }

  lemma BeforeIsStrict(s: seq<nat>, t: seq<nat>)
    requires Before(s, t)
    ensures s != t && !Before(t, s)
  {
  }

  /** The mappings are all tuples of provider numbers, each once, in lexicographic order. */
  lemma MappingsComplete(n: nat, m: nat)
    ensures forall s :: s in Mappings(n, m) <==> |s| == n && Below(s, 0, m)
    ensures Ordered(Mappings(n, m))
  {
    hide Listed, Before;
    forall s: seq<nat>
      ensures s in Mappings(n, m) <==> |s| == n && Below(s, 0, m)
    {
      ListedExactly([], 0, n, m, true, s);
      assert |s| >= 0 ==> s[..0] == [];
    }
    ListedInOrder([], 0, n, m, true);
  }

  /** The selections are all increasing tuples of method numbers, each once, in lexicographic order. */
  lemma SelectionsComplete(n: nat, m: nat)
    ensures forall s :: s in Selections(n, m) <==> |s| == n && Below(s, 0, m) && Increasing(s, 0)
    ensures Ordered(Selections(n, m))
  {
    hide Listed, Before;
    forall s: seq<nat>
      ensures s in Selections(n, m) <==> |s| == n && Below(s, 0, m) && Increasing(s, 0)
    {
      ListedExactly([], 0, n, m, false, s);
      assert |s| >= 0 ==> s[..0] == [];
    }
    ListedInOrder([], 0, n, m, false);
  }

  // ---------- Where a mapping is in the list ----------

  function Power(m: nat, e: nat): nat { if e == 0 then 1 else m * Power(m, e - 1) }

  /** The numbers of a tuple from position p on, read as the digits of a number in base m */
  function Rank(s: seq<nat>, p: nat, m: nat): nat
    requires p <= |s|
    decreases |s| - p
  {
    if p == |s| then 0 else s[p] * Power(m, |s| - p - 1) + Rank(s, p + 1, m)
  }

  lemma {:induction false} CountMappings(prefix: seq<nat>, start: nat, n: nat, m: nat)
    requires |prefix| <= n && start <= m
    ensures |Listed(prefix, start, n, m, true)| == if |prefix| == n then 1 else (m - start) * Power(m, n - |prefix| - 1)
    decreases n - |prefix|, m - start
  {
    if |prefix| < n && start < m {
      CountMappings(prefix + [start], 0, n, m);
      CountMappings(prefix, start + 1, n, m);
      var w := Power(m, n - |prefix| - 1);
      assert |Listed(prefix + [start], 0, n, m, true)| == w;
      assert (m - start) * w == w + (m - (start + 1)) * w;
    }
  }

  lemma {:induction false} PlaceOf(prefix: seq<nat>, start: nat, n: nat, m: nat, s: seq<nat>)
    requires GoesOn(s, prefix, start, n, m, true) && start <= m
    ensures var k := Rank(s, |prefix|, m) - (if |prefix| < n then start * Power(m, n - |prefix| - 1) else 0);
            0 <= k < |Listed(prefix, start, n, m, true)| && Listed(prefix, start, n, m, true)[k] == s
    decreases n - |prefix|, m - start
  {
    var p := |prefix|;
    if p < n {
      var w := Power(m, n - p - 1);
      var lower := Listed(prefix + [start], 0, n, m, true);
      CountMappings(prefix + [start], 0, n, m);
      assert |lower| == w;
      GoesOnStep(s, prefix, start, n, m, true);
      if s[p] == start {
        assert s[..p + 1] == prefix + [start];
        PlaceOf(prefix + [start], 0, n, m, s);
        assert Rank(s, p, m) - start * w == Rank(s, p + 1, m);
      } else {
        PlaceOf(prefix, start + 1, n, m, s);
        assert (start + 1) * w == start * w + w;
      }
    } else {
      assert s == prefix;
    }
  }

  /** There are m to the power of n mappings, and the place of each is the number that its digits make. */
  lemma MappingsByRank(n: nat, m: nat)
    ensures |Mappings(n, m)| == Power(m, n)
    ensures forall s: seq<nat> :: |s| == n && Below(s, 0, m) ==> Rank(s, 0, m) < Power(m, n) && Mappings(n, m)[Rank(s, 0, m)] == s
  {
    hide Listed, Rank;
    CountMappings([], 0, n, m);
    forall s: seq<nat> | |s| == n && Below(s, 0, m)
      ensures Rank(s, 0, m) < Power(m, n) && Mappings(n, m)[Rank(s, 0, m)] == s
    {
      assert s[..0] == [];
      PlaceOf([], 0, n, m, s);
    }
  }

  /** Lower numbers make a lower rank. */
  lemma {:induction false} LowerRank(s: seq<nat>, t: seq<nat>, p: nat, m: nat)
    requires |s| == |t| && p <= |s| && forall i :: p <= i < |s| ==> s[i] <= t[i]
    ensures Rank(s, p, m) <= Rank(t, p, m)
    decreases |s| - p
  {
    if p < |s| {
      LowerRank(s, t, p + 1, m);
      Grows(s[p], t[p], Power(m, |s| - p - 1));
    }
  }

  lemma Grows(a: nat, b: nat, w: nat)
    requires a <= b
    ensures a * w <= b * w
  {
  }

  // ---------- How many selections there are ----------

  function Choose(m: nat, n: nat): nat {
    if n == 0 then 1 else if m == 0 then 0 else Choose(m - 1, n - 1) + Choose(m - 1, n)
  }

  lemma {:induction false} CountSelections(prefix: seq<nat>, start: nat, n: nat, m: nat)
    requires |prefix| <= n && start <= m
    ensures |Listed(prefix, start, n, m, false)| == Choose(m - start, n - |prefix|)
    decreases n - |prefix|, m - start
  {
    if |prefix| < n && start < m {
      CountSelections(prefix + [start], start + 1, n, m);
      CountSelections(prefix, start + 1, n, m);
    }
  }
}
