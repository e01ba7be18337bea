/** Suggested policies: for each selection of methods the best way to spread them over providers. */
module PolicySuggestion {
  import opened Wrappers
  import opened Enumeration

  const MAX_METHOD_SELECTIONS := 200
  const MAX_POLICY_EVALUATIONS := 10000

  datatype ProviderInfo = ProviderInfo(url: string, methodCost: map<string, string>)
  datatype PolicyMethod = PolicyMethod(meth: nat, provider: string)
  type Policy = seq<PolicyMethod>

  datatype Error = NoMethods

  /** The types of the methods, and the providers */
  datatype Input = Input(methods: seq<string>, providers: seq<ProviderInfo>)

  predicate Offers(p: ProviderInfo, meth: string) { meth in p.methodCost && p.methodCost[meth] != "" }

  predicate SelectionFits(x: Input, sel: seq<nat>) { forall i :: 0 <= i < |sel| ==> sel[i] < |x.methods| }
  predicate MappingFits(x: Input, sel: seq<nat>, prov: seq<nat>) {
    |prov| == |sel| && forall i :: 0 <= i < |prov| ==> prov[i] < |x.providers|
  }

  /** Every method is at a provider that offers it. */
  predicate Possible(x: Input, sel: seq<nat>, prov: seq<nat>)
    requires SelectionFits(x, sel) && MappingFits(x, sel, prov)
  {
    forall i :: 0 <= i < |prov| ==> Offers(x.providers[prov[i]], x.methods[sel[i]])
  }

  function MakePolicy(x: Input, sel: seq<nat>, prov: seq<nat>): (p: Policy)
    requires SelectionFits(x, sel) && MappingFits(x, sel, prov)
    ensures |p| == |sel|
  {
    seq(|prov|, i requires 0 <= i < |prov| => PolicyMethod(sel[i], x.providers[prov[i]].url))
  }

  // ---------- What makes an assignment good ----------

  function Urls(p: Policy): set<string> { set i | 0 <= i < |p| :: p[i].provider }

  /** The providers at which a method shows up */
  function UrlsOf(p: Policy, meth: nat): set<string> { set i | 0 <= i < |p| && p[i].meth == meth :: p[i].provider }

  function AllUrlsOf(policies: seq<Policy>, meth: nat): set<string> {
    if policies == [] then {} else AllUrlsOf(policies[..|policies| - 1], meth) + UrlsOf(policies[|policies| - 1], meth)
  }

  function Diversity(p: Policy): nat { |Urls(p)| }

  /** For the first k methods, the numbers of providers at which they show up */
  function Duplication(policies: seq<Policy>, p: Policy, k: nat): nat {
    if k == 0 then 0 else Duplication(policies, p, k - 1) + |AllUrlsOf(policies, k - 1) + UrlsOf(p, k - 1)|
  }

  datatype Score = Score(diversity: nat, duplication: nat)

  function ScoreOf(x: Input, existing: seq<Policy>, sel: seq<nat>, prov: seq<nat>): Score
    requires SelectionFits(x, sel) && MappingFits(x, sel, prov)
  {
    var p := MakePolicy(x, sel, prov);
    Score(Diversity(p), Duplication(existing, p, |x.methods|))
  }

  predicate Beats(a: Score, b: Score) {
    a.diversity > b.diversity || (a.diversity == b.diversity && a.duplication < b.duplication)
  }

  /** The best of the first k mappings: the later one only if it beats the earlier */
  function Best(x: Input, existing: seq<Policy>, sel: seq<nat>, provs: seq<seq<nat>>, k: nat): (b: Option<nat>)
    requires SelectionFits(x, sel) && k <= |provs| && forall i :: 0 <= i < |provs| ==> MappingFits(x, sel, provs[i])
    ensures b.Some? ==> b.value < k
  {
    if k == 0 then None
    else
      var b := Best(x, existing, sel, provs, k - 1);
      if !Possible(x, sel, provs[k - 1]) then b
      else if b.None? || Beats(ScoreOf(x, existing, sel, provs[k - 1]), ScoreOf(x, existing, sel, provs[b.value])) then Some(k - 1)
      else b
  }

  /** A possible mapping that none beats, and that beats or ties only with later ones */
  ghost predicate Optimal(x: Input, existing: seq<Policy>, sel: seq<nat>, provs: seq<seq<nat>>, k: nat, b: nat)
    requires SelectionFits(x, sel) && k <= |provs| && forall i :: 0 <= i < |provs| ==> MappingFits(x, sel, provs[i])
  {
    && b < k && Possible(x, sel, provs[b])
    && forall i :: 0 <= i < k && Possible(x, sel, provs[i]) ==>
         var s, t := ScoreOf(x, existing, sel, provs[i]), ScoreOf(x, existing, sel, provs[b]);
         !Beats(s, t) && (i < b ==> Beats(t, s))
  }

  /** The choice is the optimum: there is none exactly if no mapping is possible, and else it is the earliest best one. */
  lemma {:induction false} BestIsOptimal(x: Input, existing: seq<Policy>, sel: seq<nat>, provs: seq<seq<nat>>, k: nat)
    requires SelectionFits(x, sel) && k <= |provs| && forall i :: 0 <= i < |provs| ==> MappingFits(x, sel, provs[i])
    ensures var b := Best(x, existing, sel, provs, k);
            && (b.None? <==> forall i :: 0 <= i < k ==> !Possible(x, sel, provs[i]))
            && (b.Some? ==> Optimal(x, existing, sel, provs, k, b.value))
  {
    hide Possible, ScoreOf, MappingFits, SelectionFits;
    if k > 0 {
      BestIsOptimal(x, existing, sel, provs, k - 1);
    }
  }

  /**
   * In numbers: no possible mapping uses more different providers than the chosen one; of those with as many, none
   * has fewer providers summed over the methods; and of those with as few, none comes earlier.
   */
  lemma BestInNumbers(x: Input, existing: seq<Policy>, sel: seq<nat>, provs: seq<seq<nat>>, k: nat, i: nat)
    requires SelectionFits(x, sel) && k <= |provs| && forall j :: 0 <= j < |provs| ==> MappingFits(x, sel, provs[j])
    requires i < k && Possible(x, sel, provs[i])
    ensures var b := Best(x, existing, sel, provs, k);
            && b.Some? && Possible(x, sel, provs[b.value])
            && var p, q := MakePolicy(x, sel, provs[i]), MakePolicy(x, sel, provs[b.value]);
               var n := |x.methods|;
               || |Urls(p)| < |Urls(q)|
               || (|Urls(p)| == |Urls(q)| && Duplication(existing, p, n) > Duplication(existing, q, n))
               || (|Urls(p)| == |Urls(q)| && Duplication(existing, p, n) == Duplication(existing, q, n) && b.value <= i)
  {
    hide Possible, MappingFits, SelectionFits, Urls, Duplication, MakePolicy;
    BestIsOptimal(x, existing, sel, provs, k);
  }

  lemma OptimalIsOne(x: Input, existing: seq<Policy>, sel: seq<nat>, provs: seq<seq<nat>>, k: nat, a: nat, b: nat)
    requires SelectionFits(x, sel) && k <= |provs| && forall i :: 0 <= i < |provs| ==> MappingFits(x, sel, provs[i])
    requires Optimal(x, existing, sel, provs, k, a) && Optimal(x, existing, sel, provs, k, b)
    ensures a == b
  {
    hide Possible, ScoreOf, MappingFits, SelectionFits;
  }

  // ---------- The choice for one selection ----------

  function Evaluated(x: Input, sel: seq<nat>): seq<seq<nat>> {
    First(Mappings(|sel|, |x.providers|), MAX_POLICY_EVALUATIONS)
  }

  lemma EvaluatedFit(x: Input, sel: seq<nat>)
    ensures forall i :: 0 <= i < |Evaluated(x, sel)| ==> MappingFits(x, sel, Evaluated(x, sel)[i])
  {
    hide Mappings;
    var all := Mappings(|sel|, |x.providers|);
    MappingsComplete(|sel|, |x.providers|);
    forall i | 0 <= i < |Evaluated(x, sel)|
      ensures MappingFits(x, sel, Evaluated(x, sel)[i])
    {
      assert Evaluated(x, sel)[i] == all[i] && all[i] in all;
    }
  }

  function Assigned(x: Input, existing: seq<Policy>, sel: seq<nat>): Option<Policy>
    requires SelectionFits(x, sel)
  {
    EvaluatedFit(x, sel);
    var provs := Evaluated(x, sel);
    var b := Best(x, existing, sel, provs, |provs|);
    if b.None? then None else Some(MakePolicy(x, sel, provs[b.value]))
  }

  method IsPossible(x: Input, sel: seq<nat>, prov: seq<nat>) returns (possible: bool)
    requires SelectionFits(x, sel) && MappingFits(x, sel, prov)
    ensures possible == Possible(x, sel, prov)
  {
    possible := true;
    var i := 0;
    while i < |prov|
      invariant i <= |prov| && forall j :: 0 <= j < i ==> Offers(x.providers[prov[j]], x.methods[sel[j]])
    {
      if !Offers(x.providers[prov[i]], x.methods[sel[i]]) {
        return false;
      }
      i := i + 1;
    }
  }

  method CountProviders(x: Input, sel: seq<nat>, prov: seq<nat>) returns (diversity: nat)
    requires SelectionFits(x, sel) && MappingFits(x, sel, prov)
    ensures diversity == Diversity(MakePolicy(x, sel, prov))
  {
    ghost var p := MakePolicy(x, sel, prov);
    var providerSet: set<string> := {};
    var i := 0;
    while i < |prov|
      invariant i <= |prov| && forall j :: 0 <= j < i ==> p[j].provider in providerSet
      invariant forall u :: u in providerSet ==> exists j :: 0 <= j < i && p[j].provider == u
    {
      assert p[i].provider == x.providers[prov[i]].url;
      providerSet := providerSet + {x.providers[prov[i]].url};
      i := i + 1;
    }
    assert providerSet == Urls(p);
    diversity := |providerSet|;
  }

  /** For each method, the providers at which the existing policies and the new one put it */
  method ProvidersPerMethod(x: Input, existing: seq<Policy>, p: Policy) returns (perMethod: seq<set<string>>)
    requires forall j :: 0 <= j < |existing| ==> PolicyFits(x, existing[j])
    requires PolicyFits(x, p)
    ensures |perMethod| == |x.methods|
    ensures forall m :: 0 <= m < |x.methods| ==> perMethod[m] == AllUrlsOf(existing, m) + UrlsOf(p, m)
  {
    hide UrlsOf, PolicyFits;
    perMethod := seq(|x.methods|, i => {});
    var i := 0;
    while i < |existing|
      invariant i <= |existing| && |perMethod| == |x.methods|
      invariant forall m :: 0 <= m < |x.methods| ==> perMethod[m] == AllUrlsOf(existing[..i], m)
    {
      assert existing[..i + 1][..i] == existing[..i];
      perMethod := AddPolicy(x, perMethod, existing[i]);
      i := i + 1;
    }
    assert existing[..i] == existing;
    perMethod := AddPolicy(x, perMethod, p);
  }

  predicate PolicyFits(x: Input, p: Policy) { forall i :: 0 <= i < |p| ==> p[i].meth < |x.methods| }

  method AddPolicy(x: Input, before: seq<set<string>>, p: Policy) returns (perMethod: seq<set<string>>)
    requires |before| == |x.methods| && PolicyFits(x, p)
    ensures |perMethod| == |before| && forall m :: 0 <= m < |before| ==> perMethod[m] == before[m] + UrlsOf(p, m)
  {
    perMethod := before;
    var i := 0;
    while i < |p|
      invariant i <= |p| && |perMethod| == |before|
      invariant forall m :: 0 <= m < |before| ==> perMethod[m] == before[m] + UrlsOf(p[..i], m)
    {
      var m := p[i].meth;
      perMethod := perMethod[m := perMethod[m] + {p[i].provider}];
      OneMore(p, i);
      i := i + 1;
    }
    assert p[..i] == p;
  }

  lemma OneMore(p: Policy, i: nat)
    requires i < |p|
    ensures forall m :: UrlsOf(p[..i + 1], m) == UrlsOf(p[..i], m) + if p[i].meth == m then {p[i].provider} else {}
  {
    var q := p[..i + 1];
    assert q[..i] == p[..i] && q[i] == p[i];
    forall m
      ensures UrlsOf(q, m) == UrlsOf(p[..i], m) + if p[i].meth == m then {p[i].provider} else {}
    {
      forall u | u in UrlsOf(p[..i], m)
        ensures u in UrlsOf(q, m)
      {
        var j :| 0 <= j < i && p[..i][j].meth == m && p[..i][j].provider == u;
        assert q[j] == p[..i][j];
      }
      forall u | u in UrlsOf(q, m)
        ensures u in UrlsOf(p[..i], m) + if p[i].meth == m then {p[i].provider} else {}
      {
        var j :| 0 <= j < |q| && q[j].meth == m && q[j].provider == u;
        if j < i {
          assert q[j] == p[..i][j];
        }
      }
    }
  }

  method Evaluate(x: Input, existing: seq<Policy>, sel: seq<nat>, prov: seq<nat>) returns (score: Score)
    requires SelectionFits(x, sel) && MappingFits(x, sel, prov)
    requires forall j :: 0 <= j < |existing| ==> PolicyFits(x, existing[j])
    ensures score == ScoreOf(x, existing, sel, prov)
  {
    hide Diversity, UrlsOf;
    var diversity := CountProviders(x, sel, prov);
    var p := MakePolicy(x, sel, prov);
    var provPerMethod := ProvidersPerMethod(x, existing, p);
    var duplication := 0;
    var i := 0;
    while i < |provPerMethod|
      invariant i <= |provPerMethod| && duplication == Duplication(existing, p, i)
    {
      duplication := duplication + |provPerMethod[i]|;
      i := i + 1;
    }
    score := Score(diversity, duplication);
  }

  method AssignProviders(x: Input, existing: seq<Policy>, sel: seq<nat>) returns (policy: Option<Policy>)
    requires SelectionFits(x, sel) && forall j :: 0 <= j < |existing| ==> PolicyFits(x, existing[j])
    ensures policy == Assigned(x, existing, sel)
  {
    hide Mappings, First, MappingFits, SelectionFits, Possible, ScoreOf, PolicyFits;
    EvaluatedFit(x, sel);
    var provs := EnumerateProviderMappings(|sel|, |x.providers|, MAX_POLICY_EVALUATIONS);
    assert provs == Evaluated(x, sel);
    var bestProvSel: Option<seq<nat>> := None;
    var best := Score(0, 0x1F_FFFF_FFFF_FFFF);
    ghost var b: Option<nat> := None;
    var k := 0;
    while k < |provs|
      invariant k <= |provs| && b == Best(x, existing, sel, provs, k)
      invariant b.None? <==> bestProvSel.None?
      invariant b.Some? ==> bestProvSel.value == provs[b.value] && best == ScoreOf(x, existing, sel, provs[b.value])
    {
      var possible := IsPossible(x, sel, provs[k]);
      if possible {
        var score := Evaluate(x, existing, sel, provs[k]);
        if bestProvSel.None? || score.diversity > best.diversity {
          bestProvSel, best := Some(provs[k]), score;
          b := Some(k);
        } else if score.diversity == best.diversity && score.duplication < best.duplication {
          bestProvSel, best := Some(provs[k]), score;
          b := Some(k);
        }
      }
      k := k + 1;
    }
    policy := if bestProvSel.None? then None else Some(MakePolicy(x, sel, bestProvSel.value));
  }

  // ---------- When a selection gets a policy ----------

  predicate Offered(x: Input, meth: string) {
    exists i :: 0 <= i < |x.providers| && Offers(x.providers[i], meth)
  }

  /** The first provider, from a position on, that offers a method */
  function FirstOffer(x: Input, meth: string, from: nat): (i: nat)
    requires exists j :: from <= j < |x.providers| && Offers(x.providers[j], meth)
    ensures from <= i < |x.providers| && Offers(x.providers[i], meth)
    ensures forall j :: from <= j < i ==> !Offers(x.providers[j], meth)
    decreases |x.providers| - from
  {
    if Offers(x.providers[from], meth) then from else FirstOffer(x, meth, from + 1)
  }

  predicate AllOffered(x: Input, sel: seq<nat>)
    requires SelectionFits(x, sel)
  {
    forall i :: 0 <= i < |sel| ==> Offered(x, x.methods[sel[i]])
  }

  function FirstMapping(x: Input, sel: seq<nat>): (p: seq<nat>)
    requires SelectionFits(x, sel) && AllOffered(x, sel)
    ensures MappingFits(x, sel, p) && Possible(x, sel, p)
  {
    seq(|sel|, i requires 0 <= i < |sel| => FirstOffer(x, x.methods[sel[i]], 0))
  }

  /**
   * Each method is offered somewhere, and the mapping of each to the first provider that offers it
   * is among those that are evaluated.
   */
  predicate WithinReach(x: Input, sel: seq<nat>)
    requires SelectionFits(x, sel)
  {
    AllOffered(x, sel) && Rank(FirstMapping(x, sel), 0, |x.providers|) < MAX_POLICY_EVALUATIONS
  }

  lemma RankOfEvaluated(x: Input, sel: seq<nat>, k: nat)
    requires k < |Evaluated(x, sel)|
    ensures Rank(Evaluated(x, sel)[k], 0, |x.providers|) == k < MAX_POLICY_EVALUATIONS
  {
    hide Mappings, Rank;
    var n, m := |sel|, |x.providers|;
    var all := Mappings(n, m);
    MappingsByRank(n, m);
    MappingsComplete(n, m);
    assert Evaluated(x, sel)[k] == all[k] && all[k] in all;
    var r := Rank(all[k], 0, m);
    assert all[r] == all[k];
    hide Before;
    if r < k {
      BeforeIsStrict(all[r], all[k]);
    } else if k < r {
      BeforeIsStrict(all[k], all[r]);
    }
  }

  /** A selection gets a policy exactly if it is within reach, whatever policies there are before. */
  lemma AssignedExactly(x: Input, existing: seq<Policy>, sel: seq<nat>)
    requires SelectionFits(x, sel)
    ensures Assigned(x, existing, sel).Some? <==> WithinReach(x, sel)
  {
    hide Rank, Best, Mappings;
    EvaluatedFit(x, sel);
    var provs := Evaluated(x, sel);
    BestIsOptimal(x, existing, sel, provs, |provs|);
    if Assigned(x, existing, sel).Some? {
      var b := Best(x, existing, sel, provs, |provs|).value;
      var prov := provs[b];
      forall i | 0 <= i < |sel|
        ensures Offered(x, x.methods[sel[i]]) && FirstOffer(x, x.methods[sel[i]], 0) <= prov[i]
      {
        assert Offers(x.providers[prov[i]], x.methods[sel[i]]);
      }
      LowerRank(FirstMapping(x, sel), prov, 0, |x.providers|);
      RankOfEvaluated(x, sel, b);
    }
    if WithinReach(x, sel) {
      FirstIsEvaluated(x, sel);
    }
  }

  lemma FirstIsEvaluated(x: Input, sel: seq<nat>)
    requires SelectionFits(x, sel) && WithinReach(x, sel)
    ensures var p, k := FirstMapping(x, sel), Rank(FirstMapping(x, sel), 0, |x.providers|);
            k < |Evaluated(x, sel)| && Evaluated(x, sel)[k] == p && Possible(x, sel, p)
  {
    hide Rank, Mappings;
    var p := FirstMapping(x, sel);
    MappingsByRank(|sel|, |x.providers|);
    assert Mappings(|sel|, |x.providers|)[Rank(p, 0, |x.providers|)] == p;
  }

  // ---------- All suggestions ----------

  function NumSel(n: nat): nat {
    if n <= 2 then n else if n <= 4 then n - 1 else if n <= 6 then n - 2 else if n == 7 then n - 3 else 4
  }

  function SelectionsOf(x: Input): seq<seq<nat>> {
    First(Selections(NumSel(|x.methods|), |x.methods|), MAX_METHOD_SELECTIONS)
  }

  lemma SelectionsFit(x: Input)
    ensures forall i :: 0 <= i < |SelectionsOf(x)| ==> SelectionFits(x, SelectionsOf(x)[i]) && Increasing(SelectionsOf(x)[i], 0)
  {
    hide Selections;
    var all := Selections(NumSel(|x.methods|), |x.methods|);
    SelectionsComplete(NumSel(|x.methods|), |x.methods|);
    forall i | 0 <= i < |SelectionsOf(x)|
      ensures SelectionFits(x, SelectionsOf(x)[i]) && Increasing(SelectionsOf(x)[i], 0)
    {
      assert SelectionsOf(x)[i] == all[i] && all[i] in all;
    }
  }

  predicate AllFit(x: Input, sels: seq<seq<nat>>) { forall i :: 0 <= i < |sels| ==> SelectionFits(x, sels[i]) }

  function Suggested(x: Input, sels: seq<seq<nat>>): (policies: seq<Policy>)
    requires AllFit(x, sels)
    ensures forall j :: 0 <= j < |policies| ==> PolicyFits(x, policies[j])
  {
    if sels == [] then []
    else
      var before := Suggested(x, sels[..|sels| - 1]);
      var p := Assigned(x, before, sels[|sels| - 1]);
      if p.None? then before else before + [p.value]
  }

  method SuggestPolicies(x: Input) returns (r: Result<seq<Policy>, Error>)
    ensures x.methods == [] <==> r.Err?
    ensures r.Ok? ==> AllFit(x, SelectionsOf(x)) && r.value == Suggested(x, SelectionsOf(x))
  {
    hide Selections, SelectionFits, Assigned, PolicyFits;
    var numMethods := |x.methods|;
    if numMethods == 0 {
      return Err(NoMethods);
    }
    var numSel: nat;
    if numMethods <= 2 {
      numSel := numMethods;
    } else if numMethods <= 4 {
      numSel := numMethods - 1;
    } else if numMethods <= 6 {
      numSel := numMethods - 2;
    } else if numMethods == 7 {
      numSel := numMethods - 3;
    } else {
      numSel := 4;
    }
    var selections := EnumerateMethodSelections(numSel, numMethods, MAX_METHOD_SELECTIONS);
    assert selections == SelectionsOf(x);
    SelectionsFit(x);
    var policies: seq<Policy> := [];
    var i := 0;
    while i < |selections|
      invariant i <= |selections| && AllFit(x, selections[..i]) && policies == Suggested(x, selections[..i])
    {
      var p := AssignProviders(x, policies, selections[i]);
      assert selections[..i + 1][..i] == selections[..i] && selections[..i + 1][i] == selections[i];
      if p.Some? {
        policies := policies + [p.value];
      }
      i := i + 1;
    }
    assert selections[..i] == selections;
    r := Ok(policies);
  }

  // ---------- What is suggested ----------

  function MethodsOf(p: Policy): seq<nat> { seq(|p|, i requires 0 <= i < |p| => p[i].meth) }

  function MethodsOfAll(policies: seq<Policy>): seq<seq<nat>> {
    seq(|policies|, i requires 0 <= i < |policies| => MethodsOf(policies[i]))
  }

  function Reachable(x: Input, sels: seq<seq<nat>>): seq<seq<nat>>
    requires AllFit(x, sels)
  {
    if sels == [] then []
    else
      var before := Reachable(x, sels[..|sels| - 1]);
      if WithinReach(x, sels[|sels| - 1]) then before + [sels[|sels| - 1]] else before
  }

  /** Exactly the selections within reach are suggested, in their order. */
  lemma {:induction false} SuggestedExactly(x: Input, sels: seq<seq<nat>>)
    requires AllFit(x, sels)
    ensures MethodsOfAll(Suggested(x, sels)) == Reachable(x, sels)
  {
    if sels != [] {
      hide Assigned, WithinReach, SelectionFits;
      var before, last := sels[..|sels| - 1], sels[|sels| - 1];
      SuggestedExactly(x, before);
      AssignedExactly(x, Suggested(x, before), last);
      if WithinReach(x, last) {
        AssignedMethods(x, Suggested(x, before), last);
        var p := Assigned(x, Suggested(x, before), last).value;
        assert MethodsOfAll(Suggested(x, before) + [p]) == MethodsOfAll(Suggested(x, before)) + [MethodsOf(p)];
      }
    }
  }

  lemma AssignedMethods(x: Input, existing: seq<Policy>, sel: seq<nat>)
    requires SelectionFits(x, sel) && Assigned(x, existing, sel).Some?
    ensures MethodsOf(Assigned(x, existing, sel).value) == sel
  {
    hide Best, Mappings;
    EvaluatedFit(x, sel);
  }

  /** Every method of a policy is at a provider from the list that offers it. */
  predicate Usable(x: Input, p: Policy) { forall i :: 0 <= i < |p| ==> UsableMethod(x, p[i]) }

  predicate UsableMethod(x: Input, m: PolicyMethod) {
    && m.meth < |x.methods|
    && exists j :: 0 <= j < |x.providers| && x.providers[j].url == m.provider && Offers(x.providers[j], x.methods[m.meth])
  }

  lemma PossibleIsUsable(x: Input, sel: seq<nat>, prov: seq<nat>, i: nat)
    requires SelectionFits(x, sel) && MappingFits(x, sel, prov) && Possible(x, sel, prov) && i < |sel|
    ensures UsableMethod(x, MakePolicy(x, sel, prov)[i])
  {
    hide Offers;
    var m, j := MakePolicy(x, sel, prov)[i], prov[i];
    assert Offers(x.providers[prov[i]], x.methods[sel[i]]);
    assert x.providers[j].url == m.provider && Offers(x.providers[j], x.methods[m.meth]);
  }

  lemma AssignedUsable(x: Input, existing: seq<Policy>, sel: seq<nat>)
    requires SelectionFits(x, sel) && Assigned(x, existing, sel).Some?
    ensures Usable(x, Assigned(x, existing, sel).value)
  {
    hide Best, Mappings, UsableMethod, First, ScoreOf, Beats, Possible, MakePolicy, SelectionFits, MappingFits;
    EvaluatedFit(x, sel);
    var provs := Evaluated(x, sel);
    BestIsOptimal(x, existing, sel, provs, |provs|);
    var prov := provs[Best(x, existing, sel, provs, |provs|).value];
    var p := MakePolicy(x, sel, prov);
    assert Assigned(x, existing, sel).value == p;
    forall i | 0 <= i < |p|
      ensures UsableMethod(x, p[i])
    {
      PossibleIsUsable(x, sel, prov, i);
    }
  }

  lemma {:induction false} SuggestedUsable(x: Input, sels: seq<seq<nat>>)
    requires AllFit(x, sels)
    ensures forall j :: 0 <= j < |Suggested(x, sels)| ==> Usable(x, Suggested(x, sels)[j])
  {
    if sels != [] {
      hide Assigned, Usable, SelectionFits;
      var before, last := sels[..|sels| - 1], sels[|sels| - 1];
      SuggestedUsable(x, before);
      if Assigned(x, Suggested(x, before), last).Some? {
        AssignedUsable(x, Suggested(x, before), last);
      }
    }
  }

  lemma MoreToChoose(m: nat, n: nat)
    ensures Choose(m + 1, n) >= Choose(m, n)
  {
  }

  lemma {:induction false} ManyToChoose(m: nat)
    requires m >= 10
    ensures Choose(m, 4) >= 210
    decreases m
  {
    hide Choose;
    if m == 10 {
      TenMethods();
    } else {
      ManyToChoose(m - 1);
      MoreToChoose(m - 1, 4);
    }
  }

  lemma TenMethods()
    ensures Choose(10, 4) == 210 && Choose(7, 4) == 35 && Choose(8, 4) == 70 && Choose(9, 4) == 126
  {
    assert Choose(7, 1) == 7 && Choose(7, 2) == 21 && Choose(7, 3) == 35 && Choose(7, 4) == 35;
    assert Choose(8, 2) == 28 && Choose(8, 3) == 56 && Choose(8, 4) == 70;
    assert Choose(9, 3) == 84 && Choose(9, 4) == 126;
  }

  lemma FewMethods(m: nat)
    requires m <= 9
    ensures Choose(m, NumSel(m)) <= 126
  {
    TenMethods();
    assert Choose(0, 0) == Choose(1, 1) == Choose(2, 2) == 1 && Choose(3, 2) == 3 && Choose(4, 3) == 4;
    assert Choose(5, 3) == 10 && Choose(6, 4) == 15;
  }

  /** All selections are tried exactly if there are at most nine methods. */
  lemma AllSelectionsTried(x: Input)
    ensures SelectionsOf(x) == Selections(NumSel(|x.methods|), |x.methods|) <==> |x.methods| <= 9
  {
    hide Choose, Listed;
    var n := |x.methods|;
    CountSelections([], 0, NumSel(n), n);
    if n <= 9 {
      FewMethods(n);
    } else {
      ManyToChoose(n);
    }
  }

  /**
   * With six methods that only the last of eleven providers offers, nothing is suggested: the mappings
   * that are evaluated end before the one that is possible.
   */
  lemma NothingSuggested(x: Input)
    requires |x.methods| == 6 && |x.providers| == 11
    requires forall i :: 0 <= i < 10 ==> x.providers[i].methodCost == map[]
    requires forall t :: t in x.methods ==> Offers(x.providers[10], t)
    ensures AllFit(x, SelectionsOf(x)) && Suggested(x, SelectionsOf(x)) == []
    ensures forall i :: 0 <= i < |SelectionsOf(x)| ==> AllOffered(x, SelectionsOf(x)[i])
  {
    hide Selections, Assigned, WithinReach;
    SelectionsFit(x);
    var sels := SelectionsOf(x);
    SelectionsComplete(4, 6);
    forall i | 0 <= i < |sels|
      ensures AllOffered(x, sels[i]) && !WithinReach(x, sels[i])
    {
      assert sels[i] == Selections(4, 6)[i] && sels[i] in Selections(4, 6);
      OnlyLast(x, sels[i]);
    }
    NothingWithinReach(x, sels);
  }

  lemma OnlyLast(x: Input, sel: seq<nat>)
    requires |x.methods| == 6 && |x.providers| == 11 && |sel| == 4 && SelectionFits(x, sel)
    requires forall i :: 0 <= i < 10 ==> x.providers[i].methodCost == map[]
    requires forall t :: t in x.methods ==> Offers(x.providers[10], t)
    ensures AllOffered(x, sel) && !WithinReach(x, sel)
  {
    forall i | 0 <= i < |sel|
      ensures Offered(x, x.methods[sel[i]])
    {
      assert x.methods[sel[i]] in x.methods;
      assert Offers(x.providers[10], x.methods[sel[i]]);
    }
    var p := FirstMapping(x, sel);
    assert p == [10, 10, 10, 10];
    assert Power(11, 0) == 1 && Power(11, 1) == 11 && Power(11, 2) == 121 && Power(11, 3) == 1331;
    assert Rank(p, 4, 11) == 0;
    assert Rank(p, 3, 11) == 10;
    assert Rank(p, 2, 11) == 120;
    assert Rank(p, 1, 11) == 1330;
    assert Rank(p, 0, 11) == 14640;
  }

  lemma {:induction false} NothingWithinReach(x: Input, sels: seq<seq<nat>>)
    requires AllFit(x, sels) && forall i :: 0 <= i < |sels| ==> !WithinReach(x, sels[i])
    ensures Suggested(x, sels) == []
  {
    if sels != [] {
      hide Assigned, WithinReach;
      NothingWithinReach(x, sels[..|sels| - 1]);
      AssignedExactly(x, [], sels[|sels| - 1]);
    }
  }
}
