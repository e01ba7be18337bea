/** The recovery document of a backup: key shares for all challenges, and for each policy the master key under its shares. */
module AnastasisBackup {
  import opened Wrappers
  import opened AnastasisCrypto
  import Amounts
  import AmountStrings

  datatype MethodAt = MethodAt(meth: nat, provider: string)
  type Policy = seq<MethodAt>

  datatype AuthMethod = AuthMethod(kind: string, instructions: string, challenge: Bytes)

  /** What is drawn for a new challenge */
  datatype Draw = Draw(keyShare: Bytes, nonce: Bytes, masterSalt: Bytes, truthKey: Bytes, uuid: Bytes)
  datatype Truth = Truth(draw: Draw, methodIndex: nat, policyIndex: nat)

  datatype EscrowMethod = EscrowMethod(kind: string, instructions: string, providerSalt: Bytes, questionSalt: Bytes,
                                       truthKey: Bytes, url: string, uuid: Bytes)
  datatype DecryptionPolicy = DecryptionPolicy(masterKey: Bytes, salt: Bytes, uuids: seq<Bytes>)
  datatype RecoveryDocument = RecoveryDocument(secretName: string, encryptedCoreSecret: Bytes,
                                               escrowMethods: seq<EscrowMethod>, policies: seq<DecryptionPolicy>)

  datatype BackupState = BackupState(policies: seq<Policy>, methods: seq<AuthMethod>, providerSalts: map<string, Bytes>,
                                     secretName: string, coreSecret: Bytes)
  datatype RecoveryData = RecoveryData(document: RecoveryDocument, truths: map<string, Truth>)
  datatype Error = UnknownMethod | UnknownProvider

  /** All that is drawn; what is drawn for one challenge has an identifier of its own. */
  datatype Random = Random(draws: nat -> Draw, policySalts: nat -> Bytes, secrets: Randomness)

  ghost predicate Distinct(draws: nat -> Draw) {
    && (forall i: nat, j: nat :: draws(i).uuid == draws(j).uuid ==> i == j)
    && forall i: nat :: draws(i).keyShare != []
  }

  /** The key of a challenge: the number of the method and the provider */
  function Reference(m: MethodAt): string { AmountStrings.Decimal(m.meth) + ":" + m.provider }

  /** Only the same method at the same provider has the same key. */
  lemma ReferenceIsUnique(a: MethodAt, b: MethodAt)
    requires Reference(a) == Reference(b)
    ensures a == b
  {
    hide AmountStrings.Decimal;
    var s, t := AmountStrings.Decimal(a.meth), AmountStrings.Decimal(b.meth);
    DigitsThenColon(s, t, a.provider, b.provider);
    AmountStrings.NumberOfDecimal(a.meth);
    AmountStrings.NumberOfDecimal(b.meth);
  }

  lemma DigitsThenColon(a: string, b: string, x: string, y: string)
    requires AmountStrings.Digits(a) && AmountStrings.Digits(b) && a + ":" + x == b + ":" + y
    ensures a == b && x == y
  {
    var s := a + ":" + x;
    assert s[|a|] == ':' && (b + ":" + y)[|b|] == ':';
    assert forall i :: 0 <= i < |a| ==> s[i] == a[i] != ':';
    assert forall i :: 0 <= i < |b| ==> s[i] == b[i] != ':';
    assert s[..|a|] == a && s[..|b|] == b && s[|a| + 1..] == x && s[|b| + 1..] == y;
  }

  /** The challenges of the first k methods of a policy, in order */
  function Shares(p: Policy, truths: map<string, Truth>): (s: seq<Bytes>)
    requires Known(p, truths)
    ensures |s| == |p|
  {
    seq(|p|, i requires 0 <= i < |p| => truths[Reference(p[i])].draw.keyShare)
  }

  function Uuids(p: Policy, truths: map<string, Truth>): (u: seq<Bytes>)
    requires Known(p, truths)
    ensures |u| == |p|
  {
    seq(|p|, i requires 0 <= i < |p| => truths[Reference(p[i])].draw.uuid)
  }

  predicate Known(p: Policy, truths: map<string, Truth>) {
    forall i :: 0 <= i < |p| ==> Reference(p[i]) in truths
  }

  // ---------- The challenges so far ----------

  /**
   * Every challenge was drawn by itself, at a place where its method stands at its provider.
   */
  ghost predicate Drawn(policies: seq<Policy>, truths: map<string, Truth>, draws: nat -> Draw, count: nat) {
    && (forall r :: r in truths ==> exists k: nat :: k < count && truths[r].draw == draws(k))
    && (forall r, q :: r in truths && q in truths && truths[r].draw == truths[q].draw ==> r == q)
    && (forall r :: r in truths ==> PlacedAt(policies, truths[r], r))
  }

  predicate PlacedAt(policies: seq<Policy>, t: Truth, r: string) {
    && t.policyIndex < |policies| && t.methodIndex < |policies[t.policyIndex]|
    && Reference(policies[t.policyIndex][t.methodIndex]) == r
  }

  lemma OneMoreDrawn(policies: seq<Policy>, truths: map<string, Truth>, draws: nat -> Draw, count: nat, i: nat, j: nat)
    requires Distinct(draws) && Drawn(policies, truths, draws, count)
    requires i < |policies| && j < |policies[i]|
    ensures Drawn(policies, truths[Reference(policies[i][j]) := Truth(draws(count), j, i)], draws, count + 1)
  {
    hide Reference;
    var ref := Reference(policies[i][j]);
    var after := truths[ref := Truth(draws(count), j, i)];
    forall r | r in after
      ensures exists k: nat :: k < count + 1 && after[r].draw == draws(k)
    {
      if r != ref {
        var k: nat :| k < count && truths[r].draw == draws(k);
      }
    }
    forall r | r in truths
      ensures truths[r].draw != draws(count)
    {
      var k: nat :| k < count && truths[r].draw == draws(k);
    }
  }

  /** Identifiers tell challenges apart. */
  lemma UuidsDiffer(policies: seq<Policy>, truths: map<string, Truth>, draws: nat -> Draw, count: nat, r: string, q: string)
    requires Distinct(draws) && Drawn(policies, truths, draws, count) && r in truths && q in truths
    requires truths[r].draw.uuid == truths[q].draw.uuid
    ensures r == q
  {
    var k: nat :| k < count && truths[r].draw == draws(k);
    var l: nat :| l < count && truths[q].draw == draws(l);
  }

  /** Challenges are only added. */
  predicate Extends(after: map<string, Truth>, before: map<string, Truth>) {
    forall r :: r in before ==> r in after && after[r] == before[r]
  }

  lemma ExtendsKeeps(p: Policy, before: map<string, Truth>, after: map<string, Truth>)
    requires Extends(after, before) && Known(p, before)
    ensures Known(p, after) && Shares(p, after) == Shares(p, before) && Uuids(p, after) == Uuids(p, before)
  {
  }

  // ---------- One policy ----------

  /** The challenges of one policy: those that exist are used again. */
  method PreparePolicy(policies: seq<Policy>, i: nat, before: map<string, Truth>, random: Random, before_count: nat)
    returns (truths: map<string, Truth>, keyShares: seq<Bytes>, uuids: seq<Bytes>, count: nat)
    requires i < |policies| && Distinct(random.draws) && Drawn(policies, before, random.draws, before_count)
    ensures Drawn(policies, truths, random.draws, count) && Extends(truths, before)
    ensures Known(policies[i], truths) && keyShares == Shares(policies[i], truths) && uuids == Uuids(policies[i], truths)
    ensures forall r :: r in truths ==> r in before || exists j :: 0 <= j < |policies[i]| && Reference(policies[i][j]) == r
  {
    hide Reference, Drawn, Distinct;
    var pol := policies[i];
    truths, keyShares, uuids, count := before, [], [], before_count;
    var j := 0;
    while j < |pol|
      invariant j <= |pol| && Drawn(policies, truths, random.draws, count) && Extends(truths, before)
      invariant |keyShares| == |uuids| == j
      invariant forall l :: 0 <= l < j ==> Reference(pol[l]) in truths
      invariant forall l :: 0 <= l < j ==>
                  keyShares[l] == truths[Reference(pol[l])].draw.keyShare && uuids[l] == truths[Reference(pol[l])].draw.uuid
      invariant forall r :: r in truths ==> r in before || exists l :: 0 <= l < |pol| && Reference(pol[l]) == r
    {
      var truthReference := Reference(pol[j]);
      if truthReference !in truths {
        OneMoreDrawn(policies, truths, random.draws, count, i, j);
        truths := truths[truthReference := Truth(random.draws(count), j, i)];
        count := count + 1;
      }
      var tm := truths[truthReference];
      keyShares := keyShares + [tm.draw.keyShare];
      uuids := uuids + [tm.draw.uuid];
      j := j + 1;
    }
  }

  // ---------- The document ----------

  /** The master key of each policy is kept under the shares of its challenges. */
  ghost predicate PolicyPrepared(p: Primitives, policy: Policy, d: DecryptionPolicy, truths: map<string, Truth>,
                                 encCoreSecret: Bytes, coreSecret: Bytes) {
    && Known(policy, truths) && d.uuids == Uuids(policy, truths)
    && RecoveredSecret(p, d.masterKey, PolicyKey(p, Shares(policy, truths), d.salt), encCoreSecret) == Some(coreSecret)
  }

  ghost predicate EscrowOf(state: BackupState, r: string, t: Truth, e: EscrowMethod) {
    && PlacedAt(state.policies, t, r)
    && var m := state.policies[t.policyIndex][t.methodIndex];
    && m.meth < |state.methods| && m.provider in state.providerSalts
    && e.uuid == t.draw.uuid && e.truthKey == t.draw.truthKey && e.questionSalt == t.draw.masterSalt
    && e.url == m.provider && e.providerSalt == state.providerSalts[m.provider]
    && e.kind == state.methods[m.meth].kind && e.instructions == state.methods[m.meth].instructions
  }

  ghost predicate EscrowFrom(state: BackupState, truths: map<string, Truth>, es: seq<EscrowMethod>) {
    forall e :: e in es ==> exists q :: q in truths && EscrowOf(state, q, truths[q], e)
  }

  ghost predicate EscrowFor(state: BackupState, truths: map<string, Truth>, es: seq<EscrowMethod>, left: set<string>) {
    forall q :: q in truths && q !in left ==> exists e :: e in es && EscrowOf(state, q, truths[q], e)
  }

  /** All of a prepared backup */
  ghost predicate Prepared(p: Primitives, state: BackupState, draws: nat -> Draw, d: RecoveryData) {
    var doc, truths := d.document, d.truths;
    && (exists count: nat :: Drawn(state.policies, truths, draws, count))
    && (forall r :: r in truths <==> exists i, j :: 0 <= i < |state.policies| && 0 <= j < |state.policies[i]| && Reference(state.policies[i][j]) == r)
    && |doc.policies| == |state.policies|
    && (forall i :: 0 <= i < |state.policies| ==>
          PolicyPrepared(p, state.policies[i], doc.policies[i], truths, doc.encryptedCoreSecret, state.coreSecret))
    && EscrowFrom(state, truths, doc.escrowMethods) && EscrowFor(state, truths, doc.escrowMethods, {})
  }

  /** What every method of every policy refers to is there. */
  predicate Complete(state: BackupState) {
    forall i, j :: 0 <= i < |state.policies| && 0 <= j < |state.policies[i]| ==>
      state.policies[i][j].meth < |state.methods| && state.policies[i][j].provider in state.providerSalts
  }

  /** The loop over the policies */
  method PrepareShares(p: Primitives, policies: seq<Policy>, random: Random)
    returns (truths: map<string, Truth>, keys: seq<Bytes>, uuids: seq<seq<Bytes>>, ghost count: nat)
    requires Distinct(random.draws)
    ensures Drawn(policies, truths, random.draws, count)
    ensures forall r :: r in truths <==> exists i, j :: 0 <= i < |policies| && 0 <= j < |policies[i]| && Reference(policies[i][j]) == r
    ensures |keys| == |uuids| == |policies|
    ensures forall i :: 0 <= i < |policies| ==>
              && Known(policies[i], truths) && uuids[i] == Uuids(policies[i], truths)
              && keys[i] == PolicyKey(p, Shares(policies[i], truths), random.policySalts(i))
  {
    hide Reference, Drawn, Distinct, Shares, Uuids, Known, PolicyKey, Extends;
    truths, keys, uuids := map[], [], [];
    var n: nat := 0;
    NothingDrawn(policies, random.draws);
    var i := 0;
    while i < |policies|
      invariant i == |keys| == |uuids| <= |policies| && Drawn(policies, truths, random.draws, n)
      invariant forall k :: 0 <= k < i ==>
                  && Known(policies[k], truths) && uuids[k] == Uuids(policies[k], truths)
                  && keys[k] == PolicyKey(p, Shares(policies[k], truths), random.policySalts(k))
      invariant forall r :: r in truths ==> exists k, j :: 0 <= k < |policies| && 0 <= j < |policies[k]| && Reference(policies[k][j]) == r
    {
      var after, keyShares, methUuids, m := PreparePolicy(policies, i, truths, random, n);
      forall k | 0 <= k < i
        ensures Known(policies[k], after) && uuids[k] == Uuids(policies[k], after)
        ensures keys[k] == PolicyKey(p, Shares(policies[k], after), random.policySalts(k))
      {
        ExtendsKeeps(policies[k], truths, after);
      }
      var key := DerivePolicyKey(p, keyShares, random.policySalts(i));
      truths, n := after, m;
      keys, uuids := keys + [key], uuids + [methUuids];
      i := i + 1;
    }
    count := n;
    AllKnown(policies, truths);
  }

  lemma NothingDrawn(policies: seq<Policy>, draws: nat -> Draw)
    ensures Drawn(policies, map[], draws, 0)
  {
  }

  lemma AllKnown(policies: seq<Policy>, truths: map<string, Truth>)
    requires forall k :: 0 <= k < |policies| ==> Known(policies[k], truths)
    ensures forall k, j :: 0 <= k < |policies| && 0 <= j < |policies[k]| ==> Reference(policies[k][j]) in truths
  {
  }

  method EscrowOne(state: BackupState, ghost q: string, tm: Truth) returns (e: Result<EscrowMethod, Error>)
    requires PlacedAt(state.policies, tm, q)
    ensures e.Ok? ==> EscrowOf(state, q, tm, e.value)
    ensures e.Err? ==> !Complete(state)
  {
    var meth := state.policies[tm.policyIndex][tm.methodIndex];
    if meth.meth >= |state.methods| {
      return Err(UnknownMethod);
    }
    if meth.provider !in state.providerSalts {
      return Err(UnknownProvider);
    }
    var authMethod := state.methods[meth.meth];
    e := Ok(EscrowMethod(authMethod.kind, authMethod.instructions, state.providerSalts[meth.provider],
                         tm.draw.masterSalt, tm.draw.truthKey, meth.provider, tm.draw.uuid));
  }

  lemma EscrowStep(state: BackupState, truths: map<string, Truth>, es: seq<EscrowMethod>, left: set<string>, q: string, e: EscrowMethod)
    requires EscrowFrom(state, truths, es) && EscrowFor(state, truths, es, left)
    requires q in truths && EscrowOf(state, q, truths[q], e)
    ensures EscrowFrom(state, truths, es + [e]) && EscrowFor(state, truths, es + [e], left - {q})
  {
    hide EscrowOf;
    forall o | o in truths && o !in left - {q}
      ensures exists d :: d in es + [e] && EscrowOf(state, o, truths[o], d)
    {
      if o == q {
        assert e in es + [e];
      } else {
        var d :| d in es && EscrowOf(state, o, truths[o], d);
        assert d in es + [e];
      }
    }
  }

  method PrepareEscrow(state: BackupState, truths: map<string, Truth>) returns (r: Result<seq<EscrowMethod>, Error>)
    requires forall q :: q in truths ==> PlacedAt(state.policies, truths[q], q)
    ensures r.Ok? ==> EscrowFrom(state, truths, r.value) && EscrowFor(state, truths, r.value, {})
    ensures r.Err? ==> !Complete(state)
  {
    var escrowMethods: seq<EscrowMethod> := [];
    var left := truths.Keys;
    assert EscrowFrom(state, truths, []) && EscrowFor(state, truths, [], truths.Keys);
    hide PlacedAt, EscrowOf, Complete, EscrowFrom, EscrowFor;
    while left != {}
      invariant left <= truths.Keys
      invariant EscrowFrom(state, truths, escrowMethods) && EscrowFor(state, truths, escrowMethods, left)
      decreases |left|
    {
      var q :| q in left;
      var e := EscrowOne(state, q, truths[q]);
      if e.Err? {
        return Err(e.error);
      }
      EscrowStep(state, truths, escrowMethods, left, q, e.value);
      escrowMethods := escrowMethods + [e.value];
      left := left - {q};
    }
    r := Ok(escrowMethods);
  }

  method PrepareRecoveryData(p: Primitives, state: BackupState, random: Random) returns (r: Result<RecoveryData, Error>)
    requires Distinct(random.draws) && AnastasisCrypto.Enough(random.secrets, |state.policies|)
    ensures r.Ok? ==> Prepared(p, state, random.draws, r.value)
    ensures Complete(state) ==> r.Ok?
  {
    hide Reference, Drawn, Distinct, Shares, Uuids, Known, PolicyKey, RecoveredSecret, EscrowFrom, EscrowFor, Complete, Prepared, PlacedAt;
    var policies := state.policies;
    var truths, keys, uuids, count := PrepareShares(p, policies, random);
    var encCoreSecret, encMasterKeys := EncryptCoreSecret(p, keys, state.coreSecret, random.secrets);
    DrawnPlaced(policies, truths, random.draws, count);
    var escrow := PrepareEscrow(state, truths);
    if escrow.Err? {
      return Err(escrow.error);
    }
    var docPolicies := DocumentPolicies(encMasterKeys, random.policySalts, uuids);
    var doc := RecoveryDocument(state.secretName, encCoreSecret, escrow.value, docPolicies);
    r := Ok(RecoveryData(doc, truths));
    forall i | 0 <= i < |policies|
      ensures PolicyPrepared(p, policies[i], docPolicies[i], truths, encCoreSecret, state.coreSecret)
    {
      assert RecoveredSecret(p, encMasterKeys[i], keys[i], encCoreSecret) == Some(state.coreSecret);
    }
    IsPrepared(p, state, random.draws, r.value, count);
  }

  function DocumentPolicies(masterKeys: seq<Bytes>, salts: nat -> Bytes, uuids: seq<seq<Bytes>>): (d: seq<DecryptionPolicy>)
    requires |masterKeys| == |uuids|
    ensures |d| == |uuids| && forall i :: 0 <= i < |d| ==> d[i] == DecryptionPolicy(masterKeys[i], salts(i), uuids[i])
  {
    seq(|uuids|, i requires 0 <= i < |uuids| => DecryptionPolicy(masterKeys[i], salts(i), uuids[i]))
  }

  lemma IsPrepared(p: Primitives, state: BackupState, draws: nat -> Draw, d: RecoveryData, count: nat)
    requires Drawn(state.policies, d.truths, draws, count) && |d.document.policies| == |state.policies|
    requires forall r :: r in d.truths <==> exists i, j :: 0 <= i < |state.policies| && 0 <= j < |state.policies[i]| && Reference(state.policies[i][j]) == r
    requires forall i :: 0 <= i < |state.policies| ==>
               PolicyPrepared(p, state.policies[i], d.document.policies[i], d.truths, d.document.encryptedCoreSecret, state.coreSecret)
    requires EscrowFrom(state, d.truths, d.document.escrowMethods) && EscrowFor(state, d.truths, d.document.escrowMethods, {})
    ensures Prepared(p, state, draws, d)
  {
    hide Reference, Drawn, PolicyPrepared, EscrowFrom, EscrowFor;
  }

  lemma DrawnPlaced(policies: seq<Policy>, truths: map<string, Truth>, draws: nat -> Draw, count: nat)
    requires Drawn(policies, truths, draws, count)
    ensures forall q :: q in truths ==> PlacedAt(policies, truths[q], q)
  {
  }

  // ---------- What a prepared backup promises ----------

  /** Two policies share a challenge exactly where they use the same method at the same provider. */
  lemma SharedChallenges(p: Primitives, state: BackupState, draws: nat -> Draw, d: RecoveryData, i: nat, j: nat, k: nat, l: nat)
    requires Distinct(draws) && Prepared(p, state, draws, d)
    requires i < |state.policies| && j < |state.policies[i]| && k < |state.policies| && l < |state.policies[k]|
    ensures |d.document.policies[i].uuids| == |state.policies[i]| && |d.document.policies[k].uuids| == |state.policies[k]|
    ensures d.document.policies[i].uuids[j] == d.document.policies[k].uuids[l] <==> state.policies[i][j] == state.policies[k][l]
  {
    hide Reference, Drawn, Distinct, RecoveredSecret, PolicyKey, EscrowFrom, EscrowFor;
    assert PolicyPrepared(p, state.policies[i], d.document.policies[i], d.truths, d.document.encryptedCoreSecret, state.coreSecret);
    assert PolicyPrepared(p, state.policies[k], d.document.policies[k], d.truths, d.document.encryptedCoreSecret, state.coreSecret);
    var a, b := Reference(state.policies[i][j]), Reference(state.policies[k][l]);
    if d.truths[a].draw.uuid == d.truths[b].draw.uuid {
      var count: nat :| Drawn(state.policies, d.truths, draws, count);
      UuidsDiffer(state.policies, d.truths, draws, count, a, b);
      ReferenceIsUnique(state.policies[i][j], state.policies[k][l]);
    }
  }

  /** Shares under identifiers: each is the share of the challenge that has the identifier. */
  ghost predicate Genuine(truths: map<string, Truth>, shares: map<Bytes, Bytes>) {
    forall r :: r in truths && truths[r].draw.uuid in shares ==> shares[truths[r].draw.uuid] == truths[r].draw.keyShare
  }

  function SharesFor(uuids: seq<Bytes>, shares: map<Bytes, Bytes>): (s: seq<Bytes>)
    requires forall i :: 0 <= i < |uuids| ==> uuids[i] in shares
  {
    seq(|uuids|, i requires 0 <= i < |uuids| => shares[uuids[i]])
  }

  /** With genuine shares for all of its challenges, any policy of a backup gives the secret back. */
  lemma PolicyRecovers(p: Primitives, state: BackupState, draws: nat -> Draw, d: RecoveryData, i: nat, shares: map<Bytes, Bytes>)
    requires Prepared(p, state, draws, d) && i < |state.policies| && Genuine(d.truths, shares)
    requires forall j :: 0 <= j < |d.document.policies[i].uuids| ==> d.document.policies[i].uuids[j] in shares
    ensures var dp := d.document.policies[i];
            RecoveredSecret(p, dp.masterKey, PolicyKey(p, SharesFor(dp.uuids, shares), dp.salt), d.document.encryptedCoreSecret)
            == Some(state.coreSecret)
  {
    hide Reference, Drawn, RecoveredSecret, PolicyKey, EscrowFrom, EscrowFor;
    var dp := d.document.policies[i];
    assert PolicyPrepared(p, state.policies[i], dp, d.truths, d.document.encryptedCoreSecret, state.coreSecret);
    assert SharesFor(dp.uuids, shares) == Shares(state.policies[i], d.truths);
  }
}
