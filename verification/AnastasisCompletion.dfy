/** Who can solve the challenges of a policy gets the secret back. */
module AnastasisCompletion {
  import opened Wrappers
  import opened AnastasisCrypto
  import opened AnastasisBackup
  import opened AnastasisRecovery

  // ---------- A solved challenge ----------

  /**
   * A body that decrypts is recorded: either the state that results has the share under the challenge's
   * identifier, with all shares from before, and marks the challenge as solved, or recovery threw.
   */
  lemma ShareRecorded(c: Context, s: Recovery, truth: EscrowMethod, q: SolveRequest, body: Bytes, share: Bytes)
    requires Answerable(truth.kind, q)
    requires Decrypted(c.p, c.identify(s.attributes, truth.providerSalt), body, AnswerSalt(truth.kind, q)) == Some(share)
    ensures var r := Requested(c, s, truth, q, Released(body));
            && (r.Ok? ==> r.value.shares == s.shares[truth.uuid := share]
                          && r.value.feedback == s.feedback[truth.uuid := Feedback.Solved])
            && (r.Err? ==> r == Err(Thrown))
  {
    hide Decrypted, Tried;
    var t := s.(phase := ChallengeSelecting, feedback := s.feedback[truth.uuid := Feedback.Solved],
                shares := s.shares[truth.uuid := share]);
    TriedKeepsAll(c.p, t);
  }

  lemma TriedKeepsAll(p: Primitives, s: Recovery)
    ensures Tried(p, s).Ok? ==> var t := Tried(p, s).value;
            && t.document == s.document && t.shares == s.shares && t.attributes == s.attributes && t.feedback == s.feedback
            && (t == s || t.phase.RecoveryFinished?)
    ensures Tried(p, s).Err? ==> Tried(p, s) == Err(Thrown)
  {
    hide SecretOf, HasShares;
  }

  // ---------- What was uploaded, and how it is asked for ----------

  /** The answer under which the share of a challenge is uploaded */
  function UploadSalt(a: AuthMethod): Bytes { if a.kind == "question" then a.challenge else KEY_SHARE_SALT }

  /** The share of a challenge as it is uploaded for a user */
  function Upload(c: Context, attributes: string, providerSalt: Bytes, a: AuthMethod, share: Bytes, nonce: Bytes): Bytes
    requires |nonce| == 24
  {
    Encrypted(c.p, nonce, c.identify(attributes, providerSalt), share, UploadSalt(a))
  }

  /** The answer to a question is known, and for the other kinds there is a code to enter. */
  predicate RightAnswer(a: AuthMethod, q: SolveRequest) {
    if a.kind == "question" then q == Answer(a.challenge)
    else a.kind in {"email", "sms", "post", "iban", "totp"} && !q.Neither?
  }

  /** How one challenge is visited: what the provider says, what the user enters, and the nonce of the upload */
  datatype Visit = Visit(feedback: Feedback, request: SolveRequest, nonce: Bytes)

  /** Where the method of a challenge stands in a backup */
  predicate InBackup(state: BackupState, m: MethodAt) { m.meth < |state.methods| && m.provider in state.providerSalts }

  predicate CanVisit(state: BackupState, m: MethodAt, v: Visit) {
    InBackup(state, m) && |v.nonce| == 24 && RightAnswer(state.methods[m.meth], v.request)
  }

  /** A challenge is selected and solved; the provider releases what was uploaded. */
  function VisitActions(c: Context, state: BackupState, attributes: string, m: MethodAt, t: Truth, v: Visit): (a: seq<Action>)
    requires CanVisit(state, m, v)
    ensures |a| == 2
  {
    [SelectChallenge(t.draw.uuid, Instructions(v.feedback)),
     SolveChallenge(v.request, Released(Upload(c, attributes, state.providerSalts[m.provider], state.methods[m.meth], t.draw.keyShare, v.nonce)))]
  }

  predicate CanVisitAll(state: BackupState, policy: Policy, visits: seq<Visit>) {
    |visits| == |policy| && forall j :: 0 <= j < |policy| ==> CanVisit(state, policy[j], visits[j])
  }

  /** The challenges of a policy from the j-th on, one after the other */
  function SolveFrom(c: Context, state: BackupState, attributes: string, policy: Policy, truths: map<string, Truth>,
                     visits: seq<Visit>, j: nat): seq<Action>
    requires CanVisitAll(state, policy, visits) && Known(policy, truths) && j <= |policy|
    decreases |policy| - j
  {
    if j == |policy| then []
    else
      VisitActions(c, state, attributes, policy[j], truths[Reference(policy[j])], visits[j])
      + SolveFrom(c, state, attributes, policy, truths, visits, j + 1)
  }

  function Entering(attributes: string, d: RecoveryDocument): seq<Action> {
    [SelectContinent, SelectCountry, EnterUserAttributes(attributes), SelectVersion(Some(d))]
  }

  // ---------- Runs ----------

  lemma {:induction false} RunAppend(c: Context, s: Recovery, a: seq<Action>, b: seq<Action>)
    ensures Run(c, s, a + b) == Run(c, Run(c, s, a), b)
    decreases |a|
  {
    hide Step;
    if a == [] {
      assert a + b == b;
    } else {
      assert (a + b)[0] == a[0] && (a + b)[1..] == a[1..] + b;
      var r := Step(c, s, a[0]);
      RunAppend(c, if r.Ok? then r.value else s, a[1..], b);
    }
  }

  predicate NeverBack(actions: seq<Action>) { forall j :: 0 <= j < |actions| ==> !actions[j].Back? }

  lemma {:induction false} StaysFinished(c: Context, s: Recovery, actions: seq<Action>)
    requires s.phase.RecoveryFinished? && NeverBack(actions)
    ensures Run(c, s, actions) == s
    decreases |actions|
  {
    hide Tried, Requested, Polled, Selected;
    if actions != [] {
      assert Step(c, s, actions[0]).Err?;
      StaysFinished(c, s, actions[1..]);
    }
  }

  lemma {:induction false} NoBack(c: Context, state: BackupState, attributes: string, policy: Policy, truths: map<string, Truth>,
                                  visits: seq<Visit>, j: nat)
    requires CanVisitAll(state, policy, visits) && Known(policy, truths) && j <= |policy|
    ensures NeverBack(SolveFrom(c, state, attributes, policy, truths, visits, j))
    decreases |policy| - j
  {
    hide Upload, Reference, CanVisit;
    if j < |policy| {
      NoBack(c, state, attributes, policy, truths, visits, j + 1);
      var a := VisitActions(c, state, attributes, policy[j], truths[Reference(policy[j])], visits[j]);
      var b := SolveFrom(c, state, attributes, policy, truths, visits, j + 1);
      assert forall l :: 0 <= l < |a + b| ==> (a + b)[l] == if l < |a| then a[l] else b[l - |a|];
    }
  }

  /** Recovery of a backup is finished with its secret. */
  predicate FinishedWith(s: Recovery, secret: Bytes) { s.phase.RecoveryFinished? && s.coreSecret == Some(secret) }

  /** Challenges of the backup can be selected. */
  ghost predicate Underway(d: RecoveryData, s: Recovery, attributes: string) {
    s.phase.ChallengeSelecting? && s.document == Some(d.document) && s.attributes == attributes && Honest(d, s)
  }

  lemma EnteringIsUnderway(c: Context, d: RecoveryData, attributes: string)
    ensures Underway(d, Run(c, START, Entering(attributes, d.document)), attributes)
  {
    var s1 := START.(phase := CountrySelecting);
    var s2 := START.(phase := UserAttributesCollecting);
    var s3 := START.(phase := SecretSelecting, attributes := attributes);
    var s4 := s3.(phase := ChallengeSelecting, document := Some(d.document));
    assert Run(c, s3, [SelectVersion(Some(d.document))]) == Run(c, s4, []) == s4;
    assert Run(c, s2, [EnterUserAttributes(attributes), SelectVersion(Some(d.document))]) == s4;
    assert Run(c, s1, [SelectCountry, EnterUserAttributes(attributes), SelectVersion(Some(d.document))]) == s4;
  }

  /** The escrow method that is found for a challenge describes it. */
  lemma FoundEscrow(state: BackupState, draws: nat -> Draw, count: nat, d: RecoveryData, m: MethodAt) returns (e: EscrowMethod)
    requires Distinct(draws) && Drawn(state.policies, d.truths, draws, count) && Reference(m) in d.truths
    requires EscrowFrom(state, d.truths, d.document.escrowMethods) && EscrowFor(state, d.truths, d.document.escrowMethods, {})
    ensures Find(d.document.escrowMethods, d.truths[Reference(m)].draw.uuid) == Some(e)
    ensures e.uuid == d.truths[Reference(m)].draw.uuid && InBackup(state, m)
    ensures e.kind == state.methods[m.meth].kind && e.providerSalt == state.providerSalts[m.provider]
  {
    hide Drawn, Distinct, Reference;
    var r := Reference(m);
    var found := Find(d.document.escrowMethods, d.truths[r].draw.uuid);
    var known :| known in d.document.escrowMethods && EscrowOf(state, r, d.truths[r], known);
    e := found.value;
    var o :| o in d.truths && EscrowOf(state, o, d.truths[o], e);
    UuidsDiffer(state.policies, d.truths, draws, count, o, r);
    var t := d.truths[r];
    ReferenceIsUnique(state.policies[t.policyIndex][t.methodIndex], m);
  }

  /** One challenge of a policy is visited. */
  lemma OneSolved(c: Context, state: BackupState, draws: nat -> Draw, d: RecoveryData, s: Recovery, attributes: string,
                  m: MethodAt, v: Visit)
    requires Distinct(draws) && Prepared(c.p, state, draws, d) && Underway(d, s, attributes)
    requires Reference(m) in d.truths && CanVisit(state, m, v)
    ensures var t := d.truths[Reference(m)];
            var s' := Run(c, s, VisitActions(c, state, attributes, m, t, v));
            || FinishedWith(s', state.coreSecret)
            || (Underway(d, s', attributes) && s'.shares == s.shares[t.draw.uuid := t.draw.keyShare]
                && FirstSolved(d.document.policies, s'.shares, 0).None?)
  {
    hide Distinct, Drawn, Reference, PolicyPrepared, Upload, Genuine, EscrowFrom, EscrowFor, Tried, FirstSolved;
    var count: nat :| Drawn(state.policies, d.truths, draws, count);
    var t := d.truths[Reference(m)];
    var e := FoundEscrow(state, draws, count, d, m);
    var a := VisitActions(c, state, attributes, m, t, v);
    var s1 := s.(phase := ChallengeSolving, selected := Some(e.uuid),
                 feedback := if e.kind in {"question", "totp"} then s.feedback - {e.uuid} else s.feedback[e.uuid := v.feedback]);
    assert Step(c, s, a[0]) == Ok(s1);
    var s2 := s1.(phase := ChallengeSelecting, feedback := s1.feedback[e.uuid := Feedback.Solved],
                  shares := s1.shares[e.uuid := t.draw.keyShare]);
    SolvingTries(c, s1, e, state.methods[m.meth], v, t.draw.keyShare);
    StillGenuine(state, draws, count, d, s.shares, Reference(m));
    TriedSucceeds(c.p, state, draws, d, s2);
    TwoSteps(c, s, a, s1);
  }

  /** What was uploaded for the selected challenge is released, and with its share recovery is tried. */
  lemma SolvingTries(c: Context, s: Recovery, e: EscrowMethod, a: AuthMethod, v: Visit, share: Bytes)
    requires s.phase.ChallengeSolving? && s.document.Some? && s.selected == Some(e.uuid)
    requires Find(s.document.value.escrowMethods, e.uuid) == Some(e)
    requires e.kind == a.kind && RightAnswer(a, v.request) && |v.nonce| == 24
    ensures Step(c, s, SolveChallenge(v.request, Released(Upload(c, s.attributes, e.providerSalt, a, share, v.nonce))))
         == Tried(c.p, s.(phase := ChallengeSelecting, feedback := s.feedback[e.uuid := Feedback.Solved],
                          shares := s.shares[e.uuid := share]))
  {
    hide Encrypted, Decrypted, Tried;
    EncryptedDecrypts(c.p, v.nonce, c.identify(s.attributes, e.providerSalt), share, AnswerSalt(e.kind, v.request));
  }

  lemma TwoSteps(c: Context, s: Recovery, a: seq<Action>, s1: Recovery)
    requires |a| == 2 && Step(c, s, a[0]) == Ok(s1)
    ensures Step(c, s1, a[1]).Ok? ==> Run(c, s, a) == Step(c, s1, a[1]).value
  {
    hide Step;
    assert a[1..] == [a[1]] && [a[1]][1..] == [];
    assert Run(c, s, a) == Run(c, s1, [a[1]]);
  }

  /** Another share of the backup is as genuine as those before. */
  lemma StillGenuine(state: BackupState, draws: nat -> Draw, count: nat, d: RecoveryData, shares: map<Bytes, Bytes>, r: string)
    requires Distinct(draws) && Drawn(state.policies, d.truths, draws, count) && r in d.truths && Genuine(d.truths, shares)
    ensures Genuine(d.truths, shares[d.truths[r].draw.uuid := d.truths[r].draw.keyShare])
  {
    hide Distinct, Drawn;
    forall o | o in d.truths && d.truths[o].draw.uuid == d.truths[r].draw.uuid
      ensures o == r
    {
      UuidsDiffer(state.policies, d.truths, draws, count, o, r);
    }
  }

  /** With genuine shares it is tried without an exception, and it succeeds exactly if a policy is solved. */
  lemma TriedSucceeds(p: Primitives, state: BackupState, draws: nat -> Draw, d: RecoveryData, s: Recovery)
    requires Prepared(p, state, draws, d) && Honest(d, s) && s.document.Some?
    ensures var r := Tried(p, s);
            if FirstSolved(d.document.policies, s.shares, 0).Some?
            then r == Ok(s.(phase := RecoveryFinished, selected := None, coreSecret := Some(state.coreSecret)))
            else r == Ok(s)
  {
    hide Prepared, SecretOf, HasShares;
    var k := FirstSolved(d.document.policies, s.shares, 0);
    if k.Some? {
      SolvedGivesSecret(p, state, draws, d, s, k.value);
    }
  }

  /** All challenges of a policy from the j-th on are visited, with the shares of those before at hand. */
  lemma {:induction false} AllSolved(c: Context, state: BackupState, draws: nat -> Draw, d: RecoveryData, s: Recovery,
                                     attributes: string, i: nat, visits: seq<Visit>, j: nat)
    requires Distinct(draws) && Prepared(c.p, state, draws, d) && Underway(d, s, attributes)
    requires i < |state.policies| && CanVisitAll(state, state.policies[i], visits) && j <= |state.policies[i]|
    requires Known(state.policies[i], d.truths)
    requires forall l :: 0 <= l < j ==> d.truths[Reference(state.policies[i][l])].draw.uuid in s.shares
    requires j == |state.policies[i]| ==> FirstSolved(d.document.policies, s.shares, 0).None?
    ensures FinishedWith(Run(c, s, SolveFrom(c, state, attributes, state.policies[i], d.truths, visits, j)), state.coreSecret)
    decreases |state.policies[i]| - j
  {
    hide Distinct, Reference, Prepared, Step, VisitActions, CanVisit, Honest, FirstSolved;
    var policy := state.policies[i];
    if j == |policy| {
      AllShares(c.p, state, draws, d, s, i);
      assert false;
    } else {
      var t := d.truths[Reference(policy[j])];
      var a := VisitActions(c, state, attributes, policy[j], t, visits[j]);
      var rest := SolveFrom(c, state, attributes, policy, d.truths, visits, j + 1);
      OneSolved(c, state, draws, d, s, attributes, policy[j], visits[j]);
      RunAppend(c, s, a, rest);
      var s' := Run(c, s, a);
      if FinishedWith(s', state.coreSecret) {
        NoBack(c, state, attributes, policy, d.truths, visits, j + 1);
        StaysFinished(c, s', rest);
      } else {
        AllSolved(c, state, draws, d, s', attributes, i, visits, j + 1);
      }
    }
  }

  /** A policy with all of its shares is solved, and so one is found. */
  lemma AllShares(p: Primitives, state: BackupState, draws: nat -> Draw, d: RecoveryData, s: Recovery, i: nat)
    requires Distinct(draws) && Prepared(p, state, draws, d) && Honest(d, s) && i < |state.policies|
    requires Known(state.policies[i], d.truths)
    requires forall l :: 0 <= l < |state.policies[i]| ==> d.truths[Reference(state.policies[i][l])].draw.uuid in s.shares
    ensures FirstSolved(d.document.policies, s.shares, 0).Some?
  {
    hide Reference, RecoveredSecret, PolicyKey, EscrowFrom, EscrowFor;
    var dp := d.document.policies[i];
    assert PolicyPrepared(p, state.policies[i], dp, d.truths, d.document.encryptedCoreSecret, state.coreSecret);
    forall l | 0 <= l < |dp.uuids|
      ensures Present(s.shares, dp.uuids[l])
    {
      var r := Reference(state.policies[i][l]);
      assert dp.uuids[l] == d.truths[r].draw.uuid;
      assert d.truths[r].draw.keyShare != [];
    }
    assert HasShares(dp, s.shares);
  }

  /**
   * Completeness: for every prepared backup and every policy of it, selecting the version, solving all
   * challenges of the policy with what was uploaded, and going on ends with the secret of the backup.
   * Going on is only needed for a policy without challenges.
   */
  lemma EveryPolicyRecovers(c: Context, state: BackupState, draws: nat -> Draw, d: RecoveryData, attributes: string,
                            i: nat, visits: seq<Visit>)
    requires Distinct(draws) && Prepared(c.p, state, draws, d)
    requires i < |state.policies| && CanVisitAll(state, state.policies[i], visits)
    ensures Known(state.policies[i], d.truths)
    ensures var solving := Entering(attributes, d.document) + SolveFrom(c, state, attributes, state.policies[i], d.truths, visits, 0);
            && (state.policies[i] != [] ==> FinishedWith(Run(c, START, solving), state.coreSecret))
            && FinishedWith(Run(c, START, solving + [Next]), state.coreSecret)
  {
    hide Distinct, Step, VisitActions, CanVisit, Honest, FirstSolved, Drawn, EscrowFrom, EscrowFor, Reference;
    var policy := state.policies[i];
    assert PolicyPrepared(c.p, policy, d.document.policies[i], d.truths, d.document.encryptedCoreSecret, state.coreSecret);
    var enter, solve := Entering(attributes, d.document), SolveFrom(c, state, attributes, policy, d.truths, visits, 0);
    var s := Run(c, START, enter);
    EnteringIsUnderway(c, d, attributes);
    RunAppend(c, START, enter, solve);
    RunAppend(c, START, enter + solve, [Next]);
    if policy != [] {
      AllSolved(c, state, draws, d, s, attributes, i, visits, 0);
      StaysFinished(c, Run(c, s, solve), [Next]);
    } else {
      NextAtOnce(c, state, draws, d, s, attributes, i);
    }
  }

  lemma NextAtOnce(c: Context, state: BackupState, draws: nat -> Draw, d: RecoveryData, s: Recovery, attributes: string, i: nat)
    requires Distinct(draws) && Prepared(c.p, state, draws, d) && Underway(d, s, attributes)
    requires i < |state.policies| && state.policies[i] == []
    ensures FinishedWith(Run(c, s, [Next]), state.coreSecret)
  {
    hide Distinct, Prepared, Honest, FirstSolved, Tried;
    AllShares(c.p, state, draws, d, s, i);
    TriedSucceeds(c.p, state, draws, d, s);
    var r := Step(c, s, Next);
    assert r == Tried(c.p, s);
    assert Run(c, r.value, []) == r.value;
  }

  /**
   * A challenge that is answered by a bank transfer is solved by polling: when the provider releases what was
   * uploaded, the share is recorded, and recovery finishes exactly if a policy then has all of its shares.
   */
  lemma PollingSolves(c: Context, state: BackupState, draws: nat -> Draw, d: RecoveryData, s: Recovery, attributes: string,
                      m: MethodAt, nonce: Bytes)
    requires Distinct(draws) && Prepared(c.p, state, draws, d) && Underway(d, s, attributes)
    requires Reference(m) in d.truths && |nonce| == 24 && InBackup(state, m) && state.methods[m.meth].kind == "iban"
    requires d.truths[Reference(m)].draw.uuid in s.feedback && s.feedback[d.truths[Reference(m)].draw.uuid].IbanInstructions?
    ensures var t := d.truths[Reference(m)];
            var body := Upload(c, attributes, state.providerSalts[m.provider], state.methods[m.meth], t.draw.keyShare, nonce);
            var r := Step(c, s, PollFeedback([Poll(t.draw.uuid, Released(body))]));
            && r.Ok? && r.value.shares == s.shares[t.draw.uuid := t.draw.keyShare]
            && (if FirstSolved(d.document.policies, r.value.shares, 0).Some? then FinishedWith(r.value, state.coreSecret)
                else Underway(d, r.value, attributes))
  {
    hide Distinct, Drawn, Reference, PolicyPrepared, Genuine, EscrowFrom, EscrowFor, Tried, FirstSolved, Encrypted, Decrypted;
    var count: nat :| Drawn(state.policies, d.truths, draws, count);
    var t := d.truths[Reference(m)];
    var e := FoundEscrow(state, draws, count, d, m);
    var body := Upload(c, attributes, e.providerSalt, state.methods[m.meth], t.draw.keyShare, nonce);
    EncryptedDecrypts(c.p, nonce, c.identify(attributes, e.providerSalt), t.draw.keyShare, KEY_SHARE_SALT);
    var s2 := s.(feedback := s.feedback[e.uuid := Feedback.Solved], shares := s.shares[e.uuid := t.draw.keyShare]);
    assert Requested(c, s, e, Pin, Released(body)) == Tried(c.p, s2);
    StillGenuine(state, draws, count, d, s.shares, Reference(m));
    TriedSucceeds(c.p, state, draws, d, s2);
    OnePoll(c, s, Poll(e.uuid, Released(body)));
  }

  lemma OnePoll(c: Context, s: Recovery, poll: Poll)
    requires PolledOne(c, s, poll).Ok?
    ensures Polled(c, s, [poll]) == PolledOne(c, s, poll)
  {
    hide PolledOne;
    assert [poll][1..] == [];
  }
}
