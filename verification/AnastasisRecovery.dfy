/** Recovery as a state machine: challenges are solved for key shares until those of one policy are there. */
module AnastasisRecovery {
  import opened Wrappers
  import opened AnastasisCrypto
  import opened AnastasisBackup

  datatype Phase = ContinentSelecting | CountrySelecting | UserAttributesCollecting | SecretSelecting
                 | ChallengeSelecting | ChallengePaying | ChallengeSolving | RecoveryFinished

  datatype Feedback = Solved | IncorrectAnswer | ServerFailure | IbanInstructions | CodeGiven

  datatype Recovery = Recovery(phase: Phase, attributes: string, document: Option<RecoveryDocument>,
                               shares: map<Bytes, Bytes>, selected: Option<Bytes>, feedback: map<Bytes, Feedback>,
                               coreSecret: Option<Bytes>)

  const START := Recovery(ContinentSelecting, "", None, map[], None, map[], None)

  /** An action ends with an exception, or with an error that is returned. */
  datatype Failure = Thrown | ActionInvalid | ChallengeFailed | PolicyLookupFailed

  /** The primitives, and how a user is identified to a provider: by attributes and the provider's salt */
  datatype Context = Context(p: Primitives, identify: (string, Bytes) -> Bytes)

  // ---------- The secret from the shares ----------

  predicate Present(shares: map<Bytes, Bytes>, uuid: Bytes) { uuid in shares && shares[uuid] != [] }

  predicate HasShares(policy: DecryptionPolicy, shares: map<Bytes, Bytes>) {
    forall i :: 0 <= i < |policy.uuids| ==> Present(shares, policy.uuids[i])
  }

  /** The first policy that has all of its shares */
  function FirstSolved(policies: seq<DecryptionPolicy>, shares: map<Bytes, Bytes>, k: nat): (r: Option<nat>)
    requires k <= |policies|
    ensures r.Some? ==> k <= r.value < |policies| && HasShares(policies[r.value], shares)
    ensures r.Some? ==> forall i :: k <= i < r.value ==> !HasShares(policies[i], shares)
    ensures r.None? ==> forall i :: k <= i < |policies| ==> !HasShares(policies[i], shares)
    decreases |policies| - k
  {
    if k == |policies| then None else if HasShares(policies[k], shares) then Some(k) else FirstSolved(policies, shares, k + 1)
  }

  function SecretOf(p: Primitives, d: RecoveryDocument, k: nat, shares: map<Bytes, Bytes>): Option<Bytes>
    requires k < |d.policies| && HasShares(d.policies[k], shares)
  {
    var dp := d.policies[k];
    RecoveredSecret(p, dp.masterKey, PolicyKey(p, SharesFor(dp.uuids, shares), dp.salt), d.encryptedCoreSecret)
  }

  function Tried(p: Primitives, s: Recovery): Result<Recovery, Failure> {
    if s.document.None? then Err(Thrown)
    else
      var d := s.document.value;
      var k := FirstSolved(d.policies, s.shares, 0);
      if k.None? then Ok(s)
      else
        var secret := SecretOf(p, d, k.value, s.shares);
        if secret.None? then Err(Thrown) else Ok(s.(phase := RecoveryFinished, selected := None, coreSecret := secret))
  }

  /** The shares of one policy, or nothing if one is missing */
  method CollectShares(policy: DecryptionPolicy, shares: map<Bytes, Bytes>) returns (r: Option<seq<Bytes>>)
    ensures r.Some? <==> HasShares(policy, shares)
    ensures r.Some? ==> r.value == SharesFor(policy.uuids, shares)
  {
    var keyShares: seq<Bytes> := [];
    var i := 0;
    while i < |policy.uuids|
      invariant i == |keyShares| <= |policy.uuids|
      invariant forall j :: 0 <= j < i ==> Present(shares, policy.uuids[j]) && keyShares[j] == shares[policy.uuids[j]]
    {
      if !Present(shares, policy.uuids[i]) {
        return None;
      }
      keyShares := keyShares + [shares[policy.uuids[i]]];
      i := i + 1;
    }
    r := Some(keyShares);
  }

  method TryRecoverSecret(p: Primitives, s: Recovery) returns (r: Result<Recovery, Failure>)
    ensures r == Tried(p, s)
  {
    hide HasShares, SharesFor, PolicyKey, RecoveredSecret;
    if s.document.None? {
      return Err(Thrown);
    }
    var d := s.document.value;
    var k := 0;
    while k < |d.policies|
      invariant k <= |d.policies| && FirstSolved(d.policies, s.shares, 0) == FirstSolved(d.policies, s.shares, k)
    {
      var keyShares := CollectShares(d.policies[k], s.shares);
      if keyShares.Some? {
        var policyKey := DerivePolicyKey(p, keyShares.value, d.policies[k].salt);
        var secret := RecoverCoreSecret(p, d.policies[k].masterKey, policyKey, d.encryptedCoreSecret);
        if secret.None? {
          return Err(Thrown);
        }
        return Ok(s.(phase := RecoveryFinished, selected := None, coreSecret := secret));
      }
      k := k + 1;
    }
    r := Ok(s);
  }

  // ---------- Challenges ----------

  datatype SolveRequest = Answer(answer: Bytes) | Pin | Neither
  datatype SolveReply = NoConnection | Released(body: Bytes) | Forbidden | OtherStatus

  /** The salt "eks" */
  const KEY_SHARE_SALT: Bytes := [0x65, 0x6b, 0x73]

  predicate Answerable(kind: string, q: SolveRequest) {
    if kind == "question" then q.Answer?
    else if kind in {"email", "sms", "post", "iban", "totp"} then !q.Neither?
    else false
  }

  function AnswerSalt(kind: string, q: SolveRequest): Bytes {
    if kind == "question" && q.Answer? then q.answer else KEY_SHARE_SALT
  }

  /** The first escrow method with an identifier */
  function Find(es: seq<EscrowMethod>, uuid: Bytes): (r: Option<EscrowMethod>)
    ensures r.Some? ==> r.value in es && r.value.uuid == uuid
    ensures r.None? ==> forall e :: e in es ==> e.uuid != uuid
  {
    if es == [] then None else if es[0].uuid == uuid then Some(es[0]) else Find(es[1..], uuid)
  }

  function Requested(c: Context, s: Recovery, truth: EscrowMethod, q: SolveRequest, reply: SolveReply): Result<Recovery, Failure> {
    if !Answerable(truth.kind, q) then Err(Thrown)
    else
      match reply
      case NoConnection => Err(ChallengeFailed)
      case OtherStatus => Err(ChallengeFailed)
      case Forbidden => Ok(s.(feedback := s.feedback[truth.uuid := IncorrectAnswer]))
      case Released(body) =>
        var share := Decrypted(c.p, c.identify(s.attributes, truth.providerSalt), body, AnswerSalt(truth.kind, q));
        if share.None? then Err(Thrown)
        else
          Tried(c.p, s.(phase := ChallengeSelecting, feedback := s.feedback[truth.uuid := Feedback.Solved],
                        shares := s.shares[truth.uuid := share.value]))
  }

  datatype Poll = Poll(uuid: Bytes, reply: SolveReply)

  /** One round of the loop over the feedback: an error that is returned is ignored. */
  function PolledOne(c: Context, s: Recovery, poll: Poll): Result<Recovery, Failure> {
    if s.phase.RecoveryFinished? || poll.uuid !in s.feedback then Ok(s)
    else if s.document.None? then Err(Thrown)
    else
      var truth := Find(s.document.value.escrowMethods, poll.uuid);
      if truth.None? || !s.feedback[poll.uuid].IbanInstructions? then Ok(s)
      else
        var r := Requested(c, s, truth.value, Pin, poll.reply);
        if r == Err(Thrown) then r else if r.Err? then Ok(s) else r
  }

  function Polled(c: Context, s: Recovery, polls: seq<Poll>): Result<Recovery, Failure>
    decreases |polls|
  {
    if polls == [] then Ok(s)
    else
      var r := PolledOne(c, s, polls[0]);
      if r.Err? then r else Polled(c, r.value, polls[1..])
  }

  method PollChallenges(c: Context, start: Recovery, polls: seq<Poll>) returns (r: Result<Recovery, Failure>)
    ensures r == Polled(c, start, polls)
  {
    hide PolledOne;
    var s := start;
    var i := 0;
    while i < |polls|
      invariant i <= |polls| && Polled(c, s, polls[i..]) == Polled(c, start, polls)
    {
      assert polls[i..][0] == polls[i] && polls[i..][1..] == polls[i + 1..];
      var one := PolledOne(c, s, polls[i]);
      if one.Err? {
        return one;
      }
      s := one.value;
      i := i + 1;
    }
    r := Ok(s);
  }

  datatype ChallengeReply = NoAnswer | Instructions(feedback: Feedback) | Refused

  function Selected(s: Recovery, uuid: Bytes, reply: ChallengeReply): Result<Recovery, Failure> {
    if s.document.None? then Err(Thrown)
    else
      var truth := Find(s.document.value.escrowMethods, uuid);
      if truth.None? then Err(Thrown)
      else if truth.value.kind in {"question", "totp"} then
        Ok(s.(phase := ChallengeSolving, selected := Some(uuid), feedback := s.feedback - {uuid}))
      else
        match reply
        case NoAnswer => Ok(s.(phase := ChallengeSelecting, selected := Some(uuid), feedback := s.feedback[uuid := ServerFailure]))
        case Instructions(f) => Ok(s.(phase := ChallengeSolving, selected := Some(uuid), feedback := s.feedback[uuid := f]))
        case Refused => Err(ChallengeFailed)
  }

  // ---------- Actions ----------

  /** The actions, with what the servers reply */
  datatype Action =
    | Back | Next | SelectContinent | SelectCountry | EnterUserAttributes(attributes: string)
    | AddProvider | DeleteProvider | SyncProviders | SelectVersion(found: Option<RecoveryDocument>)
    | SelectChallenge(uuid: Bytes, reply: ChallengeReply) | SolveChallenge(request: SolveRequest, solveReply: SolveReply)
    | PollFeedback(polls: seq<Poll>)

  function Step(c: Context, s: Recovery, a: Action): Result<Recovery, Failure> {
    match s.phase
    case ContinentSelecting =>
      (match a case SelectContinent => Ok(s.(phase := CountrySelecting)) case _ => Err(ActionInvalid))
    case CountrySelecting =>
      (match a
       case Back => Ok(s.(phase := ContinentSelecting))
       case SelectCountry => Ok(s.(phase := UserAttributesCollecting))
       case SelectContinent => Ok(s.(phase := CountrySelecting))
       case _ => Err(ActionInvalid))
    case UserAttributesCollecting =>
      (match a
       case Back => Ok(s.(phase := CountrySelecting))
       case EnterUserAttributes(attributes) => Ok(s.(phase := SecretSelecting, attributes := attributes))
       case _ => Err(ActionInvalid))
    case SecretSelecting =>
      (match a
       case Back => Ok(s.(phase := UserAttributesCollecting))
       case Next => Ok(s.(phase := ChallengeSelecting))
       case AddProvider => Ok(s)
       case DeleteProvider => Ok(s)
       case SelectVersion(found) =>
         if found.None? then Err(PolicyLookupFailed) else Ok(s.(phase := ChallengeSelecting, document := found))
       case _ => Err(ActionInvalid))
    case ChallengeSelecting =>
      (match a
       case Back => Ok(s.(phase := SecretSelecting))
       case SelectChallenge(uuid, reply) => Selected(s, uuid, reply)
       case PollFeedback(polls) => Polled(c, s, polls)
       case Next =>
         var r := Tried(c.p, s);
         if r.Err? || r.value.phase.RecoveryFinished? then r else Err(ActionInvalid)
       case SyncProviders =>
         if s.document.None? || s.document.value.escrowMethods == [] then Err(ActionInvalid) else Ok(s)
       case _ => Err(ActionInvalid))
    case ChallengeSolving =>
      (match a
       case Back => Ok(s.(phase := ChallengeSelecting))
       case SolveChallenge(q, reply) =>
         if s.document.None? || s.selected.None? then Err(Thrown)
         else
           var truth := Find(s.document.value.escrowMethods, s.selected.value);
           if truth.None? then Err(Thrown) else Requested(c, s, truth.value, q, reply)
       case _ => Err(ActionInvalid))
    case ChallengePaying => Err(ActionInvalid)
    case RecoveryFinished =>
      (match a case Back => Ok(s.(phase := ChallengeSelecting)) case _ => Err(ActionInvalid))
  }

  /** A run; an action that fails changes nothing. */
  function Run(c: Context, s: Recovery, actions: seq<Action>): Recovery
    decreases |actions|
  {
    if actions == [] then s
    else
      var r := Step(c, s, actions[0]);
      Run(c, if r.Ok? then r.value else s, actions[1..])
  }

  // ---------- What finished means, whatever the servers reply ----------

  /** Some policy of the document has all of its shares, and the secret is what the first such policy gives. */
  ghost predicate Earned(p: Primitives, s: Recovery) {
    && s.document.Some?
    && var k := FirstSolved(s.document.value.policies, s.shares, 0);
       k.Some? && s.coreSecret.Some? && s.coreSecret == SecretOf(p, s.document.value, k.value, s.shares)
  }

  ghost predicate Sound(p: Primitives, s: Recovery) { s.phase.RecoveryFinished? ==> Earned(p, s) }

  lemma TriedSound(p: Primitives, s: Recovery)
    requires Sound(p, s) && Tried(p, s).Ok?
    ensures Sound(p, Tried(p, s).value)
  {
    hide SecretOf, HasShares;
  }

  lemma RequestedSound(c: Context, s: Recovery, truth: EscrowMethod, q: SolveRequest, reply: SolveReply)
    requires Sound(c.p, s) && !s.phase.RecoveryFinished? && Requested(c, s, truth, q, reply).Ok?
    ensures Sound(c.p, Requested(c, s, truth, q, reply).value)
  {
    hide Earned, Tried, Decrypted;
    if reply.Released? {
      var share := Decrypted(c.p, c.identify(s.attributes, truth.providerSalt), reply.body, AnswerSalt(truth.kind, q));
      TriedSound(c.p, s.(phase := ChallengeSelecting, feedback := s.feedback[truth.uuid := Feedback.Solved],
                         shares := s.shares[truth.uuid := share.value]));
    }
  }

  lemma {:induction false} PolledSound(c: Context, s: Recovery, polls: seq<Poll>)
    requires Sound(c.p, s) && Polled(c, s, polls).Ok?
    ensures Sound(c.p, Polled(c, s, polls).value)
    decreases |polls|
  {
    hide Sound, Requested;
    if polls != [] {
      var one := PolledOne(c, s, polls[0]);
      if one.value != s {
        RequestedSound(c, s, Find(s.document.value.escrowMethods, polls[0].uuid).value, Pin, polls[0].reply);
      }
      PolledSound(c, one.value, polls[1..]);
    }
  }

  lemma StepSound(c: Context, s: Recovery, a: Action)
    requires Sound(c.p, s) && Step(c, s, a).Ok?
    ensures Sound(c.p, Step(c, s, a).value)
  {
    hide Earned, Tried, Requested, Polled;
    if s.phase.ChallengeSelecting? && a.PollFeedback? {
      PolledSound(c, s, a.polls);
    } else if s.phase.ChallengeSelecting? && a.Next? {
      TriedSound(c.p, s);
    } else if s.phase.ChallengeSolving? && a.SolveChallenge? {
      RequestedSound(c, s, Find(s.document.value.escrowMethods, s.selected.value).value, a.request, a.solveReply);
    }
  }

  /** In every state that can be reached, recovery is only finished when it is earned. */
  lemma {:induction false} AlwaysEarned(c: Context, s: Recovery, actions: seq<Action>)
    requires Sound(c.p, s)
    ensures Sound(c.p, Run(c, s, actions))
    decreases |actions|
  {
    hide Sound, Step;
    if actions != [] {
      var r := Step(c, s, actions[0]);
      if r.Ok? {
        StepSound(c, s, actions[0]);
      }
      AlwaysEarned(c, if r.Ok? then r.value else s, actions[1..]);
    }
  }

  // ---------- Recovery of a backup ----------

  /** The document, if there is one, is that of the backup, and the shares are genuine. */
  ghost predicate Honest(d: RecoveryData, s: Recovery) {
    (s.document.Some? ==> s.document.value == d.document) && Genuine(d.truths, s.shares)
  }

  /** What a provider releases for a challenge decrypts to its share, or does not decrypt. */
  ghost predicate HonestReply(c: Context, d: RecoveryData, attributes: string, truth: EscrowMethod, q: SolveRequest, reply: SolveReply) {
    reply.Released? ==>
      forall r :: r in d.truths && d.truths[r].draw.uuid == truth.uuid ==>
        Decrypted(c.p, c.identify(attributes, truth.providerSalt), reply.body, AnswerSalt(truth.kind, q))
        in {None, Some(d.truths[r].draw.keyShare)}
  }

  /** What is uploaded for a challenge under some attributes and answer is such a reply, and does decrypt under them. */
  lemma UploadIsHonest(c: Context, d: RecoveryData, attributes: string, truth: EscrowMethod, q: SolveRequest, nonce: Bytes, r: string)
    requires r in d.truths && d.truths[r].draw.uuid == truth.uuid && |nonce| == 24
    requires forall o :: o in d.truths && d.truths[o].draw.uuid == truth.uuid ==> o == r
    ensures var user, salt := c.identify(attributes, truth.providerSalt), AnswerSalt(truth.kind, q);
            var body := Encrypted(c.p, nonce, user, d.truths[r].draw.keyShare, salt);
            && Decrypted(c.p, user, body, salt) == Some(d.truths[r].draw.keyShare)
            && HonestReply(c, d, attributes, truth, q, Released(body))
  {
    hide Decrypted, Encrypted;
    EncryptedDecrypts(c.p, nonce, c.identify(attributes, truth.providerSalt), d.truths[r].draw.keyShare, AnswerSalt(truth.kind, q));
  }

  ghost predicate HonestAction(c: Context, d: RecoveryData, s: Recovery, a: Action) {
    match a
    case SelectVersion(found) => found.Some? ==> found.value == d.document
    case SolveChallenge(q, reply) =>
      forall truth :: truth in d.document.escrowMethods && s.selected == Some(truth.uuid) ==>
        HonestReply(c, d, s.attributes, truth, q, reply)
    case PollFeedback(polls) => HonestPolls(c, d, s.attributes, polls)
    case _ => true
  }

  ghost predicate HonestPolls(c: Context, d: RecoveryData, attributes: string, polls: seq<Poll>) {
    forall i, truth :: 0 <= i < |polls| && truth in d.document.escrowMethods && polls[i].uuid == truth.uuid ==>
      HonestReply(c, d, attributes, truth, Pin, polls[i].reply)
  }

  /** Every action of a run is honest in the state that it is taken in. */
  ghost predicate HonestRun(c: Context, d: RecoveryData, s: Recovery, actions: seq<Action>)
    decreases |actions|
  {
    actions != [] ==>
      && HonestAction(c, d, s, actions[0])
      && var r := Step(c, s, actions[0]); HonestRun(c, d, if r.Ok? then r.value else s, actions[1..])
  }

  lemma TriedKeeps(p: Primitives, s: Recovery)
    ensures Tried(p, s).Ok? ==> var t := Tried(p, s).value;
            t.document == s.document && t.shares == s.shares && t.attributes == s.attributes
  {
  }

  lemma RequestedHonest(c: Context, d: RecoveryData, s: Recovery, truth: EscrowMethod, q: SolveRequest, reply: SolveReply)
    requires Honest(d, s) && HonestReply(c, d, s.attributes, truth, q, reply) && Requested(c, s, truth, q, reply).Ok?
    ensures Honest(d, Requested(c, s, truth, q, reply).value)
    ensures Requested(c, s, truth, q, reply).value.attributes == s.attributes
  {
    hide Tried, Decrypted;
    if reply.Released? {
      var share := Decrypted(c.p, c.identify(s.attributes, truth.providerSalt), reply.body, AnswerSalt(truth.kind, q));
      TriedKeeps(c.p, s.(phase := ChallengeSelecting, feedback := s.feedback[truth.uuid := Feedback.Solved],
                         shares := s.shares[truth.uuid := share.value]));
    }
  }

  lemma {:induction false} PolledHonest(c: Context, d: RecoveryData, s: Recovery, polls: seq<Poll>)
    requires Honest(d, s) && HonestPolls(c, d, s.attributes, polls) && Polled(c, s, polls).Ok?
    ensures Honest(d, Polled(c, s, polls).value)
    decreases |polls|
  {
    if polls != [] {
      hide Honest, Requested, HonestReply;
      var one := PolledOne(c, s, polls[0]);
      if one.value != s {
        SameDocument(d, s);
        var truth := Find(s.document.value.escrowMethods, polls[0].uuid).value;
        assert polls[0].uuid == truth.uuid;
        RequestedHonest(c, d, s, truth, Pin, polls[0].reply);
      }
      PolledHonest(c, d, one.value, polls[1..]);
    }
  }

  lemma SameDocument(d: RecoveryData, s: Recovery)
    requires Honest(d, s)
    ensures s.document.Some? ==> s.document.value == d.document
  {
  }

  lemma StepHonest(c: Context, d: RecoveryData, s: Recovery, a: Action)
    requires Honest(d, s) && HonestAction(c, d, s, a) && Step(c, s, a).Ok?
    ensures Honest(d, Step(c, s, a).value)
  {
    hide Genuine, Tried, Requested, Polled, HonestReply, HonestPolls;
    if s.phase.ChallengeSelecting? && a.PollFeedback? {
      PolledHonest(c, d, s, a.polls);
    } else if s.phase.ChallengeSelecting? && a.Next? {
      TriedKeeps(c.p, s);
    } else if s.phase.ChallengeSolving? && a.SolveChallenge? {
      RequestedHonest(c, d, s, Find(s.document.value.escrowMethods, s.selected.value).value, a.request, a.solveReply);
    }
  }

  lemma {:induction false} RunHonest(c: Context, d: RecoveryData, s: Recovery, actions: seq<Action>)
    requires Honest(d, s) && HonestRun(c, d, s, actions)
    ensures Honest(d, Run(c, s, actions))
    decreases |actions|
  {
    if actions != [] {
      hide Honest, Step, HonestAction;
      var r := Step(c, s, actions[0]);
      if r.Ok? {
        StepHonest(c, d, s, actions[0]);
      }
      RunHonest(c, d, if r.Ok? then r.value else s, actions[1..]);
    }
  }

  /** The policies of a backup that have all of their shares give its secret back. */
  lemma SolvedGivesSecret(p: Primitives, state: BackupState, draws: nat -> Draw, d: RecoveryData, s: Recovery, k: nat)
    requires Prepared(p, state, draws, d) && Honest(d, s) && s.document.Some?
    requires k < |d.document.policies| && HasShares(d.document.policies[k], s.shares)
    ensures SecretOf(p, s.document.value, k, s.shares) == Some(state.coreSecret)
  {
    hide Prepared, RecoveredSecret, PolicyKey, Genuine;
    AsManyPolicies(p, state, draws, d);
    assert forall j :: 0 <= j < |d.document.policies[k].uuids| ==> Present(s.shares, d.document.policies[k].uuids[j]);
    PolicyRecovers(p, state, draws, d, k, s.shares);
  }

  lemma AsManyPolicies(p: Primitives, state: BackupState, draws: nat -> Draw, d: RecoveryData)
    requires Prepared(p, state, draws, d)
    ensures |d.document.policies| == |state.policies|
  {
  }

  /**
   * Backup and recovery: whatever is done and in whatever order, with providers that release what was
   * uploaded, a finished recovery has the secret of the backup, and a policy that has all of its shares.
   */
  lemma RecoversBackup(c: Context, state: BackupState, draws: nat -> Draw, d: RecoveryData, actions: seq<Action>)
    requires Prepared(c.p, state, draws, d) && HonestRun(c, d, START, actions)
    ensures var s := Run(c, START, actions);
            s.phase.RecoveryFinished? ==>
              && s.coreSecret == Some(state.coreSecret)
              && exists k :: 0 <= k < |d.document.policies| && HasShares(d.document.policies[k], s.shares)
  {
    hide Prepared, SecretOf, Step, HonestAction;
    var s := Run(c, START, actions);
    AlwaysEarned(c, START, actions);
    RunHonest(c, d, START, actions);
    if s.phase.RecoveryFinished? {
      var k := FirstSolved(s.document.value.policies, s.shares, 0).value;
      SolvedGivesSecret(c.p, state, draws, d, s, k);
    }
  }

  /**
   * And where a challenge can be selected in such a run, going on finishes exactly if some policy has all
   * of its shares; without a document, which can be so because no version need be selected, it throws.
   */
  lemma NextFinishes(c: Context, state: BackupState, draws: nat -> Draw, d: RecoveryData, actions: seq<Action>)
    requires Prepared(c.p, state, draws, d) && HonestRun(c, d, START, actions)
    requires Run(c, START, actions).phase.ChallengeSelecting?
    ensures var s := Run(c, START, actions);
            var r := Step(c, s, Next);
            if s.document.None? then r == Err(Thrown)
            else if exists k :: 0 <= k < |d.document.policies| && HasShares(d.document.policies[k], s.shares)
            then r == Ok(s.(phase := RecoveryFinished, selected := None, coreSecret := Some(state.coreSecret)))
            else r == Err(ActionInvalid)
  {
    hide Prepared, SecretOf, HonestAction;
    var s := Run(c, START, actions);
    RunHonest(c, d, START, actions);
    var k := FirstSolved(d.document.policies, s.shares, 0);
    if s.document.Some? && k.Some? {
      SolvedGivesSecret(c.p, state, draws, d, s, k.value);
    }
  }

  /** A document is not needed to get where challenges are selected. */
  lemma NoVersionSelected(c: Context, attributes: string)
    ensures var s := Run(c, START, [SelectContinent, SelectCountry, EnterUserAttributes(attributes), Next]);
            s.phase.ChallengeSelecting? && s.document.None? && Step(c, s, Next) == Err(Thrown)
  {
    var s1 := START.(phase := CountrySelecting);
    var s2 := START.(phase := UserAttributesCollecting);
    var s3 := START.(phase := SecretSelecting, attributes := attributes);
    var s4 := s3.(phase := ChallengeSelecting);
    assert Run(c, s3, [Next]) == Run(c, s4, []) == s4;
    assert Run(c, s2, [EnterUserAttributes(attributes), Next]) == Run(c, s3, [Next]);
    assert Run(c, s1, [SelectCountry, EnterUserAttributes(attributes), Next]) == s4;
  }
}
