/** What each lock section answers, told by the sections before it and not by the ledger:
    which submissions are admitted, and which refusal the others get. */
module PresenceAnswers {
  import opened PresenceLedger
  import opened PresenceHistory
  import opened PresencePurging

  // ----- what the history holds

  /** One of the first `n` sections recorded a decision for the observation id. */
  ghost predicate DecidedBefore(ss: seq<Section>, ls: seq<Ledger>, n: nat, id: Uuid)
    requires n <= |ss| <= |ls|
  {
    exists k :: 0 <= k < n && Admits(ls[k], ss[k]) && ss[k].observation.observationId == id
  }

  /** One of the first `n` sections recorded a decision on the same challenge or evidence. */
  ghost predicate ProofUsed(ss: seq<Section>, ls: seq<Ledger>, n: nat, o: Observation)
    requires n <= |ss| <= |ls|
  {
    exists k :: 0 <= k < n && Admits(ls[k], ss[k])
      && (ss[k].observation.challengeId == o.challengeId || ss[k].observation.evidenceId == o.evidenceId)
  }

  ghost predicate ChallengeUsed(ss: seq<Section>, ls: seq<Ledger>, n: nat, id: Uuid)
    requires n <= |ss| <= |ls|
  {
    exists k :: 0 <= k < n && Admits(ls[k], ss[k]) && ss[k].observation.challengeId == id
  }

  ghost predicate EvidenceUsed(ss: seq<Section>, ls: seq<Ledger>, n: nat, id: Uuid)
    requires n <= |ss| <= |ls|
  {
    exists k :: 0 <= k < n && Admits(ls[k], ss[k]) && ss[k].observation.evidenceId == id
  }

  lemma {:induction false} DecidedExactly(ss: seq<Section>, ls: seq<Ledger>, n: nat, id: Uuid)
    requires IsRun(ss, ls) && n <= |ss|
    ensures id in ls[n].decisions <==> DecidedBefore(ss, ls, n, id)
  {
    if n > 0 {
      DecidedExactly(ss, ls, n - 1, id);
      SectionEffect(ls[n - 1], ss[n - 1]);
      hide Apply, Admits;
    }
  }

  lemma {:induction false} UsedExactly(ss: seq<Section>, ls: seq<Ledger>, n: nat, challenge: Uuid, evidence: Uuid)
    requires IsRun(ss, ls) && n <= |ss|
    ensures challenge in ls[n].usedChallenges <==> ChallengeUsed(ss, ls, n, challenge)
    ensures evidence in ls[n].usedEvidence <==> EvidenceUsed(ss, ls, n, evidence)
  {
    if n > 0 {
      UsedExactly(ss, ls, n - 1, challenge, evidence);
      SectionEffect(ls[n - 1], ss[n - 1]);
      hide Apply, Admits;
    }
  }

  // ----- retries

  /** A commit for an observation that has a decision gets that decision when the digests
      agree and is a replay otherwise, whoever sends it and whenever. */
  lemma RetryAnswersExactly(ss: seq<Section>, ls: seq<Ledger>, k: nat, n: nat)
    requires IsRun(ss, ls) && k < n < |ss| && ss[n].Commit? && Admits(ls[k], ss[k])
    requires ss[k].observation.observationId == ss[n].observation.observationId
    ensures Apply(ls[n], ss[n]).ledger == ls[n]
    ensures Apply(ls[n], ss[n]).response
         == if ss[k].digest == ss[n].digest then Decided(DecisionOf(ls[k], ss[k])) else Refused(Replayed)
  {
    SectionEffect(ls[k], ss[k]);
    DecisionsAreKept(ss, ls, k + 1, n, ss[k].observation.observationId);
    hide Admits, DecisionOf, CommitObstacle;
  }

  // ----- new observations

  /** The answer to a new observation whose nonce was granted by section `j`. */
  ghost function AnswerUnderGrant(ss: seq<Section>, ls: seq<Ledger>, j: nat, n: nat): Response
    requires j < n < |ss| <= |ls| && ss[j].Issue? && ss[n].Commit?
  {
    var s, o := ss[n], ss[n].observation;
    if s.now >= ss[j].now + 60 * SECOND then Refused(Expired)
    else if ss[j].principal != s.principal || ss[j].houseId != o.houseId then Refused(MembershipDenied)
    else if ProofUsed(ss, ls, n, o) then Refused(Replayed)
    else if o.previousSequence != CountFor(ss, ls, n, (s.principal, o.houseId)) || o.previousSequence == U64_MAX then
      Refused(PolicyConflict)
    else Decided(Decision(
      if o.ambiguous then ConfirmationRequired else Accepted,
      if o.ambiguous then AmbiguousDirection else PlainlyAccepted,
      s.eventId, o.observationId, o.houseId, o.doorId, o.direction, o.previousSequence + 1, o.policyVersion, s.now))
  }

  /** Section `j` granted the nonce of commit `n`, and nothing has ended the grant since. */
  ghost predicate HasGrant(ss: seq<Section>, ls: seq<Ledger>, j: nat, n: nat)
    requires n < |ss| <= |ls| && ss[n].Commit?
  {
    Stands(ss, ls, j, n) && ss[j].Issue? && ss[j].nonce == ss[n].observation.submissionNonce
  }

  /** Whatever the clocks: refused when 100,000 decisions exist, a replay when no grant of
      its nonce stands, and else what its grant and the commits before it make of it. */
  lemma CommitAnswersExactly(ss: seq<Section>, ls: seq<Ledger>, n: nat)
    requires IsRun(ss, ls) && FreshNonces(ss) && n < |ss| < |ls| && ss[n].Commit?
    requires !DecidedBefore(ss, ls, n, ss[n].observation.observationId)
    ensures Admits(ls[n], ss[n]) <==> Apply(ls[n], ss[n]).response.Decided?
    ensures AdmittedCount(ss, ls, n) >= 100_000 ==> Apply(ls[n], ss[n]).response == Refused(RateLimited)
    ensures AdmittedCount(ss, ls, n) < 100_000 && !(exists j: nat :: HasGrant(ss, ls, j, n)) ==>
              Apply(ls[n], ss[n]).response == Refused(Replayed)
    ensures forall j: nat | AdmittedCount(ss, ls, n) < 100_000 && HasGrant(ss, ls, j, n) ::
              Apply(ls[n], ss[n]).response == AnswerUnderGrant(ss, ls, j, n)
  {
    hide IsRun, FreshNonces, HasGrant, AdmittedCount, DecidedBefore, AnswerUnderGrant, Apply, Admits, PendingFrom;
    DecidedExactly(ss, ls, n, ss[n].observation.observationId);
    Conservation(ss, ls, n);
    NewCommitAnswers(ls[n], ss[n]);
    GrantedExactly(ss, ls, n);
    forall j: nat | AdmittedCount(ss, ls, n) < 100_000 && HasGrant(ss, ls, j, n)
      ensures Apply(ls[n], ss[n]).response == AnswerUnderGrant(ss, ls, j, n)
    {
      GrantAnswers(ss, ls, j, n);
    }
  }

  lemma GrantedExactly(ss: seq<Section>, ls: seq<Ledger>, n: nat)
    requires IsRun(ss, ls) && FreshNonces(ss) && n < |ss| < |ls| && ss[n].Commit?
    ensures ss[n].observation.submissionNonce in ls[n].nonces <==> exists j: nat :: HasGrant(ss, ls, j, n)
    ensures forall j: nat | HasGrant(ss, ls, j, n) ::
              j < n && ss[j].Issue? && PendingFrom(ss, ls, n, ss[n].observation.submissionNonce, j)
  {
    hide IsRun, FreshNonces, PendingFrom, Ends, Apply;
    PendingExactly(ss, ls, n, ss[n].observation.submissionNonce);
    if ss[n].observation.submissionNonce in ls[n].nonces {
      var j: nat :| Stands(ss, ls, j, n) && ss[j].nonce == ss[n].observation.submissionNonce;
      assert HasGrant(ss, ls, j, n);
    }
  }

  lemma NewCommitAnswers(l: Ledger, s: Section)
    requires s.Commit? && s.observation.observationId !in l.decisions
    ensures Admits(l, s) <==> Apply(l, s).response.Decided?
    ensures |l.decisions| >= 100_000 ==> Apply(l, s).response == Refused(RateLimited)
    ensures |l.decisions| < 100_000 && s.observation.submissionNonce !in l.nonces ==> Apply(l, s).response == Refused(Replayed)
  {
  }

  lemma GrantAnswers(ss: seq<Section>, ls: seq<Ledger>, j: nat, n: nat)
    requires IsRun(ss, ls) && j < n < |ss| && ss[j].Issue? && ss[n].Commit?
    requires ss[n].observation.observationId !in ls[n].decisions && |ls[n].decisions| < 100_000
    requires PendingFrom(ss, ls, n, ss[n].observation.submissionNonce, j)
    ensures Apply(ls[n], ss[n]).response == AnswerUnderGrant(ss, ls, j, n)
  {
    var s, o, l := ss[n], ss[n].observation, ls[n];
    assert |ls| == |ss| + 1;
    hide IsRun, Stands, CountFor, Apply, CurrentSequence;
    ProofUsedExactly(ss, ls, n, o);
    hide ProofUsed;
    CounterCountsCommits(ss, ls, n, (s.principal, o.houseId));
    GrantedCommitAnswers(l, s);
  }

  lemma ProofUsedExactly(ss: seq<Section>, ls: seq<Ledger>, n: nat, o: Observation)
    requires IsRun(ss, ls) && n <= |ss|
    ensures ProofUsed(ss, ls, n, o) <==> o.challengeId in ls[n].usedChallenges || o.evidenceId in ls[n].usedEvidence
  {
    UsedExactly(ss, ls, n, o.challengeId, o.evidenceId);
    hide Admits;
  }

  lemma GrantedCommitAnswers(l: Ledger, s: Section)
    requires s.Commit? && s.observation.observationId !in l.decisions && |l.decisions| < 100_000
    requires s.observation.submissionNonce in l.nonces
    ensures var o, grant, sequence := s.observation, l.nonces[s.observation.submissionNonce], s.observation.previousSequence;
      Apply(l, s).response ==
        if s.now >= grant.expiresAt then Refused(Expired)
        else if grant.principal != s.principal || grant.houseId != o.houseId then Refused(MembershipDenied)
        else if o.challengeId in l.usedChallenges || o.evidenceId in l.usedEvidence then Refused(Replayed)
        else if sequence != CurrentSequence(l, (s.principal, o.houseId)) || sequence == U64_MAX then Refused(PolicyConflict)
        else Decided(Decision(
          if o.ambiguous then ConfirmationRequired else Accepted,
          if o.ambiguous then AmbiguousDirection else PlainlyAccepted,
          s.eventId, o.observationId, o.houseId, o.doorId, o.direction, sequence + 1, o.policyVersion, s.now))
  {
  }

  /** The nonce was granted by section `j`, to the submitter and for the same house, less than 60
      seconds before by the two timestamps, and no commit in between used it. */
  ghost predicate HasTimelyGrant(ss: seq<Section>, ls: seq<Ledger>, j: nat, n: nat)
    requires n < |ss| <= |ls| && ss[n].Commit?
  {
    && j < n
    && Grants(ls[j], ss[j])
    && ss[j].nonce == ss[n].observation.submissionNonce
    && ss[j].principal == ss[n].principal
    && ss[j].houseId == ss[n].observation.houseId
    && ss[n].now < ss[j].now + 60 * SECOND
    && Unspent(ss, ls, j, n)
  }

  /** With timestamps in lock order a submission is admitted if and only if its observation,
      challenge and evidence are new, it follows the last decision of its principal and
      house, it has a timely grant, and fewer than 100,000 decisions exist. */
  lemma AdmittedExactly(ss: seq<Section>, ls: seq<Ledger>, n: nat)
    requires IsRun(ss, ls) && FreshNonces(ss) && LagAtMost(ss, 0) && n < |ss| < |ls| && ss[n].Commit?
    ensures Admits(ls[n], ss[n]) <==>
              && AdmittedCount(ss, ls, n) < 100_000
              && !DecidedBefore(ss, ls, n, ss[n].observation.observationId)
              && !ProofUsed(ss, ls, n, ss[n].observation)
              && ss[n].observation.previousSequence == CountFor(ss, ls, n, (ss[n].principal, ss[n].observation.houseId))
              && exists j: nat :: HasTimelyGrant(ss, ls, j, n)
  {
    hide IsRun, FreshNonces, AdmittedCount, CountFor, ProofUsed, HasGrant, HasTimelyGrant, LagAtMost, DecidedBefore, Apply, Admits;
    if DecidedBefore(ss, ls, n, ss[n].observation.observationId) {
      DecidedExactly(ss, ls, n, ss[n].observation.observationId);
      SectionEffect(ls[n], ss[n]);
    } else {
      CommitAnswersExactly(ss, ls, n);
      CountIsSmall(ss, ls, n, (ss[n].principal, ss[n].observation.houseId));
      if j: nat :| HasTimelyGrant(ss, ls, j, n) {
        TimelyGrantStands(ss, ls, j, n);
      }
      if j: nat :| HasGrant(ss, ls, j, n) {
        TimelyGrantStands(ss, ls, j, n);
      }
    }
  }

  lemma CountIsSmall(ss: seq<Section>, ls: seq<Ledger>, n: nat, key: SequenceKey)
    requires IsRun(ss, ls) && n <= |ss| < |ls|
    ensures CountFor(ss, ls, n, key) < U64_MAX
  {
    CounterCountsCommits(ss, ls, n, key);
    OverflowIsUnreachable(ss, ls, n, key);
  }

  /** The timely grants are the standing ones of the submitter's own that are in time. */
  lemma TimelyGrantStands(ss: seq<Section>, ls: seq<Ledger>, j: nat, n: nat)
    requires IsRun(ss, ls) && LagAtMost(ss, 0) && n < |ss| < |ls| && ss[n].Commit?
    ensures HasTimelyGrant(ss, ls, j, n) <==>
              && HasGrant(ss, ls, j, n) && ss[n].now < ss[j].now + 60 * SECOND
              && ss[j].principal == ss[n].principal && ss[j].houseId == ss[n].observation.houseId
  {
    hide Unspent, Ends, Apply;
    if j < n && Grants(ls[j], ss[j]) && ss[n].now < ss[j].now + 60 * SECOND {
      GrantStandsUnlessSpent(ss, ls, j, n);
    }
  }
}
