/** What a caller is told, in every interleaving: retries get the decision on record, and
    each refusal is the one that the call's own oracles and the ledger give rise to. */
module PresenceReplies {
  import opened Wrappers
  import opened PresenceLedger
  import opened PresenceHistory
  import opened PresenceProtocol
  import opened PresenceSafety

  // ----- retries

  /** The answer to a submission whose observation has a decision: that decision when the
      digests agree, a replay when they differ. */
  predicate AnswersRecorded(response: Response, o: Observation, recorded: Recorded) {
    response == if o.digest == Some(recorded.digest) then Decided(recorded.decision) else Refused(Replayed)
  }

  /** A submission under one of its two locks returns in that very step when its observation
      has a decision, and leaves the ledger alone. */
  lemma RecordedObservationIsAnswered(actions: seq<Action>, states: seq<System>, n: nat, id: CallId)
    requires IsBehaviour(actions, states) && n < |actions| && actions[n] == Advance(id)
    requires id in states[n].calls && states[n].calls[id].request.Submit?
    requires states[n].calls[id].pc.LookingUp? || states[n].calls[id].pc.Locking?
    requires states[n].calls[id].request.observation.observationId in states[n].ledger.decisions
    ensures states[n + 1].ledger == states[n].ledger
    ensures HasReturned(states[n + 1], id)
    ensures var o := states[n].calls[id].request.observation;
      AnswersRecorded(states[n + 1].calls[id].pc.response, o, states[n].ledger.decisions[o.observationId])
  {
    AlwaysConsistent(actions, states, n);
    assert CallConsistent(states[n].calls[id]);
    hide CommitObstacle;
  }

  /** The call has not got past its look-up, or was answered from the record. */
  predicate OnlyAnswersRecorded(c: Call, recorded: Recorded) {
    && c.request.Submit?
    && match c.pc
       case Starting => c.request.shapeValid && c.request.observation.digest.Some?
       case LookingUp => true
       case Returned(response) => AnswersRecorded(response, c.request.observation, recorded)
       case _ => false
  }

  lemma {:induction false} RetryKeepsToTheRecord(actions: seq<Action>, states: seq<System>, m: nat, n: nat, id: CallId, recorded: Recorded)
    requires IsBehaviour(actions, states) && m <= n <= |actions|
    requires id in states[n].calls && states[n].calls[id].request.Submit?
    requires states[n].calls[id].request.shapeValid && states[n].calls[id].request.observation.digest.Some?
    requires states[n].calls[id].request.observation.observationId in states[m].ledger.decisions
    requires states[m].ledger.decisions[states[n].calls[id].request.observation.observationId] == recorded
    requires id in states[m].calls ==> states[m].calls[id].pc.Starting? || states[m].calls[id].pc.LookingUp?
    ensures OnlyAnswersRecorded(states[n].calls[id], recorded)
  {
    if m < n {
      if id in states[n - 1].calls {
        CallsPersist(actions, states, n - 1, n, id);
        RetryKeepsToTheRecord(actions, states, m, n - 1, id, recorded);
        var oid := states[n].calls[id].request.observation.observationId;
        RecordIsKept(actions, states, m, n - 1, oid);
        hide Step, AnswersRecorded;
        RetryStep(actions, states, n - 1, id, recorded);
      } else {
        hide AnswersRecorded, AdvanceCall;
      }
    }
  }

  lemma RetryStep(actions: seq<Action>, states: seq<System>, n: nat, id: CallId, recorded: Recorded)
    requires IsBehaviour(actions, states) && n < |actions| && id in states[n].calls
    requires OnlyAnswersRecorded(states[n].calls[id], recorded)
    requires states[n].calls[id].request.observation.observationId in states[n].ledger.decisions
    requires states[n].ledger.decisions[states[n].calls[id].request.observation.observationId] == recorded
    ensures id in states[n + 1].calls && OnlyAnswersRecorded(states[n + 1].calls[id], recorded)
  {
    hide AnswersRecorded;
    if actions[n] == Advance(id) && states[n].calls[id].pc.LookingUp? {
      RecordedObservationIsAnswered(actions, states, n, id);
      CallsPersist(actions, states, n, n + 1, id);
    }
  }

  /** Once a call has been given a decision, every later well-formed submission of the same
      observation id gets that decision when its digest is the same and a replay when not:
      whoever sends it, whenever, and without asking the authorizer or the verifier. */
  lemma RetryGetsTheDecision(actions: seq<Action>, states: seq<System>, m: nat, n: nat, a: CallId, b: CallId)
    requires IsBehaviour(actions, states) && m <= n <= |actions|
    requires HasReturned(states[m], a) && states[m].calls[a].pc.response.Decided? && states[m].calls[a].request.Submit?
    requires b in states[m].calls ==> states[m].calls[b].pc.Starting? || states[m].calls[b].pc.LookingUp?
    requires HasReturned(states[n], b) && states[n].calls[b].request.Submit?
    requires states[n].calls[b].request.shapeValid && states[n].calls[b].request.observation.digest.Some?
    requires states[n].calls[b].request.observation.observationId == states[m].calls[a].request.observation.observationId
    ensures states[n].calls[b].pc.response
         == if states[n].calls[b].request.observation.digest == states[m].calls[a].request.observation.digest
            then states[m].calls[a].pc.response
            else Refused(Replayed)
  {
    AnswersAlwaysMatch(actions, states, m);
    assert AnswersFromRecord(states[m].ledger, states[m].calls[a]);
    var recorded := states[m].ledger.decisions[states[m].calls[a].request.observation.observationId];
    hide IsBehaviour;
    RetryKeepsToTheRecord(actions, states, m, n, b, recorded);
  }

  // ----- every reply

  /** What an `issue_nonce` call can be told: the first of its own refusals, or that too many
      nonces are pending, or the nonce it drew, for 60 seconds. */
  predicate IssueReply(r: Request, p: Response)
    requires r.IssueNonce?
  {
    if !r.shapeValid then p == Refused(InvalidRequest)
    else match r.authorization
      case Denied => p == Refused(MembershipDenied)
      case AuthorizerUnavailable => p == Refused(AuthenticationUnavailable)
      case Allowed => p == Refused(RateLimited) || p == NonceIssued(r.nonce, r.now + 60 * SECOND)
  }

  /** What a `submit` call that takes effect on ledger `l` is told: the first of its own
      refusals, with the record asked before the oracles, or what its commit gives. */
  predicate SubmitReply(l: Ledger, r: Request, p: Response)
    requires r.Submit?
  {
    if !r.shapeValid then p == Refused(EvidenceInvalid)
    else if r.observation.digest.None? then p == Refused(InvalidRequest)
    else if r.observation.observationId in l.decisions then
      AnswersRecorded(p, r.observation, l.decisions[r.observation.observationId])
    else match r.authorization
      case Denied => p == Refused(MembershipDenied)
      case AuthorizerUnavailable => p == Refused(AuthenticationUnavailable)
      case Allowed =>
        match r.verification
        case Invalid => p == Refused(EvidenceInvalid)
        case VerifierUnavailable => p == Refused(AuthenticationUnavailable)
        case DeviceWasRevoked => p == Refused(DeviceRevoked)
        case Verified =>
          p == Apply(l, Commit(r.principal, r.observation, r.observation.digest.value, r.now, r.eventId)).response
  }

  /** Every returned call got the reply that fits the ledger at one of its own steps. */
  lemma EveryReplyFits(actions: seq<Action>, states: seq<System>, n: nat, id: CallId) returns (k: nat)
    requires IsBehaviour(actions, states) && n <= |actions| && HasReturned(states[n], id)
    ensures k < n && actions[k] == Advance(id) && id in states[k].calls && !HasReturned(states[k], id)
    ensures var r, p := states[n].calls[id].request, states[n].calls[id].pc.response;
      if r.Submit? then SubmitReply(states[k].ledger, r, p) else IssueReply(r, p)
  {
    hide SubmitReply, IssueReply, IsBehaviour;
    k := EveryEffectFits(actions, states, n, id);
  }

  lemma {:induction false} EveryEffectFits(actions: seq<Action>, states: seq<System>, n: nat, id: CallId) returns (k: nat)
    requires IsBehaviour(actions, states) && n <= |actions| && id in states[n].calls && HasEffect(states[n].calls[id])
    ensures k < n && actions[k] == Advance(id) && id in states[k].calls && !HasReturned(states[k], id)
    ensures var r, p := states[n].calls[id].request, FinalResponse(states[n].calls[id]);
      if r.Submit? then SubmitReply(states[k].ledger, r, p) else IssueReply(r, p)
  {
    var s, a := states[n - 1], actions[n - 1];
    AlwaysConsistent(actions, states, n - 1);
    StepIsAtomicOrSilent(s, a);
    hide Step, HasEffect, FinalResponse, SubmitReply, IssueReply, AtomicCall;
    if TakesEffect(s, a) && a.id == id {
      k := n - 1;
      AtomicReplyFits(s.ledger, s.calls[id].request);
      NotYetReturned(s, id);
    } else {
      assert id in s.calls && HasEffect(s.calls[id]);
      k := EveryEffectFits(actions, states, n - 1, id);
    }
  }

  lemma NotYetReturned(s: System, id: CallId)
    requires id in s.calls && !HasEffect(s.calls[id])
    ensures !HasReturned(s, id)
  {
  }

  lemma AtomicReplyFits(l: Ledger, r: Request)
    ensures var p := AtomicCall(l, r).response;
      if r.Submit? then SubmitReply(l, r, p) else IssueReply(r, p)
  {
    hide CommitObstacle, LiveGrants;
  }
}
